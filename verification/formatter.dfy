/**
 The formatter: for one locale code and one record kind it turns the records
 of the kind's input file into the lines of one Lua source file holding a
 single lookup-table assignment.
 */
module Formatter {
  import opened Wrappers
  import opened Text
  import opened Records
  import opened Escaping
  import opened Filter
  import opened TableHeader
  import opened Ordering
  import opened Lines

  /** The text of a generated file: its lines one after the other. */
  function Join(lines: seq<string>): string {
    if |lines| == 0 then [] else lines[0] + Join(lines[1..])
  }

  /** A whole file: the header line, the entry lines, the closing line. */
  function Document(header: string, body: seq<string>): (d: seq<string>)
    ensures |d| == |body| + 2 && d[0] == header && d[|body| + 1] == Closing
    ensures forall i :: 0 <= i < |body| ==> d[i + 1] == body[i]
  {
    [header] + body + [Closing]
  }

  /** Record `i` is the first of `rs` the entry cannot be written for, and it fails with `e`. */
  predicate FirstFailure(rs: seq<Record>, entry: Record -> Result<string, FormatError>, i: nat, e: FormatError) {
    && i < |rs|
    && entry(rs[i]) == Failure(e)
    && forall j :: 0 <= j < i ==> entry(rs[j]).Success?
  }

  /**
   The entry lines for records written one line each, in order; the first
   record the entry cannot be written for stops the run with its error.
   */
  function EntryLines(rs: seq<Record>, entry: Record -> Result<string, FormatError>): (r: Result<seq<string>, FormatError>)
    ensures r.Success? <==> forall i :: 0 <= i < |rs| ==> entry(rs[i]).Success?
    ensures r.Success? ==> |r.value| == |rs| && forall i :: 0 <= i < |rs| ==> r.value[i] == entry(rs[i]).value
    ensures r.Failure? ==> exists i: nat :: FirstFailure(rs, entry, i, r.error)
  {
    if |rs| == 0 then Success([])
    else match entry(rs[0])
      case Failure(e) =>
        assert FirstFailure(rs, entry, 0, e);
        Failure(e)
      case Success(line) =>
        match EntryLines(rs[1..], entry)
        case Failure(e) =>
          var i: nat :| FirstFailure(rs[1..], entry, i, e);
          assert FirstFailure(rs, entry, i + 1, e) by {
            assert entry(rs[i + 1]) == entry(rs[1..][i]);
            forall j | 0 <= j < i + 1
              ensures entry(rs[j]).Success?
            {
              if j > 0 {
                assert rs[j] == rs[1..][j - 1];
              }
            }
          }
          Failure(e)
        case Success(rest) => Success([line] + rest)
  }

  // ---------------------------------------------------------------------------
  // Item and npc tables: `[<id>] = <name>,`

  /** The entry for one record of an item or npc file; a record without a name is an error. */
  function NameEntry(lang: string, r: Record): (e: Result<string, FormatError>)
    ensures e.Success? <==> r.Named?
    ensures e.Failure? ==> e.error == MissingField("name")
  {
    match r
    case Named(id, name) => Success(IdLine(id, FilterText(lang, name)))
    case Quest(_, _, _, _) => Failure(MissingField("name"))
  }

  /** The item or npc entries for the records in order. */
  function NameEntries(lang: string, rs: seq<Record>): (r: Result<seq<string>, FormatError>)
    ensures r.Success? <==> AllNamed(rs)
    ensures r.Failure? ==> r.error == MissingField("name")
    ensures r.Success? ==>
      && |r.value| == |rs|
      && forall i :: 0 <= i < |rs| ==> r.value[i] == IdLine(rs[i].id, FilterText(lang, rs[i].name))
  {
    EntryLines(rs, x => NameEntry(lang, x))
  }

  /**
   The lines of an item or npc file: the header, one entry per record in
   ascending id order, and the closing line.
   */
  function IdToStringTable(lang: string, target: string, data: seq<Record>): (r: Result<seq<string>, FormatError>)
    ensures r.Success? <==> lang in LocaleTags && AllNamed(data)
    ensures lang !in LocaleTags ==> r == Failure(UnsupportedLanguage(lang))
    ensures lang in LocaleTags && !AllNamed(data) ==> r == Failure(MissingField("name"))
    ensures r.Success? ==> AllNamed(SortById(data))
    ensures r.Success? ==>
      var sorted := SortById(data);
      && |r.value| == |data| + 2
      && r.value[0] == HeaderLine(TableName(target), LocaleTags[lang])
      && (forall i :: 0 <= i < |data| ==> r.value[i + 1] == IdLine(sorted[i].id, FilterText(lang, sorted[i].name)))
      && r.value[|data| + 1] == Closing
  {
    var header :- Header(lang, target);
    var sorted := SortById(data);
    SortByIdKeepsKinds(data);
    var body :- NameEntries(lang, sorted);
    Success(Document(header, body))
  }

  // ---------------------------------------------------------------------------
  // Object table: `[<name>] = <id>,`, with records skipped

  /**
   The lines for one record of the object file, as the formatter decides them: no
   line when the filtered name starts with `[` or is `nil`.
   */
  function ObjectEntry(lang: string, r: Record): (e: Result<seq<string>, FormatError>)
    ensures e.Success? <==> r.Named?
    ensures e.Failure? ==> e.error == MissingField("name")
    ensures e.Success? ==> |e.value| <= 1
  {
    match r
    case Named(id, name) =>
      var key := FilterText(lang, name);
      if StartsWith(key, "[") || key == "nil" then Success([])
      else Success([SwappedLine(key, id)])
    case Quest(_, _, _, _) => Failure(MissingField("name"))
  }

  /** The object-file entries for the records in order; the first record without a name stops the run. */
  function ObjectEntries(lang: string, rs: seq<Record>): (r: Result<seq<string>, FormatError>)
    ensures r.Success? <==> AllNamed(rs)
    ensures r.Failure? ==> r.error == MissingField("name")
    ensures r.Success? ==> |r.value| <= |rs|
  {
    if |rs| == 0 then Success([])
    else
      var lines :- ObjectEntry(lang, rs[0]);
      var rest :- ObjectEntries(lang, rs[1..]);
      Success(lines + rest)
  }

  /** The lines of the object file: the header, the entries of the sorted records, and the closing line. */
  function ObjectTable(lang: string, data: seq<Record>): (r: Result<seq<string>, FormatError>)
    ensures r.Success? <==> lang in LocaleTags && AllNamed(data)
    ensures lang !in LocaleTags ==> r == Failure(UnsupportedLanguage(lang))
    ensures lang in LocaleTags && !AllNamed(data) ==> r == Failure(MissingField("name"))
    ensures r.Success? ==>
      && 2 <= |r.value| <= |data| + 2
      && r.value[0] == HeaderLine(TableName("object"), LocaleTags[lang])
      && r.value[|r.value| - 1] == Closing
  {
    var header :- Header(lang, "object");
    var sorted := SortById(data);
    SortByIdKeepsKinds(data);
    var body :- ObjectEntries(lang, sorted);
    Success(Document(header, body))
  }

  /** True when a name has a character other than a backslash, so that its filtered form is not `nil`. */
  predicate HasText(name: string) {
    exists i :: 0 <= i < |name| && name[i] != Backslash
  }

  /** The named records whose name has text, in order: the records the object file lists. */
  function Listed(rs: seq<Record>): (r: seq<Record>)
    requires AllNamed(rs)
    ensures AllNamed(r) && |r| <= |rs|
  {
    if |rs| == 0 then []
    else (if HasText(rs[0].name) then [rs[0]] else []) + Listed(rs[1..])
  }

  /**
   An object record gets a line exactly when its filtered name is not `nil`,
   that is, when its name has a character other than a backslash; the formatter's
   test for a filtered name starting with `[` never decides anything.
   */
  lemma ObjectEntrySkipsNil(lang: string, id: nat, name: string)
    ensures !StartsWith(FilterText(lang, name), "[")
    ensures FilterText(lang, name) == "nil" <==> !HasText(name)
    ensures ObjectEntry(lang, Named(id, name)) ==
      if HasText(name) then Success([SwappedLine(FilterText(lang, name), id)]) else Success([])
  {
    FilterTextNil(lang, name);
    var key := FilterText(lang, name);
    NotStartsWithHead(key, "[");
  }

  /** The object entries are exactly one swapped line per listed record, in order. */
  lemma {:induction false} ObjectEntriesListed(lang: string, rs: seq<Record>)
    requires AllNamed(rs)
    ensures ObjectEntries(lang, rs).Success?
    ensures var lines := ObjectEntries(lang, rs).value;
      var listed := Listed(rs);
      && |lines| == |listed|
      && forall i :: 0 <= i < |listed| ==> lines[i] == SwappedLine(FilterText(lang, listed[i].name), listed[i].id)
  {
    if |rs| > 0 {
      ObjectEntriesListed(lang, rs[1..]);
      ObjectEntrySkipsNil(lang, rs[0].id, rs[0].name);
    }
  }

  /** The object file lists exactly the sorted records whose name has text, one swapped line each. */
  lemma ObjectTableListed(lang: string, data: seq<Record>)
    requires lang in LocaleTags && AllNamed(data)
    ensures AllNamed(SortById(data))
    ensures var r := ObjectTable(lang, data);
      var listed := Listed(SortById(data));
      && r.Success?
      && |r.value| == |listed| + 2
      && forall i :: 0 <= i < |listed| ==> r.value[i + 1] == SwappedLine(FilterText(lang, listed[i].name), listed[i].id)
  {
    SortByIdKeepsKinds(data);
    ObjectEntriesListed(lang, SortById(data));
  }

  // ---------------------------------------------------------------------------
  // Quest table: `[<id>] = {<title>, <description>, <objective>},`

  /** The entry for one record of the quest file; a record without quest fields is an error. */
  function QuestEntry(lang: string, r: Record): (e: Result<string, FormatError>)
    ensures e.Success? <==> r.Quest?
    ensures e.Failure? ==> e.error == MissingField("title")
  {
    match r
    case Quest(id, title, objective, description) =>
      var t := FilterText(lang, title);
      var o := FilterText(lang, objective);
      var d := FilterText(lang, description);
      Success(IdLine(id, QuestValue(t, d, o)))
    case Named(_, _) => Failure(MissingField("title"))
  }

  /** The quest entries for the records in order. */
  function QuestEntries(lang: string, rs: seq<Record>): (r: Result<seq<string>, FormatError>)
    ensures r.Success? <==> AllQuests(rs)
    ensures r.Failure? ==> r.error == MissingField("title")
    ensures r.Success? ==>
      && |r.value| == |rs|
      && forall i :: 0 <= i < |rs| ==>
           var q := rs[i];
           r.value[i] == IdLine(q.id, QuestValue(
             FilterText(lang, q.title), FilterText(lang, q.description), FilterText(lang, q.objective)))
  {
    EntryLines(rs, x => QuestEntry(lang, x))
  }

  /**
   The lines of the quest file: the header, one entry per record in ascending
   id order with the description before the objective, and the closing line.
   */
  function QuestTable(lang: string, data: seq<Record>): (r: Result<seq<string>, FormatError>)
    ensures r.Success? <==> lang in LocaleTags && AllQuests(data)
    ensures lang !in LocaleTags ==> r == Failure(UnsupportedLanguage(lang))
    ensures lang in LocaleTags && !AllQuests(data) ==> r == Failure(MissingField("title"))
    ensures r.Success? ==> AllQuests(SortById(data))
    ensures r.Success? ==>
      var sorted := SortById(data);
      && |r.value| == |data| + 2
      && r.value[0] == HeaderLine(TableName("quest"), LocaleTags[lang])
      && (forall i :: 0 <= i < |data| ==>
            var q := sorted[i];
            r.value[i + 1] == IdLine(q.id, QuestValue(
              FilterText(lang, q.title), FilterText(lang, q.description), FilterText(lang, q.objective))))
      && r.value[|data| + 1] == Closing
  {
    var header :- Header(lang, "quest");
    var sorted := SortById(data);
    SortByIdKeepsKinds(data);
    var body :- QuestEntries(lang, sorted);
    Success(Document(header, body))
  }

  // ---------------------------------------------------------------------------
  // Dispatch on the record kind

  /** The file written for each record kind. */
  const OutputFiles: map<string, string> := map[
    "item" := "lookupItems.lua", "npc" := "lookupNpcs.lua",
    "object" := "lookupObjects.lua", "quest" := "lookupQuests.lua"]

  /** A generated file: its name inside the locale's directory and its lines. */
  datatype Output = Output(file: string, lines: seq<string>)

  /** A run hands the kind's file the lines of `doc`, or fails with its error. */
  predicate Writes(r: Result<Option<Output>, FormatError>, file: string, doc: Result<seq<string>, FormatError>) {
    match doc
    case Failure(e) => r == Failure(e)
    case Success(lines) => r == Success(Some(Output(file, lines)))
  }

  /**
   One run for a locale code and a record kind, given the records of the
   kind's input file. An unknown kind does nothing, whatever the locale; a
   known kind always runs its handler, and with a supported locale and records
   that carry the handler's fields it always writes the kind's file.
   */
  function Run(lang: string, kind: string, data: seq<Record>): (r: Result<Option<Output>, FormatError>)
    ensures kind !in OutputFiles ==> r == Success(None)
    ensures kind in OutputFiles && lang !in LocaleTags ==> r == Failure(UnsupportedLanguage(lang))
    ensures kind in OutputFiles ==>
      (r.Success? <==> lang in LocaleTags && (if kind == "quest" then AllQuests(data) else AllNamed(data)))
    ensures kind in OutputFiles && r.Success? ==> r.value.Some?
    ensures kind == "item" || kind == "npc" ==> Writes(r, OutputFiles[kind], IdToStringTable(lang, kind, data))
    ensures kind == "object" ==> Writes(r, OutputFiles[kind], ObjectTable(lang, data))
    ensures kind == "quest" ==> Writes(r, OutputFiles[kind], QuestTable(lang, data))
    ensures r.Success? && r.value.Some? ==>
      && kind in OutputFiles
      && r.value.value.file == OutputFiles[kind]
      && |r.value.value.lines| >= 2
      && r.value.value.lines[0] == HeaderLine(TableName(kind), LocaleTags[lang])
  {
    var result :=
      if kind == "item" then IdToStringTable(lang, "item", data)
      else if kind == "npc" then IdToStringTable(lang, "npc", data)
      else if kind == "object" then ObjectTable(lang, data)
      else if kind == "quest" then QuestTable(lang, data)
      else Success([]);
    if kind !in OutputFiles then Success(None)
    else
      var lines :- result;
      Success(Some(Output(OutputFiles[kind], lines)))
  }

  lemma {:induction false} JoinConcat(a: seq<string>, b: seq<string>)
    ensures Join(a + b) == Join(a) + Join(b)
  {
    if |a| > 0 {
      assert (a + b)[1..] == a[1..] + b;
      JoinConcat(a[1..], b);
    } else {
      assert a + b == b;
    }
  }

  /** The text of a file begins with its header line and ends with the closing line. */
  lemma DocumentText(header: string, body: seq<string>)
    ensures Join(Document(header, body)) == header + Join(body) + Closing
  {
    JoinConcat([header] + body, [Closing]);
    JoinConcat([header], body);
    assert Join([header]) == header + Join([]);
    assert Join([Closing]) == Closing + Join([]);
  }
}
