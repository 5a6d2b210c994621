/**
 The first line of every generated file: the name of the Lua lookup table,
 indexed by the runtime's locale tag, opening the table literal.
 */
module TableHeader {
  import opened Wrappers
  import opened Text
  import opened Records

  /** The seven supported locale codes and the locale tags the runtime uses for them. */
  const LocaleTags: map<string, string> := map[
    "en" := "enUS", "de" := "deDE", "fr" := "frFR", "es" := "esES",
    "ru" := "ruRU", "cn" := "zhCN", "pt" := "ptBR"]

  /** The lookup table for each record kind that has its own; every other kind gets `FallbackTable`. */
  const TableNames: map<string, string> := map[
    "item" := "LangItemLookup", "npc" := "LangNameLookup", "object" := "LangObjectLookup"]

  const FallbackTable: string := "LangQuestLookup"

  /** The lookup table name for a record kind. */
  function TableName(target: string): (r: string)
    ensures r == (if target in TableNames then TableNames[target] else FallbackTable)
    ensures '[' !in r && '"' !in r
  {
    if target == "item" then "LangItemLookup"
    else if target == "npc" then "LangNameLookup"
    else if target == "object" then "LangObjectLookup"
    else "LangQuestLookup"
  }

  /** The locale tag for a locale code, or `None` for an unsupported code. */
  function LocaleTag(lang: string): (r: Option<string>)
    ensures r.Some? <==> lang in LocaleTags
    ensures r.Some? ==> r.value == LocaleTags[lang] && '"' !in r.value
  {
    if lang == "en" then Some("enUS")
    else if lang == "de" then Some("deDE")
    else if lang == "fr" then Some("frFR")
    else if lang == "es" then Some("esES")
    else if lang == "ru" then Some("ruRU")
    else if lang == "cn" then Some("zhCN")
    else if lang == "pt" then Some("ptBR")
    else None
  }

  /** The header line `<table>["<tag>"] = {` for a known locale. */
  function HeaderLine(table: string, tag: string): string {
    table + "[\"" + tag + "\"] = {\n"
  }

  /** The header of a generated file; an unsupported locale code is an error naming it. */
  function Header(lang: string, target: string): (r: Result<string, FormatError>)
    ensures r.Success? <==> lang in LocaleTags
    ensures r.Failure? ==> r.error == UnsupportedLanguage(lang)
    ensures r.Success? ==> r.value == HeaderLine(TableName(target), LocaleTags[lang])
  {
    match LocaleTag(lang)
    case Some(tag) => Success(HeaderLine(TableName(target), tag))
    case None => Failure(UnsupportedLanguage(lang))
  }

  /** Reads a header line back into its table name and locale tag. */
  function ParseHeader(h: string): Option<(string, string)> {
    match SplitAt(h, '[')
    case None => None
    case Some(parts) =>
      var rest := parts.1;
      if |rest| == 0 || rest[0] != '"' then None
      else match SplitAt(rest[1..], '"')
        case None => None
        case Some(q) => if q.1 == "] = {\n" then Some((parts.0, q.0)) else None
  }

  /** A header line can be read back into the table name and the locale tag it was made from. */
  lemma ParseHeaderLine(table: string, tag: string)
    requires '[' !in table && '"' !in tag
    ensures ParseHeader(HeaderLine(table, tag)) == Some((table, tag))
  {
    var h := HeaderLine(table, tag);
    var tail := "] = {\n";
    var rest := "\"" + tag + "\"] = {\n";
    assert h == table + ['['] + rest;
    SplitAtJoin(table, '[', rest);
    assert SplitAt(h, '[') == Some((table, rest));
    assert rest[0] == '"';
    assert rest[1..] == tag + ['"'] + tail;
    SplitAtJoin(tag, '"', tail);
    assert SplitAt(rest[1..], '"') == Some((tag, tail));
  }

  /** The locale code a tag stands for: the inverse of `LocaleTags`. */
  function LocaleOfTag(tag: string): Option<string> {
    if tag == "enUS" then Some("en")
    else if tag == "deDE" then Some("de")
    else if tag == "frFR" then Some("fr")
    else if tag == "esES" then Some("es")
    else if tag == "ruRU" then Some("ru")
    else if tag == "zhCN" then Some("cn")
    else if tag == "ptBR" then Some("pt")
    else None
  }

  /** Every supported code is recovered from its tag, so no two codes share a tag. */
  lemma LocaleOfTagInverse(lang: string)
    requires lang in LocaleTags
    ensures LocaleOfTag(LocaleTags[lang]) == Some(lang)
  {
  }

  /**
   A successful header determines the locale code and the table it names:
   two runs writing the same header used the same locale and the same table.
   */
  lemma HeaderDetermines(l1: string, t1: string, l2: string, t2: string)
    requires Header(l1, t1).Success? && Header(l1, t1) == Header(l2, t2)
    ensures l1 == l2 && TableName(t1) == TableName(t2)
  {
    var tag1, tag2 := LocaleTags[l1], LocaleTags[l2];
    ParseHeaderLine(TableName(t1), tag1);
    ParseHeaderLine(TableName(t2), tag2);
    LocaleOfTagInverse(l1);
    LocaleOfTagInverse(l2);
  }
}
