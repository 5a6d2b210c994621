/**
 The entry lines of a generated Lua table and their reading back. Every entry
 line is `[<key>] = <value>,` followed by a newline; ids are decimal numerals.
 */
module Lines {
  import opened Wrappers
  import opened Text
  import opened Decimal

  /** The line closing the table literal. */
  const Closing: string := "}\n"

  /** An entry keyed by a record id: `[<id>] = <value>,`. */
  function IdLine(id: nat, value: string): string {
    "[" + NatToString(id) + "] = " + value + ",\n"
  }

  /** An entry of the object table, keyed by the name and mapping to the id: `[<key>] = <id>,`. */
  function SwappedLine(key: string, id: nat): string {
    "[" + key + "] = " + NatToString(id) + ",\n"
  }

  /** The value of a quest entry: a Lua list of three texts. */
  function QuestValue(title: string, description: string, objective: string): string {
    "{" + title + ", " + description + ", " + objective + "}"
  }

  /** The text between the leading `[` and the trailing `,` and newline of an entry line. */
  function Unframe(line: string): Option<string> {
    if |line| >= 3 && line[0] == '[' && line[|line| - 2..] == ",\n" then Some(line[1..|line| - 2])
    else None
  }

  /** Reads an id-keyed entry line back into its id and value. */
  function ParseIdLine(line: string): Option<(nat, string)> {
    match Unframe(line)
    case None => None
    case Some(inner) =>
      match SplitAt(inner, ']')
      case None => None
      case Some(p) =>
        if Canonical(p.0) && StartsWith(p.1, " = ") then Some((ParseDecimal(p.0), p.1[3..]))
        else None
  }

  /** Reads an object-table entry line back into its key and id. */
  function ParseSwappedLine(line: string): Option<(string, nat)> {
    match Unframe(line)
    case None => None
    case Some(inner) =>
      match SplitAtLast(inner, ']')
      case None => None
      case Some(p) =>
        if StartsWith(p.1, " = ") && Canonical(p.1[3..]) then Some((p.0, ParseDecimal(p.1[3..])))
        else None
  }

  lemma DigitsHaveNoBracket(n: nat)
    ensures ']' !in NatToString(n)
  {
    var d := NatToString(n);
    forall i | 0 <= i < |d|
      ensures d[i] != ']'
    {
      assert IsDigit(d[i]);
    }
  }

  /** An id-keyed entry line reads back as the id and value it was written from, whatever the value. */
  lemma IdLineRoundTrip(id: nat, value: string)
    ensures ParseIdLine(IdLine(id, value)) == Some((id, value))
  {
    var digits := NatToString(id);
    var line := IdLine(id, value);
    var inner := digits + "] = " + value;
    assert line == "[" + inner + ",\n";
    assert Unframe(line) == Some(inner);
    DigitsHaveNoBracket(id);
    assert inner == digits + [']'] + (" = " + value);
    SplitAtJoin(digits, ']', " = " + value);
    ParseNatToString(id);
    assert (" = " + value)[3..] == value;
  }

  /** An object-table entry line reads back as the key and id it was written from, whatever the key. */
  lemma SwappedLineRoundTrip(key: string, id: nat)
    ensures ParseSwappedLine(SwappedLine(key, id)) == Some((key, id))
  {
    var digits := NatToString(id);
    var line := SwappedLine(key, id);
    var inner := key + "] = " + digits;
    assert line == "[" + inner + ",\n";
    assert Unframe(line) == Some(inner);
    DigitsHaveNoBracket(id);
    assert ']' !in " = " + digits;
    assert inner == key + [']'] + (" = " + digits);
    SplitAtLastJoin(key, ']', " = " + digits);
    ParseNatToString(id);
    assert (" = " + digits)[3..] == digits;
  }
}
