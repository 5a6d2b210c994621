/** The game-data records the formatter reads, and the ways a run can fail. */
module Records {

  /**
   One record of an input file, with its id already read as an integer.
   Item, npc and object files hold `Named` records; quest files hold `Quest` records.
   */
  datatype Record =
    | Named(id: nat, name: string)
    | Quest(id: nat, title: string, objective: string, description: string)

  datatype FormatError =
    /** The locale code is not one of the seven supported ones. */
    | UnsupportedLanguage(lang: string)
    /** A record lacks a text field its handler reads. */
    | MissingField(field: string)

  /** Every record has a `name` field. */
  predicate AllNamed(s: seq<Record>) {
    forall i :: 0 <= i < |s| ==> s[i].Named?
  }

  /** Every record has the quest fields. */
  predicate AllQuests(s: seq<Record>) {
    forall i :: 0 <= i < |s| ==> s[i].Quest?
  }
}
