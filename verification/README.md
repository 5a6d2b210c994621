# Lua lookup-table formatter — a Dafny model

The formatter of the wowhead scraper turns localized game-data records (items,
NPCs, objects, quests) into the text of one Lua source file that assigns a
lookup table, indexed by the runtime's locale tag. This project models that
transformation as pure Dafny functions and proves what it produces:

- the text filter applied to every text field (`Filter.FilterText`): delete
  backslashes, escape double quotes, apply four Russian placeholder rewrites
  under locale `ru`, and write either the bare token `nil` or a quoted literal;
  it is built from a model of Python's `str.replace` (`Text.ReplaceAll`);
- the header line (`TableHeader.Header`): the table name chosen by record kind,
  and the locale tag for one of seven locale codes, any other code being an error;
- the record order (`Ordering.SortById`): Python's stable sort by integer id;
- the entry lines of the item/npc table, the object table (name and id swapped,
  records without text skipped) and the quest table, and the whole file as
  header, entries, closing line (`Formatter`);
- the dispatch on the record kind (`Formatter.Run`).

Modules, one per concern: `Wrappers` (Option, Result), `Text` (prefixes,
splitting, counting, `str.replace`), `Escaping` (backslash removal, quote
escaping, the shape of an escaped body and its decoder), `Filter`, `Decimal`
(ids as decimal numerals), `TableHeader`, `Records` (the record datatype and
the errors), `Ordering`, `Lines` (entry-line formats and their parsers) and
`Formatter` (the three handlers and the dispatch).

Modelling choices:

- A record is `Named(id, name)` (item, npc and object files) or
  `Quest(id, title, objective, description)` (quest files). A handler given a
  record without the field it reads fails with `MissingField`, as the Python
  dictionary lookup would raise.
- Ids are `nat` written in decimal. This assumes the input held each id as a
  JSON integer, so that formatting it prints the same number the sort compared.
- A generated file is a sequence of lines; its text is their concatenation
  (`Formatter.Join`).
- The locale code is a string, so an unsupported code can be passed and is
  reported as `UnsupportedLanguage`; the record kind is a string too, and an
  unknown kind does nothing.
- Under `ru` the filter rewrites the text after escaping. The model proves that
  escaping commutes with those rewrites, so the quoted body is always
  `Escape(Localize(lang, Strip(text)))` (`Filter.FilterTextMeaning`).

## Model

| member | source | states |
|---|---|---|
| `Text.ReplaceAll` | utils/formatter.py:112-118 | Python `str.replace`: an equal-length replacement keeps the length, a shorter one never lengthens, a non-empty text with a non-empty replacement stays non-empty, and the empty text stays empty for a non-empty pattern |
| `Text.ReplaceAllAbsent` | utils/formatter.py:114-118 | replacing a pattern that occurs nowhere in the text leaves the text unchanged |
| `Text.ReplaceAllWhole` | utils/formatter.py:115-118 | a text that is exactly the pattern becomes exactly the replacement |
| `Text.ReplaceAllSkip` | utils/formatter.py:112-118 | a prefix in which no occurrence of the pattern starts is copied through unchanged and the replacing goes on after it |
| `Text.ReplaceAllLeftmost` | utils/formatter.py:112-118 | the leftmost occurrence of a non-empty pattern is replaced and scanning resumes right after it, so every non-overlapping occurrence found left to right is replaced |
| `Text.ReplaceAllKeepsCount` | utils/formatter.py:112-118 | a character in neither the pattern nor the replacement occurs as often after replacing as before |
| `Escaping.Strip` | utils/formatter.py:112 | the result has no backslash, is shorter by the number of backslashes, is empty exactly when the input is only backslashes, and equals the input when it had none |
| `Escaping.StripKeepsOthers` | utils/formatter.py:112 | deleting backslashes keeps the count of every other character |
| `Escaping.StripIsReplace` | utils/formatter.py:112 | the first `str.replace` of the filter deletes exactly the backslashes, character by character |
| `Escaping.Escape` | utils/formatter.py:113 | escaping lengthens the text by the number of quotes and changes nothing in a text without quotes |
| `Escaping.EscapeKeepsOthers` | utils/formatter.py:113 | escaping keeps the count of every character other than the quote and the backslash |
| `Escaping.EscapeIsReplace` | utils/formatter.py:113 | the second `str.replace` of the filter writes each quote as backslash-quote and keeps every other character |
| `Escaping.EscapeIsEscaped` | utils/formatter.py:112-113 | escaping a backslash-free text gives a body made only of ordinary characters and backslash-quote pairs |
| `Escaping.EscapedIsQuotesEscaped` | utils/formatter.py:113 | such a body is exactly one where every quote has a backslash right before it and every backslash a quote right after it |
| `Escaping.UnescapeEscape` | utils/formatter.py:112-113 | decoding the escape of a backslash-free text gives the text back |
| `Escaping.EscapeUnescape` | utils/formatter.py:112-113 | every well-formed body is the escape of its decoding, which has no backslash: escaping is a bijection onto well-formed bodies |
| `Escaping.EscapeCommutesWithReplace` | utils/formatter.py:113-118 | rewriting a plain pattern to a plain replacement after escaping gives the same as escaping after the rewrite |
| `Filter.EscapeCommutesWithRuRewrite` | utils/formatter.py:113-118 | the four Russian rewrites commute with quote escaping |
| `Filter.FilterText` | utils/formatter.py:120-122 | the result is `nil` or starts and ends with a quote, and it never starts with `[` |
| `Filter.FilterTextMeaning` | utils/formatter.py:111-122 | the filter's result is `nil` for an empty body and otherwise the quoted body, the body being the escaped, localized, backslash-free text |
| `Filter.FilterTextNil` | utils/formatter.py:112-121 | the filter yields `nil` exactly when the text is empty or made only of backslashes |
| `Filter.FilterTextQuoted` | utils/formatter.py:112-122 | a non-`nil` result is quoted, and inside the quotes every quote is escaped and no other backslash remains |
| `Filter.FilterTextOtherLocale` | utils/formatter.py:112-122 | outside `ru` the body is the text with backslashes deleted and quotes escaped, of length input minus backslashes plus quotes |
| `Filter.DecodeFilterText` | utils/formatter.py:111-122 | decoding the filter's result gives the localized text without backslashes |
| `Filter.FilterTextOfDecode` | utils/formatter.py:111-122 | outside `ru` every value in the filter's output grammar (`nil`, or plain characters and backslash-quote pairs in quotes) is the filter of its own decoding |
| `Filter.RuRewriteOfPlaceholders` | utils/formatter.py:115-118 | each of the four placeholders alone is rewritten to its bracket-only form and nothing further |
| `Filter.RuPlaceholderRewritten` | utils/formatter.py:114-118 | under `ru` the filter of a placeholder is its quoted bracket-only form |
| `Filter.RuRewriteBarFree` | utils/formatter.py:114-118 | the Russian rewrites leave a text without a `|` unchanged |
| `Filter.RuRewriteEmbedded` | utils/formatter.py:114-118 | the first placeholder of a text, after a `|`-free prefix, becomes its bracket-only form in place and the rewrites go on with the rest, which covers every placeholder of a text in which every `|` opens a placeholder |
| `Filter.RuRewriteInSentence` | utils/formatter.py:114-118 | a placeholder inside a sentence with no other `|` is rewritten in place and the rest of the sentence is kept |
| `Filter.RuFilterInSentence` | utils/formatter.py:111-122 | under `ru` the filter of such a sentence, without backslashes or quotes, is the sentence quoted with the placeholder rewritten |
| `Filter.RuRewriteCascade` | utils/formatter.py:114-118 | the four passes run one after another over the whole text, so the class placeholder for form 1 wrapped in the form-6 opening and a closing parenthesis becomes the form-6 class placeholder in the second pass and `<класс>` in the fourth |
| `Filter.RuRewriteKeepsCount` | utils/formatter.py:114-118 | a character none of the Russian patterns or replacements contains keeps its count |
| `Filter.FilterKeepsLineBreaks` | utils/formatter.py:111-122 | every line feed and carriage return of the text appears in the written value as often as in the text, unescaped, for every locale |
| `Filter.PlaceholderKeptOutsideRussian` | utils/formatter.py:114-118 | under every other locale the filter of a placeholder is the placeholder quoted, unchanged |
| `Decimal.NatToString` | utils/formatter.py:43 | an id is written as a non-empty string of digits with no leading zero, of one digit exactly below ten |
| `Decimal.ParseNatToString` | utils/formatter.py:43 | reading the written id gives the id back |
| `Decimal.NatToStringParse` | utils/formatter.py:43 | every canonical numeral is the written form of its value |
| `TableHeader.TableName` | utils/formatter.py:84-93 | item, npc and object have their own tables; every other kind falls back to the quest table; names contain no bracket or quote |
| `TableHeader.LocaleTag` | utils/formatter.py:94-109 | a tag exists exactly for the seven supported codes, and it is the fixed tag of that code |
| `TableHeader.Header` | utils/formatter.py:84-109 | the header succeeds exactly for a supported code, as `<table>["<tag>"] = {`; otherwise it is an error naming the code |
| `TableHeader.ParseHeaderLine` | utils/formatter.py:87-107 | a header line reads back as its table name and locale tag |
| `TableHeader.LocaleOfTagInverse` | utils/formatter.py:94-107 | every supported code is recovered from its tag |
| `TableHeader.HeaderDetermines` | utils/formatter.py:84-109 | equal successful headers come from the same locale code and the same table |
| `Ordering.Insert` | utils/formatter.py:64 | inserting into an id-sorted sequence keeps it sorted, adds exactly the record, and brings in nothing else |
| `Ordering.SortById` | utils/formatter.py:64 | the loaded records are sorted ascending by id and are a permutation of the input |
| `Ordering.SortByIdStable` | utils/formatter.py:64 | for every id, the records with that id keep their input order |
| `Ordering.SortedStableUnique` | utils/formatter.py:64 | two id-sorted sequences with the same records per id, in order, are equal |
| `Ordering.SortByIdCharacterized` | utils/formatter.py:64 | any sorted sequence keeping each id's records in input order is the sorted result: it is Python's stable sort |
| `Ordering.SortByIdKeepsKinds` | utils/formatter.py:64 | sorting keeps every record having a name, or every record being a quest |
| `Lines.IdLineRoundTrip` | utils/formatter.py:43 | an id-keyed line `[<id>] = <value>,` reads back as its id and value, whatever the value |
| `Lines.SwappedLineRoundTrip` | utils/formatter.py:56 | an object line `[<name>] = <id>,` reads back as its key and id, whatever the key |
| `Formatter.EntryLines` | utils/formatter.py:41-43 | one line per record in order when every record can be written, otherwise the error of the first record that cannot, all records before it being writable |
| `Formatter.NameEntry` | utils/formatter.py:42-43 | a record gives an entry exactly when it has a name; otherwise the error names the missing field |
| `Formatter.NameEntries` | utils/formatter.py:41-43 | the item/npc entries exist exactly when every record has a name: one `[<id>] = <filtered name>,` line per record, in order |
| `Formatter.IdToStringTable` | utils/formatter.py:39-44 | an item/npc file is the header, exactly one `[<id>] = <filtered name>,` line per record in sorted order, and the closing line; it fails for an unsupported code or a record without a name |
| `Formatter.ObjectEntry` | utils/formatter.py:52-56 | an object record gives at most one line, and fails exactly when it has no name |
| `Formatter.ObjectEntries` | utils/formatter.py:52-57 | the object entries exist exactly when every record has a name, and number at most the records |
| `Formatter.ObjectTable` | utils/formatter.py:46-58 | an object file is the header, at most one line per record, and the closing line; it fails for an unsupported code or a record without a name |
| `Formatter.ObjectEntrySkipsNil` | utils/formatter.py:53-56 | an object record gets the swapped line exactly when its filtered name is not `nil`, that is when the name has a non-backslash character; the `[` test never fires |
| `Formatter.ObjectEntriesListed` | utils/formatter.py:52-56 | the object entries are one swapped line per record whose name has text, in order |
| `Formatter.ObjectTableListed` | utils/formatter.py:46-58 | the object file lists exactly the sorted records whose name has text, one swapped line each between header and closing line |
| `Formatter.QuestEntry` | utils/formatter.py:74-80 | a record gives a quest entry exactly when it is a quest; otherwise the error names the title |
| `Formatter.QuestEntries` | utils/formatter.py:74-80 | the quest entries exist exactly when every record is a quest: one line per record, in order, with the description before the objective |
| `Formatter.QuestTable` | utils/formatter.py:68-82 | a quest file is the header, one `[<id>] = {<title>, <description>, <objective>},` line per record in sorted order, and the closing line |
| `Formatter.Run` | utils/formatter.py:18-25 | an unknown kind does nothing; a known kind runs its handler and either writes the kind's file with exactly the handler's lines or fails with the handler's error; it writes the file exactly when the code is supported and every record carries the handler's fields |
| `Formatter.DocumentText` | utils/formatter.py:40-44 | the text of a file is its header, then its entries, then `}` and a newline |

## Left out

- File and directory handling: creating the locale directory, opening and truncating the output file, and the progress messages. The output is returned as lines with a file name instead.
- Reading the input: JSON parsing and `int()` of ids. Records arrive as typed values with `nat` ids. An id stored as a JSON string (say `"010"`) would be written as that string while sorted by its value; the model writes the decimal numeral of the value. Negative ids are not modelled.
- The output root directory: utils/paths.py is not part of this model.
- The `__main__` driver, which only runs one fixed conversion.
- The defaults of `__call__` (`lang="en"`, `f_type="npc"`): `Formatter.Run` always takes both arguments explicitly.
- Python exception types and partial output. A failing run leaves a truncated file in the Python formatter; here it is only an error result.
- Line breaks: the filter escapes only `"`, so a line feed or carriage return in a name or a description reaches the written value raw (`Filter.FilterKeepsLineBreaks`), and a Lua reader rejects such a string as unfinished. The model neither escapes line breaks nor treats them as invalid; its output grammar (`Escaping.Escaped`, `Filter.WellFormedLiteral`) is the formatter's, not Lua's.
- Error order for a missing id: a record without an id fails while sorting, before the header is chosen. Ids are always present here.
- `Formatter.ObjectTable`: its own contract gives only bounds on the line count; the exact lines are stated by `Formatter.ObjectTableListed`.
