# kclip in Dafny

A verified model of `kclip.py`, the parser for an e-reader's "My Clippings"
export. The export is a flat text log. Each record is four lines (title
line, detail line, blank line, notes) followed by a divider of ten `=`.
`parse` reads the log in one pass. It turns each record into a `Book`
identity and a `Clip`, and merges the clips into a map of `Book`s keyed by
title. `Book` offers filtered and sorted views of its clippings.

Modules, one file each:

- `base.dfy` (Base): bytes, `Option`, `Result` and the exceptions the
  parser raises, as an `Error` datatype.
- `pystr.dfy` (PyStr): the Python string operations the parser uses:
  `strip`, `find`, `rfind`, slices with clamping and negative bounds.
- `regex.dfy` (Regex): the character classes `\w`, `\d`, `\s` and the
  matcher steps the location pattern needs.
- `fields.dfy` (Fields): `parse_title`, `parse_attribution`, `parse_type`,
  `parse_location`.
- `dates.dfy` (Dates): `parse_datetime`: the two `strptime` layouts, the
  fallback between them, the 12-hour clock and the `datetime` constructor.
  A renderer writes the date text the way the e-reader does, and the parser
  is proved to read it back.
- `records.dfy` (Records): `Clip`, the replaceable syntax as a record of
  five extractor functions, and `_parse_record`.
- `sorting.dfy` (Sorting): Python's stable `list.sort(key, reverse)`.
  It is specified as an insertion sort on sequences and proved sorted,
  stable and a permutation. It is proved equal to any other stable sort,
  and it runs in place on an array.
- `books.dfy` (Books): the `Book` class with `clips_of_type`, `by_location`
  and `by_time`.
- `parser.dfy` (Parser): `parse`. The pass is specified as a fold
  (`Run`/`Step`). It is also specified as three stages: split at dividers,
  assemble each record, merge by title. `RunSplit` proves the two agree.
  `Parse` is the loop itself: it updates `Book` objects in a map, and it
  is proved to compute the specification's result.
- `examples.dfy` (Examples): the doctests of the field extractors as
  lemmas.

`parse` reads a file. The model takes the file as its sequence of lines,
each a sequence of bytes, plus a `decode` function for the UTF-8 decoding
of one line (`None` where the line is not valid UTF-8).

Where a plain reading of the program's intent and its code differ, the
model follows the code:

- A record read with the layout that has seconds keeps its seconds. Only
  the layout without seconds gives seconds 0 (`ParseRender`).
- The weekday number lands in the microsecond slot of the `datetime`
  (`datetime(*struct_time[:-2])`), as the doctests show.
- The divider test strips both ends of the line.
- `clips_of_type` returns a list. Python 2's `filter` is eager.
- A record that is not four lines long fails with the `ValueError` of the
  tuple unpacking (`RecordShape`).

## Model

| member | source | states |
|---|---|---|
| PyStr.IsSpace | kclip.py:93 | Defines the whitespace `strip` removes: the ASCII separators 9-13 and 28-32 and the Unicode spaces of Python 2.7's table. Strip, StripEmpty and StripIdempotent are stated with it. |
| PyStr.Strip | kclip.py:93 | `strip` removes leading and trailing whitespace only. The result is a contiguous piece of the input, has no whitespace at either end, and is empty exactly when the leading whitespace is the whole input. |
| PyStr.StripEmpty | kclip.py:59 | A string strips to nothing exactly when it is all whitespace. |
| PyStr.StripIdempotent | kclip.py:211 | Stripping a stripped line changes nothing. |
| PyStr.Find | kclip.py:116 | `find` gives the lowest index where the pattern occurs, or -1 when there is none. |
| PyStr.RFind | kclip.py:95 | `rfind` gives the highest index where the pattern occurs, or -1 when there is none. |
| PyStr.Slice | kclip.py:104 | Python slicing: negative bounds count from the end, bounds are clamped, and crossed bounds give the empty string. |
| PyStr.Clamp | kclip.py:104 | A slice bound is kept when it is inside the string, counted from the end when negative, and clamped to 0 or to the length when it falls outside. |
| Regex.FirstPrefix | kclip.py:118-120 | The first candidate that `find` locates at index 0 is a prefix, and no earlier candidate is. None means no candidate is a prefix. |
| Fields.ParseTitle | kclip.py:86-96 | Fails with EmptyLine exactly when the line strips to nothing. A stripped line that does not end in ")" is returned whole. |
| Fields.ParseAttribution | kclip.py:98-105 | Fails with EmptyLine exactly when the line strips to nothing. An attribution is present exactly when the stripped line ends in ")". |
| Fields.TitleAttributionRejoin | kclip.py:93-104 | On a trimmed line that ends in ")" and holds " (": title + " (" + attribution + ")" is the line again. |
| Fields.TitleAttributionOf | kclip.py:93-104 | Title and attribution of a line built as "t (a)" are t and a, when a holds no " (" and t does not start with whitespace. |
| Fields.BareTitle | kclip.py:93-105 | A trimmed line that does not end in ")" is all title, with no attribution. |
| Fields.ClosingWithoutOpening | kclip.py:94-104 | A line that ends in ")" but holds no " (" hits `rfind` = -1. The title loses its last character, and the attribution runs from index 1 to the final ")". |
| Fields.BareTitleExample | kclip.py:88-89 | Doctest: a line with no attribution. |
| Fields.AttributedTitleExample | kclip.py:90-101 | Doctests: the Goethe title and its attribution. |
| Fields.TypeField | kclip.py:116 | The text between index 2 and the first bar. Without a bar, `find` gives -1 and the field stops one character before the end. A bar at index 0 or 1 gives an empty field. |
| Fields.ParseType | kclip.py:107-121 | The result is the first of Bookmark, Note, Highlight that starts the field between "- " and the first bar. UnrecognizedClipType exactly when none starts it. |
| Fields.TypeOfLine | kclip.py:116-120 | A detail line "- <type>…" with a bar after the type gives that type. |
| Fields.UnknownTypeRejected | kclip.py:116-121 | A type field that starts with none of B, N, H fails with UnrecognizedClipType. |
| Fields.MatchLocation | kclip.py:130 | A successful match is valid, and the line is the matched text followed by the rest. |
| Fields.MatchLocationOf | kclip.py:130 | Every valid match is found, with exactly the text after it. |
| Fields.ParseLocation | kclip.py:123-138 | Fails with MalformedLocation exactly when the pattern does not match. |
| Fields.ValueOf | kclip.py:132-135 | The value of a match is "Page <range>" for "on Page" and "<unit> <range>" for "Loc.". |
| Fields.LocationOf | kclip.py:130-135 | A line that starts with a valid match gives "Page n[-m]" for the page unit, and "<unit> n[-m]" for any other unit ("Loc" followed by any character). |
| Fields.LocationRejected | kclip.py:130-138 | A refused line starts with no valid match. |
| Dates.DaysInMonth | kclip.py:151 | Days of a month in the Gregorian calendar: 29 exactly in February of a leap year. |
| Dates.Match | kclip.py:80-83 | A match of either layout has every field in its range. The layout without seconds has second 0. |
| Dates.LayoutsDisjoint | kclip.py:80-83 | No date text matches both layouts. |
| Dates.Hour24 | kclip.py:80 | 12 AM is hour 0, 12 PM is hour 12, other PM hours gain 12. The hour is PM exactly when it is 12 or more. |
| Dates.Hour24Injective | kclip.py:80 | Different readings of the 12-hour clock give different hours. |
| Dates.Convert | kclip.py:151 | The `datetime` constructor accepts exactly a year of 1 or more, a day within its month and a second below 60. The result holds the 24-hour clock and the weekday number in the microsecond slot. |
| Dates.Attempt | kclip.py:151 | One `strptime` attempt gives a valid datetime or MalformedDate. Without seconds, the second is 0. |
| Dates.ParseDateText | kclip.py:150-153 | The layout without seconds is used whenever it parses. When it fails, the result is the attempt with seconds, whatever that gives. So the result succeeds exactly when one of the two layouts succeeds, and every failure is MalformedDate. |
| Dates.ParseDateTime | kclip.py:140-153 | Gives a valid datetime or MalformedDate. |
| Dates.MatchRender | kclip.py:80-83 | The date text as the e-reader writes it matches its layout and gives back its fields. |
| Dates.ParseRender | kclip.py:149-153 | Round trip: the rendered date text parses to its stamp. Without seconds the second is 0; with seconds it is kept. |
| Dates.AddedOn | kclip.py:149 | For every line with no "Added on " starting before a given one, the date text read is what follows that first "Added on ". |
| Dates.MissingAddedOn | kclip.py:149 | Without "Added on ", `find` gives -1 and the text is read from index 8. |
| Records.NewClip | kclip.py:55-59 | The notes are the stripped notes, never None. They are empty exactly when the notes are all whitespace. |
| Records.ParseRecord | kclip.py:163-174 | Exactly four lines are accepted. Title and attribution come from line 0; type, location and datetime from line 1; notes from line 3, stripped. Every field is what the syntax's extractor gave. |
| Records.DefaultSyntax | kclip.py:155-161 | Defines the default syntax: the five extractors ParseTitle, ParseAttribution, ParseType, ParseLocation and ParseDateTime. EmptyTitleLine is stated with it. |
| Records.RecordErrorOrder | kclip.py:166-170 | The first extractor to fail, in the order title, attribution, type, location, datetime, gives the error. |
| Records.BlankLineIgnored | kclip.py:164 | The third line of a record does not affect the result. |
| Records.EmptyTitleLine | kclip.py:93-94 | With the default syntax, a title line that is all whitespace fails with EmptyLine. |
| Sorting.Codes | kclip.py:34 | A string's key is its sequence of code points. |
| Sorting.SortSpec | kclip.py:34 | Defines `list.sort(key=..., reverse=...)` as insertion of each element in turn. It keeps the length; SortSpecPermutation, SortSpecSorted, SortSpecStable and StableSortUnique show it is the one stable sort. |
| Sorting.SortSpecPermutation | kclip.py:34 | The sorted list is a permutation of the input. |
| Sorting.SortSpecSorted | kclip.py:34 | The sorted list is ordered by key, descending when reversed. |
| Sorting.SortSpecStable | kclip.py:34 | Equal keys keep their input order, reversed or not. |
| Sorting.StableSortUnique | kclip.py:34 | Any sorted, stable arrangement of the input is the specification's list. |
| Sorting.SortedUnique | kclip.py:34 | Two sorted lists with the same elements of each key, in order, are equal. |
| Sorting.InsertLast | kclip.py:34 | One pass of the in-place sort inserts `a[i]` into the sorted prefix and leaves the rest alone. |
| Sorting.SortInPlace | kclip.py:34 | The array ends up as the specification's sort of its old contents. |
| Books.Selects | kclip.py:44 | Defines the filter's test: a falsy type (None or the empty string) selects every clipping, any other type selects the clippings of that type. |
| Books.OfType | kclip.py:42-45 | The filter keeps exactly the clippings the type selects, and never more clippings than there were. |
| Books.OfTypeAppend | kclip.py:44-45 | The filter keeps the order of the clippings. |
| Books.OfTypeAll | kclip.py:44 | A falsy type (None or "") keeps every clipping, in order. |
| Books.OfTypeCount | kclip.py:44-45 | Each selected clipping is kept as often as it occurs; the others not at all. |
| Books.LocationKey | kclip.py:34 | The location key is the location's code points. |
| Books.TimeKey | kclip.py:39 | The key has seven fields, the year first and the microsecond slot last; with TimeKeyInjective, equal keys mean equal datetimes. |
| Books.TimeKeyInjective | kclip.py:39 | Equal time keys mean equal datetimes. |
| Books.Book.constructor | kclip.py:23-26 | A new book has its title, its attribution and no clippings. |
| Books.Book.Append | kclip.py:207 | The clipping is added at the end. |
| Books.Book.ClipsOfType | kclip.py:42-45 | The selected clippings, exactly those of the type. All of them, in order, for a falsy type. |
| Books.Book.ByLocation | kclip.py:28-35 | The selected clippings sorted by location: a permutation, sorted, stable, and equal to the specification's sort. |
| Books.Book.ByTime | kclip.py:37-40 | The selected clippings sorted by datetime: a permutation, sorted, stable, and equal to the specification's sort. |
| Books.SortedView | kclip.py:33-35 | Sorting a fresh list holding the clippings gives the specification's sort: a permutation, sorted, stable. |
| Parser.SkipPreamble | kclip.py:191-199 | Only the first line can change, and only by losing the three preamble bytes. |
| Parser.SkipPreambleOf | kclip.py:194-199 | The preamble is dropped once, and a file without one is read whole. |
| Parser.Classify | kclip.py:204 | A line is the divider exactly when it strips to ten "=". Any other line is kept stripped. |
| Parser.Lex | kclip.py:203-204 | A line that does not decode gives None; otherwise the decoded line is classified. |
| Parser.LexAll | kclip.py:202-204 | Every line is read on its own. |
| Parser.Merge | kclip.py:205-208 | A known title keeps its book and attribution and gains the clipping at the end. A new title starts a book with the record's attribution. Other books are unchanged. |
| Parser.Assemble | kclip.py:205 | Defines how the loop assembles a record: `_parse_record` with the caller's syntax. |
| Parser.Step | kclip.py:202-211 | An undecodable line fails. A divider assembles the collected lines, merges the record and empties the buffer. Any other line is collected stripped. |
| Parser.Run | kclip.py:202-211 | Defines the loop over the lexed lines as a fold of Step, stopping at the first failure. RunStuck, RunNext and RunSplit state its behaviour. |
| Parser.RunStuck | kclip.py:202-211 | The first failure ends the pass with that failure. |
| Parser.RunNext | kclip.py:202-211 | The pass one line further is one more step. |
| Parser.RunDecodes | kclip.py:203 | A successful pass decoded every line. |
| Parser.Present | kclip.py:203 | Every line decoded. |
| Parser.Kept | kclip.py:211 | The collected lines are exactly the non-divider lines. |
| Parser.Split | kclip.py:201-211 | The splitter yields one record per divider. |
| Parser.SplitKept | kclip.py:209-211 | The records, then the dropped tail, are the collected lines in file order. |
| Parser.SplitWithoutDivider | kclip.py:201-211 | Lines without a divider make no record; all of them are the dropped tail. |
| Parser.ExtendShift | kclip.py:204-209 | Completed records stay as they are while the splitter goes on. |
| Parser.SplitConcat | kclip.py:204-211 | Records never span a divider: input that ends at a divider splits apart from what follows. |
| Parser.ParseAll | kclip.py:205 | Every record assembles, or the result is the failure of the first one that does not. |
| Parser.MergeAll | kclip.py:205-208 | Defines the merge of all assembled records, in file order. MergeAllKeys, MergeAllClips, MergeAllAttribution and MergeAllTotal state its result. |
| Parser.RunSplit | kclip.py:201-211 | The pass equals the three stages. The tail after the last divider is never assembled. |
| Parser.ParseStaged | kclip.py:190-213 | `parse` on a file that decodes gives the records merged in file order, failing exactly when one record fails. |
| Parser.ClipsFor | kclip.py:206-207 | No record with the title means no clippings. |
| Parser.MergeAllKeys | kclip.py:206-208 | The books after merging are the earlier ones plus one per new title. |
| Parser.MergeAllClips | kclip.py:206-208 | Each book holds its earlier clippings, then those of the records with its title, in file order. |
| Parser.MergeAllAttribution | kclip.py:206 | A new book takes the attribution of the first record with its title. |
| Parser.MergeAllKeepsAttribution | kclip.py:206 | A book that already existed keeps its attribution. |
| Parser.OneRecord | kclip.py:201-211 | A file holding one record and its divider gives one book with one clipping. |
| Parser.SameTitleMerged | kclip.py:205-208 | Two records with one title make one book: the first attribution, both clippings in order. |
| Parser.TotalClipsRemove | kclip.py:205-208 | The clipping total does not depend on which book is counted first. |
| Parser.MergeTotal | kclip.py:207 | Merging a record adds exactly one clipping. |
| Parser.MergeAllTotal | kclip.py:205-208 | Merging records adds one clipping per record. |
| Parser.ClipsPerDivider | kclip.py:204-208 | A successful pass holds as many clippings as there are divider lines. |
| Parser.View | kclip.py:190 | The books as values, keyed like the map. |
| Parser.MergeInto | kclip.py:205-208 | Merging into the `Book` objects gives the value-level merge. Titles stay their keys, and each book is an old one or new. |
| Parser.Consume | kclip.py:204-211 | One turn of the loop on a decoded line does what `Step` says, on the `Book` objects. |
| Parser.ParseSpec | kclip.py:177-213 | Defines the specification of `parse`: the preamble is skipped, the lines are lexed, and the books after the run are the result. Parse is proved against it, and ParseStaged and ClipsPerDivider state its result. |
| Parser.Parse | kclip.py:177-213 | The loop succeeds exactly when the specification does, with the same error. On success its books hold the specification's values, one `Book` per title, each one created by the call. |
| Examples.HighlightType | kclip.py:109-110 | Doctest: Highlight, for the doctest's detail line with any date after "Added on". |
| Examples.BookmarkType | kclip.py:111-112 | Doctest: Bookmark, for the doctest's detail line with any date after "Added on". |
| Examples.NoteType | kclip.py:113-114 | Doctest: Note, for the doctest's detail line with any date after "Added on". |
| Examples.PageLocation | kclip.py:125-126 | Doctest: "Page 29", whatever follows the bar. |
| Examples.LocLocation | kclip.py:127-128 | Doctest: "Loc. 1625", whatever follows the bar. |
| Examples.HighlightDateTime | kclip.py:142-143 | Doctest: 2011-01-05 00:57, weekday 2 in the microsecond slot. |
| Examples.BookmarkDateTime | kclip.py:144-145 | Doctest: 2010-12-19 20:15, weekday 6. |
| Examples.NoteDateTime | kclip.py:146-147 | Doctest: 2012-11-22 12:37, weekday 3. |

## Left out

- File I/O: opening, `read(3)`, `seek(0)`, line iteration and `close` are not modelled. The file is its sequence of byte lines. The preamble test on the first three bytes is a test on the first line, since the preamble holds no line break.
- UTF-8 decoding is a parameter (`decode`), because it is a library call; a line that does not decode fails the parse with `Undecodable`.
- The warning printed when the preamble is missing, and the line printed before a location error, are output only and are left out.
- `strptime` is modelled for the English weekday, month and AM/PM names only. Locale tables are out of scope.
- `strptime` details the two layouts never reach are not modelled: `%j`, `%U`, time zones, and the cache of compiled patterns.
- `Clip.display`, `__str__`, `__repr__` and `Book.__repr__` are left out. They format for display and encode to UTF-8, and they change nothing.
- The `__main__` block (doctest runner, summary, debugger) is not part of the parser.
- Records.Syntax: a caller's syntax may return values of any type, and may lack a key. The model fixes the five result types to those of the default extractors, and every key is present.
- Sorting.Codes: strings compare by Unicode code point. A narrow Python 2 build compares UTF-16 code units instead, which orders characters outside the Basic Multilingual Plane differently.
- Dates.DateTime: the value keeps the seven integers the parser passes to `datetime`. Date arithmetic and `datetime` comparison beyond field order are not needed and not modelled.
- Books.Book.ClipsOfType: the model returns a new sequence. Aliasing between the list it returns and the book's own list cannot arise in the source either, since `filter` builds a new list.
- Parser.Parse: the clip's reference to its `Book` (`Clip(book, ...)`) is not stored by the source and is not modelled.
