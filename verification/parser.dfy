/** `parse` (kclip.py:177-213): one pass over the lines of the export.
    Lines are trimmed and collected until a divider line; the divider turns
    the collected lines into a record, whose clipping joins the book of its
    title. What follows the last divider is never assembled.

    The pass is specified twice: `Run` folds `Step` over the lines, and
    `Split`, `ParseAll` and `MergeAll` describe the same result as three
    stages; `RunSplit` shows the two agree. `Parse` is the loop itself,
    over `Book` objects, proved to compute `Run`'s result. */
module Parser {
  import opened Base
  import opened PyStr
  import opened Records
  import opened Books

  /** `KINDLE_FIRST_LINE_NOISE`: the UTF-8 byte order mark. */
  const Preamble: seq<byte> := [0xEF, 0xBB, 0xBF]

  /** `KINDLE_DIVIDER`: ten equals signs. */
  const Divider: string := "=========="

  predicate HasPreamble(line: seq<byte>) {
    |line| >= 3 && line[..3] == Preamble
  }

  /** `read(3)` followed by `seek(0)` when the three bytes are not the
      preamble: the first line loses its first three bytes exactly when
      they are the preamble. */
  function SkipPreamble(lines: seq<seq<byte>>): (r: seq<seq<byte>>)
    ensures |r| == |lines|
    ensures lines != [] ==> r[1..] == lines[1..]
    ensures lines != [] ==> lines[0] == r[0] || lines[0] == Preamble + r[0]
  {
    if lines != [] && HasPreamble(lines[0]) then
      assert lines[0] == Preamble + lines[0][3..];
      [lines[0][3..]] + lines[1..]
    else lines
  }

  /** The preamble is dropped once, and a file without one is read whole. */
  lemma SkipPreambleOf(line: seq<byte>, rest: seq<seq<byte>>)
    ensures SkipPreamble([Preamble + line] + rest) == [line] + rest
    ensures !HasPreamble(line) ==> SkipPreamble([line] + rest) == [line] + rest
  {
    assert (Preamble + line)[..3] == Preamble;
    assert ([Preamble + line] + rest)[1..] == rest;
  }


  /** A decoded line as the loop sees it: `line.strip()` is either the
      divider or text to collect. */
  datatype Line = DividerLine | TextLine(text: string)

  /** `line.strip() == KINDLE_DIVIDER`; a collected line is the trimmed
      one, so it has no whitespace at either end and is not the divider. */
  function Classify(text: string): (r: Line)
    ensures r.DividerLine? <==> Strip(text) == Divider
    ensures r.TextLine? ==> r.text == Strip(text) && IsStripped(r.text) && r.text != Divider
  {
    var s := Strip(text);
    if s == Divider then DividerLine else TextLine(s)
  }

  /** `line.decode('utf-8')`, then `line.strip()`: None where the line is
      not valid UTF-8. */
  function Lex(line: seq<byte>, decode: seq<byte> -> Option<string>): (r: Option<Line>)
    ensures r.None? <==> decode(line).None?
    ensures r.Some? ==> r.value == Classify(decode(line).value)
  {
    match decode(line)
    case None => None
    case Some(text) => Some(Classify(text))
  }

  /** Each line read on its own. */
  function LexAll(lines: seq<seq<byte>>, decode: seq<byte> -> Option<string>): (r: seq<Option<Line>>)
    ensures |r| == |lines|
    ensures forall i :: 0 <= i < |lines| ==> r[i] == Lex(lines[i], decode)
  {
    seq(|lines|, i requires 0 <= i < |lines| => Lex(lines[i], decode))
  }

  /** A `Book` as a value: its attribution and its clippings. */
  datatype BookState = BookState(attribution: Option<string>, clips: seq<Clip>)

  /** The loop's variables: `books` and `record`. */
  datatype State = State(books: map<string, BookState>, record: seq<string>)

  /** `books.get(title, book)`, `append`, `books[title] = book`: a record
      with a known title adds its clipping to that book and leaves the
      book's attribution alone; a new title starts a book. */
  function Merge(books: map<string, BookState>, rec: Record): (m: map<string, BookState>)
    ensures m.Keys == books.Keys + {rec.title}
    ensures forall t :: t in books && t != rec.title ==> m[t] == books[t]
    ensures rec.title in books ==> m[rec.title].attribution == books[rec.title].attribution
                                   && m[rec.title].clips == books[rec.title].clips + [rec.clip]
    ensures rec.title !in books ==> m[rec.title] == BookState(rec.attribution, [rec.clip])
  {
    var book := if rec.title in books then books[rec.title] else BookState(rec.attribution, []);
    books[rec.title := BookState(book.attribution, book.clips + [rec.clip])]
  }

  /** How the loop turns collected lines into a record. */
  type Assembler = seq<string> -> Result<Record>

  /** `_parse_record(record, parsers=syntax)`. */
  function Assemble(syntax: Syntax): Assembler {
    raw => ParseRecord(raw, syntax)
  }

  /** One turn of the loop: a line that did not decode stops it; a
      divider assembles and merges the collected record and starts a new
      one; any other line is collected. */
  function Step(st: State, line: Option<Line>, assemble: Assembler): (r: Result<State>)
    ensures line.None? ==> r == Err(Undecodable)
    ensures line == Some(DividerLine) ==> r.Ok? == assemble(st.record).Ok?
    ensures r.Ok? && line == Some(DividerLine) ==> r.value == State(Merge(st.books, assemble(st.record).value), [])
    ensures line.Some? && line.value.TextLine? ==> r == Ok(State(st.books, st.record + [line.value.text]))
  {
    match line
    case None => Err(Undecodable)
    case Some(DividerLine) =>
      var rec :- assemble(st.record);
      Ok(State(Merge(st.books, rec), []))
    case Some(TextLine(s)) => Ok(State(st.books, st.record + [s]))
  }

  /** The state after the given lines, or the first failure. */
  function Run(lines: seq<Option<Line>>, assemble: Assembler): Result<State> {
    if lines == [] then Ok(State(map[], []))
    else
      var st :- Run(lines[..|lines| - 1], assemble);
      Step(st, lines[|lines| - 1], assemble)
  }

  /** `parse(filename, syntax)` on a file holding `lines`. */
  function ParseSpec(lines: seq<seq<byte>>, decode: seq<byte> -> Option<string>, syntax: Syntax)
    : Result<map<string, BookState>>
  {
    var st :- Run(LexAll(SkipPreamble(lines), decode), Assemble(syntax));
    Ok(st.books)
  }

  /** Once a prefix fails, the whole run fails the same way: the loop
      stops at the first failure. */
  lemma {:induction false} RunStuck(lines: seq<Option<Line>>, n: nat, assemble: Assembler)
    requires n <= |lines| && Run(lines[..n], assemble).Err?
    ensures Run(lines, assemble) == Run(lines[..n], assemble)
  {
    if n < |lines| {
      var init := lines[..|lines| - 1];
      assert init[..n] == lines[..n];
      RunStuck(init, n, assemble);
    } else {
      assert lines[..n] == lines;
    }
  }

  /** The run one line further is one more step. */
  lemma RunNext(lines: seq<Option<Line>>, i: nat, assemble: Assembler)
    requires i < |lines|
    ensures Run(lines[..i + 1], assemble) == (var st :- Run(lines[..i], assemble); Step(st, lines[i], assemble))
  {
    assert lines[..i + 1][..i] == lines[..i];
  }

  /** From a state the prefix reaches, the next line takes one step. */
  lemma RunAfter(lines: seq<Option<Line>>, i: nat, assemble: Assembler, st: State)
    requires i < |lines| && Run(lines[..i], assemble) == Ok(st)
    ensures Run(lines[..i + 1], assemble) == Step(st, lines[i], assemble)
  {
    RunNext(lines, i, assemble);
  }

  /** A step that fails from a state the prefix reaches fails the run. */
  lemma RunFails(lines: seq<Option<Line>>, i: nat, assemble: Assembler, st: State, e: Error)
    requires i < |lines| && Run(lines[..i], assemble) == Ok(st)
    requires Step(st, lines[i], assemble) == Err(e)
    ensures Run(lines, assemble) == Err(e)
  {
    RunAfter(lines, i, assemble, st);
    RunStuck(lines, i + 1, assemble);
  }

  /** A run that succeeds decoded every line. */
  lemma {:induction false} RunDecodes(lines: seq<Option<Line>>, assemble: Assembler)
    requires Run(lines, assemble).Ok?
    ensures forall i :: 0 <= i < |lines| ==> lines[i].Some?
  {
    if lines != [] {
      RunDecodes(lines[..|lines| - 1], assemble);
      forall i | 0 <= i < |lines| - 1 ensures lines[i].Some? {
        assert lines[..|lines| - 1][i] == lines[i];
      }
    }
  }

  // ---- The pass as three stages -------------------------------------------

  /** Every line decoded. */
  function Present(lines: seq<Line>): (r: seq<Option<Line>>)
    ensures |r| == |lines|
    ensures forall i :: 0 <= i < |lines| ==> r[i] == Some(lines[i])
  {
    seq(|lines|, i requires 0 <= i < |lines| => Some(lines[i]))
  }

  function CountDividers(lines: seq<Line>): nat {
    if lines == [] then 0
    else CountDividers(lines[..|lines| - 1]) + (if lines[|lines| - 1].DividerLine? then 1 else 0)
  }

  /** The collected lines, in order. */
  function Kept(lines: seq<Line>): (r: seq<string>)
    ensures forall s :: s in r <==> TextLine(s) in lines
  {
    if lines == [] then []
    else
      var init, last := lines[..|lines| - 1], lines[|lines| - 1];
      assert lines == init + [last];
      Kept(init) + (if last.TextLine? then [last.text] else [])
  }

  function Flatten(records: seq<seq<string>>): seq<string> {
    if records == [] then [] else Flatten(records[..|records| - 1]) + records[|records| - 1]
  }

  /** The splitter's state after one more line: a divider completes the
      collected lines as a record, any other line is collected. */
  function Extend(p: (seq<seq<string>>, seq<string>), line: Line): (seq<seq<string>>, seq<string>) {
    match line
    case DividerLine => (p.0 + [p.1], [])
    case TextLine(s) => (p.0, p.1 + [s])
  }

  /** The splitter: the completed records and the lines collected after
      the last divider. There is one record per divider. */
  function Split(lines: seq<Line>): (p: (seq<seq<string>>, seq<string>))
    ensures |p.0| == CountDividers(lines)
  {
    if lines == [] then ([], []) else Extend(Split(lines[..|lines| - 1]), lines[|lines| - 1])
  }

  /** Splitting loses no collected line and invents none: the records,
      then the dropped tail, are the collected lines in file order. */
  lemma {:induction false} SplitKept(lines: seq<Line>)
    ensures Flatten(Split(lines).0) + Split(lines).1 == Kept(lines)
  {
    if lines != [] {
      var init := lines[..|lines| - 1];
      SplitKept(init);
      var p := Split(init);
      if lines[|lines| - 1].DividerLine? {
        assert (p.0 + [p.1])[..|p.0|] == p.0;
      }
    }
  }

  /** Lines without a divider make no record: they are all dropped tail. */
  lemma {:induction false} SplitWithoutDivider(lines: seq<Line>)
    requires CountDividers(lines) == 0
    ensures Split(lines) == ([], Kept(lines))
  {
    if lines != [] {
      SplitWithoutDivider(lines[..|lines| - 1]);
    }
  }

  /** Completed records stay as they are while the splitter goes on. */
  lemma ExtendShift(s: seq<seq<string>>, q: (seq<seq<string>>, seq<string>), line: Line)
    ensures Extend((s + q.0, q.1), line) == (s + Extend(q, line).0, Extend(q, line).1)
  {
    if line.DividerLine? {
      assert (s + q.0) + [q.1] == s + (q.0 + [q.1]);
    }
  }

  /** Records never span a divider: lines that end with one (or none)
      split independently of what follows. */
  lemma {:induction false} SplitConcat(a: seq<Line>, b: seq<Line>)
    requires Split(a).1 == []
    ensures Split(a + b) == (Split(a).0 + Split(b).0, Split(b).1)
  {
    if b == [] {
      assert a + b == a && Split(a).0 + [] == Split(a).0;
    } else {
      var b', last := b[..|b| - 1], b[|b| - 1];
      var ab := a + b;
      assert ab[..|ab| - 1] == a + b' && ab[|ab| - 1] == last;
      SplitConcat(a, b');
      ExtendShift(Split(a).0, Split(b'), last);
    }
  }

  /** Each record is assembled in order; the first failure is the result. */
  function ParseAll(raw: seq<seq<string>>, assemble: Assembler): (r: Result<seq<Record>>)
    ensures r.Ok? <==> forall i :: 0 <= i < |raw| ==> assemble(raw[i]).Ok?
    ensures r.Ok? ==> |r.value| == |raw|
                      && forall i :: 0 <= i < |raw| ==> assemble(raw[i]) == Ok(r.value[i])
    ensures r.Err? ==> exists i :: 0 <= i < |raw| && assemble(raw[i]) == Err(r.error)
                                   && forall j :: 0 <= j < i ==> assemble(raw[j]).Ok?
  {
    if raw == [] then Ok([])
    else
      var init := raw[..|raw| - 1];
      var recs :- ParseAll(init, assemble);
      var rec :- assemble(raw[|raw| - 1]);
      Ok(recs + [rec])
  }

  /** The aggregation: the records merged in order. */
  function MergeAll(books: map<string, BookState>, recs: seq<Record>): map<string, BookState> {
    if recs == [] then books
    else Merge(MergeAll(books, recs[..|recs| - 1]), recs[|recs| - 1])
  }

  /** The three stages: split, assemble every record, merge. */
  function Staged(lines: seq<Line>, assemble: Assembler): Result<State> {
    var p := Split(lines);
    var recs :- ParseAll(p.0, assemble);
    Ok(State(MergeAll(map[], recs), p.1))
  }

  /** The loop computes the three stages: the records it assembles are
      the splitter's, and what it leaves in `record` is the dropped tail. */
  lemma {:induction false} RunSplit(lines: seq<Line>, assemble: Assembler)
    ensures Run(Present(lines), assemble) == Staged(lines, assemble)
  {
    if lines != [] {
      var init := lines[..|lines| - 1];
      assert Present(lines)[..|lines| - 1] == Present(init);
      RunSplit(init, assemble);
      var p := Split(init);
      if lines[|lines| - 1].DividerLine? && ParseAll(p.0, assemble).Ok? {
        var raw := p.0 + [p.1];
        assert raw[..|raw| - 1] == p.0;
        var recs := ParseAll(p.0, assemble).value;
        if assemble(p.1).Ok? {
          var all := recs + [assemble(p.1).value];
          assert all[..|all| - 1] == recs;
        }
      }
    }
  }

  /** `parse` on a file whose every line decodes: the books are the
      splitter's records, each assembled, merged in file order; the lines
      after the last divider play no part. */
  lemma ParseStaged(lines: seq<seq<byte>>, decode: seq<byte> -> Option<string>, syntax: Syntax, ls: seq<Line>)
    requires LexAll(SkipPreamble(lines), decode) == Present(ls)
    ensures ParseSpec(lines, decode, syntax).Ok? <==> ParseAll(Split(ls).0, Assemble(syntax)).Ok?
    ensures ParseSpec(lines, decode, syntax).Ok? ==>
              ParseSpec(lines, decode, syntax).value == MergeAll(map[], ParseAll(Split(ls).0, Assemble(syntax)).value)
  {
    RunSplit(ls, Assemble(syntax));
  }

  // ---- What the merge produces ----------------------------------------------

  /** The clippings of the records titled `t`, in order. */
  function ClipsFor(recs: seq<Record>, t: string): (r: seq<Clip>)
    ensures (forall i :: 0 <= i < |recs| ==> recs[i].title != t) ==> r == []
  {
    if recs == [] then []
    else
      var last := recs[|recs| - 1];
      ClipsFor(recs[..|recs| - 1], t) + (if last.title == t then [last.clip] else [])
  }

  predicate HasTitle(recs: seq<Record>, t: string) {
    exists i :: 0 <= i < |recs| && recs[i].title == t
  }

  /** The books after merging are the earlier ones and one per new title. */
  lemma {:induction false} MergeAllKeys(books: map<string, BookState>, recs: seq<Record>)
    ensures forall t :: t in MergeAll(books, recs) <==> t in books || HasTitle(recs, t)
  {
    if recs != [] {
      var init := recs[..|recs| - 1];
      MergeAllKeys(books, init);
      forall t ensures HasTitle(recs, t) <==> HasTitle(init, t) || recs[|recs| - 1].title == t {
        if HasTitle(init, t) {
          var i :| 0 <= i < |init| && init[i].title == t;
          assert recs[i] == init[i];
        }
        if HasTitle(recs, t) && recs[|recs| - 1].title != t {
          var i :| 0 <= i < |recs| && recs[i].title == t;
          assert init[i] == recs[i];
        }
      }
    }
  }

  /** Each book's clippings are the ones it had, then those of the records
      with its title, in file order. */
  lemma {:induction false} MergeAllClips(books: map<string, BookState>, recs: seq<Record>, t: string)
    requires t in MergeAll(books, recs)
    ensures MergeAll(books, recs)[t].clips == (if t in books then books[t].clips else []) + ClipsFor(recs, t)
  {
    if recs == [] {
    } else {
      var init := recs[..|recs| - 1];
      var last := recs[|recs| - 1];
      if t in MergeAll(books, init) {
        MergeAllClips(books, init, t);
      } else {
        MergeAllKeys(books, init);
        assert forall i :: 0 <= i < |init| ==> init[i].title != t;
      }
    }
  }

  /** A book's attribution is the one it started with: a book that existed
      keeps its own, a new one takes that of the first record with its
      title. */
  lemma {:induction false} MergeAllAttribution(books: map<string, BookState>, recs: seq<Record>, i: nat)
    requires i < |recs| && recs[i].title !in books
    requires forall j :: 0 <= j < i ==> recs[j].title != recs[i].title
    ensures recs[i].title in MergeAll(books, recs)
    ensures MergeAll(books, recs)[recs[i].title].attribution == recs[i].attribution
  {
    MergeAllKeys(books, recs);
    var init := recs[..|recs| - 1];
    if i < |recs| - 1 {
      assert init[i] == recs[i];
      MergeAllAttribution(books, init, i);
    } else {
      MergeAllKeys(books, init);
      assert !HasTitle(init, recs[i].title);
    }
  }

  lemma {:induction false} MergeAllKeepsAttribution(books: map<string, BookState>, recs: seq<Record>, t: string)
    requires t in books
    ensures t in MergeAll(books, recs) && MergeAll(books, recs)[t].attribution == books[t].attribution
  {
    if recs != [] {
      MergeAllKeepsAttribution(books, recs[..|recs| - 1], t);
    }
  }

  /** A file holding one record and its divider gives one book with one
      clipping, filed under the record's title. */
  lemma OneRecord(ls: seq<Line>, assemble: Assembler)
    requires CountDividers(ls) == 0 && assemble(Kept(ls)).Ok?
    ensures Run(Present(ls + [DividerLine]), assemble)
         == Ok(State(map[assemble(Kept(ls)).value.title :=
                         BookState(assemble(Kept(ls)).value.attribution, [assemble(Kept(ls)).value.clip])], []))
  {
    var lines := ls + [DividerLine];
    var rec := assemble(Kept(ls)).value;
    RunSplit(lines, assemble);
    assert Split(lines) == ([Kept(ls)], []) by {
      SplitWithoutDivider(ls);
      assert lines[..|lines| - 1] == ls;
    }
    assert ParseAll([Kept(ls)], assemble) == Ok([rec]);
    assert MergeAll(map[], [rec]) == Merge(map[], rec) by {
      assert [rec][..0] == [];
    }
  }

  /** Two records with the same title make one book: the first record's
      attribution, both clippings in file order. */
  lemma SameTitleMerged(r1: Record, r2: Record)
    requires r1.title == r2.title
    ensures MergeAll(map[], [r1, r2]) == map[r1.title := BookState(r1.attribution, [r1.clip, r2.clip])]
  {
    assert [r1, r2][..1] == [r1];
    assert [r1][..0] == [];
    var first := Merge(map[], r1);
    assert MergeAll(map[], [r1]) == first;
    assert first == map[r1.title := BookState(r1.attribution, [r1.clip])];
    assert [r1.clip] + [r2.clip] == [r1.clip, r2.clip];
  }

  // ---- Counting clippings ---------------------------------------------------

  /** The number of clippings over all books. */
  ghost function TotalClips(m: map<string, BookState>): nat
    decreases |m.Keys|
  {
    if m == map[] then 0
    else
      var t :| t in m;
      assert |(m - {t}).Keys| < |m.Keys| by {
        assert m.Keys == (m - {t}).Keys + {t};
      }
      |m[t].clips| + TotalClips(m - {t})
  }

  /** The total does not depend on which book is counted first. */
  lemma {:induction false} TotalClipsRemove(m: map<string, BookState>, t: string)
    requires t in m
    ensures TotalClips(m) == |m[t].clips| + TotalClips(m - {t})
    decreases |m.Keys|
  {
    var u :| u in m && TotalClips(m) == |m[u].clips| + TotalClips(m - {u});
    if u != t {
      assert m.Keys == (m - {u}).Keys + {u};
      assert m.Keys == (m - {t}).Keys + {t};
      TotalClipsRemove(m - {u}, t);
      TotalClipsRemove(m - {t}, u);
      assert m - {u} - {t} == m - {t} - {u};
    }
  }

  /** Merging a record adds exactly one clipping. */
  lemma MergeTotal(books: map<string, BookState>, rec: Record)
    ensures TotalClips(Merge(books, rec)) == TotalClips(books) + 1
  {
    var m := Merge(books, rec);
    TotalClipsRemove(m, rec.title);
    if rec.title in books {
      TotalClipsRemove(books, rec.title);
      assert m - {rec.title} == books - {rec.title};
    } else {
      assert m - {rec.title} == books;
    }
  }

  lemma {:induction false} MergeAllTotal(books: map<string, BookState>, recs: seq<Record>)
    ensures TotalClips(MergeAll(books, recs)) == TotalClips(books) + |recs|
  {
    if recs != [] {
      MergeAllTotal(books, recs[..|recs| - 1]);
      MergeTotal(MergeAll(books, recs[..|recs| - 1]), recs[|recs| - 1]);
    }
  }

  /** A parse that succeeds holds one clipping per divider line. */
  lemma ClipsPerDivider(lines: seq<Line>, assemble: Assembler)
    requires Run(Present(lines), assemble).Ok?
    ensures TotalClips(Run(Present(lines), assemble).value.books) == CountDividers(lines)
  {
    RunSplit(lines, assemble);
    MergeAllTotal(map[], ParseAll(Split(lines).0, assemble).value);
    assert TotalClips(map[]) == 0;
  }

  // ---- The loop over Book objects -------------------------------------------

  /** The books as values. */
  ghost function View(books: map<string, Book>): (m: map<string, BookState>)
    reads books.Values
    ensures m.Keys == books.Keys
  {
    map t | t in books :: BookState(books[t].attribution, books[t].clippings)
  }

  /** Each book is filed under its own title, and no book under two. */
  predicate Keyed(books: map<string, Book>) {
    (forall t :: t in books ==> books[t].title == t)
    && (forall t, u :: t in books && u in books && t != u ==> books[t] != books[u])
  }

  /** The merge on objects (kclip.py:205-208): `_parse_record`'s new book
      is dropped when its title is known, and the clipping is appended to
      the book filed under that title. */
  method MergeInto(books: map<string, Book>, rec: Record) returns (result: map<string, Book>)
    requires Keyed(books)
    modifies books.Values
    ensures Keyed(result)
    ensures View(result) == Merge(old(View(books)), rec)
    ensures forall t :: t in result ==> (t in books && result[t] == books[t]) || fresh(result[t])
  {
    ghost var before := View(books);
    var book := new Book(rec.title, rec.attribution);
    if book.title in books {
      book := books[book.title];
    }
    book.Append(rec.clip);
    result := books[book.title := book];
    forall t | t in result ensures View(result)[t] == Merge(before, rec)[t] {
      if t != rec.title {
        assert result[t] == books[t] != book;
      }
    }
  }

  /** The body of `parse`'s loop for a decoded line: a divider
      assembles the collected lines and merges the result into `books`,
      any other line is collected trimmed. */
  method Consume(books: map<string, Book>, record: seq<string>, text: string, syntax: Syntax)
    returns (r: Result<(map<string, Book>, seq<string>)>)
    requires Keyed(books)
    modifies books.Values
    ensures r.Err? ==> Step(State(old(View(books)), record), Some(Classify(text)), Assemble(syntax)) == Err(r.error)
    ensures r.Ok? ==> Step(State(old(View(books)), record), Some(Classify(text)), Assemble(syntax))
                      == Ok(State(View(r.value.0), r.value.1))
    ensures r.Ok? ==> Keyed(r.value.0)
    ensures r.Ok? ==> forall t :: t in r.value.0 ==> (t in books && r.value.0[t] == books[t]) || fresh(r.value.0[t])
  {
    if Strip(text) == Divider {
      var parsed := ParseRecord(record, syntax);
      if parsed.Err? {
        return Err(parsed.error);
      }
      var merged := MergeInto(books, parsed.value);
      r := Ok((merged, []));
    } else {
      r := Ok((books, record + [Strip(text)]));
    }
  }

  /** `parse`: the loop over the lines, updating `books` and `record`. The
      result is `ParseSpec`'s, held in one `Book` per title, each new. */
  method Parse(lines: seq<seq<byte>>, decode: seq<byte> -> Option<string>, syntax: Syntax)
    returns (r: Result<map<string, Book>>)
    ensures r.Ok? <==> ParseSpec(lines, decode, syntax).Ok?
    ensures r.Err? ==> r.error == ParseSpec(lines, decode, syntax).error
    ensures r.Ok? ==> View(r.value) == ParseSpec(lines, decode, syntax).value
    ensures r.Ok? ==> Keyed(r.value)
    ensures r.Ok? ==> forall t :: t in r.value ==> fresh(r.value[t])
  {
    var input := SkipPreamble(lines);
    ghost var lexed := LexAll(input, decode);
    var books: map<string, Book> := map[];
    var record: seq<string> := [];
    var i := 0;
    assert lexed[..0] == [];
    while i < |input|
      invariant 0 <= i <= |input|
      invariant Run(lexed[..i], Assemble(syntax)) == Ok(State(View(books), record))
      invariant Keyed(books)
      invariant forall t :: t in books ==> fresh(books[t])
    {
      ghost var st := State(View(books), record);
      var text := decode(input[i]);
      if text.None? {
        RunFails(lexed, i, Assemble(syntax), st, Undecodable);
        return Err(Undecodable);
      }
      assert lexed[i] == Some(Classify(text.value));
      var next := Consume(books, record, text.value, syntax);
      if next.Err? {
        RunFails(lexed, i, Assemble(syntax), st, next.error);
        return Err(next.error);
      }
      RunAfter(lexed, i, Assemble(syntax), st);
      books, record := next.value.0, next.value.1;
      i := i + 1;
    }
    assert lexed[..i] == lexed;
    r := Ok(books);
  }
}
