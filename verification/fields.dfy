/** The field extractors of the default syntax: each takes one line of a
    record and returns one field of a clipping, or fails (kclip.py:86-138).
    The date extractor lives in module Dates. */
module Fields {
  import opened Base
  import opened PyStr
  import opened Regex

  // ---------------------------------------------------------------------
  // Title and attribution: "<Title> (<Attribution>)" or a bare title.
  // ---------------------------------------------------------------------

  /** `parse_title`: the stripped line up to the last " (" when it ends in
      ")", else the whole stripped line. The cut index is searched in the
      UNSTRIPPED line and applied to the stripped one, as the source does. */
  function ParseTitle(titleMeta: string): (r: Result<string>)
    ensures r.Err? <==> Strip(titleMeta) == []
    ensures r.Err? ==> r.error == EmptyLine
    ensures r.Ok? && Strip(titleMeta)[|Strip(titleMeta)| - 1] != ')' ==> r.value == Strip(titleMeta)
  {
    var stripped := Strip(titleMeta);
    if stripped == [] then Err(EmptyLine)
    else if stripped[|stripped| - 1] == ')' then Ok(Slice(stripped, 0, RFind(titleMeta, " (")))
    else Ok(stripped)
  }

  /** `parse_attribution`: the text between the last " (" and the last ")"
      when the stripped line ends in ")", else no attribution. */
  function ParseAttribution(titleMeta: string): (r: Result<Option<string>>)
    ensures r.Err? <==> Strip(titleMeta) == []
    ensures r.Err? ==> r.error == EmptyLine
    ensures r.Ok? ==> (r.value.Some? <==> Strip(titleMeta)[|Strip(titleMeta)| - 1] == ')')
  {
    var stripped := Strip(titleMeta);
    if stripped == [] then Err(EmptyLine)
    else if stripped[|stripped| - 1] == ')' then
      Ok(Some(Slice(titleMeta, RFind(titleMeta, " (") + 2, RFind(titleMeta, ")"))))
    else Ok(None)
  }

  /** On a trimmed line "<t> (<a>)", title, " (", attribution and ")"
      put back together give the line again. */
  lemma TitleAttributionRejoin(line: string)
    requires Strip(line) == line && line != [] && line[|line| - 1] == ')'
    requires RFind(line, " (") != -1
    ensures ParseTitle(line).Ok? && ParseAttribution(line).Ok? && ParseAttribution(line).value.Some?
    ensures ParseTitle(line).value + " (" + ParseAttribution(line).value.value + ")" == line
  {
    var k := RFind(line, " (");
    assert line[k..k + 2] == " (";
    assert line[k + 1] == line[k..k + 2][1] == '(';
    var j := RFind(line, ")");
    assert At(line, ")", |line| - 1);
    assert j == |line| - 1;
    assert k + 2 <= j;
    assert line == line[..k] + " (" + line[k + 2..j] + ")";
  }

  /** No " (" is found after the one that opens the attribution. */
  lemma LastOpening(t: string, a: string)
    requires forall i :: !At(a, " (", i)
    ensures RFind(t + " (" + a + ")", " (") == |t|
  {
    var line := t + " (" + a + ")";
    assert line[|t|..|t| + 2] == " (";
    assert At(line, " (", |t|);
    forall i | |t| < i ensures !At(line, " (", i) {
      if i == |t| + 1 {
        assert line[i] == '(';
      } else if |t| + 2 <= i < |line| - 2 {
        var j := i - |t| - 2;
        assert line[i..i + 2] == a[j..j + 2];
        assert !At(a, " (", j);
      } else if i == |line| - 2 {
        assert line[i + 1] == ')';
      }
    }
  }

  /** The last ")" of a line that ends in one is its last character. */
  lemma LastClosing(line: string)
    requires line != [] && line[|line| - 1] == ')'
    ensures RFind(line, ")") == |line| - 1
  {
    assert line[|line| - 1..] == ")";
    assert At(line, ")", |line| - 1);
  }

  /** What `strip` leaves of "<t> (<a>)" when `t` does not start with
      whitespace: the whole line, or without its leading blank when `t` is
      empty. */
  lemma StripTitleLine(t: string, a: string)
    requires t == [] || !IsSpace(t[0])
    ensures Strip(t + " (" + a + ")") == if t == [] then "(" + a + ")" else t + " (" + a + ")"
  {
    var line := t + " (" + a + ")";
    if t == [] {
      assert line == [' '] + ("(" + a + ")") + [];
      StripOf([' '], "(" + a + ")", []);
    } else {
      assert line == [] + line + [];
      assert line[0] == t[0];
      StripOf([], line, []);
    }
  }

  /** Title and attribution of a line built as "<t> (<a>)": when `t` does not
      start with whitespace and `a` holds no " (", both come back unchanged. */
  lemma TitleAttributionOf(t: string, a: string)
    requires t == [] || !IsSpace(t[0])
    requires forall i :: !At(a, " (", i)
    ensures ParseTitle(t + " (" + a + ")") == Ok(t)
    ensures ParseAttribution(t + " (" + a + ")") == Ok(Some(a))
  {
    TitleOf(t, a);
    AttributionOf(t, a);
  }

  lemma TitleOf(t: string, a: string)
    requires t == [] || !IsSpace(t[0])
    requires forall i :: !At(a, " (", i)
    ensures ParseTitle(t + " (" + a + ")") == Ok(t)
  {
    var line := t + " (" + a + ")";
    LastOpening(t, a);
    StripTitleLine(t, a);
    var stripped := Strip(line);
    assert stripped != [] && stripped[|stripped| - 1] == ')';
    if t != [] {
      assert stripped[..|t|] == t;
    }
  }

  lemma AttributionOf(t: string, a: string)
    requires t == [] || !IsSpace(t[0])
    requires forall i :: !At(a, " (", i)
    ensures ParseAttribution(t + " (" + a + ")") == Ok(Some(a))
  {
    var line := t + " (" + a + ")";
    LastOpening(t, a);
    LastClosing(line);
    StripTitleLine(t, a);
    var stripped := Strip(line);
    assert stripped != [] && stripped[|stripped| - 1] == ')';
    assert line[|t| + 2..|line| - 1] == a;
  }

  /** A trimmed line that does not end in ")" is all title and has no
      attribution. */
  lemma BareTitle(line: string)
    requires Strip(line) == line && line != [] && line[|line| - 1] != ')'
    ensures ParseTitle(line) == Ok(line) && ParseAttribution(line) == Ok(None)
  {
  }

  /** A line that ends in ")" but holds no " (": `rfind` gives -1, so the
      title loses its last character and the attribution starts at index 1. */
  lemma ClosingWithoutOpening(line: string)
    requires Strip(line) == line && line != [] && line[|line| - 1] == ')'
    requires forall i :: !At(line, " (", i)
    ensures ParseTitle(line) == Ok(line[..|line| - 1])
    ensures ParseAttribution(line) == Ok(Some(Slice(line, 1, |line| - 1)))
  {
    assert RFind(line, " (") == -1;
    assert At(line, ")", |line| - 1);
    assert RFind(line, ")") == |line| - 1;
  }

  lemma NoOpening(a: string)
    requires '(' !in a
    ensures forall i :: !At(a, " (", i)
  {
    forall i ensures !At(a, " (", i) {
      if 0 <= i && i + 2 <= |a| {
        assert a[i..i + 2][1] == a[i + 1];
      }
    }
  }

  /** The first doctest of `parse_title`: a line with no attribution. The
      literal is written as two pieces only to keep the proof small; the
      concatenation is the doctest's line. */
  lemma BareTitleExample()
    ensures ParseTitle("Bertrand Russell - " + "Proposed Roads To Freedom")
         == Ok("Bertrand Russell - " + "Proposed Roads To Freedom")
    ensures ParseAttribution("Bertrand Russell - " + "Proposed Roads To Freedom") == Ok(None)
  {
    var bare := "Bertrand Russell - " + "Proposed Roads To Freedom";
    assert bare[0] == 'B' && bare[|bare| - 1] == 'm';
    StripOf([], bare, []);
    assert [] + bare + [] == bare;
    BareTitle(bare);
  }

  /** The second doctests of `parse_title` and `parse_attribution`. */
  lemma AttributedTitleExample()
    ensures ParseTitle("Goethe_s_opinions_on_the_world_mankind_l" + " (" + "Johann Wolfgang von Goethe" + ")")
         == Ok("Goethe_s_opinions_on_the_world_mankind_l")
    ensures ParseAttribution("Goethe_s_opinions_on_the_world_mankind_l" + " (" + "Johann Wolfgang von Goethe" + ")")
         == Ok(Some("Johann Wolfgang von Goethe"))
  {
    var t, a := "Goethe_s_opinions_on_the_world_mankind_l", "Johann Wolfgang von Goethe";
    NoOpening(a);
    assert !IsSpace(t[0]);
    TitleAttributionOf(t, a);
  }

  // ---------------------------------------------------------------------
  // Clip type: the first allowed type that begins the type field.
  // ---------------------------------------------------------------------

  /** The types `parse_type` tries, in its order. */
  const AllowedTypes: seq<string> := ["Bookmark", "Note", "Highlight"]

  /** `meta[2:meta.find('|')]`: between "- " and the first "|"; with no "|"
      the bound -1 cuts off the last character instead. */
  function TypeField(meta: string): (r: string)
    ensures Find(meta, "|") >= 2 ==> r == meta[2..Find(meta, "|")]
    ensures 0 <= Find(meta, "|") < 2 ==> r == []
    ensures Find(meta, "|") == -1 ==> r == if |meta| >= 3 then meta[2..|meta| - 1] else []
  {
    Slice(meta, 2, Find(meta, "|"))
  }

  /** `parse_type`: the first of Bookmark, Note, Highlight that begins the
      type field; UnrecognizedClipType when none does. */
  function ParseType(meta: string): (r: Result<string>)
    ensures r.Ok? ==> r.value in AllowedTypes && StartsWith(TypeField(meta), r.value)
    ensures r.Ok? ==> forall j :: 0 <= j < |AllowedTypes| && AllowedTypes[j] == r.value ==>
                        forall i :: 0 <= i < j ==> !StartsWith(TypeField(meta), AllowedTypes[i])
    ensures r.Err? <==> forall t :: t in AllowedTypes ==> !StartsWith(TypeField(meta), t)
    ensures r.Err? ==> r.error == UnrecognizedClipType
  {
    match FirstPrefix(TypeField(meta), AllowedTypes)
    case Some(i) => Ok(AllowedTypes[i])
    case None => Err(UnrecognizedClipType)
  }

  /** The type field of "- <type>...|..." begins with the type. */
  lemma TypeFieldOf(ty: string, rest: string)
    requires ty in AllowedTypes && '|' in rest
    ensures StartsWith(TypeField("- " + ty + rest), ty)
  {
    var meta := "- " + ty + rest;
    var j :| 0 <= j < |rest| && rest[j] == '|';
    assert At(meta, "|", 2 + |ty| + j) by { assert meta[2 + |ty| + j] == rest[j]; }
    var f := Find(meta, "|");
    forall i | 0 <= i < 2 + |ty| ensures !At(meta, "|", i) {
      assert meta[i] != '|' by {
        if i < 2 { assert meta[i] == "- "[i]; } else { assert meta[i] == ty[i - 2]; }
      }
      assert meta[i..i + 1][0] == meta[i];
    }
    assert f != -1 && 2 + |ty| <= f <= |meta|;
    var field := TypeField(meta);
    assert field == meta[2..f];
    assert field[..|ty|] == meta[2..2 + |ty|] == ty;
  }

  /** The allowed types differ in their first letter, so at most one of
      them begins a field. */
  lemma OneTypeStarts(field: string, ty: string)
    requires ty in AllowedTypes && StartsWith(field, ty)
    ensures forall t :: t in AllowedTypes && StartsWith(field, t) ==> t == ty
  {
    forall t | t in AllowedTypes && StartsWith(field, t) ensures t == ty {
      assert t[0] == field[..|t|][0] == field[0] == field[..|ty|][0] == ty[0];
    }
  }

  /** A detail line "- <type>..." with a "|" after the type yields that type. */
  lemma TypeOfLine(ty: string, rest: string)
    requires ty in AllowedTypes && '|' in rest
    ensures ParseType("- " + ty + rest) == Ok(ty)
  {
    TypeFieldOf(ty, rest);
    OneTypeStarts(TypeField("- " + ty + rest), ty);
  }

  /** A type field starting with none of B, N, H is refused. */
  lemma UnknownTypeRejected(meta: string)
    requires |meta| > 2 && meta[2] != 'B' && meta[2] != 'N' && meta[2] != 'H'
    ensures ParseType(meta) == Err(UnrecognizedClipType)
  {
    var field := TypeField(meta);
    if field != [] {
      assert field[0] == meta[2];
    }
    forall t | t in AllowedTypes ensures !StartsWith(field, t) {
      if |t| <= |field| { assert field[..|t|][0] == field[0]; }
    }
  }

  // ---------------------------------------------------------------------
  // Location: the pattern  - \w+ (Loc.|on Page) (\d+(-\d+)?)\s+\|
  // ---------------------------------------------------------------------

  /** The parts of a successful match of the location pattern. */
  datatype LocationMatch = LocationMatch(word: string, unit: string, first: string, last: Option<string>, gap: string)
  {
    /** Each part matches its piece of the pattern. */
    predicate Valid() {
      && IsRun(word, IsWordChar)
      && IsUnit(unit)
      && IsRun(first, IsDigit) && (last.Some? ==> IsRun(last.value, IsDigit))
      && IsRun(gap, IsRegexSpace)
    }

    /** Group 2: the number or the range "n-m". */
    function Range(): string {
      first + Dash()
    }

    /** `' '.join(m.groups()[:2])`, less a leading "on ". */
    function Value(): string {
      var loc := unit + " " + Range();
      if Slice(loc, 0, 3) == "on " then loc[3..] else loc
    }

    function Dash(): string {
      if last.Some? then "-" + last.value else ""
    }

    /** A line that starts with the text this match consumed and goes on
        with `rest`. */
    function Line(rest: string): string {
      "- " + (word + (" " + (unit + (" " + (first + (Dash() + (gap + ("|" + rest))))))))
    }
  }

  /** `Loc.` (any character but a newline in place of the dot) or `on Page`. */
  predicate IsUnit(u: string) {
    u == "on Page" || (|u| == 4 && u[..3] == "Loc" && u[3] != '\n')
  }

  /** The first alternative of group 1, tried before the second. */
  function Unit(s: string): (r: Option<(string, string)>)
    ensures r.Some? ==> IsUnit(r.value.0) && s == r.value.0 + r.value.1
  {
    if |s| >= 4 && s[..3] == "Loc" && s[3] != '\n' then
      assert s == s[..4] + s[4..] && s[..4][..3] == s[..3];
      Some((s[..4], s[4..]))
    else if StartsWith(s, "on Page") then
      assert s == s[..7] + s[7..];
      Some(("on Page", s[7..]))
    else None
  }

  lemma UnitOf(u: string, rest: string)
    requires IsUnit(u)
    ensures Unit(u + rest) == Some((u, rest))
  {
    var s := u + rest;
    assert s[..|u|] == u;
    if u == "on Page" {
      assert s[0] == 'o';
      assert s[..3] != "Loc" by { assert s[..3][0] == 'o'; }
    } else {
      assert s[..4][..3] == s[..3];
    }
    assert s[|u|..] == rest;
  }

  /** The optional group `(-\d+)?`, taken when it matches. Should what
      follows it then fail, dropping it would leave a "-" that `\s` cannot
      match either, so taking it is never wrong. */
  function Dash(s: string): (r: (Option<string>, string))
    ensures r.0.Some? ==> IsRun(r.0.value, IsDigit) && s == "-" + (r.0.value + r.1)
    ensures r.0.Some? ==> r.1 == [] || !IsDigit(r.1[0])
    ensures r.0.None? ==> r.1 == s
  {
    match Skip(s, "-")
    case None => (None, s)
    case Some(t) =>
      match Run(t, IsDigit)
      case None => (None, s)
      case Some(d) => (Some(d.0), d.1)
  }

  /** The pattern's tail `(\d+(-\d+)?)\s+\|`: the number, the optional
      end of the range, the whitespace, and the text after the bar. */
  /** The dash and last page `Dash` takes off, put back before the text
      after them, give the text again. */
  lemma DashSplits(s: string, after: string)
    requires Dash(s).1 == after
    ensures s == (if Dash(s).0.Some? then "-" + Dash(s).0.value else "") + after
  {
    var d := Dash(s);
    if d.0.Some? {
      assert s == "-" + (d.0.value + d.1);
    }
  }

  function MatchRange(s: string): (r: Option<(string, Option<string>, string, string)>)
    ensures r.Some? ==> IsRun(r.value.0, IsDigit) && IsRun(r.value.2, IsRegexSpace)
    ensures r.Some? && r.value.1.Some? ==> IsRun(r.value.1.value, IsDigit)
    ensures r.Some? ==>
      s == r.value.0 + ((if r.value.1.Some? then "-" + r.value.1.value else "") + (r.value.2 + ("|" + r.value.3)))
  {
    var n :- Run(s, IsDigit);
    var d := Dash(n.1);
    var g :- Run(d.1, IsRegexSpace);
    var rest :- Skip(g.1, "|");
    DashSplits(n.1, g.0 + ("|" + rest));
    Some((n.0, d.0, g.0, rest))
  }

  lemma MatchRangeOf(first: string, last: Option<string>, gap: string, rest: string)
    requires IsRun(first, IsDigit) && (last.Some? ==> IsRun(last.value, IsDigit)) && IsRun(gap, IsRegexSpace)
    ensures MatchRange(first + ((if last.Some? then "-" + last.value else "") + (gap + ("|" + rest))))
         == Some((first, last, gap, rest))
  {
    var s7 := "|" + rest;
    var s6 := gap + s7;
    var s5 := (if last.Some? then "-" + last.value else "") + s6;
    RunOf(gap, s7, IsRegexSpace);
    if last.Some? {
      assert s5 == "-" + (last.value + s6);
      RunOf(last.value, s6, IsDigit);
      assert Dash(s5) == (last, s6);
    } else {
      assert s5 == s6;
      assert Dash(s5) == (None, s6);
    }
    RunOf(first, s5, IsDigit);
  }

  /** `re.match` of the location pattern: the match and the text after it.
      Every repetition in the pattern is followed by a character its class
      excludes, so backtracking never changes the outcome and each run is
      taken whole. */
  function MatchLocation(meta: string): (r: Option<(LocationMatch, string)>)
    ensures r.Some? ==> r.value.0.Valid() && meta == r.value.0.Line(r.value.1)
  {
    var s0 :- Skip(meta, "- ");
    var w :- Run(s0, IsWordChar);
    var s2 :- Skip(w.1, " ");
    var u :- Unit(s2);
    var s4 :- Skip(u.1, " ");
    var t :- MatchRange(s4);
    Some((LocationMatch(w.0, u.0, t.0, t.1, t.2), t.3))
  }

  /** Every valid match is found, with the text after it: together with the
      postcondition of MatchLocation, the matcher accepts exactly the lines
      that start with a valid match. */
  lemma MatchLocationOf(m: LocationMatch, rest: string)
    requires m.Valid()
    ensures MatchLocation(m.Line(rest)) == Some((m, rest))
  {
    var s4 := m.first + (m.Dash() + (m.gap + ("|" + rest)));
    var s2 := m.unit + (" " + s4);
    var s0 := m.word + (" " + s2);
    assert m.Line(rest) == "- " + s0;
    SkipOf("- ", s0);
    RunOf(m.word, " " + s2, IsWordChar);
    SkipOf(" ", s2);
    UnitOf(m.unit, " " + s4);
    SkipOf(" ", s4);
    MatchRangeOf(m.first, m.last, m.gap, rest);
    assert MatchRange(s4) == Some((m.first, m.last, m.gap, rest));
  }

  /** `parse_location`: group 1 and group 2 joined by a space, with a
      leading "on " cut off; no match is MalformedLocation. */
  function ParseLocation(meta: string): (r: Result<string>)
    ensures r.Err? <==> MatchLocation(meta).None?
    ensures r.Err? ==> r.error == MalformedLocation
  {
    match MatchLocation(meta)
    case None => Err(MalformedLocation)
    case Some(found) => Ok(found.0.Value())
  }

  /** What a match yields: "Loc.<n>[-<m>]" keeps its unit, "on Page <n>"
      becomes "Page <n>". */
  lemma ValueOf(m: LocationMatch)
    requires IsUnit(m.unit)
    ensures m.unit == "on Page" ==> m.Value() == "Page " + m.Range()
    ensures m.unit != "on Page" ==> m.Value() == m.unit + " " + m.Range()
  {
    var loc := m.unit + " " + m.Range();
    if m.unit == "on Page" {
      assert loc == "on " + ("Page " + m.Range());
      assert loc[..3] == "on ";
    } else {
      assert loc[..3] == m.unit[..3];
    }
  }

  /** The value of a location clause, by its unit. */
  lemma LocationOf(m: LocationMatch, rest: string)
    requires m.Valid()
    ensures m.unit == "on Page" ==> ParseLocation(m.Line(rest)) == Ok("Page " + m.Range())
    ensures m.unit != "on Page" ==> ParseLocation(m.Line(rest)) == Ok(m.unit + " " + m.Range())
  {
    MatchLocationOf(m, rest);
    ValueOf(m);
  }

  /** A line is refused exactly when no valid match starts it. */
  lemma LocationRejected(meta: string)
    requires ParseLocation(meta).Err?
    ensures forall m: LocationMatch, rest: string :: m.Valid() ==> meta != m.Line(rest)
  {
    forall m: LocationMatch, rest: string | m.Valid() ensures meta != m.Line(rest) {
      MatchLocationOf(m, rest);
    }
  }
}
