/** The doctests of the field extractors (kclip.py:87-147), each as a
    lemma about the model's extractor on the same line. */
module Examples {
  import opened Base
  import opened Fields
  import opened Dates

  /** The three detail lines of the doctests, each as its head up to
      "Added on " and its date text. The verifier compares string literals
      character by character, so long lines are costly to reason about:
      the lines are kept in pieces, and lemmas about one field hold for any
      text after that field, the doctest's own text being one instance. */
  const HighlightHead: string := "- Highlight Loc. 503  | "
  const HighlightDate: string := Spelled("Wednesday", "January", "05", "2011", ", 12:57 AM")
  const BookmarkHead: string := "- Bookmark Loc. 3426  | "
  const BookmarkDate: string := Spelled("Sunday", "December", "19", "2010", ", 08:15 PM")
  const NoteHead: string := "- Note Loc. 1625  | "
  const NoteDate: string := Spelled("Thursday", "November", "22", "2012", ", 12:37 PM")
  const PageHead: string := "- Note on Page 29 | "

  /** A date text with its parts spelled out: "Wednesday, January 05,
      2011" followed by the clock. */
  function Spelled(weekday: string, month: string, day: string, year: string, clock: string): string {
    weekday + ("," + (" " + (month + (" " + (day + ("," + (" " + (year + clock))))))))
  }

  /** A detail line: its head, "Added on " and the date text. */
  function Meta(head: string, date: string): string {
    head + ("Added on " + date)
  }

  /** `parse_type`, first doctest (kclip.py:109-110),
      whatever date follows. */
  lemma HighlightType(date: string)
    ensures ParseType(Meta(HighlightHead, date)) == Ok("Highlight")
  {
    var rest := " Loc. 503  | " + ("Added on " + date);
    assert rest[11] == '|';
    assert HighlightHead == "- " + "Highlight" + " Loc. 503  | ";
    assert Meta(HighlightHead, date) == "- " + "Highlight" + rest;
    TypeOfLine("Highlight", rest);
  }

  /** `parse_type`, second doctest (kclip.py:111-112),
      whatever date follows. */
  lemma BookmarkType(date: string)
    ensures ParseType(Meta(BookmarkHead, date)) == Ok("Bookmark")
  {
    var rest := " Loc. 3426  | " + ("Added on " + date);
    assert rest[12] == '|';
    assert BookmarkHead == "- " + "Bookmark" + " Loc. 3426  | ";
    assert Meta(BookmarkHead, date) == "- " + "Bookmark" + rest;
    TypeOfLine("Bookmark", rest);
  }

  /** `parse_type`, third doctest (kclip.py:113-114),
      whatever date follows. */
  lemma NoteType(date: string)
    ensures ParseType(Meta(NoteHead, date)) == Ok("Note")
  {
    var rest := " Loc. 1625  | " + ("Added on " + date);
    assert rest[12] == '|';
    assert NoteHead == "- " + "Note" + " Loc. 1625  | ";
    assert Meta(NoteHead, date) == "- " + "Note" + rest;
    TypeOfLine("Note", rest);
  }

  /** The location clause of the page doctest, before any text. The two
      lemmas below state the clauses once, so that the location lemmas do
      not unfold the long literals again. */
  lemma PageLine(rest: string)
    ensures LocationMatch("Note", "on Page", "29", None, " ").Line(rest) == "- Note on Page 29 |" + rest
  {
  }

  lemma LocLine(rest: string)
    ensures LocationMatch("Note", "Loc.", "1625", None, "  ").Line(rest) == "- Note Loc. 1625  |" + rest
  {
  }

  /** The value of the Loc. doctest: its unit, a space and its range, the
      range being the first number followed by no dash ("1625" + ""). */
  lemma LocText(s: string)
    requires s == "Loc." + " " + ("1625" + "")
    ensures s == "Loc. 1625"
  {
  }

  /** `parse_location`, first doctest (kclip.py:125-126), whatever
      follows the bar. */
  lemma PageLocation(after: string)
    ensures ParseLocation(PageHead + after) == Ok("Page 29")
  {
    var m := LocationMatch("Note", "on Page", "29", None, " ");
    assert m.Valid();
    PageLine(" " + after);
    assert PageHead + after == m.Line(" " + after);
    LocationOf(m, " " + after);
    assert "Page " + m.Range() == "Page 29";
  }

  /** `parse_location`, second doctest (kclip.py:127-128), whatever
      follows the bar. */
  lemma LocLocation(after: string)
    ensures ParseLocation(NoteHead + after) == Ok("Loc. 1625")
  {
    var m := LocationMatch("Note", "Loc.", "1625", None, "  ");
    assert m.Valid();
    LocLine(" " + after);
    assert NoteHead + after == m.Line(" " + after);
    LocationOf(m, " " + after);
    LocText(m.unit + " " + m.Range());
  }

  /** The names and numbers the three date doctests are written with. */
  lemma Wednesday()
    ensures WeekdayName(2) == "Wednesday"
  {
  }

  lemma Sunday()
    ensures WeekdayName(6) == "Sunday"
  {
  }

  lemma Thursday()
    ensures WeekdayName(3) == "Thursday"
  {
  }

  lemma January()
    ensures MonthName(1) == "January"
  {
  }

  lemma December()
    ensures MonthName(12) == "December"
  {
  }

  lemma November()
    ensures MonthName(11) == "November"
  {
  }

  lemma Digits()
    ensures Two(5) == "05" && Two(12) == "12" && Two(57) == "57"
    ensures Two(19) == "19" && Two(8) == "08" && Two(15) == "15"
    ensures Two(22) == "22" && Two(37) == "37"
    ensures Two(20) == "20" && Two(10) == "10" && Two(11) == "11"
  {
  }

  lemma Years()
    ensures Four(2011) == "2011" && Four(2010) == "2010" && Four(2012) == "2012"
  {
    Digits();
  }

  lemma HighlightClock()
    ensures ClockText(Stamp(2, 1, 5, 2011, 12, 57, 0, false), WithoutSeconds) == ", 12:57 AM"
  {
    Digits();
  }

  lemma HighlightDay()
    ensures DateText(Stamp(2, 1, 5, 2011, 12, 57, 0, false), ", 12:57 AM") == HighlightDate
  {
    Wednesday();
    January();
    Years();
    Digits();
  }

  /** The date text of the highlight doctest is what the e-reader writes
      for Wednesday 5 January 2011, 12:57 AM. */
  lemma HighlightRender()
    ensures HighlightDate == Render(Stamp(2, 1, 5, 2011, 12, 57, 0, false), WithoutSeconds)
  {
    HighlightClock();
    HighlightDay();
  }

  /** `parse_datetime`, first doctest (kclip.py:142-143): 12 AM is hour 0
      and the weekday lands in the microsecond slot. */
  lemma HighlightDateTime()
    ensures ParseDateTime(Meta(HighlightHead, HighlightDate)) == Ok(DateTime(2011, 1, 5, 0, 57, 0, 2))
  {
    var st := Stamp(2, 1, 5, 2011, 12, 57, 0, false);
    NoKeyBefore(HighlightHead, HighlightDate);
    AddedOn(HighlightHead, HighlightDate);
    HighlightRender();
    ParseRender(st, WithoutSeconds);
  }

  lemma BookmarkClock()
    ensures ClockText(Stamp(6, 12, 19, 2010, 8, 15, 0, true), WithoutSeconds) == ", 08:15 PM"
  {
    Digits();
  }

  lemma BookmarkDay()
    ensures DateText(Stamp(6, 12, 19, 2010, 8, 15, 0, true), ", 08:15 PM") == BookmarkDate
  {
    Sunday();
    December();
    Years();
    Digits();
  }

  /** Sunday 19 December 2010, 8:15 PM. */
  lemma BookmarkRender()
    ensures BookmarkDate == Render(Stamp(6, 12, 19, 2010, 8, 15, 0, true), WithoutSeconds)
  {
    BookmarkClock();
    BookmarkDay();
  }

  /** `parse_datetime`, second doctest (kclip.py:144-145): 8 PM is hour 20. */
  lemma BookmarkDateTime()
    ensures ParseDateTime(Meta(BookmarkHead, BookmarkDate)) == Ok(DateTime(2010, 12, 19, 20, 15, 0, 6))
  {
    var st := Stamp(6, 12, 19, 2010, 8, 15, 0, true);
    NoKeyBefore(BookmarkHead, BookmarkDate);
    AddedOn(BookmarkHead, BookmarkDate);
    BookmarkRender();
    ParseRender(st, WithoutSeconds);
  }

  lemma NoteClock()
    ensures ClockText(Stamp(3, 11, 22, 2012, 12, 37, 0, true), WithoutSeconds) == ", 12:37 PM"
  {
    Digits();
  }

  lemma NoteDay()
    ensures DateText(Stamp(3, 11, 22, 2012, 12, 37, 0, true), ", 12:37 PM") == NoteDate
  {
    Thursday();
    November();
    Years();
    Digits();
  }

  /** Thursday 22 November 2012, 12:37 PM. */
  lemma NoteRender()
    ensures NoteDate == Render(Stamp(3, 11, 22, 2012, 12, 37, 0, true), WithoutSeconds)
  {
    NoteClock();
    NoteDay();
  }

  /** `parse_datetime`, third doctest (kclip.py:146-147): 12 PM is hour 12. */
  lemma NoteDateTime()
    ensures ParseDateTime(Meta(NoteHead, NoteDate)) == Ok(DateTime(2012, 11, 22, 12, 37, 0, 3))
  {
    var st := Stamp(3, 11, 22, 2012, 12, 37, 0, true);
    NoKeyBefore(NoteHead, NoteDate);
    AddedOn(NoteHead, NoteDate);
    NoteRender();
    ParseRender(st, WithoutSeconds);
  }
}
