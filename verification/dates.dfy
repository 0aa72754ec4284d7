/** `parse_datetime` (kclip.py:140-153): the text after "Added on " read by
    `time.strptime` with the layout without seconds, then, when that raises,
    with the layout with seconds, and handed to `datetime.datetime`.

    `strptime` turns a layout into a regular expression compiled with
    IGNORECASE (ASCII case only) and requires it to match the whole text:
    every space of the layout becomes `\s+`; `%A`, `%B` and `%p` become the
    alternation of the lower-case English names; `%d`, `%I`, `%M`, `%S` take
    one or two digits within their range and `%Y` exactly four. In both
    layouts every number is followed by a non-digit and every space by a
    non-space, so each run is taken whole and backtracking never changes
    the outcome; no name is a prefix of another, so the alternation order
    does not matter either. */
module Dates {
  import opened Base
  import opened PyStr
  import opened Regex

  /** `datetime.datetime(year, month, day, hour, minute, second, microsecond)`. */
  datatype DateTime = DateTime(year: int, month: int, day: int, hour: int, minute: int, second: int, microsecond: int)
  {
    /** What the `datetime` constructor accepts, with the microsecond slot
        holding a weekday number as `parse_datetime` fills it. */
    predicate Valid() {
      && 1 <= year <= 9999 && 1 <= month <= 12 && 1 <= day <= DaysInMonth(year, month)
      && 0 <= hour < 24 && 0 <= minute < 60 && 0 <= second < 60
      && 0 <= microsecond < 7
    }
  }

  predicate IsLeap(year: int) {
    year % 4 == 0 && (year % 100 != 0 || year % 400 == 0)
  }

  /** Days of a month of the proleptic Gregorian calendar `datetime` uses. */
  function DaysInMonth(year: int, month: int): (n: int)
    requires 1 <= month <= 12
    ensures 28 <= n <= 31
    ensures n == 29 <==> month == 2 && IsLeap(year)
  {
    if month == 2 then (if IsLeap(year) then 29 else 28)
    else if month == 4 || month == 6 || month == 9 || month == 11 then 30
    else 31
  }

  // ---------------------------------------------------------------------
  // Names, compared without ASCII case.
  // ---------------------------------------------------------------------

  /** `%A`: Monday is 0, as `tm_wday` counts. */
  const Weekdays: seq<string> := ["monday", "tuesday", "wednesday", "thursday", "friday", "saturday", "sunday"]
  /** `%B`: January is index 0, month 1. */
  const Months: seq<string> := ["january", "february", "march", "april", "may", "june", "july",
                                "august", "september", "october", "november", "december"]
  /** `%p`. */
  const AmPm: seq<string> := ["am", "pm"]

  function Lower(c: char): char {
    if 'A' <= c <= 'Z' then (c as int + 32) as char else c
  }

  /** ASCII lower case, the only folding a pattern without re.UNICODE does. */
  function LowerAscii(s: string): (r: string)
    ensures |r| == |s| && forall k :: 0 <= k < |s| ==> r[k] == Lower(s[k])
  {
    seq(|s|, k requires 0 <= k < |s| => Lower(s[k]))
  }

  predicate IsLowerWord(s: string) {
    forall k :: 0 <= k < |s| ==> 'a' <= s[k] <= 'z'
  }

  /** Lower-case names of at least three letters, no two alike in their
      first three: then none is a prefix of another. */
  predicate IsNameList(names: seq<string>) {
    && (forall i :: 0 <= i < |names| ==> |names[i]| >= 3 && IsLowerWord(names[i]))
    && (forall i, j :: 0 <= i < |names| && 0 <= j < |names| && i != j ==>
          names[i][0] != names[j][0] || names[i][1] != names[j][1] || names[i][2] != names[j][2])
  }

  lemma NameLists()
    ensures IsNameList(Weekdays) && IsNameList(Months) && |Weekdays| == 7 && |Months| == 12
  {
    WeekdayList();
    MonthList();
  }

  lemma WeekdayList()
    ensures IsNameList(Weekdays)
  {
    forall i | 0 <= i < |Weekdays| ensures |Weekdays[i]| >= 3 && IsLowerWord(Weekdays[i]) {
    }
  }

  lemma MonthList()
    ensures IsNameList(Months)
  {
    MonthWords();
    MonthsDistinct();
  }

  lemma MonthWords()
    ensures forall i :: 0 <= i < |Months| ==> |Months[i]| >= 3 && IsLowerWord(Months[i])
  {
    forall i | 0 <= i < |Months| ensures |Months[i]| >= 3 && IsLowerWord(Months[i]) {
    }
  }

  lemma MonthsDistinct()
    ensures forall i, j :: 0 <= i < |Months| && 0 <= j < |Months| && i != j ==>
              Months[i][0] != Months[j][0] || Months[i][1] != Months[j][1] || Months[i][2] != Months[j][2]
  {
  }

  /** Lower case of a capitalised name: the name again. */
  function Cap(name: string): (r: string)
    requires |name| >= 1 && IsLowerWord(name)
    ensures |r| == |name| && 'A' <= r[0] <= 'Z' && LowerAscii(r) == name
  {
    var r := [(name[0] as int - 32) as char] + name[1..];
    assert forall k :: 0 <= k < |r| ==> Lower(r[k]) == name[k];
    r
  }

  lemma LowerAsciiAppend(a: string, b: string)
    ensures LowerAscii(a + b) == LowerAscii(a) + LowerAscii(b)
  {
  }

  /** The alternation of `names`: the index of the name that begins `s`
      without regard to ASCII case, and the text after it. */
  function Name(s: string, names: seq<string>): (r: Option<(nat, string)>)
    ensures r.Some? ==> r.value.0 < |names| && StartsWith(LowerAscii(s), names[r.value.0])
                        && r.value.1 == s[|names[r.value.0]|..]
    ensures r.None? ==> forall i :: 0 <= i < |names| ==> !StartsWith(LowerAscii(s), names[i])
  {
    var i :- FirstPrefix(LowerAscii(s), names);
    Some((i, s[|names[i]|..]))
  }

  /** A name in any ASCII case is read back as its own index. */
  lemma NameOf(w: string, rest: string, names: seq<string>, i: nat)
    requires IsNameList(names) && i < |names| && LowerAscii(w) == names[i]
    ensures Name(w + rest, names) == Some((i, rest))
  {
    var s := w + rest;
    LowerAsciiAppend(w, rest);
    var low := LowerAscii(s);
    assert low[..|w|] == names[i];
    var r := Name(s, names);
    assert r.Some?;
    var k := r.value.0;
    assert low[..|names[k]|] == names[k];
    assert names[k][0] == low[0] == names[i][0];
    assert names[k][1] == low[1] == names[i][1];
    assert names[k][2] == low[2] == names[i][2];
    assert s[|w|..] == rest;
  }

  // ---------------------------------------------------------------------
  // Numbers and spaces.
  // ---------------------------------------------------------------------

  function Pow10(n: nat): nat {
    if n == 0 then 1 else 10 * Pow10(n - 1)
  }

  predicate AllDigits(s: string) {
    forall k :: 0 <= k < |s| ==> IsDigit(s[k])
  }

  /** `int(s)` of a string of ASCII digits. */
  function Decimal(s: string): (n: nat)
    requires AllDigits(s)
    ensures n < Pow10(|s|)
  {
    if s == [] then 0 else Decimal(s[..|s| - 1]) * 10 + (s[|s| - 1] as int - '0' as int)
  }

  /** `%d`, `%I`, `%M`, `%S`: one or two digits whose value lies in
      `lo..hi`, and the text after them. */
  function Number(s: string, lo: nat, hi: nat): (r: Option<(nat, string)>)
    ensures r.Some? ==> lo <= r.value.0 <= hi && r.value.0 < 100
    ensures r.Some? ==> exists d :: 1 <= |d| <= 2 && AllDigits(d) && Decimal(d) == r.value.0 && s == d + r.value.1
  {
    var d :- Run(s, IsDigit);
    if |d.0| <= 2 && lo <= Decimal(d.0) <= hi then Some((Decimal(d.0), d.1)) else None
  }

  /** `%Y`: exactly four digits, and the text after them. */
  function Year(s: string): (r: Option<(nat, string)>)
    ensures r.Some? ==> r.value.0 < 10000
    ensures r.Some? ==> exists d :: |d| == 4 && AllDigits(d) && Decimal(d) == r.value.0 && s == d + r.value.1
  {
    var d :- Run(s, IsDigit);
    if |d.0| == 4 then Some((Decimal(d.0), d.1)) else None
  }

  /** `\s+`: the text after a nonempty run of whitespace. */
  function Spaces(s: string): (r: Option<string>)
    ensures r.Some? ==> exists g :: IsRun(g, IsRegexSpace) && s == g + r.value
    ensures r.Some? ==> r.value == [] || !IsRegexSpace(r.value[0])
  {
    var g :- Run(s, IsRegexSpace);
    Some(g.1)
  }

  function Digit(n: nat): (c: char)
    requires n < 10
    ensures IsDigit(c) && c as int - '0' as int == n
  {
    ('0' as int + n) as char
  }

  /** Two digits, with a leading zero below ten, as the e-reader writes
      days, hours, minutes and seconds. */
  function Two(n: nat): (r: string)
    requires n < 100
    ensures |r| == 2 && AllDigits(r) && Decimal(r) == n
  {
    var r := [Digit(n / 10), Digit(n % 10)];
    assert r[..1] == [Digit(n / 10)] && r[..1][..0] == [];
    r
  }

  lemma {:induction false} DecimalAppend(a: string, b: string)
    requires AllDigits(a) && AllDigits(b)
    ensures AllDigits(a + b) && Decimal(a + b) == Decimal(a) * Pow10(|b|) + Decimal(b)
  {
    var c := a + b;
    assert AllDigits(c) by {
      forall k | 0 <= k < |c| ensures IsDigit(c[k]) {
        if k < |a| { assert c[k] == a[k]; } else { assert c[k] == b[k - |a|]; }
      }
    }
    if b == [] {
      assert c == a;
    } else {
      var b', d := b[..|b| - 1], b[|b| - 1] as int - '0' as int;
      assert c[..|c| - 1] == a + b';
      assert c[|c| - 1] == b[|b| - 1];
      DecimalAppend(a, b');
      var x, p, y := Decimal(a), Pow10(|b'|), Decimal(b');
      assert Decimal(c) == Decimal(a + b') * 10 + d;
      assert Decimal(b) == y * 10 + d;
      assert Pow10(|b|) == 10 * p;
      MulStep(x, p, y, d);
    }
  }

  lemma MulStep(x: int, p: int, y: int, d: int)
    ensures (x * p + y) * 10 + d == x * (10 * p) + (y * 10 + d)
  {
  }

  /** Four digits, as years are written. */
  function Four(n: nat): (r: string)
    requires n < 10000
    ensures |r| == 4 && AllDigits(r) && Decimal(r) == n
  {
    DecimalAppend(Two(n / 100), Two(n % 100));
    Two(n / 100) + Two(n % 100)
  }

  lemma NumberOf(n: nat, lo: nat, hi: nat, rest: string)
    requires lo <= n <= hi && n < 100 && (rest == [] || !IsDigit(rest[0]))
    ensures Number(Two(n) + rest, lo, hi) == Some((n, rest))
  {
    RunOf(Two(n), rest, IsDigit);
  }

  lemma YearOf(n: nat, rest: string)
    requires n < 10000 && (rest == [] || !IsDigit(rest[0]))
    ensures Year(Four(n) + rest) == Some((n, rest))
  {
    RunOf(Four(n), rest, IsDigit);
  }

  lemma SpacesOf(rest: string)
    requires rest != [] && !IsRegexSpace(rest[0])
    ensures Spaces(" " + rest) == Some(rest)
  {
    RunOf(" ", rest, IsRegexSpace);
  }

  // ---------------------------------------------------------------------
  // The two layouts.
  // ---------------------------------------------------------------------

  /** `'%A, %B %d, %Y, %I:%M %p'`, tried first, and
      `'%A, %B %d, %Y %I:%M:%S %p'` (kclip.py:80, 83). */
  datatype Layout = WithoutSeconds | WithSeconds

  /** The fields `strptime` reads: the weekday index (Monday 0), the month
      (1-12), the day, the year, the hour on the 12-hour clock, minutes,
      seconds (0 in the layout without them) and the afternoon mark. */
  datatype Stamp = Stamp(weekday: nat, month: nat, day: nat, year: nat,
                         hour: nat, minute: nat, second: nat, pm: bool)
  {
    /** The ranges the layout's patterns admit, before any calendar check. */
    predicate WellFormed() {
      && weekday < 7 && 1 <= month <= 12 && 1 <= day <= 31 && year < 10000
      && 1 <= hour <= 12 && minute <= 59 && second <= 61
    }
  }

  /** The common head `%A, %B %d, %Y`: weekday, month, day, year and the text
      after the year. */
  function MatchDate(s: string): (r: Option<(nat, nat, nat, nat, string)>)
    ensures r.Some? ==> r.value.0 < 7 && 1 <= r.value.1 <= 12 && 1 <= r.value.2 <= 31 && r.value.3 < 10000
  {
    var w :- Name(s, Weekdays);
    var s1 :- Skip(w.1, ",");
    var s2 :- Spaces(s1);
    var mdy :- MonthDayYear(s2);
    Some((w.0, mdy.0, mdy.1, mdy.2, mdy.3))
  }

  /** `%B %d, %Y`: month, day, year and the text after the year. */
  function MonthDayYear(s: string): (r: Option<(nat, nat, nat, string)>)
    ensures r.Some? ==> 1 <= r.value.0 <= 12 && 1 <= r.value.1 <= 31 && r.value.2 < 10000
  {
    AfterMonth(Name(s, Months))
  }

  /** `%d, %Y` after the month name was read as `m`. */
  function AfterMonth(m: Option<(nat, string)>): (r: Option<(nat, nat, nat, string)>)
    ensures r.Some? ==> m.Some? && r.value.0 == m.value.0 + 1 && 1 <= r.value.1 <= 31 && r.value.2 < 10000
  {
    var m :- m;
    var s1 :- Spaces(m.1);
    var dy :- DayYear(s1);
    Some((m.0 + 1, dy.0, dy.1, dy.2))
  }

  /** `%d, %Y`: day, year and the text after the year. */
  function DayYear(s: string): (r: Option<(nat, nat, string)>)
    ensures r.Some? ==> 1 <= r.value.0 <= 31 && r.value.1 < 10000
  {
    var d :- Number(s, 1, 31);
    var s1 :- Skip(d.1, ",");
    var s2 :- Spaces(s1);
    var y :- Year(s2);
    Some((d.0, y.0, y.1))
  }

  /** ` %p` closing the text: whether it reads PM. */
  function Ending(s: string): (r: Option<bool>)
  {
    var s1 :- Spaces(s);
    var p :- Name(s1, AmPm);
    if p.1 == [] then Some(p.0 == 1) else None
  }

  /** `%I:%M`: hour and minute, and the text after them. */
  function HourMinute(s: string): (r: Option<(nat, nat, string)>)
    ensures r.Some? ==> 1 <= r.value.0 <= 12 && r.value.1 <= 59
  {
    var h :- Number(s, 1, 12);
    var s1 :- Skip(h.1, ":");
    var m :- Number(s1, 0, 59);
    Some((h.0, m.0, m.1))
  }

  /** `, %I:%M %p` to the end of the text: hour, minute, second 0, PM. */
  function ClockWithoutSeconds(s: string): (r: Option<(nat, nat, nat, bool)>)
    ensures r.Some? ==> 1 <= r.value.0 <= 12 && r.value.1 <= 59 && r.value.2 == 0
    ensures r.Some? ==> StartsWith(s, ",")
  {
    var s1 :- Skip(s, ",");
    var s2 :- Spaces(s1);
    var hm :- HourMinute(s2);
    var pm :- Ending(hm.2);
    Some((hm.0, hm.1, 0, pm))
  }

  /** ` %I:%M:%S %p` to the end of the text: hour, minute, second, PM. */
  function ClockWithSeconds(s: string): (r: Option<(nat, nat, nat, bool)>)
    ensures r.Some? ==> 1 <= r.value.0 <= 12 && r.value.1 <= 59 && r.value.2 <= 61
    ensures r.Some? ==> s != [] && IsRegexSpace(s[0])
  {
    var s1 :- Spaces(s);
    var hm :- HourMinute(s1);
    var s2 :- Skip(hm.2, ":");
    var sec :- Number(s2, 0, 61);
    var pm :- Ending(sec.1);
    Some((hm.0, hm.1, sec.0, pm))
  }

  /** `strptime(text, layout)` up to the calendar check: the fields, when
      the layout's pattern matches the whole text. */
  function Match(text: string, layout: Layout): (r: Option<Stamp>)
    ensures r.Some? ==> r.value.WellFormed()
    ensures r.Some? && layout == WithoutSeconds ==> r.value.second == 0
  {
    var d :- MatchDate(text);
    var c :- if layout == WithoutSeconds then ClockWithoutSeconds(d.4) else ClockWithSeconds(d.4);
    Some(Stamp(d.0, d.1, d.2, d.3, c.0, c.1, c.2, c.3))
  }

  /** No text matches both layouts: after the year one needs a comma, the
      other whitespace. */
  lemma LayoutsDisjoint(text: string)
    ensures Match(text, WithoutSeconds).None? || Match(text, WithSeconds).None?
  {
  }

  /** `%I` with `%p`: 12 AM is hour 0, 12 PM hour 12, other PM hours gain 12. */
  function Hour24(hour: nat, pm: bool): (h: nat)
    requires 1 <= hour <= 12
    ensures h < 24 && h % 12 == hour % 12
    ensures pm <==> h >= 12
  {
    if !pm then (if hour == 12 then 0 else hour)
    else if hour != 12 then hour + 12
    else hour
  }

  /** Different readings of the 12-hour clock give different hours. */
  lemma Hour24Injective(h1: nat, pm1: bool, h2: nat, pm2: bool)
    requires 1 <= h1 <= 12 && 1 <= h2 <= 12
    requires Hour24(h1, pm1) == Hour24(h2, pm2)
    ensures h1 == h2 && pm1 == pm2
  {
    assert h1 % 12 == h2 % 12;
  }

  /** The rest of `strptime` and the `datetime` constructor: the hour on the
      24-hour clock, the weekday number in the microsecond slot (the seventh
      field of `struct_time[:-2]`), and ValueError for a year 0, a day past
      the end of its month, or a leap second. */
  function Convert(st: Stamp): (r: Result<DateTime>)
    requires st.WellFormed()
    ensures r.Ok? <==> 1 <= st.year && st.day <= DaysInMonth(st.year, st.month) && st.second <= 59
    ensures r.Err? ==> r.error == MalformedDate
    ensures r.Ok? ==> r.value.Valid()
    ensures r.Ok? ==> r.value == DateTime(st.year, st.month, st.day, Hour24(st.hour, st.pm), st.minute, st.second, st.weekday)
  {
    if 1 <= st.year && st.day <= DaysInMonth(st.year, st.month) && st.second <= 59 then
      Ok(DateTime(st.year, st.month, st.day, Hour24(st.hour, st.pm), st.minute, st.second, st.weekday))
    else Err(MalformedDate)
  }

  /** One `datetime.datetime(*time.strptime(text, layout)[:-2])`. */
  function Attempt(text: string, layout: Layout): (r: Result<DateTime>)
    ensures r.Ok? ==> r.value.Valid()
    ensures r.Ok? && layout == WithoutSeconds ==> r.value.second == 0
    ensures r.Err? ==> r.error == MalformedDate
  {
    match Match(text, layout)
    case None => Err(MalformedDate)
    case Some(st) => Convert(st)
  }

  /** The `try`/`except ValueError` of `parse_datetime`: the layout without
      seconds, else the one with seconds; MalformedDate when both fail. */
  function ParseDateText(text: string): (r: Result<DateTime>)
    ensures r.Ok? ==> r.value.Valid()
    ensures r.Err? ==> r.error == MalformedDate
    ensures r.Ok? <==> Attempt(text, WithoutSeconds).Ok? || Attempt(text, WithSeconds).Ok?
    ensures Attempt(text, WithoutSeconds).Ok? ==> r == Attempt(text, WithoutSeconds)
    ensures Attempt(text, WithoutSeconds).Err? ==> r == Attempt(text, WithSeconds)
  {
    var first := Attempt(text, WithoutSeconds);
    if first.Ok? then first else Attempt(text, WithSeconds)
  }

  /** `parse_datetime`: the date text starts 9 characters after the first
      "Added on "; with none, `find` gives -1 and the text starts at index 8. */
  function ParseDateTime(meta: string): (r: Result<DateTime>)
    ensures r.Ok? ==> r.value.Valid()
    ensures r.Err? ==> r.error == MalformedDate
  {
    ParseDateText(Slice(meta, Find(meta, "Added on ") + 9, |meta|))
  }

  // ---------------------------------------------------------------------
  // Round trip: the text the e-reader writes is read back.
  // ---------------------------------------------------------------------

  function Meridiem(pm: bool): string {
    if pm then "PM" else "AM"
  }

  /** The weekday as the e-reader writes it, "Wednesday". */
  function WeekdayName(i: nat): (r: string)
    requires i < 7
    ensures r != [] && 'A' <= r[0] <= 'Z' && LowerAscii(r) == Weekdays[i]
  {
    NameLists();
    Cap(Weekdays[i])
  }

  /** The month as the e-reader writes it, "January". */
  function MonthName(month: nat): (r: string)
    requires 1 <= month <= 12
    ensures r != [] && 'A' <= r[0] <= 'Z' && LowerAscii(r) == Months[month - 1]
  {
    NameLists();
    Cap(Months[month - 1])
  }

  /** "Wednesday, January 05, 2011" followed by `rest`. */
  function DateText(st: Stamp, rest: string): string
    requires st.WellFormed()
  {
    WeekdayName(st.weekday) + ("," + (" " + (MonthName(st.month) + (" " + (Two(st.day) + ("," + (" " + (Four(st.year) + rest))))))))
  }

  /** ", 12:57 AM" or " 12:57:09 AM". */
  function ClockText(st: Stamp, layout: Layout): string
    requires st.WellFormed()
  {
    match layout
    case WithoutSeconds => "," + (" " + (Two(st.hour) + (":" + (Two(st.minute) + (" " + Meridiem(st.pm))))))
    case WithSeconds => " " + (Two(st.hour) + (":" + (Two(st.minute) + (":" + (Two(st.second) + (" " + Meridiem(st.pm)))))))
  }

  /** The date text of a clipping as the e-reader writes it in `layout`. */
  function Render(st: Stamp, layout: Layout): string
    requires st.WellFormed()
  {
    DateText(st, ClockText(st, layout))
  }

  lemma EndingOf(pm: bool)
    ensures Ending(" " + Meridiem(pm)) == Some(pm)
  {
    var s := Meridiem(pm);
    assert s[0] == (if pm then 'P' else 'A') && s[1] == 'M';
    SpacesOf(s);
    var low := LowerAscii(s);
    assert low[0] == (if pm then 'p' else 'a') && low[1] == 'm';
    assert StartsWith(low, AmPm[if pm then 1 else 0]);
    assert pm ==> !StartsWith(low, "am") by { assert pm ==> low[..2][0] == 'p'; }
    assert s[2..] == [];
  }

  lemma WeekdayOf(i: nat, rest: string)
    requires i < 7
    ensures Name(WeekdayName(i) + rest, Weekdays) == Some((i, rest))
  {
    NameLists();
    NameOf(WeekdayName(i), rest, Weekdays, i);
  }

  lemma MonthOf(month: nat, rest: string)
    requires 1 <= month <= 12
    ensures Name(MonthName(month) + rest, Months) == Some((month - 1, rest))
  {
    NameLists();
    NameOf(MonthName(month), rest, Months, month - 1);
  }

  lemma DayYearOf(day: nat, year: nat, rest: string)
    requires 1 <= day <= 31 && year < 10000 && (rest == [] || !IsDigit(rest[0]))
    ensures DayYear(Two(day) + ("," + (" " + (Four(year) + rest)))) == Some((day, year, rest))
  {
    var s2 := Four(year) + rest;
    YearOf(year, rest);
    SpacesOf(s2);
    SkipOf(",", " " + s2);
    NumberOf(day, 1, 31, "," + (" " + s2));
  }

  /** The single space before a number is read by `\s+` alone. */
  lemma SpacesBeforeNumber(n: string, rest: string)
    requires n != [] && IsDigit(n[0])
    ensures Spaces(" " + (n + rest)) == Some(n + rest)
  {
    assert (n + rest)[0] == n[0];
    SpacesOf(n + rest);
  }

  lemma MonthThen(month: nat, s1: string, dy: (nat, nat, string))
    requires 1 <= month <= 12 && DayYear(s1) == Some(dy) && Spaces(" " + s1) == Some(s1)
    ensures MonthDayYear(MonthName(month) + (" " + s1)) == Some((month, dy.0, dy.1, dy.2))
  {
    MonthOf(month, " " + s1);
    assert AfterMonth(Some((month - 1, " " + s1))) == Some((month, dy.0, dy.1, dy.2));
  }

  lemma MonthDayYearOf(month: nat, day: nat, year: nat, rest: string)
    requires 1 <= month <= 12 && 1 <= day <= 31 && year < 10000 && (rest == [] || !IsDigit(rest[0]))
    ensures MonthDayYear(MonthName(month) + (" " + (Two(day) + ("," + (" " + (Four(year) + rest))))))
         == Some((month, day, year, rest))
  {
    var s1 := Two(day) + ("," + (" " + (Four(year) + rest)));
    DayYearOf(day, year, rest);
    SpacesBeforeNumber(Two(day), "," + (" " + (Four(year) + rest)));
    MonthThen(month, s1, (day, year, rest));
  }

  lemma MatchDateOf(st: Stamp, rest: string)
    requires st.WellFormed() && (rest == [] || !IsDigit(rest[0]))
    ensures MatchDate(DateText(st, rest)) == Some((st.weekday, st.month, st.day, st.year, rest))
  {
    var s2 := MonthName(st.month) + (" " + (Two(st.day) + ("," + (" " + (Four(st.year) + rest)))));
    assert MonthDayYear(s2) == Some((st.month, st.day, st.year, rest)) by {
      MonthDayYearOf(st.month, st.day, st.year, rest);
    }
    assert Spaces(" " + s2) == Some(s2) by {
      assert s2[0] == MonthName(st.month)[0];
      SpacesOf(s2);
    }
    assert Skip("," + (" " + s2), ",") == Some(" " + s2) by { SkipOf(",", " " + s2); }
    assert Name(DateText(st, rest), Weekdays) == Some((st.weekday, "," + (" " + s2))) by {
      WeekdayOf(st.weekday, "," + (" " + s2));
    }
  }

  lemma HourMinuteOf(hour: nat, minute: nat, rest: string)
    requires 1 <= hour <= 12 && minute <= 59 && (rest == [] || !IsDigit(rest[0]))
    ensures HourMinute(Two(hour) + (":" + (Two(minute) + rest))) == Some((hour, minute, rest))
  {
    NumberOf(minute, 0, 59, rest);
    SkipOf(":", Two(minute) + rest);
    NumberOf(hour, 1, 12, ":" + (Two(minute) + rest));
  }

  /** ", hh:mm AM" is read back by the layout without seconds. */
  lemma ClockWithoutSecondsOf(hour: nat, minute: nat, pm: bool)
    requires 1 <= hour <= 12 && minute <= 59
    ensures ClockWithoutSeconds("," + (" " + (Two(hour) + (":" + (Two(minute) + (" " + Meridiem(pm)))))))
         == Some((hour, minute, 0, pm))
  {
    var p := " " + Meridiem(pm);
    EndingOf(pm);
    var s2 := Two(hour) + (":" + (Two(minute) + p));
    HourMinuteOf(hour, minute, p);
    SpacesBeforeNumber(Two(hour), ":" + (Two(minute) + p));
    SkipOf(",", " " + s2);
  }

  /** " hh:mm:ss AM" is read back by the layout with seconds. */
  lemma ClockWithSecondsOf(hour: nat, minute: nat, second: nat, pm: bool)
    requires 1 <= hour <= 12 && minute <= 59 && second <= 61
    ensures ClockWithSeconds(" " + (Two(hour) + (":" + (Two(minute) + (":" + (Two(second) + (" " + Meridiem(pm))))))))
         == Some((hour, minute, second, pm))
  {
    var p := " " + Meridiem(pm);
    EndingOf(pm);
    var s5 := Two(second) + p;
    NumberOf(second, 0, 61, p);
    SkipOf(":", s5);
    HourMinuteOf(hour, minute, ":" + s5);
    SpacesBeforeNumber(Two(hour), ":" + (Two(minute) + (":" + s5)));
  }

  lemma ClockOf(st: Stamp, layout: Layout)
    requires st.WellFormed()
    ensures layout == WithoutSeconds ==>
      ClockWithoutSeconds(ClockText(st, layout)) == Some((st.hour, st.minute, 0, st.pm))
    ensures layout == WithSeconds ==>
      ClockWithSeconds(ClockText(st, layout)) == Some((st.hour, st.minute, st.second, st.pm))
  {
    if layout == WithoutSeconds {
      ClockWithoutSecondsOf(st.hour, st.minute, st.pm);
    } else {
      ClockWithSecondsOf(st.hour, st.minute, st.second, st.pm);
    }
  }

  /** Every well-formed stamp written in a layout is matched by that layout
      and gives its fields back (the seconds as 0 in the layout without
      them). */
  lemma MatchRender(st: Stamp, layout: Layout)
    requires st.WellFormed()
    ensures Match(Render(st, layout), layout) == Some(if layout == WithoutSeconds then st.(second := 0) else st)
  {
    ClockOf(st, layout);
    MatchDateOf(st, ClockText(st, layout));
  }

  /** `parse_datetime`'s reading of the e-reader's own date text: the
      layout without seconds gives seconds 0, the layout with seconds is
      reached by the fallback; both then accept exactly the calendar dates
      `datetime` accepts. */
  lemma {:induction false} ParseRender(st: Stamp, layout: Layout)
    requires st.WellFormed()
    ensures layout == WithoutSeconds ==> ParseDateText(Render(st, layout)) == Convert(st.(second := 0))
    ensures layout == WithSeconds ==> ParseDateText(Render(st, layout)) == Convert(st)
  {
    var text := Render(st, layout);
    MatchRender(st, layout);
    LayoutsDisjoint(text);
  }

  /** A prefix without a capital 'A' holds no "Added on ", nor does any
      occurrence start inside it. */
  lemma NoKeyBefore(pre: string, text: string)
    requires 'A' !in pre
    ensures forall i :: 0 <= i < |pre| ==> !At(pre + ("Added on " + text), "Added on ", i)
  {
    var meta := pre + ("Added on " + text);
    forall i | 0 <= i < |pre| ensures !At(meta, "Added on ", i) {
      assert meta[i] == pre[i] != 'A';
      if i + 9 <= |meta| {
        assert meta[i..i + 9][0] == meta[i];
      }
    }
  }

  /** The date text of a detail line is what follows its first "Added on ". */
  lemma AddedOn(pre: string, text: string)
    requires forall i :: 0 <= i < |pre| ==> !At(pre + ("Added on " + text), "Added on ", i)
    ensures ParseDateTime(pre + ("Added on " + text)) == ParseDateText(text)
  {
    var key := "Added on ";
    var meta := pre + (key + text);
    assert meta[|pre|..|pre| + 9] == key;
    assert At(meta, key, |pre|);
    assert Find(meta, key) == |pre|;
    assert Slice(meta, |pre| + 9, |meta|) == text;
  }

  /** Without "Added on ", `find` gives -1 and the date text is read from
      index 8 on. */
  lemma MissingAddedOn(meta: string)
    requires forall i :: !At(meta, "Added on ", i)
    ensures ParseDateTime(meta) == ParseDateText(Slice(meta, 8, |meta|))
  {
    assert Find(meta, "Added on ") == -1;
  }
}
