/** `Book` (kclip.py:15-45): the clippings of one title, in file order,
    with the filtered and sorted views callers read them through. */
module Books {
  import opened Base
  import opened Dates
  import opened Records
  import opened Sorting

  /** The filter of `clips_of_type`: a falsy type (None or the empty
      string) keeps every clipping, any other keeps those of that type. */
  predicate Selects(clipType: Option<string>, c: Clip) {
    clipType.None? || clipType.value == [] || c.clipType == clipType.value
  }

  /** The clippings of `s` that `clipType` selects, in their order in `s`. */
  function OfType(s: seq<Clip>, clipType: Option<string>): (r: seq<Clip>)
    ensures |r| <= |s|
    ensures forall c :: c in r <==> c in s && Selects(clipType, c)
  {
    if s == [] then []
    else OfType(s[..|s| - 1], clipType) + (if Selects(clipType, s[|s| - 1]) then [s[|s| - 1]] else [])
  }

  /** The filter keeps the order of the clippings it selects: filtering a
      longer list extends the filtered shorter one. */
  lemma OfTypeAppend(s: seq<Clip>, c: Clip, clipType: Option<string>)
    ensures OfType(s + [c], clipType) == OfType(s, clipType) + (if Selects(clipType, c) then [c] else [])
  {
    assert (s + [c])[..|s|] == s;
  }

  /** Without a type, or with the empty one, every clipping is kept. */
  lemma {:induction false} OfTypeAll(s: seq<Clip>, clipType: Option<string>)
    ensures (clipType.None? || clipType.value == []) ==> OfType(s, clipType) == s
  {
    if s != [] && (clipType.None? || clipType.value == []) {
      OfTypeAll(s[..|s| - 1], clipType);
      LastSplit(s);
    }
  }

  /** Each selected clipping is kept as often as it occurs; the others are
      dropped. */
  lemma {:induction false} OfTypeCount(s: seq<Clip>, clipType: Option<string>, c: Clip)
    ensures multiset(OfType(s, clipType))[c] == if Selects(clipType, c) then multiset(s)[c] else 0
  {
    if s != [] {
      OfTypeCount(s[..|s| - 1], clipType, c);
      assert s == s[..|s| - 1] + [s[|s| - 1]];
    }
  }

  /** `x.location`: strings compare by their characters. */
  function LocationKey(c: Clip): (k: seq<int>)
    ensures |k| == |c.location|
    ensures forall i :: 0 <= i < |k| ==> k[i] == c.location[i] as int
  {
    Codes(c.location)
  }

  /** `x.datetime`: datetimes compare field by field, year first. */
  function TimeKey(c: Clip): (k: seq<int>)
    ensures |k| == 7 && k[0] == c.datetime.year && k[6] == c.datetime.microsecond
  {
    var d := c.datetime;
    [d.year, d.month, d.day, d.hour, d.minute, d.second, d.microsecond]
  }

  /** Equal time keys mean equal datetimes. */
  lemma TimeKeyInjective(c: Clip, d: Clip)
    requires TimeKey(c) == TimeKey(d)
    ensures c.datetime == d.datetime
  {
    assert TimeKey(c)[1] == TimeKey(d)[1] && TimeKey(c)[2] == TimeKey(d)[2];
    assert TimeKey(c)[3] == TimeKey(d)[3] && TimeKey(c)[4] == TimeKey(d)[4];
    assert TimeKey(c)[5] == TimeKey(d)[5];
  }

  class Book {
    const title: string
    const attribution: Option<string>
    var clippings: seq<Clip>

    /** `Book(title, attribution)`: a book with no clippings yet. */
    constructor (title: string, attribution: Option<string>)
      ensures this.title == title && this.attribution == attribution
      ensures clippings == []
    {
      this.title := title;
      this.attribution := attribution;
      clippings := [];
    }

    /** `book.clippings.append(clip)`. */
    method Append(c: Clip)
      modifies this
      ensures clippings == old(clippings) + [c]
    {
      clippings := clippings + [c];
    }

    /** `clips_of_type`: a new list of the selected clippings, in order;
        the book is not changed. */
    function ClipsOfType(clipType: Option<string>): (r: seq<Clip>)
      reads this
      ensures forall c :: c in r <==> c in clippings && Selects(clipType, c)
      ensures (clipType.None? || clipType.value == []) ==> r == clippings
    {
      OfTypeAll(clippings, clipType);
      OfType(clippings, clipType)
    }

    /** `by_location`: the selected clippings sorted by location, stably,
        descending when `reverse` holds. */
    method ByLocation(reverse: bool, clipType: Option<string>) returns (r: seq<Clip>)
      ensures r == SortSpec(ClipsOfType(clipType), LocationKey, reverse)
      ensures multiset(r) == multiset(ClipsOfType(clipType))
      ensures Sorted(r, LocationKey, reverse) && Stable(ClipsOfType(clipType), r, LocationKey)
    {
      r := SortedView(ClipsOfType(clipType), LocationKey, reverse);
    }

    /** `by_time`: the selected clippings sorted by datetime, stably,
        latest first when `reverse` holds. */
    method ByTime(reverse: bool, clipType: Option<string>) returns (r: seq<Clip>)
      ensures r == SortSpec(ClipsOfType(clipType), TimeKey, reverse)
      ensures multiset(r) == multiset(ClipsOfType(clipType))
      ensures Sorted(r, TimeKey, reverse) && Stable(ClipsOfType(clipType), r, TimeKey)
    {
      r := SortedView(ClipsOfType(clipType), TimeKey, reverse);
    }
  }

  /** `filtered_set.sort(key=key, reverse=reverse)` on a fresh list holding
      `s`: a permutation of `s`, sorted, with equal keys in their order in
      `s`. */
  method SortedView(s: seq<Clip>, key: Clip -> seq<int>, reverse: bool) returns (r: seq<Clip>)
    ensures r == SortSpec(s, key, reverse)
    ensures multiset(r) == multiset(s)
    ensures Sorted(r, key, reverse) && Stable(s, r, key)
  {
    var a := new Clip[|s|](i requires 0 <= i < |s| => s[i]);
    assert a[..] == s;
    SortInPlace(a, key, reverse);
    r := a[..];
    SortSpecPermutation(s, key, reverse);
    SortSpecSorted(s, key, reverse);
    SortSpecStable(s, key, reverse);
  }
}
