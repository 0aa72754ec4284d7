/** The order `Book.by_location` and `Book.by_time` sort clippings in
    (kclip.py:28-40): Python's `list.sort(key=..., reverse=...)`, a stable
    sort that, when reversed, still keeps equal keys in their original
    order. Any two sorts with these properties give the same list, so the
    sort is modelled by insertion, on a sequence as its specification and
    in place on an array as the method that runs it. */
module Sorting {

  /** The code points of a string. */
  function Codes(s: string): (r: seq<int>)
    ensures |r| == |s|
    ensures forall i :: 0 <= i < |s| ==> r[i] == s[i] as int
  {
    if s == [] then [] else [s[0] as int] + Codes(s[1..])
  }

  /** Lexicographic order; a proper prefix comes first. */
  predicate Less(a: seq<int>, b: seq<int>) {
    if a == [] then b != []
    else if b == [] then false
    else a[0] < b[0] || (a[0] == b[0] && Less(a[1..], b[1..]))
  }

  lemma LessIrreflexive(a: seq<int>)
    ensures !Less(a, a)
  {
  }

  lemma {:induction false} LessAsymmetric(a: seq<int>, b: seq<int>)
    requires Less(a, b)
    ensures !Less(b, a)
  {
    if a != [] && a[0] == b[0] {
      LessAsymmetric(a[1..], b[1..]);
    }
  }

  lemma {:induction false} LessTransitive(a: seq<int>, b: seq<int>, c: seq<int>)
    requires Less(a, b) && Less(b, c)
    ensures Less(a, c)
  {
    if a != [] && b != [] && c != [] && a[0] == b[0] == c[0] {
      LessTransitive(a[1..], b[1..], c[1..]);
    }
  }

  lemma {:induction false} LessTotal(a: seq<int>, b: seq<int>)
    ensures a == b || Less(a, b) || Less(b, a)
  {
    if a != [] && b != [] && a[0] == b[0] {
      LessTotal(a[1..], b[1..]);
      if a[1..] == b[1..] {
        assert a == [a[0]] + a[1..] && b == [b[0]] + b[1..];
      }
    }
  }

  /** Not being smaller is transitive: keys that are not in order stay out
      of order through a third one. */
  lemma NotLessTransitive(a: seq<int>, b: seq<int>, c: seq<int>)
    requires !Less(a, b) && !Less(b, c)
    ensures !Less(a, c)
  {
    LessTotal(a, b);
    LessTotal(b, c);
    if a == b && b == c {
      LessIrreflexive(a);
    } else if a == b {
      LessAsymmetric(c, a);
    } else if b == c {
      LessAsymmetric(c, a);
    } else {
      LessTransitive(c, b, a);
      LessAsymmetric(c, a);
    }
  }

  /** `x` must come before `y` in the sorted list: its key is smaller, or
      larger when the sort is reversed. Elements with equal keys are never
      ordered by this. */
  predicate Before<T>(x: T, y: T, key: T -> seq<int>, reverse: bool) {
    if reverse then Less(key(y), key(x)) else Less(key(x), key(y))
  }

  lemma BeforeAsymmetric<T>(x: T, y: T, key: T -> seq<int>, reverse: bool)
    requires Before(x, y, key, reverse)
    ensures !Before(y, x, key, reverse)
  {
    if reverse {
      LessAsymmetric(key(y), key(x));
    } else {
      LessAsymmetric(key(x), key(y));
    }
  }

  lemma NotBeforeTransitive<T>(x: T, y: T, z: T, key: T -> seq<int>, reverse: bool)
    requires !Before(x, y, key, reverse) && !Before(y, z, key, reverse)
    ensures !Before(x, z, key, reverse)
  {
    if reverse {
      NotLessTransitive(key(z), key(y), key(x));
    } else {
      NotLessTransitive(key(x), key(y), key(z));
    }
  }

  lemma BeforeDistinctKeys<T>(x: T, y: T, key: T -> seq<int>, reverse: bool)
    requires Before(x, y, key, reverse)
    ensures key(x) != key(y)
  {
    LessIrreflexive(key(x));
  }

  /** No clip is placed after one it must come before. */
  ghost predicate Sorted<T>(s: seq<T>, key: T -> seq<int>, reverse: bool) {
    forall i, j :: 0 <= i < j < |s| ==> !Before(s[j], s[i], key, reverse)
  }

  /** The elements of `s` whose key is `k`, in their order in `s`. */
  function WithKey<T>(s: seq<T>, k: seq<int>, key: T -> seq<int>): seq<T> {
    if s == [] then []
    else WithKey(s[..|s| - 1], k, key) + (if key(s[|s| - 1]) == k then [s[|s| - 1]] else [])
  }

  /** Sorting keeps the elements of each key in their original order. */
  ghost predicate Stable<T>(s: seq<T>, t: seq<T>, key: T -> seq<int>) {
    forall k :: WithKey(t, k, key) == WithKey(s, k, key)
  }

  /** `x` placed into `s` after every clip it need not precede: it moves
      left past the clips it must come before, and no further. */
  function Insert<T>(s: seq<T>, x: T, key: T -> seq<int>, reverse: bool): (r: seq<T>)
    ensures |r| == |s| + 1
  {
    if s == [] || !Before(x, s[|s| - 1], key, reverse) then s + [x]
    else
      assert s == s[..|s| - 1] + [s[|s| - 1]];
      Insert(s[..|s| - 1], x, key, reverse) + [s[|s| - 1]]
  }

  /** The sorted list, built by inserting each clip in turn. */
  function SortSpec<T>(s: seq<T>, key: T -> seq<int>, reverse: bool): (r: seq<T>)
    ensures |r| == |s|
  {
    if s == [] then []
    else
      assert s == s[..|s| - 1] + [s[|s| - 1]];
      Insert(SortSpec(s[..|s| - 1], key, reverse), s[|s| - 1], key, reverse)
  }

  lemma WithKeyAppend<T>(s: seq<T>, x: T, k: seq<int>, key: T -> seq<int>)
    ensures WithKey(s + [x], k, key) == WithKey(s, k, key) + (if key(x) == k then [x] else [])
  {
    assert (s + [x])[..|s|] == s;
  }

  /** Insertion adds `x` and loses nothing. */
  lemma {:induction false} InsertPermutation<T>(s: seq<T>, x: T, key: T -> seq<int>, reverse: bool)
    ensures multiset(Insert(s, x, key, reverse)) == multiset(s) + multiset{x}
  {
    if s != [] && Before(x, s[|s| - 1], key, reverse) {
      InsertPermutation(s[..|s| - 1], x, key, reverse);
      assert s == s[..|s| - 1] + [s[|s| - 1]];
    }
  }

  /** The specification sorts a permutation of its input. */
  lemma {:induction false} SortSpecPermutation<T>(s: seq<T>, key: T -> seq<int>, reverse: bool)
    ensures multiset(SortSpec(s, key, reverse)) == multiset(s)
  {
    if s != [] {
      SortSpecPermutation(s[..|s| - 1], key, reverse);
      InsertPermutation(SortSpec(s[..|s| - 1], key, reverse), s[|s| - 1], key, reverse);
      assert s == s[..|s| - 1] + [s[|s| - 1]];
    }
  }

  /** Inserting an element into a sorted list keeps it sorted. */
  lemma {:induction false} InsertSorted<T>(s: seq<T>, x: T, key: T -> seq<int>, reverse: bool)
    requires Sorted(s, key, reverse)
    ensures Sorted(Insert(s, x, key, reverse), key, reverse)
  {
    if s == [] {
    } else if !Before(x, s[|s| - 1], key, reverse) {
      var last := s[|s| - 1];
      forall i | 0 <= i < |s| ensures !Before(x, s[i], key, reverse) {
        if i < |s| - 1 {
          NotBeforeTransitive(x, last, s[i], key, reverse);
        }
      }
    } else {
      var s', last := s[..|s| - 1], s[|s| - 1];
      InsertSorted(s', x, key, reverse);
      var t := Insert(s', x, key, reverse);
      InsertPermutation(s', x, key, reverse);
      forall i | 0 <= i < |t| ensures !Before(last, t[i], key, reverse) {
        assert t[i] in multiset(t);
        if t[i] == x {
          BeforeAsymmetric(x, last, key, reverse);
        } else {
          assert t[i] in multiset(s');
          var m :| 0 <= m < |s'| && s'[m] == t[i];
          assert s[m] == t[i];
        }
      }
    }
  }

  /** Inserting `x` leaves the clips of every other key as they were and
      puts `x` after the clips that share its key. */
  lemma {:induction false} InsertWithKey<T>(s: seq<T>, x: T, k: seq<int>, key: T -> seq<int>, reverse: bool)
    ensures WithKey(Insert(s, x, key, reverse), k, key)
         == WithKey(s, k, key) + (if key(x) == k then [x] else [])
  {
    if s == [] || !Before(x, s[|s| - 1], key, reverse) {
      WithKeyAppend(s, x, k, key);
    } else {
      var s', last := s[..|s| - 1], s[|s| - 1];
      assert s == s' + [last];
      var t := Insert(s', x, key, reverse);
      assert Insert(s, x, key, reverse) == t + [last];
      InsertWithKey(s', x, k, key, reverse);
      WithKeyAppend(t, last, k, key);
      WithKeyAppend(s', last, k, key);
      BeforeDistinctKeys(x, last, key, reverse);
      var A := WithKey(s', k, key);
      var X := if key(x) == k then [x] else [];
      var L := if key(last) == k then [last] else [];
      if X == [] {
        assert A + X + L == A + L + X;
      } else {
        assert L == [];
        assert A + X + L == A + L + X;
      }
    }
  }

  /** The specification sorts. */
  lemma {:induction false} SortSpecSorted<T>(s: seq<T>, key: T -> seq<int>, reverse: bool)
    ensures Sorted(SortSpec(s, key, reverse), key, reverse)
  {
    if s != [] {
      SortSpecSorted(s[..|s| - 1], key, reverse);
      InsertSorted(SortSpec(s[..|s| - 1], key, reverse), s[|s| - 1], key, reverse);
    }
  }

  /** The specification is stable, reversed or not. */
  lemma {:induction false} SortSpecStable<T>(s: seq<T>, key: T -> seq<int>, reverse: bool)
    ensures Stable(s, SortSpec(s, key, reverse), key)
  {
    if s != [] {
      var s', x := s[..|s| - 1], s[|s| - 1];
      SortSpecStable(s', key, reverse);
      forall k ensures WithKey(SortSpec(s, key, reverse), k, key) == WithKey(s, k, key) {
        InsertWithKey(SortSpec(s', key, reverse), x, k, key, reverse);
        WithKeyAppend(s', x, k, key);
        assert s == s' + [x];
      }
    }
  }

  lemma {:induction false} WithKeyMember<T>(s: seq<T>, k: seq<int>, key: T -> seq<int>, x: T)
    requires x in WithKey(s, k, key)
    ensures x in s && key(x) == k
  {
    if s != [] {
      var s' := s[..|s| - 1];
      if x in WithKey(s', k, key) {
        WithKeyMember(s', k, key, x);
      }
    }
  }

  lemma SameEmptiness<T>(t1: seq<T>, t2: seq<T>, key: T -> seq<int>)
    requires forall k :: WithKey(t1, k, key) == WithKey(t2, k, key)
    ensures t1 == [] <==> t2 == []
  {
    if t1 != [] {
      var x := t1[|t1| - 1];
      WithKeyAppend(t1[..|t1| - 1], x, key(x), key);
      assert t1 == t1[..|t1| - 1] + [x];
      assert WithKey(t2, key(x), key) != [];
    }
    if t2 != [] {
      var x := t2[|t2| - 1];
      WithKeyAppend(t2[..|t2| - 1], x, key(x), key);
      assert t2 == t2[..|t2| - 1] + [x];
      assert WithKey(t1, key(x), key) != [];
    }
  }

  lemma LastSplit<T>(s: seq<T>)
    requires s != []
    ensures s == s[..|s| - 1] + [s[|s| - 1]]
  {
  }

  lemma WithKeyLast<T>(s: seq<T>, k: seq<int>, key: T -> seq<int>)
    requires s != []
    ensures WithKey(s, k, key) == WithKey(s[..|s| - 1], k, key) + (if key(s[|s| - 1]) == k then [s[|s| - 1]] else [])
  {
  }

  lemma AppendCancel<T>(a: seq<T>, b: seq<T>, x: T, y: T)
    requires a + [x] == b + [y]
    ensures a == b && x == y
  {
    assert a == (a + [x])[..|a|] && b == (b + [y])[..|b|];
    assert x == (a + [x])[|a|] && y == (b + [y])[|b|];
  }

  /** The last element of a sequence occurs in any sequence that agrees
      with it on every key. */
  lemma LastOccurs<T>(t1: seq<T>, t2: seq<T>, key: T -> seq<int>)
    requires t1 != []
    requires forall k :: WithKey(t1, k, key) == WithKey(t2, k, key)
    ensures t1[|t1| - 1] in t2
  {
    var x := t1[|t1| - 1];
    assert x in WithKey(t1, key(x), key);
    WithKeyMember(t2, key(x), key, x);
  }

  /** The last element of a sorted sequence need not come before any of
      its elements. */
  lemma LastNotBefore<T>(t: seq<T>, x: T, key: T -> seq<int>, reverse: bool)
    requires t != [] && Sorted(t, key, reverse) && x in t
    ensures !Before(t[|t| - 1], x, key, reverse)
  {
    var i :| 0 <= i < |t| && t[i] == x;
    if i == |t| - 1 {
      LessIrreflexive(key(x));
    }
  }

  /** Two non-empty sorted sequences that agree on the elements of every
      key end with elements of the same key: each last element occurs in
      the other sequence, and neither may come before the other. */
  lemma LastKeysAgree<T>(t1: seq<T>, t2: seq<T>, key: T -> seq<int>, reverse: bool)
    requires t1 != [] && t2 != []
    requires Sorted(t1, key, reverse) && Sorted(t2, key, reverse)
    requires forall k :: WithKey(t1, k, key) == WithKey(t2, k, key)
    ensures key(t1[|t1| - 1]) == key(t2[|t2| - 1])
  {
    var x1, x2 := t1[|t1| - 1], t2[|t2| - 1];
    LastOccurs(t1, t2, key);
    LastOccurs(t2, t1, key);
    LastNotBefore(t2, x1, key, reverse);
    LastNotBefore(t1, x2, key, reverse);
    LessTotal(key(x1), key(x2));
  }

  /** Dropping last elements of the same key keeps the agreement on every
      key, and those last elements are the same. */
  lemma DropLastAgree<T>(t1: seq<T>, t2: seq<T>, key: T -> seq<int>)
    requires t1 != [] && t2 != [] && key(t1[|t1| - 1]) == key(t2[|t2| - 1])
    requires forall k :: WithKey(t1, k, key) == WithKey(t2, k, key)
    ensures t1[|t1| - 1] == t2[|t2| - 1]
    ensures forall k {:trigger WithKey(t1[..|t1| - 1], k, key)} ::
      WithKey(t1[..|t1| - 1], k, key) == WithKey(t2[..|t2| - 1], k, key)
  {
    var t1', x1 := t1[..|t1| - 1], t1[|t1| - 1];
    var t2', x2 := t2[..|t2| - 1], t2[|t2| - 1];
    forall k ensures WithKey(t1', k, key) == WithKey(t2', k, key) {
      assert WithKey(t1, k, key) == WithKey(t2, k, key);
      WithKeyLast(t1, k, key);
      WithKeyLast(t2, k, key);
      var a, b := WithKey(t1', k, key), WithKey(t2', k, key);
      if k == key(x1) {
        AppendCancel(a, b, x1, x2);
      } else {
        assert a + [] == a && b + [] == b;
      }
    }
    assert WithKey(t1, key(x1), key) == WithKey(t2, key(x1), key);
    WithKeyLast(t1, key(x1), key);
    WithKeyLast(t2, key(x1), key);
    AppendCancel(WithKey(t1', key(x1), key), WithKey(t2', key(x1), key), x1, x2);
  }

  /** Two sorted sequences that agree on the elements of every key, in
      order, are equal. */
  lemma {:induction false} SortedUnique<T>(t1: seq<T>, t2: seq<T>, key: T -> seq<int>, reverse: bool)
    requires Sorted(t1, key, reverse) && Sorted(t2, key, reverse)
    requires forall k :: WithKey(t1, k, key) == WithKey(t2, k, key)
    ensures t1 == t2
  {
    SameEmptiness(t1, t2, key);
    if t1 != [] {
      var t1', t2' := t1[..|t1| - 1], t2[..|t2| - 1];
      LastKeysAgree(t1, t2, key, reverse);
      DropLastAgree(t1, t2, key);
      assert Sorted(t1', key, reverse) && Sorted(t2', key, reverse);
      SortedUnique(t1', t2', key, reverse);
      LastSplit(t1);
      LastSplit(t2);
    }
  }

  /** Every stable sort gives the specification's list: in particular the
      one `list.sort` performs. */
  lemma StableSortUnique<T>(s: seq<T>, t: seq<T>, key: T -> seq<int>, reverse: bool)
    requires Sorted(t, key, reverse) && Stable(s, t, key)
    ensures t == SortSpec(s, key, reverse)
  {
    SortSpecSorted(s, key, reverse);
    SortSpecStable(s, key, reverse);
    SortedUnique(t, SortSpec(s, key, reverse), key, reverse);
  }

  /** `x` goes right after the last element it need not precede, when it
      must precede every element after that one. */
  lemma {:induction false} InsertAt<T>(s: seq<T>, j: nat, x: T, key: T -> seq<int>, reverse: bool)
    requires j <= |s| && (j == 0 || !Before(x, s[j - 1], key, reverse))
    requires forall k :: j <= k < |s| ==> Before(x, s[k], key, reverse)
    ensures Insert(s, x, key, reverse) == s[..j] + [x] + s[j..]
  {
    if j < |s| {
      var s' := s[..|s| - 1];
      assert Before(x, s[|s| - 1], key, reverse);
      InsertAt(s', j, x, key, reverse);
      assert s'[..j] == s[..j];
      assert s[j..] == s'[j..] + [s[|s| - 1]];
    }
  }

  lemma SortSpecPrefix<T>(s: seq<T>, i: nat, key: T -> seq<int>, reverse: bool)
    requires i < |s|
    ensures SortSpec(s[..i + 1], key, reverse) == Insert(SortSpec(s[..i], key, reverse), s[i], key, reverse)
  {
    assert s[..i + 1][..i] == s[..i];
  }

  /** A sequence that holds `s[..j]`, then `x`, then `s[j..]`, element by
      element, is that concatenation. */
  lemma Spliced<T>(t: seq<T>, s: seq<T>, j: nat, x: T)
    requires j <= |s| && |t| == |s| + 1 && t[j] == x
    requires forall k :: 0 <= k < j ==> t[k] == s[k]
    requires forall k :: j < k < |t| ==> t[k] == s[k - 1]
    ensures t == s[..j] + [x] + s[j..]
  {
  }

  /** One pass of the insertion sort: `a[i]` moves left into the sorted
      prefix `a[..i]` past the elements it must precede. */
  method InsertLast<T>(a: array<T>, i: nat, key: T -> seq<int>, reverse: bool)
    requires i < a.Length
    modifies a
    ensures a[..i + 1] == Insert(old(a[..i]), old(a[i]), key, reverse)
    ensures a[i + 1..] == old(a[i + 1..])
  {
    var x := a[i];
    ghost var sorted := a[..i];
    var j := i;
    while j > 0 && Before(x, a[j - 1], key, reverse)
      invariant 0 <= j <= i
      invariant forall k :: 0 <= k < j ==> a[k] == sorted[k]
      invariant forall k :: j < k <= i ==> a[k] == sorted[k - 1]
      invariant forall k :: i < k < a.Length ==> a[k] == old(a[k])
      invariant forall k :: j <= k < i ==> Before(x, sorted[k], key, reverse)
    {
      a[j] := a[j - 1];
      j := j - 1;
    }
    a[j] := x;
    InsertAt(sorted, j, x, key, reverse);
    Spliced(a[..i + 1], sorted, j, x);
  }

  lemma TailStep<T>(x: seq<T>, y: seq<T>, i: nat)
    requires i < |x| == |y| && x[i..] == y[i..]
    ensures x[i] == y[i] && x[i + 1..] == y[i + 1..]
  {
    assert x[i] == x[i..][0] && y[i] == y[i..][0];
    assert x[i + 1..] == x[i..][1..] && y[i + 1..] == y[i..][1..];
  }

  /** `list.sort(key=..., reverse=...)` on the fresh list of a view: a
      stable insertion sort, in place. */
  method SortInPlace<T>(a: array<T>, key: T -> seq<int>, reverse: bool)
    modifies a
    ensures a[..] == SortSpec(old(a[..]), key, reverse)
  {
    ghost var input := a[..];
    var i := 0;
    while i < a.Length
      invariant 0 <= i <= a.Length
      invariant a[..i] == SortSpec(input[..i], key, reverse)
      invariant a[i..] == input[i..]
    {
      TailStep(a[..], input, i);
      InsertLast(a, i, key, reverse);
      SortSpecPrefix(input, i, key, reverse);
      i := i + 1;
    }
    assert input[..a.Length] == input;
  }
}
