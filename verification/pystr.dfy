/** The few Python 2 string operations the parser is built from: `strip`,
    `find`, `rfind`, `startswith`-style prefix tests and slicing with
    Python's clamping and negative-index rules. */
module PyStr {

  /** Whitespace as `unicode.strip()` of Python 2.7 sees it (its Unicode 5.2
      table): the ASCII separators 9-13 and 28-32 plus the Unicode spaces. */
  predicate IsSpace(c: char) {
    c == ' ' || ('\t' <= c <= '\r') || ('\U{1C}' <= c <= '\U{1F}')
    || c == '\U{85}' || c == '\U{A0}' || c == '\U{1680}' || c == '\U{180E}'
    || ('\U{2000}' <= c <= '\U{200A}') || c == '\U{2028}' || c == '\U{2029}'
    || c == '\U{202F}' || c == '\U{205F}' || c == '\U{3000}'
  }

  predicate AllSpace(s: string) {
    forall k :: 0 <= k < |s| ==> IsSpace(s[k])
  }

  /** Neither end of `s` is whitespace. */
  predicate IsStripped(s: string) {
    s == [] || (!IsSpace(s[0]) && !IsSpace(s[|s| - 1]))
  }

  /** Length of the whitespace run at the start of `s`. */
  function LeadingSpaces(s: string): (n: nat)
    ensures n <= |s|
    ensures AllSpace(s[..n])
    ensures n < |s| ==> !IsSpace(s[n])
  {
    if s == [] || !IsSpace(s[0]) then 0 else 1 + LeadingSpaces(s[1..])
  }

  /** Length of the whitespace run at the end of `s`. */
  function TrailingSpaces(s: string): (n: nat)
    ensures n <= |s|
    ensures AllSpace(s[|s| - n..])
    ensures n < |s| ==> !IsSpace(s[|s| - 1 - n])
  {
    if s == [] || !IsSpace(s[|s| - 1]) then 0
    else
      var n := TrailingSpaces(s[..|s| - 1]);
      ghost var tail, shorter := s[|s| - 1 - n..], s[..|s| - 1][|s| - 1 - n..];
      assert AllSpace(tail) by {
        forall k | 0 <= k < n ensures IsSpace(tail[k]) {
          assert tail[k] == shorter[k];
        }
      }
      1 + n
  }

  /** `s.strip()`: `s` without its leading and trailing whitespace; what is
      removed is whitespace only, and what is kept is one piece of `s`. */
  function Strip(s: string): (r: string)
    ensures IsStripped(r)
    ensures r == [] <==> LeadingSpaces(s) == |s|
    ensures LeadingSpaces(s) + |r| <= |s|
    ensures r == s[LeadingSpaces(s)..LeadingSpaces(s) + |r|]
    ensures AllSpace(s[LeadingSpaces(s) + |r|..])
  {
    var lo := LeadingSpaces(s);
    if lo == |s| then []
    else
      var n := TrailingSpaces(s);
      assert lo < |s| - n by {
        forall k | |s| - n <= k < |s| ensures IsSpace(s[k]) {
          assert s[k] == s[|s| - n..][k - (|s| - n)];
        }
        assert !IsSpace(s[lo]);
      }
      s[lo..|s| - n]
  }

  /** `strip` leaves nothing exactly of an all-whitespace string. */
  lemma StripEmpty(s: string)
    ensures Strip(s) == [] <==> AllSpace(s)
  {
    if LeadingSpaces(s) < |s| {
      assert !IsSpace(s[LeadingSpaces(s)]);
    }
  }

  lemma LeadingSpacesOf(pre: string, rest: string)
    requires AllSpace(pre) && rest != [] && !IsSpace(rest[0])
    ensures LeadingSpaces(pre + rest) == |pre|
  {
    if pre != [] {
      assert (pre + rest)[1..] == pre[1..] + rest;
      LeadingSpacesOf(pre[1..], rest);
    } else {
      assert pre + rest == rest;
    }
  }

  lemma TrailingSpacesOf(rest: string, post: string)
    requires AllSpace(post) && rest != [] && !IsSpace(rest[|rest| - 1])
    ensures TrailingSpaces(rest + post) == |post|
  {
    if post != [] {
      assert (rest + post)[..|rest + post| - 1] == rest + post[..|post| - 1];
      TrailingSpacesOf(rest, post[..|post| - 1]);
    } else {
      assert rest + post == rest;
    }
  }

  /** Stripping is determined by the kept text: whitespace around a stripped
      piece is exactly what `strip` removes. */
  lemma {:induction false} StripOf(pre: string, x: string, post: string)
    requires AllSpace(pre) && AllSpace(post) && IsStripped(x)
    ensures Strip(pre + x + post) == x
  {
    var s := pre + x + post;
    if x == [] {
      assert AllSpace(s) by {
        forall k | 0 <= k < |s| ensures IsSpace(s[k]) {
          if k < |pre| { assert s[k] == pre[k]; } else { assert s[k] == post[k - |pre|]; }
        }
      }
    } else {
      assert s == pre + (x + post);
      LeadingSpacesOf(pre, x + post);
      assert s == (pre + x) + post;
      TrailingSpacesOf(pre + x, post);
      assert s[|pre|..|s| - |post|] == x;
    }
  }

  /** `strip` is idempotent. */
  lemma StripIdempotent(s: string)
    ensures Strip(Strip(s)) == Strip(s)
  {
    StripOf([], Strip(s), []);
    assert [] + Strip(s) + [] == Strip(s);
  }

  predicate StartsWith(s: string, p: string) {
    |p| <= |s| && s[..|p|] == p
  }

  /** `p` occurs in `s` at index `i`. */
  predicate At(s: string, p: string, i: int) {
    0 <= i && i + |p| <= |s| && s[i..i + |p|] == p
  }

  function FindFrom(s: string, p: string, start: nat): (r: int)
    requires start <= |s|
    ensures r == -1 || (start <= r && At(s, p, r))
    ensures forall i :: start <= i && (r == -1 || i < r) ==> !At(s, p, i)
    decreases |s| - start
  {
    if At(s, p, start) then start
    else if start == |s| then -1
    else FindFrom(s, p, start + 1)
  }

  /** `s.find(p)`: the lowest index where `p` occurs, or -1. */
  function Find(s: string, p: string): (r: int)
    ensures r == -1 || At(s, p, r)
    ensures forall i :: 0 <= i && (r == -1 || i < r) ==> !At(s, p, i)
  {
    FindFrom(s, p, 0)
  }

  function RFindFrom(s: string, p: string, end: int): (r: int)
    requires end <= |s|
    ensures r == -1 || (r <= end && At(s, p, r))
    ensures forall i :: r < i <= end ==> !At(s, p, i)
    decreases end + 1
  {
    if end < 0 then -1
    else if At(s, p, end) then end
    else RFindFrom(s, p, end - 1)
  }

  /** `s.rfind(p)`: the highest index where `p` occurs, or -1. */
  function RFind(s: string, p: string): (r: int)
    ensures r == -1 || At(s, p, r)
    ensures forall i :: r < i ==> !At(s, p, i)
  {
    RFindFrom(s, p, |s|)
  }

  /** Python's reading of a slice bound `i` for a sequence of length `n`. */
  function Clamp(i: int, n: nat): (r: nat)
    ensures r <= n
    ensures 0 <= i <= n ==> r == i
    ensures i < 0 && 0 <= n + i ==> r == n + i
    ensures i < 0 && n + i < 0 ==> r == 0
    ensures i > n ==> r == n
  {
    if i < 0 then (if n + i < 0 then 0 else n + i)
    else if i > n then n
    else i
  }

  /** `s[lo:hi]` with Python's clamping and negative indices. */
  function Slice(s: string, lo: int, hi: int): (r: string)
    ensures 0 <= lo <= hi <= |s| ==> r == s[lo..hi]
    ensures Clamp(hi, |s|) <= Clamp(lo, |s|) ==> r == []
    ensures Clamp(lo, |s|) <= Clamp(hi, |s|) ==> r == s[Clamp(lo, |s|)..Clamp(hi, |s|)]
  {
    var a, b := Clamp(lo, |s|), Clamp(hi, |s|);
    if a <= b then s[a..b] else []
  }

  /** The longest prefix of `s` whose characters all satisfy `p`. */
  function TakeWhile(s: string, p: char -> bool): (r: string)
    ensures |r| <= |s| && r == s[..|r|]
    ensures forall k :: 0 <= k < |r| ==> p(r[k])
    ensures |r| < |s| ==> !p(s[|r|])
  {
    if s == [] || !p(s[0]) then [] else [s[0]] + TakeWhile(s[1..], p)
  }

  /** A run that stops where `p` first fails is what `TakeWhile` takes. */
  lemma TakeWhileOf(x: string, y: string, p: char -> bool)
    requires forall k :: 0 <= k < |x| ==> p(x[k])
    requires y == [] || !p(y[0])
    ensures TakeWhile(x + y, p) == x
  {
    if x != [] {
      assert (x + y)[1..] == x[1..] + y;
      TakeWhileOf(x[1..], y, p);
    } else {
      assert x + y == y;
    }
  }
}
