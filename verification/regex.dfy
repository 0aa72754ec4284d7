/** Building blocks of the two regular expressions the parser relies on
    (the location pattern and the layouts `strptime` compiles): the
    character classes of a pattern compiled without re.UNICODE, literal
    prefixes, and greedy runs of one class. */
module Regex {
  import opened Base
  import opened PyStr

  /** `\w`, `\d` and `\s` of a pattern compiled without re.UNICODE: ASCII
      classes only. */
  predicate IsWordChar(c: char) {
    ('a' <= c <= 'z') || ('A' <= c <= 'Z') || ('0' <= c <= '9') || c == '_'
  }

  predicate IsDigit(c: char) {
    '0' <= c <= '9'
  }

  predicate IsRegexSpace(c: char) {
    c == ' ' || ('\t' <= c <= '\r')
  }

  /** A nonempty run of characters that satisfy `p`. */
  predicate IsRun(s: string, p: char -> bool) {
    s != [] && forall k :: 0 <= k < |s| ==> p(s[k])
  }

  /** The text after a leading `p`, if `s` starts with it. */
  function Skip(s: string, p: string): (r: Option<string>)
    ensures r.Some? <==> StartsWith(s, p)
    ensures r.Some? ==> s == p + r.value
  {
    if StartsWith(s, p) then Some(s[|p|..]) else None
  }

  /** A greedy, nonempty run of `p` characters and the text after it. */
  function Run(s: string, p: char -> bool): (r: Option<(string, string)>)
    ensures r.Some? ==> IsRun(r.value.0, p) && s == r.value.0 + r.value.1
    ensures r.Some? ==> r.value.1 == [] || !p(r.value.1[0])
  {
    var x := TakeWhile(s, p);
    if x == [] then None
    else
      assert s == x + s[|x|..];
      Some((x, s[|x|..]))
  }

  lemma SkipOf(p: string, x: string)
    ensures Skip(p + x, p) == Some(x)
  {
    assert (p + x)[..|p|] == p && (p + x)[|p|..] == x;
  }

  lemma RunOf(x: string, y: string, p: char -> bool)
    requires IsRun(x, p) && (y == [] || !p(y[0]))
    ensures Run(x + y, p) == Some((x, y))
  {
    TakeWhileOf(x, y, p);
    assert (x + y)[|x|..] == y;
  }

  lemma FindZeroIsPrefix(s: string, p: string)
    ensures Find(s, p) == 0 <==> StartsWith(s, p)
  {
    if StartsWith(s, p) { assert At(s, p, 0); }
  }

  /** Index of the first candidate `c` with `s.find(c) == 0`: the first
      alternative of a list that begins `s`. */
  function FirstPrefix(s: string, candidates: seq<string>): (r: Option<nat>)
    ensures r.Some? ==> r.value < |candidates| && StartsWith(s, candidates[r.value])
    ensures r.Some? ==> forall j :: 0 <= j < r.value ==> !StartsWith(s, candidates[j])
    ensures r.None? ==> forall j :: 0 <= j < |candidates| ==> !StartsWith(s, candidates[j])
  {
    if candidates == [] then None
    else if Find(s, candidates[0]) == 0 then FindZeroIsPrefix(s, candidates[0]); Some(0)
    else
      FindZeroIsPrefix(s, candidates[0]);
      match FirstPrefix(s, candidates[1..])
      case Some(i) => Some(i + 1)
      case None => None
  }
}
