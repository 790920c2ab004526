/** The string operations of Python that the toolkit relies on:
    `sep.join(xs)`, `''.join(xs)`, `s.split(sep)` for a one-character
    separator, and `s.strip()`. */
module Strings {
  import opened Chars

  /** `sep.join(xs)`. */
  function Join(xs: seq<string>, sep: string): string
    decreases |xs|
  {
    if |xs| == 0 then []
    else if |xs| == 1 then xs[0]
    else xs[0] + sep + Join(xs[1..], sep)
  }

  /** `''.join(xs)`. */
  function Concat(xs: seq<string>): string
    decreases |xs|
  {
    if xs == [] then [] else xs[0] + Concat(xs[1..])
  }

  lemma {:induction false} ConcatAppend(xs: seq<string>, ys: seq<string>)
    ensures Concat(xs + ys) == Concat(xs) + Concat(ys)
    decreases |xs|
  {
    if xs == [] {
      assert xs + ys == ys;
    } else {
      assert (xs + ys)[1..] == xs[1..] + ys;
      ConcatAppend(xs[1..], ys);
    }
  }

  /** The position of the first occurrence of `c` in `s`. */
  function IndexOf(s: string, c: char): (i: nat)
    requires c in s
    ensures i < |s| && s[i] == c
    ensures forall q :: 0 <= q < i ==> s[q] != c
    decreases |s|
  {
    if s[0] == c then 0
    else
      assert c in s[1..] by { var k :| 0 <= k < |s| && s[k] == c; assert s[1..][k - 1] == c; }
      IndexOf(s[1..], c) + 1
  }

  /** The first occurrence is the one at `n` when nothing before `n` is `c`. */
  lemma IndexOfAt(s: string, c: char, n: nat)
    requires n < |s| && s[n] == c
    requires forall q :: 0 <= q < n ==> s[q] != c
    ensures c in s && IndexOf(s, c) == n
  {
    assert c in s by { assert s[n] == c; }
    var i := IndexOf(s, c);
    assert i <= n;
  }

  /** `s.split(sep)`: the pieces of `s` between occurrences of `sep`.
      There is one piece more than there are separators, no piece
      contains the separator, and joining the pieces with it gives `s`
      back. */
  function Split(s: string, sep: char): (r: seq<string>)
    ensures |r| == multiset(s)[sep] + 1
    ensures forall k :: 0 <= k < |r| ==> sep !in r[k]
    ensures Join(r, [sep]) == s
    decreases |s|
  {
    if sep !in s then [s]
    else
      var i := IndexOf(s, sep);
      var rest := Split(s[i + 1..], sep);
      assert sep !in s[..i];
      assert s == s[..i] + [sep] + s[i + 1..];
      assert multiset(s) == multiset(s[..i]) + multiset{sep} + multiset(s[i + 1..]);
      assert ([s[..i]] + rest)[1..] == rest;
      [s[..i]] + rest
  }

  /** The converse of Split's round trip: pieces free of the separator
      are recovered by splitting their join. */
  lemma {:induction false} SplitJoin(xs: seq<string>, sep: char)
    requires |xs| >= 1
    requires forall k :: 0 <= k < |xs| ==> sep !in xs[k]
    ensures Split(Join(xs, [sep]), sep) == xs
    decreases |xs|
  {
    if |xs| > 1 {
      var x, s, rest := xs[0], Join(xs, [sep]), Join(xs[1..], [sep]);
      var n := |x|;
      assert s == x + [sep] + rest;
      assert forall q :: 0 <= q < n ==> s[q] == x[q];
      IndexOfAt(s, sep, n);
      assert s[..n] == x;
      assert s[n + 1..] == rest;
      SplitJoin(xs[1..], sep);
      assert Split(s, sep) == [x] + Split(rest, sep);
    }
  }

  predicate AllSpace(s: string) {
    forall k :: 0 <= k < |s| ==> IsSpace(s[k])
  }

  /** Where `s.lstrip()` starts: the first position at or after `i` that
      holds no whitespace, or the end of `s`. */
  function SkipSpace(s: string, i: nat): (j: nat)
    requires i <= |s|
    ensures i <= j <= |s|
    ensures forall q :: i <= q < j ==> IsSpace(s[q])
    ensures j == |s| || !IsSpace(s[j])
    decreases |s| - i
  {
    if i < |s| && IsSpace(s[i]) then SkipSpace(s, i + 1) else i
  }

  /** Where `s[lo..j].rstrip()` ends: the whitespace before `j` is dropped,
      down to `lo` at most. */
  function TrimSpace(s: string, lo: nat, j: nat): (e: nat)
    requires lo <= j <= |s|
    ensures lo <= e <= j
    ensures forall q :: e <= q < j ==> IsSpace(s[q])
    ensures e == lo || !IsSpace(s[e - 1])
    decreases j
  {
    if lo < j && IsSpace(s[j - 1]) then TrimSpace(s, lo, j - 1) else j
  }

  /** `s.strip()`: `s` without its leading and trailing whitespace; it
      neither starts nor ends with whitespace. */
  function Strip(s: string): (r: string)
    ensures r == [] || (!IsSpace(r[0]) && !IsSpace(r[|r| - 1]))
  {
    var i := SkipSpace(s, 0);
    s[i..TrimSpace(s, i, |s|)]
  }

  /** What Strip removes: whitespace before and whitespace after. */
  lemma StripParts(s: string) returns (left: string, right: string)
    ensures s == left + (Strip(s) + right)
    ensures AllSpace(left) && AllSpace(right)
  {
    var i := SkipSpace(s, 0);
    var e := TrimSpace(s, i, |s|);
    left, right := s[..i], s[e..];
    SliceThree(s, i, e);
    AllSpaceSlice(s, 0, i);
    AllSpaceSlice(s, e, |s|);
  }

  lemma SliceThree(s: string, i: nat, e: nat)
    requires i <= e <= |s|
    ensures s == s[..i] + (s[i..e] + s[e..])
  {
    assert s[i..e] + s[e..] == s[i..];
    assert s[..i] + s[i..] == s;
  }

  lemma AllSpaceSlice(s: string, lo: nat, hi: nat)
    requires lo <= hi <= |s|
    requires forall q :: lo <= q < hi ==> IsSpace(s[q])
    ensures AllSpace(s[lo..hi])
  {
    assert forall k :: 0 <= k < hi - lo ==> s[lo..hi][k] == s[lo + k];
  }

  /** What Strip keeps is a slice of its input: a character it does not
      hold is not in the result. */
  lemma StripInside(s: string)
    ensures forall c :: c in Strip(s) ==> c in s
  {
    var left, right := StripParts(s);
  }

  /** Stripping twice strips no more than stripping once. */
  lemma StripIdempotent(s: string)
    ensures Strip(Strip(s)) == Strip(s)
  {
    var r := Strip(s);
    if r != [] {
      assert SkipSpace(r, 0) == 0;
      assert TrimSpace(r, 0, |r|) == |r|;
    }
  }

  /** `[x.strip() for x in xs]`. */
  function StripEach(xs: seq<string>): (r: seq<string>)
    ensures |r| == |xs| && forall k :: 0 <= k < |xs| ==> r[k] == Strip(xs[k])
  {
    seq(|xs|, k requires 0 <= k < |xs| => Strip(xs[k]))
  }
}
