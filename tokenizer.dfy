/** The tokeniser behind `re.findall(r'\b\w+\b', text.lower())`: the
    tokens of a text are its maximal runs of word characters, in text
    order, lowercased.  A run is located by a span of positions; the scan
    that finds the spans plays the part of the regular-expression
    engine. */
module Tokenizer {
  import opened Chars
  import opened Strings

  /** The positions `start <= q < end` of one token. */
  datatype Span = Span(start: nat, end: nat)

  /** Every position of the span holds a word character. */
  ghost predicate IsWordRun(t: string, sp: Span) {
    sp.start < sp.end <= |t| && forall q :: sp.start <= q < sp.end ==> IsWordChar(t[q])
  }

  /** `\b` before the span. */
  ghost predicate StartsAtBoundary(t: string, sp: Span)
    requires sp.start <= |t|
  {
    sp.start == 0 || !IsWordChar(t[sp.start - 1])
  }

  /** `\b` after the span. */
  ghost predicate EndsAtBoundary(t: string, sp: Span)
    requires sp.end <= |t|
  {
    sp.end == |t| || !IsWordChar(t[sp.end])
  }

  ghost predicate IsMaximalRun(t: string, sp: Span) {
    IsWordRun(t, sp) && StartsAtBoundary(t, sp) && EndsAtBoundary(t, sp)
  }

  /** Some span of `r` contains position `q`. */
  ghost predicate Covers(r: seq<Span>, q: nat) {
    exists k :: 0 <= k < |r| && r[k].start <= q < r[k].end
  }

  /** The spans lie left to right with a gap between consecutive ones. */
  ghost predicate InTextOrder(r: seq<Span>) {
    forall k :: 0 <= k < |r| - 1 ==> r[k].end < r[k + 1].start
  }

  /** The end of the run of word characters that starts at `i` (greedy `\w+`). */
  function RunEnd(t: string, i: nat): (e: nat)
    requires i <= |t|
    ensures i <= e <= |t|
    ensures forall q :: i <= q < e ==> IsWordChar(t[q])
    ensures e == |t| || !IsWordChar(t[e])
    decreases |t| - i
  {
    if i < |t| && IsWordChar(t[i]) then RunEnd(t, i + 1) else i
  }

  /** The run end is determined by its contract. */
  lemma RunEndUnique(t: string, i: nat, e: nat)
    requires i <= e <= |t|
    requires forall q :: i <= q < e ==> IsWordChar(t[q])
    requires e == |t| || !IsWordChar(t[e])
    ensures RunEnd(t, i) == e
  {
  }

  /** The spans of the tokens found by scanning `t` from position `i`,
      each a non-empty slice of `t` at or after `i`. */
  function SpansFrom(t: string, i: nat): (r: seq<Span>)
    requires i <= |t|
    ensures forall k :: 0 <= k < |r| ==> i <= r[k].start < r[k].end <= |t|
    decreases |t| - i
  {
    if i == |t| then []
    else if !IsWordChar(t[i]) then SpansFrom(t, i + 1)
    else
      var e := RunEnd(t, i);
      [Span(i, e)] + SpansFrom(t, e)
  }

  /** Each span the scan from `i` finds is a run of word characters that
      ends at a boundary and starts at `i` or at a boundary. */
  lemma {:induction false} SpansFromAreRuns(t: string, i: nat)
    requires i <= |t|
    ensures forall k :: 0 <= k < |SpansFrom(t, i)| ==>
              var sp := SpansFrom(t, i)[k];
              IsWordRun(t, sp) && EndsAtBoundary(t, sp) && (sp.start == i || StartsAtBoundary(t, sp))
    decreases |t| - i
  {
    if i < |t| {
      if !IsWordChar(t[i]) {
        SpansFromAreRuns(t, i + 1);
      } else {
        var e := RunEnd(t, i);
        SpansFromAreRuns(t, e);
        var rest := SpansFrom(t, e);
        assert forall k :: 1 <= k < |SpansFrom(t, i)| ==> SpansFrom(t, i)[k] == rest[k - 1];
      }
    }
  }

  /** The spans the scan finds lie in text order, with gaps between them. */
  lemma {:induction false} SpansFromInOrder(t: string, i: nat)
    requires i <= |t|
    ensures InTextOrder(SpansFrom(t, i))
    decreases |t| - i
  {
    if i < |t| {
      if !IsWordChar(t[i]) {
        SpansFromInOrder(t, i + 1);
      } else {
        var e := RunEnd(t, i);
        SpansFromInOrder(t, e);
        var rest := SpansFrom(t, e);
        if rest != [] {
          SpansFromAreRuns(t, e);
          assert IsWordChar(t[rest[0].start]);
        }
        assert forall k :: 1 <= k < |SpansFrom(t, i)| ==> SpansFrom(t, i)[k] == rest[k - 1];
      }
    }
  }

  /** Every word character at or after `i` lies in a span the scan finds. */
  lemma {:induction false} SpansFromCover(t: string, i: nat)
    requires i <= |t|
    ensures forall q :: i <= q < |t| && IsWordChar(t[q]) ==> Covers(SpansFrom(t, i), q)
    decreases |t| - i
  {
    if i < |t| {
      if !IsWordChar(t[i]) {
        SpansFromCover(t, i + 1);
      } else {
        var e := RunEnd(t, i);
        SpansFromCover(t, e);
        var rest := SpansFrom(t, e);
        var r := SpansFrom(t, i);
        assert r == [Span(i, e)] + rest;
        forall q | i <= q < |t| && IsWordChar(t[q]) ensures Covers(r, q) {
          if q < e {
            assert r[0] == Span(i, e);
          } else {
            var k :| 0 <= k < |rest| && rest[k].start <= q < rest[k].end;
            assert r[k + 1] == rest[k];
          }
        }
      }
    }
  }

  /** The spans of all tokens of `t`. */
  function Spans(t: string): (r: seq<Span>)
    ensures forall k :: 0 <= k < |r| ==> r[k].start < r[k].end <= |t|
  {
    SpansFrom(t, 0)
  }

  /** The spans of a text are exactly its maximal runs of word
      characters: each is one, they lie in text order with gaps between
      them, and every word character lies in one of them. */
  lemma SpansAreMaximalRuns(t: string)
    ensures forall k :: 0 <= k < |Spans(t)| ==> IsMaximalRun(t, Spans(t)[k])
    ensures InTextOrder(Spans(t))
    ensures forall q :: 0 <= q < |t| && IsWordChar(t[q]) ==> Covers(Spans(t), q)
  {
    SpansFromAreRuns(t, 0);
    SpansFromInOrder(t, 0);
    SpansFromCover(t, 0);
  }

  /** The slices of `t` that the spans of `r` delimit. */
  function Slices(t: string, r: seq<Span>): (ws: seq<string>)
    requires forall k :: 0 <= k < |r| ==> r[k].start <= r[k].end <= |t|
    ensures |ws| == |r|
  {
    seq(|r|, k requires 0 <= k < |r| => t[r[k].start..r[k].end])
  }

  /** `re.findall(r'\b\w+\b', t)`: the text of each span, in order. */
  function Tokens(t: string): (ws: seq<string>)
  {
    Slices(t, Spans(t))
  }

  /** The tokens of `text.lower()`: what `_get_words` returns for `text`. */
  function Words(s: string): seq<string>
  {
    Tokens(Lower(s))
  }

  /** Every token is a non-empty string of word characters, and every
      character of it occurs in the text. */
  lemma TokensAreWordStrings(t: string)
    ensures forall k :: 0 <= k < |Tokens(t)| ==> |Tokens(t)[k]| > 0
    ensures forall k, c :: 0 <= k < |Tokens(t)| && c in Tokens(t)[k] ==> IsWordChar(c) && c in t
  {
    var ws := Tokens(t);
    var r := Spans(t);
    SpansAreMaximalRuns(t);
    forall k, c | 0 <= k < |ws| && c in ws[k] ensures IsWordChar(c) && c in t {
      assert ws[k] == t[r[k].start..r[k].end];
      var q :| 0 <= q < |ws[k]| && ws[k][q] == c;
      assert t[r[k].start + q] == c;
      assert IsWordRun(t, r[k]);
    }
  }

  /** Every word is non-empty and made of lowercase word characters. */
  lemma WordsAreLowercaseWordStrings(s: string)
    ensures forall k :: 0 <= k < |Words(s)| ==> |Words(s)[k]| > 0
    ensures forall k, c :: 0 <= k < |Words(s)| && c in Words(s)[k] ==> IsLowerWordChar(c)
  {
    TokensAreWordStrings(Lower(s));
  }

  // ---------------------------------------------------------------------
  // The tokens of a text, read on the text itself

  /** Spans depend only on which positions hold word characters. */
  lemma {:induction false} SpansFromSameShape(t: string, u: string, i: nat)
    requires |t| == |u| && i <= |t|
    requires forall q :: 0 <= q < |t| ==> IsWordChar(t[q]) == IsWordChar(u[q])
    ensures SpansFrom(t, i) == SpansFrom(u, i)
    decreases |t| - i
  {
    if i < |t| {
      if !IsWordChar(t[i]) {
        SpansFromSameShape(t, u, i + 1);
      } else {
        var e := RunEnd(t, i);
        RunEndUnique(u, i, e);
        SpansFromSameShape(t, u, e);
      }
    }
  }

  /** The words of `s` are the lowercased maximal runs of word characters
      of `s` itself, in text order; every word character of `s` lies in
      one of them. */
  lemma WordsAreMaximalRuns(s: string)
    ensures |Words(s)| == |Spans(s)|
    ensures forall k :: 0 <= k < |Spans(s)| ==>
              IsMaximalRun(s, Spans(s)[k]) && Words(s)[k] == Lower(s[Spans(s)[k].start..Spans(s)[k].end])
    ensures InTextOrder(Spans(s))
    ensures forall q :: 0 <= q < |s| && IsWordChar(s[q]) ==> Covers(Spans(s), q)
  {
    var t := Lower(s);
    SpansFromSameShape(t, s, 0);
    SpansAreMaximalRuns(s);
    var r := Spans(s);
    forall k | 0 <= k < |r|
      ensures Words(s)[k] == Lower(s[r[k].start..r[k].end])
    {
      assert IsWordRun(s, r[k]);
      assert t[r[k].start..r[k].end] == Lower(s[r[k].start..r[k].end]);
    }
  }

  // ---------------------------------------------------------------------
  // Tokens of a concatenation

  /** The spans of `r` moved `d` positions to the right. */
  function Shift(r: seq<Span>, d: nat): (r': seq<Span>)
    ensures |r'| == |r|
    ensures forall k :: 0 <= k < |r| ==> r'[k] == Span(r[k].start + d, r[k].end + d)
  {
    seq(|r|, k requires 0 <= k < |r| => Span(r[k].start + d, r[k].end + d))
  }

  lemma ShiftCons(sp: Span, r: seq<Span>, d: nat)
    ensures Shift([sp] + r, d) == [Span(sp.start + d, sp.end + d)] + Shift(r, d)
  {
    assert forall k :: 0 <= k < |r| + 1 ==>
      Shift([sp] + r, d)[k] == ([Span(sp.start + d, sp.end + d)] + Shift(r, d))[k];
  }

  /** A run inside `b` ends at the same place when `b` follows `a`. */
  lemma RunEndShift(a: string, b: string, j: nat)
    requires j <= |b|
    ensures RunEnd(a + b, |a| + j) == |a| + RunEnd(b, j)
  {
    var x, n, e := a + b, |a|, RunEnd(b, j);
    assert forall q :: n + j <= q < n + e ==> x[q] == b[q - n];
    assert n + e < |x| ==> x[n + e] == b[e];
    RunEndUnique(x, n + j, n + e);
  }

  /** Scanning the second part of `a + b` finds the spans of `b`, moved. */
  lemma {:induction false} SpansFromShift(a: string, b: string, j: nat)
    requires j <= |b|
    ensures SpansFrom(a + b, |a| + j) == Shift(SpansFrom(b, j), |a|)
    decreases |b| - j
  {
    var x, n := a + b, |a|;
    if j == |b| {
      assert SpansFrom(x, n + j) == [];
    } else if !IsWordChar(b[j]) {
      assert x[n + j] == b[j];
      SpansFromShift(a, b, j + 1);
    } else {
      var e := RunEnd(b, j);
      SpansFromShift(a, b, e);
      SpansFromShiftRun(a, b, j, e);
    }
  }

  /** One step of SpansFromShift: the run that starts at `j` in `b`. */
  lemma SpansFromShiftRun(a: string, b: string, j: nat, e: nat)
    requires j < |b| && IsWordChar(b[j]) && e == RunEnd(b, j)
    requires SpansFrom(a + b, |a| + e) == Shift(SpansFrom(b, e), |a|)
    ensures SpansFrom(a + b, |a| + j) == Shift(SpansFrom(b, j), |a|)
  {
    var x, n := a + b, |a|;
    assert x[n + j] == b[j];
    RunEndShift(a, b, j);
    assert SpansFrom(x, n + j) == [Span(n + j, n + e)] + SpansFrom(x, n + e);
    assert SpansFrom(b, j) == [Span(j, e)] + SpansFrom(b, e);
    ShiftCons(Span(j, e), SpansFrom(b, e), n);
  }

  /** No token can straddle the seam between `a` and `b`. */
  predicate Separated(a: string, b: string) {
    a == [] || b == [] || !IsWordChar(a[|a| - 1]) || !IsWordChar(b[0])
  }

  /** A run inside `a` ends at the same place when `b` follows, given
      that no word crosses the seam. */
  lemma RunEndPrefix(a: string, b: string, i: nat)
    requires i < |a| && Separated(a, b)
    ensures RunEnd(a + b, i) == RunEnd(a, i)
  {
    var x, n, e := a + b, |a|, RunEnd(a, i);
    assert forall q :: i <= q < e ==> x[q] == a[q];
    if e < n {
      assert x[e] == a[e];
    } else if i < e {
      assert IsWordChar(a[n - 1]);
      assert b == [] || x[n] == b[0];
    }
    RunEndUnique(x, i, e);
  }

  /** Scanning `a + b` finds the spans of `a` and then those of `b`,
      moved, when no word crosses the seam. */
  lemma {:induction false} SpansFromAppend(a: string, b: string, i: nat)
    requires i <= |a| && Separated(a, b)
    ensures SpansFrom(a + b, i) == SpansFrom(a, i) + Shift(SpansFrom(b, 0), |a|)
    decreases |a| - i
  {
    var x, n := a + b, |a|;
    if i == n {
      SpansFromShift(a, b, 0);
      assert SpansFrom(a, i) == [];
    } else if !IsWordChar(a[i]) {
      assert x[i] == a[i];
      SpansFromAppend(a, b, i + 1);
    } else {
      var e := RunEnd(a, i);
      SpansFromAppend(a, b, e);
      SpansFromAppendRun(a, b, i, e);
    }
  }

  /** One step of SpansFromAppend: the run that starts at `i` in `a`. */
  lemma SpansFromAppendRun(a: string, b: string, i: nat, e: nat)
    requires i < |a| && Separated(a, b) && IsWordChar(a[i]) && e == RunEnd(a, i)
    requires SpansFrom(a + b, e) == SpansFrom(a, e) + Shift(SpansFrom(b, 0), |a|)
    ensures SpansFrom(a + b, i) == SpansFrom(a, i) + Shift(SpansFrom(b, 0), |a|)
  {
    var x, tail := a + b, Shift(SpansFrom(b, 0), |a|);
    assert x[i] == a[i];
    RunEndPrefix(a, b, i);
    assert SpansFrom(x, i) == [Span(i, e)] + SpansFrom(x, e);
    assert SpansFrom(a, i) == [Span(i, e)] + SpansFrom(a, e);
    assert [Span(i, e)] + (SpansFrom(a, e) + tail) == ([Span(i, e)] + SpansFrom(a, e)) + tail;
  }

  /** Slicing by spans moved past `a` reads the same text in `b`. */
  lemma SlicesAppend(a: string, b: string, ra: seq<Span>, rb: seq<Span>)
    requires forall k :: 0 <= k < |ra| ==> ra[k].start <= ra[k].end <= |a|
    requires forall k :: 0 <= k < |rb| ==> rb[k].start <= rb[k].end <= |b|
    ensures forall k :: 0 <= k < |ra + Shift(rb, |a|)| ==>
              (ra + Shift(rb, |a|))[k].start <= (ra + Shift(rb, |a|))[k].end <= |a + b|
    ensures Slices(a + b, ra + Shift(rb, |a|)) == Slices(a, ra) + Slices(b, rb)
  {
    var x, n, rx := a + b, |a|, ra + Shift(rb, |a|);
    forall k | 0 <= k < |rx|
      ensures Slices(x, rx)[k] == (Slices(a, ra) + Slices(b, rb))[k]
    {
      if k < |ra| {
        assert rx[k] == ra[k];
        assert x[ra[k].start..ra[k].end] == a[ra[k].start..ra[k].end];
      } else {
        var sp := rb[k - |ra|];
        assert rx[k] == Span(sp.start + n, sp.end + n);
        assert x[sp.start + n..sp.end + n] == b[sp.start..sp.end];
      }
    }
  }

  /** Tokenising a concatenation whose seam is not inside a word gives the
      tokens of the parts, one after the other. */
  lemma TokensAppend(a: string, b: string)
    requires Separated(a, b)
    ensures Tokens(a + b) == Tokens(a) + Tokens(b)
  {
    SpansFromAppend(a, b, 0);
    SlicesAppend(a, b, Spans(a), Spans(b));
  }

  lemma WordsAppend(a: string, b: string)
    requires Separated(a, b)
    ensures Words(a + b) == Words(a) + Words(b)
  {
    LowerAppend(a, b);
    TokensAppend(Lower(a), Lower(b));
  }

  predicate NoWordChars(s: string) {
    forall q :: 0 <= q < |s| ==> !IsWordChar(s[q])
  }

  /** A text without word characters has no token spans. */
  lemma {:induction false} SpansFromWithoutWordChars(t: string, i: nat)
    requires i <= |t| && NoWordChars(t)
    ensures SpansFrom(t, i) == []
    decreases |t| - i
  {
    if i < |t| {
      SpansFromWithoutWordChars(t, i + 1);
    }
  }

  /** A text without word characters has no words. */
  lemma WordsWithoutWordChars(s: string)
    requires NoWordChars(s)
    ensures Words(s) == []
  {
    var t := Lower(s);
    assert NoWordChars(t);
    SpansFromWithoutWordChars(t, 0);
  }

  /** `str.strip()` never changes the words of a text. */
  lemma WordsStrip(s: string)
    ensures Words(Strip(s)) == Words(s)
  {
    var left, right := StripParts(s);
    var r := Strip(s);
    assert NoWordChars(left) by { assert AllSpace(left); }
    assert NoWordChars(right) by { assert AllSpace(right); }
    WordsWithoutWordChars(left);
    WordsWithoutWordChars(right);
    WordsAppend(r, right);
    WordsAppend(left, r + right);
  }

  /** The words of each text of `xs`, one text after the other. */
  function WordsOfEach(xs: seq<string>): seq<string>
    decreases |xs|
  {
    if xs == [] then [] else Words(xs[0]) + WordsOfEach(xs[1..])
  }

  /** Joining texts with a separator made of non-word characters (such as
      `' '` or `'\n'`) neither merges nor splits words. */
  lemma {:induction false} WordsJoin(xs: seq<string>, sep: string)
    requires sep != [] && NoWordChars(sep)
    ensures Words(Join(xs, sep)) == WordsOfEach(xs)
    decreases |xs|
  {
    if |xs| == 0 {
      WordsWithoutWordChars([]);
    } else if |xs| == 1 {
      assert xs[1..] == [];
    } else {
      var rest := Join(xs[1..], sep);
      WordsJoin(xs[1..], sep);
      WordsAppend(xs[0], sep);
      WordsWithoutWordChars(sep);
      assert xs[0] + sep + rest == (xs[0] + sep) + rest;
      WordsAppend(xs[0] + sep, rest);
    }
  }

  lemma {:induction false} WordsOfEachStrip(xs: seq<string>)
    ensures WordsOfEach(StripEach(xs)) == WordsOfEach(xs)
    decreases |xs|
  {
    if xs != [] {
      assert StripEach(xs)[1..] == StripEach(xs[1..]);
      WordsStrip(xs[0]);
      WordsOfEachStrip(xs[1..]);
    }
  }

  /** A text that is one run of word characters is one word: itself,
      lowercased. */
  lemma WordsOfWord(w: string)
    requires w != [] && forall q :: 0 <= q < |w| ==> IsWordChar(w[q])
    ensures Words(w) == [Lower(w)]
  {
    var t := Lower(w);
    RunEndUnique(t, 0, |t|);
    assert SpansFrom(t, |t|) == [];
    assert Spans(t) == [Span(0, |t|)];
    assert t[0..|t|] == t;
  }
}
