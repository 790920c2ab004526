/** `word_cooccurrence_matrix`: for every position `i` of the word list
    and every offset `1 <= j < window` with `i + j` in range, the ordered
    pair `(words[i], words[i + j])` is counted once more.  The counts the
    loops build are specified by counting those positions directly. */
module Cooccurrence {
  import opened Tally
  import opened TextInput

  type Pair = (string, string)

  /** Position `(i, j)` is one the loops visit with `i + j` in range. */
  predicate IsPosition(n: nat, window: int, i: nat, j: nat) {
    1 <= j < window && i + j < n
  }

  /** Position `(i, j)` is one where `p` co-occurs. */
  predicate IsHit(ws: seq<string>, window: int, i: nat, j: nat, p: Pair) {
    IsPosition(|ws|, window, i, j) && ws[i] == p.0 && ws[i + j] == p.1
  }

  /** The number of offsets `1 <= j < jEnd` at which `p` co-occurs from `i`. */
  function RowHits(ws: seq<string>, window: int, i: nat, jEnd: int, p: Pair): nat
    decreases jEnd
  {
    if jEnd <= 1 then 0
    else RowHits(ws, window, i, jEnd - 1, p) + (if IsHit(ws, window, i, jEnd - 1, p) then 1 else 0)
  }

  /** The number of positions `(i, j)` with `i < iEnd` at which `p` co-occurs. */
  function PrefixHits(ws: seq<string>, window: int, iEnd: nat, p: Pair): nat
    decreases iEnd
  {
    if iEnd == 0 then 0
    else PrefixHits(ws, window, iEnd - 1, p) + RowHits(ws, window, iEnd - 1, window, p)
  }

  /** The number of positions at which `p` co-occurs in `ws`. */
  function PairCount(ws: seq<string>, window: int, p: Pair): nat {
    PrefixHits(ws, window, |ws|, p)
  }

  /** The number of offsets `1 <= j < jEnd` with `i + j < n`. */
  function RowPositions(n: nat, window: int, i: nat, jEnd: int): nat
    decreases jEnd
  {
    if jEnd <= 1 then 0
    else RowPositions(n, window, i, jEnd - 1) + (if IsPosition(n, window, i, jEnd - 1) then 1 else 0)
  }

  /** The number of positions `(i, j)` with `i < iEnd`. */
  function PrefixPositions(n: nat, window: int, iEnd: nat): nat
    decreases iEnd
  {
    if iEnd == 0 then 0
    else PrefixPositions(n, window, iEnd - 1) + RowPositions(n, window, iEnd - 1, window)
  }

  /** The number of positions the loops count for `n` words. */
  function PositionCount(n: nat, window: int): nat {
    PrefixPositions(n, window, n)
  }

  /** `word_cooccurrence_matrix(src, window)`.  Each pair is counted as
      often as it co-occurs, only pairs that co-occur are keys, a window
      of at most one gives the empty table, and the counts add up to the
      number of positions. */
  method WordCooccurrenceMatrix(src: Source, window: int := 2) returns (m: map<Pair, nat>)
    ensures forall p :: Get(m, p) == PairCount(GetWords(src), window, p)
    ensures forall p :: p in m ==> m[p] >= 1
    ensures window <= 1 ==> m == map[]
    ensures Total(m) == PositionCount(|GetWords(src)|, window)
  {
    m := CountPairs(GetWords(src), window);
  }

  /** The two loops of `word_cooccurrence_matrix` over the word list. */
  method CountPairs(words: seq<string>, window: int) returns (m: map<Pair, nat>)
    ensures forall p :: Get(m, p) == PairCount(words, window, p)
    ensures forall p :: p in m ==> m[p] >= 1
    ensures window <= 1 ==> m == map[]
    ensures Total(m) == PositionCount(|words|, window)
  {
    m := map[];
    var i := 0;
    while i < |words|
      invariant i <= |words|
      invariant Counted(m, words, window, i, 1)
    {
      var j := 1;
      while j < window
        invariant 1 <= j && (window >= 1 ==> j <= window) && (window <= 1 ==> j == 1)
        invariant Counted(m, words, window, i, j)
      {
        CountedStep(m, words, window, i, j);
        if i + j < |words| {
          m := Bump(m, (words[i], words[i + j]));
        }
        j := j + 1;
      }
      CountedNextRow(m, words, window, i, j);
      i := i + 1;
    }
    CountedAll(m, words, window);
  }

  /** The loop invariant: `m` holds the pairs of every position of the
      rows before `i` and of the offsets before `j` in row `i`, each a
      positive count, and its counts add up to the number of those
      positions. */
  ghost predicate Counted(m: map<Pair, nat>, ws: seq<string>, window: int, i: nat, j: int) {
    && (forall p :: Get(m, p) == PrefixHits(ws, window, i, p) + RowHits(ws, window, i, j, p))
    && (forall p :: p in m ==> m[p] >= 1)
    && Total(m) == PrefixPositions(|ws|, window, i) + RowPositions(|ws|, window, i, j)
  }

  /** Visiting offset `j` of row `i` keeps the invariant. */
  lemma CountedStep(m: map<Pair, nat>, ws: seq<string>, window: int, i: nat, j: nat)
    requires 1 <= j < window && i < |ws|
    requires Counted(m, ws, window, i, j)
    ensures Counted(if i + j < |ws| then Bump(m, (ws[i], ws[i + j])) else m, ws, window, i, j + 1)
  {
    if i + j < |ws| {
      TotalBump(m, (ws[i], ws[i + j]));
    }
  }

  /** At the end of row `i` the invariant holds for the start of row `i + 1`. */
  lemma CountedNextRow(m: map<Pair, nat>, ws: seq<string>, window: int, i: nat, j: int)
    requires i < |ws| && (j == window || (window <= 1 && j == 1))
    requires Counted(m, ws, window, i, j)
    ensures Counted(m, ws, window, i + 1, 1)
  {
    if window <= 1 {
      assert forall p :: RowHits(ws, window, i, window, p) == 0;
      assert RowPositions(|ws|, window, i, window) == 0;
    }
  }

  /** After the last row the invariant is the contract of the method. */
  lemma CountedAll(m: map<Pair, nat>, ws: seq<string>, window: int)
    requires Counted(m, ws, window, |ws|, 1)
    ensures forall p :: Get(m, p) == PairCount(ws, window, p)
    ensures forall p :: p in m ==> m[p] >= 1
    ensures window <= 1 ==> m == map[]
    ensures Total(m) == PositionCount(|ws|, window)
  {
    if window <= 1 {
      forall p ensures p !in m {
        SmallWindowNoHits(ws, window, p);
      }
      assert m.Keys == {};
    }
  }

  lemma {:induction false} RowHitsWitness(ws: seq<string>, window: int, i: nat, jEnd: int, p: Pair)
    ensures RowHits(ws, window, i, jEnd, p) > 0 <==> exists j: nat :: j < jEnd && IsHit(ws, window, i, j, p)
    decreases jEnd
  {
    if jEnd > 1 {
      RowHitsWitness(ws, window, i, jEnd - 1, p);
    }
  }

  lemma {:induction false} PrefixHitsWitness(ws: seq<string>, window: int, iEnd: nat, p: Pair)
    ensures PrefixHits(ws, window, iEnd, p) > 0 <==> exists i: nat, j: nat :: i < iEnd && IsHit(ws, window, i, j, p)
    decreases iEnd
  {
    if iEnd > 0 {
      PrefixHitsWitness(ws, window, iEnd - 1, p);
      RowHitsWitness(ws, window, iEnd - 1, window, p);
    }
  }

  /** A pair is counted exactly when some position `(i, j)` shows it. */
  lemma PairCountWitness(ws: seq<string>, window: int, p: Pair)
    ensures PairCount(ws, window, p) > 0 <==> exists i: nat, j: nat :: IsHit(ws, window, i, j, p)
  {
    PrefixHitsWitness(ws, window, |ws|, p);
  }

  /** `range(1, window)` is empty when `window <= 1`: nothing co-occurs. */
  lemma SmallWindowNoHits(ws: seq<string>, window: int, p: Pair)
    requires window <= 1
    ensures PairCount(ws, window, p) == 0
  {
    PairCountWitness(ws, window, p);
  }

  /** Row `i` has one position per offset `1 <= j < window` that stays
      inside the `n` words: `min(window - 1, n - 1 - i)` of them, or none. */
  lemma {:induction false} RowPositionsCount(n: nat, window: int, i: nat, jEnd: int)
    requires jEnd <= window
    ensures RowPositions(n, window, i, jEnd)
            == if jEnd <= 1 || n <= i + 1 then 0
               else if jEnd - 1 <= n - 1 - i then jEnd - 1
               else n - 1 - i
    decreases jEnd
  {
    if jEnd > 1 {
      RowPositionsCount(n, window, i, jEnd - 1);
    }
  }

  lemma {:induction false} AdjacentRowPositions(n: nat, i: nat)
    ensures RowPositions(n, 2, i, 2) == if i + 1 < n then 1 else 0
  {
  }

  lemma {:induction false} AdjacentPrefixPositions(n: nat, iEnd: nat)
    requires iEnd <= n
    ensures PrefixPositions(n, 2, iEnd) == if iEnd == n && n > 0 then n - 1 else iEnd
    decreases iEnd
  {
    if iEnd > 0 {
      AdjacentPrefixPositions(n, iEnd - 1);
      AdjacentRowPositions(n, iEnd - 1);
    }
  }

  /** With the default window of 2 only neighbours count: `n` words give
      `n - 1` positions. */
  lemma AdjacentPositionCount(n: nat)
    ensures PositionCount(n, 2) == if n == 0 then 0 else n - 1
  {
    AdjacentPrefixPositions(n, n);
  }

  /** With window 2 row `i` holds the single offset 1. */
  lemma AdjacentRowHits(ws: seq<string>, i: nat, p: Pair)
    ensures RowHits(ws, 2, i, 2, p) == if i + 1 < |ws| && p == (ws[i], ws[i + 1]) then 1 else 0
  {
    assert RowHits(ws, 2, i, 1, p) == 0;
  }

  /** The words `a b a b` with window 2: `(a, b)` twice, `(b, a)` once and
      nothing else. */
  lemma AlternatingPairs(p: Pair)
    ensures PairCount(["a", "b", "a", "b"], 2, ("a", "b")) == 2
    ensures PairCount(["a", "b", "a", "b"], 2, ("b", "a")) == 1
    ensures p != ("a", "b") && p != ("b", "a") ==> PairCount(["a", "b", "a", "b"], 2, p) == 0
  {
    var ws := ["a", "b", "a", "b"];
    forall q: Pair
      ensures PairCount(ws, 2, q) == (if q == ("a", "b") then 2 else 0) + (if q == ("b", "a") then 1 else 0)
    {
      AdjacentRowHits(ws, 0, q);
      AdjacentRowHits(ws, 1, q);
      AdjacentRowHits(ws, 2, q);
      AdjacentRowHits(ws, 3, q);
      assert PrefixHits(ws, 2, 0, q) == 0;
      assert PrefixHits(ws, 2, 2, q) == (if q == ("a", "b") then 1 else 0) + (if q == ("b", "a") then 1 else 0);
      assert PrefixHits(ws, 2, 4, q) == PrefixHits(ws, 2, 3, q) + RowHits(ws, 2, 3, 2, q);
    }
  }
}
