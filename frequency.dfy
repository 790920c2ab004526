/** `word_frequency` and `unique_words`: a `Counter` over the words of a
    source, optionally filtered, and the set of its words. */
module Frequency {
  import opened Outcomes
  import opened Tally
  import opened TextInput

  /** `Counter(ws)`: each word of `ws` mapped to its number of
      occurrences; words that do not occur are absent. */
  function Counts(ws: seq<string>): (m: map<string, nat>)
    ensures forall w :: Get(m, w) == multiset(ws)[w]
    ensures forall w :: w in m <==> w in ws
    ensures forall w :: w in m ==> m[w] >= 1
    decreases |ws|
  {
    if ws == [] then map[]
    else
      var init, last := ws[..|ws| - 1], ws[|ws| - 1];
      assert ws == init + [last];
      Bump(Counts(init), last)
  }

  /** Every occurrence is counted once: the counts add up to the number
      of words. */
  lemma {:induction false} CountsTotal(ws: seq<string>)
    ensures Total(Counts(ws)) == |ws|
    decreases |ws|
  {
    if ws != [] {
      var init, last := ws[..|ws| - 1], ws[|ws| - 1];
      CountsTotal(init);
      TotalBump(Counts(init), last);
    }
  }

  /** The entries of `m` whose key passes `keep`, with their counts. */
  function Filtered(m: map<string, nat>, keep: string -> bool): (m': map<string, nat>)
    ensures forall w :: Get(m', w) == if keep(w) then Get(m, w) else 0
    ensures forall w :: w in m' <==> w in m && keep(w)
  {
    map w | w in m && keep(w) :: m[w]
  }

  /** `word_frequency(src, filter_func)`.  Without a filter, each word's
      count is its number of occurrences; with one, exactly the words the
      filter accepts are reported, each with its unfiltered count. */
  function WordFrequency(src: Source, filter: Option<string -> bool> := None): (m: map<string, nat>)
    ensures forall w :: Get(m, w) == if filter.None? || filter.value(w) then multiset(GetWords(src))[w] else 0
    ensures forall w :: w in m <==> w in GetWords(src) && (filter.None? || filter.value(w))
  {
    var freq := Counts(GetWords(src));
    match filter
    case None => freq
    case Some(keep) => Filtered(freq, keep)
  }

  /** Unfiltered counts add up to the number of words of the source. */
  lemma WordFrequencyTotal(src: Source)
    ensures Total(WordFrequency(src, None)) == |GetWords(src)|
  {
    CountsTotal(GetWords(src));
  }

  /** `set(ws)`, built one word at a time. */
  function Distinct(ws: seq<string>): (r: set<string>)
    ensures forall w :: w in r <==> w in ws
    ensures |r| <= |ws|
    decreases |ws|
  {
    if ws == [] then {}
    else
      var init, last := ws[..|ws| - 1], ws[|ws| - 1];
      assert ws == init + [last];
      Distinct(init) + {last}
  }

  /** `unique_words(src)`: the words of the source, each once. */
  function UniqueWords(src: Source): (r: set<string>)
    ensures forall w :: w in r <==> w in GetWords(src)
    ensures |r| <= |GetWords(src)|
  {
    Distinct(GetWords(src))
  }

  /** The unique words are exactly the keys of the unfiltered frequency
      table. */
  lemma UniqueWordsAreFrequencyKeys(src: Source)
    ensures UniqueWords(src) == WordFrequency(src, None).Keys
  {
  }
}
