/** The frequency table `extractTags` fills: one `put` per kept tag. */
module Frequency {

  /** `freq.put(w, freq.getOrDefault(w, 0) + 1)`: `w` gains one occurrence,
      every other key keeps its count. */
  function Increment(freq: map<string, nat>, w: string): (r: map<string, nat>)
    ensures r.Keys == freq.Keys + {w}
    ensures w in freq ==> r[w] == freq[w] + 1
    ensures w !in freq ==> r[w] == 1
    ensures forall k :: k in freq && k != w ==> r[k] == freq[k]
  {
    freq[w := (if w in freq then freq[w] else 0) + 1]
  }

  /** The table after incrementing once per word, in order, from empty. */
  function Tally(words: seq<string>): map<string, nat>
  {
    if words == [] then map[]
    else Increment(Tally(words[..|words| - 1]), words[|words| - 1])
  }

  /** The table counts occurrences: its keys are exactly the words that occur,
      and each key is mapped to its number of occurrences, which is at least 1. */
  lemma {:induction false} TallyCounts(words: seq<string>)
    ensures forall w :: w in Tally(words) <==> w in multiset(words)
    ensures forall w :: w in Tally(words) ==> Tally(words)[w] == multiset(words)[w] >= 1
  {
    if words != [] {
      var prefix, last := words[..|words| - 1], words[|words| - 1];
      assert words == prefix + [last];
      assert multiset(words) == multiset(prefix) + multiset{last};
      TallyCounts(prefix);
    }
  }

  /** The order in which words are counted does not matter: permuted inputs
      give the same table. */
  lemma TallyOrderIrrelevant(a: seq<string>, b: seq<string>)
    requires multiset(a) == multiset(b)
    ensures Tally(a) == Tally(b)
  {
    TallyCounts(a);
    TallyCounts(b);
  }
}
