/** `sortByFrequency`: the entries of a frequency table in the order of the
    comparator "count descending, then key ascending by `String.compareTo`".
    On a table the comparator is a strict total order (keys are distinct), so
    the sorted list is unique; the model builds it by taking the first entry
    under the comparator, then sorting the rest. */
module Ranking {

  /** One entry of the table: a tag and its count. */
  datatype Entry = Entry(key: string, count: nat)

  /** `String.compareTo`: the difference of the first pair of differing
      characters, or else the difference of the lengths. Zero exactly for
      equal strings. */
  function CompareTo(a: string, b: string): (r: int)
    ensures r == 0 <==> a == b
  {
    if a == [] || b == [] then |a| - |b|
    else if a[0] != b[0] then a[0] as int - b[0] as int
    else CompareTo(a[1..], b[1..])
  }

  lemma {:induction false} CompareToAntisymmetric(a: string, b: string)
    ensures CompareTo(b, a) == -CompareTo(a, b)
  {
    if a != [] && b != [] && a[0] == b[0] {
      CompareToAntisymmetric(a[1..], b[1..]);
    }
  }

  lemma {:induction false} CompareToTransitive(a: string, b: string, c: string)
    requires CompareTo(a, b) < 0 && CompareTo(b, c) < 0
    ensures CompareTo(a, c) < 0
  {
    if a != [] && b != [] && c != [] && a[0] == b[0] && b[0] == c[0] {
      CompareToTransitive(a[1..], b[1..], c[1..]);
    }
  }

  /** `a` comes before `b` in lexicographic order: `a` is a proper prefix of
      `b`, or at the first position where they differ `a` has the smaller
      character. */
  predicate LexLess(a: string, b: string)
  {
    || (|a| < |b| && a == b[..|a|])
    || exists k :: 0 <= k < |a| && k < |b| && a[..k] == b[..k] && a[k] < b[k]
  }

  /** A negative `compareTo` means exactly that `a` comes lexicographically
      before `b`. */
  lemma {:induction false} CompareToLexicographic(a: string, b: string)
    ensures CompareTo(a, b) < 0 <==> LexLess(a, b)
  {
    if a == [] {
      if b != [] {
        assert a == b[..0];
      }
    } else if b == [] {
    } else if a[0] != b[0] {
      if a[0] < b[0] {
        assert a[..0] == b[..0];
      }
      if LexLess(a, b) {
        if |a| < |b| && a == b[..|a|] {
          assert a[0] == b[..|a|][0];
        } else {
          var k :| 0 <= k < |a| && k < |b| && a[..k] == b[..k] && a[k] < b[k];
          if k > 0 {
            assert a[..k][0] == b[..k][0];
          }
        }
      }
    } else {
      CompareToLexicographic(a[1..], b[1..]);
      LexLessTail(a, b);
    }
  }

  /** Equal first characters do not decide the lexicographic order. */
  lemma LexLessTail(a: string, b: string)
    requires a != [] && b != [] && a[0] == b[0]
    ensures LexLess(a, b) <==> LexLess(a[1..], b[1..])
  {
    if LexLess(a, b) {
      LexLessDrop(a, b);
    }
    if LexLess(a[1..], b[1..]) {
      LexLessCons(a, b);
    }
  }

  lemma LexLessDrop(a: string, b: string)
    requires a != [] && b != [] && a[0] == b[0] && LexLess(a, b)
    ensures LexLess(a[1..], b[1..])
  {
    var a', b' := a[1..], b[1..];
    if |a| < |b| && a == b[..|a|] {
      assert a' == b'[..|a'|];
    } else {
      var k :| 0 <= k < |a| && k < |b| && a[..k] == b[..k] && a[k] < b[k];
      assert k > 0;
      assert a'[..k - 1] == b'[..k - 1] by {
        assert a'[..k - 1] == a[..k][1..] && b'[..k - 1] == b[..k][1..];
      }
      assert a'[k - 1] < b'[k - 1];
    }
  }

  lemma LexLessCons(a: string, b: string)
    requires a != [] && b != [] && a[0] == b[0] && LexLess(a[1..], b[1..])
    ensures LexLess(a, b)
  {
    var a', b' := a[1..], b[1..];
    if |a'| < |b'| && a' == b'[..|a'|] {
      assert a == b[..|a|] by {
        assert a == [a[0]] + a' && b[..|a|] == [b[0]] + b'[..|a'|];
      }
    } else {
      var k :| 0 <= k < |a'| && k < |b'| && a'[..k] == b'[..k] && a'[k] < b'[k];
      assert a[..k + 1] == b[..k + 1] by {
        assert a[..k + 1] == [a[0]] + a'[..k] && b[..k + 1] == [b[0]] + b'[..k];
      }
      assert a[k + 1] < b[k + 1];
    }
  }

  /** `Integer.compare`. */
  function IntCompare(x: int, y: int): (r: int)
    ensures r < 0 <==> x < y
    ensures r == 0 <==> x == y
  {
    if x < y then -1 else if x == y then 0 else 1
  }

  /** The comparator `comparingInt(getValue).reversed().thenComparing(getKey)`:
      the reversed count comparison, and the key comparison on a tie. */
  function Compare(x: Entry, y: Entry): int
  {
    var byCount := IntCompare(y.count, x.count);
    if byCount != 0 then byCount else CompareTo(x.key, y.key)
  }

  /** `x` sorts before `y`. */
  predicate Precedes(x: Entry, y: Entry)
  {
    Compare(x, y) < 0
  }

  /** `x` sorts before `y` exactly when it has the greater count, or the same
      count and the lexicographically smaller key. */
  lemma PrecedesMeaning(x: Entry, y: Entry)
    ensures Precedes(x, y)
        <==> x.count > y.count || (x.count == y.count && CompareTo(x.key, y.key) < 0)
  {
  }

  lemma PrecedesAsymmetric(x: Entry, y: Entry)
    requires Precedes(x, y)
    ensures !Precedes(y, x)
  {
    CompareToAntisymmetric(x.key, y.key);
  }

  lemma PrecedesTransitive(x: Entry, y: Entry, z: Entry)
    requires Precedes(x, y) && Precedes(y, z)
    ensures Precedes(x, z)
  {
    if x.count == y.count == z.count {
      CompareToTransitive(x.key, y.key, z.key);
    }
  }

  /** Entries with different keys are always ordered one way or the other. */
  lemma PrecedesTotal(x: Entry, y: Entry)
    requires x.key != y.key
    ensures Precedes(x, y) || Precedes(y, x)
  {
    CompareToAntisymmetric(x.key, y.key);
  }

  /** The table a list of entries describes, the first entry of a key
      winning. Every key of the list is a key of the table and vice versa. */
  function AsMap(r: seq<Entry>): (m: map<string, nat>)
    ensures forall i :: 0 <= i < |r| ==> r[i].key in m
    ensures forall k :: k in m ==> exists i :: 0 <= i < |r| && r[i].key == k
    ensures r != [] ==> m[r[0].key] == r[0].count
  {
    if r == [] then map[] else AsMap(r[1..])[r[0].key := r[0].count]
  }

  /** No key occurs twice. */
  predicate DistinctKeys(r: seq<Entry>)
  {
    forall i, j :: 0 <= i < j < |r| ==> r[i].key != r[j].key
  }

  /** Each entry sorts before the next one. */
  predicate Ordered(r: seq<Entry>)
  {
    forall i :: 0 < i < |r| ==> Precedes(r[i - 1], r[i])
  }

  /** `k` is the key whose entry sorts before every other entry of `m`. */
  predicate IsFirst(m: map<string, nat>, k: string)
  {
    k in m && forall k' :: k' in m && k' != k ==> Precedes(Entry(k, m[k]), Entry(k', m[k']))
  }

  /** Every non-empty table has a first key. */
  lemma {:induction false} FirstExists(m: map<string, nat>)
    requires |m| > 0
    ensures exists k :: IsFirst(m, k)
    decreases |m|
  {
    var k0 :| k0 in m;
    var rest := m - {k0};
    assert rest.Keys == m.Keys - {k0};
    if |rest| == 0 {
      assert m.Keys == {k0};
      assert IsFirst(m, k0);
    } else {
      FirstExists(rest);
      var k1 :| IsFirst(rest, k1);
      assert forall k :: k in rest ==> rest[k] == m[k];
      var e0, e1 := Entry(k0, m[k0]), Entry(k1, m[k1]);
      PrecedesTotal(e0, e1);
      if Precedes(e0, e1) {
        forall k' | k' in m && k' != k0
          ensures Precedes(e0, Entry(k', m[k']))
        {
          if k' != k1 {
            PrecedesTransitive(e0, e1, Entry(k', m[k']));
          }
        }
        assert IsFirst(m, k0);
      } else {
        assert Precedes(e1, e0);
        assert IsFirst(m, k1);
      }
    }
  }

  /** A table has at most one first key. */
  lemma FirstUnique(m: map<string, nat>)
    ensures forall k1, k2 :: IsFirst(m, k1) && IsFirst(m, k2) ==> k1 == k2
  {
    forall k1, k2 | IsFirst(m, k1) && IsFirst(m, k2)
      ensures k1 == k2
    {
      if k1 != k2 {
        PrecedesAsymmetric(Entry(k1, m[k1]), Entry(k2, m[k2]));
      }
    }
  }

  /** The first entry of a table followed by an ordered list of the rest of
      the table is an ordered list of the whole table. */
  lemma FirstThenRest(m: map<string, nat>, k: string, tail: seq<Entry>)
    requires IsFirst(m, k)
    requires |tail| == |m - {k}| && AsMap(tail) == m - {k}
    requires DistinctKeys(tail) && Ordered(tail)
    ensures var r := [Entry(k, m[k])] + tail;
      |r| == |m| && AsMap(r) == m && DistinctKeys(r) && Ordered(r)
  {
    var rest := m - {k};
    var e := Entry(k, m[k]);
    var r := [e] + tail;
    assert |r| == |m| by {
      assert rest.Keys == m.Keys - {k};
    }
    assert AsMap(r) == m by {
      assert r[1..] == tail;
      assert AsMap(r) == rest[k := m[k]];
    }
    assert Ordered(r) by {
      if tail != [] {
        assert tail[0].key in rest;
        assert tail[0].count == m[tail[0].key];
      }
      ConsOrdered(e, tail);
    }
    assert DistinctKeys(r) by {
      assert forall i :: 0 <= i < |tail| ==> tail[i].key in rest;
      ConsDistinct(e, tail);
    }
  }

  lemma ConsOrdered(e: Entry, tail: seq<Entry>)
    requires Ordered(tail)
    requires tail != [] ==> Precedes(e, tail[0])
    ensures Ordered([e] + tail)
  {
    var r := [e] + tail;
    forall i | 0 < i < |r|
      ensures Precedes(r[i - 1], r[i])
    {
      if i > 1 {
        assert r[i - 1] == tail[i - 2] && r[i] == tail[i - 1];
      }
    }
  }

  lemma ConsDistinct(e: Entry, tail: seq<Entry>)
    requires DistinctKeys(tail)
    requires forall i :: 0 <= i < |tail| ==> tail[i].key != e.key
    ensures DistinctKeys([e] + tail)
  {
    var r := [e] + tail;
    forall i, j | 0 <= i < j < |r|
      ensures r[i].key != r[j].key
    {
      if i > 0 {
        assert r[i] == tail[i - 1];
      }
      assert r[j] == tail[j - 1];
    }
  }

  /** `sortByFrequency`: a permutation of the table's entries (one per key,
      each with its count) in which each entry sorts before the next. */
  function SortByFrequency(m: map<string, nat>): (r: seq<Entry>)
    ensures |r| == |m|
    ensures AsMap(r) == m
    ensures DistinctKeys(r)
    ensures Ordered(r)
    decreases |m|
  {
    if |m| == 0 then []
    else
      FirstExists(m);
      FirstUnique(m);
      var k :| IsFirst(m, k);
      var tail := SortByFrequency(m - {k});
      FirstThenRest(m, k, tail);
      [Entry(k, m[k])] + tail
  }

  /** In an ordered list every entry sorts before every later one. */
  lemma {:induction false} OrderedAll(r: seq<Entry>)
    requires Ordered(r)
    ensures forall i, j :: 0 <= i < j < |r| ==> Precedes(r[i], r[j])
  {
    if |r| > 1 {
      OrderedAll(r[1..]);
      forall j | 1 < j < |r|
        ensures Precedes(r[0], r[j])
      {
        PrecedesTransitive(r[0], r[1], r[j]);
      }
    }
  }

  /** With distinct keys, each entry's count is its key's count in the table. */
  lemma {:induction false} AsMapAt(r: seq<Entry>, i: nat)
    requires DistinctKeys(r) && i < |r|
    ensures AsMap(r)[r[i].key] == r[i].count
  {
    if i > 0 {
      AsMapAt(r[1..], i - 1);
    }
  }

  /** With distinct keys, the rest of the list describes the table without the
      first key. */
  lemma AsMapTail(r: seq<Entry>)
    requires DistinctKeys(r) && r != []
    ensures AsMap(r[1..]) == AsMap(r) - {r[0].key}
  {
    var t := AsMap(r[1..]);
    var k := r[0].key;
    assert AsMap(r) == t[k := r[0].count];
    assert t[k := r[0].count] - {k} == t;
  }

  /** Dropping the first entry keeps keys distinct and the list ordered. */
  lemma TailRanking(r: seq<Entry>)
    requires DistinctKeys(r) && Ordered(r) && r != []
    ensures DistinctKeys(r[1..]) && Ordered(r[1..])
  {
    assert forall i :: 0 < i < |r[1..]| ==> r[1..][i - 1] == r[i] && r[1..][i] == r[i + 1];
  }

  /** Two ordered lists with distinct keys for the same table start with the
      same entry. */
  lemma SameFirst(r1: seq<Entry>, r2: seq<Entry>)
    requires DistinctKeys(r1) && Ordered(r1) && r1 != []
    requires DistinctKeys(r2) && Ordered(r2) && r2 != []
    requires AsMap(r1) == AsMap(r2)
    ensures r1[0] == r2[0]
  {
    var h1, h2 := r1[0], r2[0];
    if h1.key != h2.key {
      OrderedAll(r1);
      OrderedAll(r2);
      var j1 :| 0 <= j1 < |r1| && r1[j1].key == h2.key;
      var j2 :| 0 <= j2 < |r2| && r2[j2].key == h1.key;
      AsMapAt(r1, j1);
      AsMapAt(r2, j2);
      assert r1[j1] == h2 && r2[j2] == h1;
      PrecedesAsymmetric(h1, h2);
      assert false;
    }
  }

  /** There is only one ordered list with distinct keys for a given table. */
  lemma {:induction false} RankingUnique(r1: seq<Entry>, r2: seq<Entry>)
    requires DistinctKeys(r1) && Ordered(r1)
    requires DistinctKeys(r2) && Ordered(r2)
    requires AsMap(r1) == AsMap(r2)
    ensures r1 == r2
    decreases |r1|
  {
    if r1 != [] && r2 != [] {
      SameFirst(r1, r2);
      AsMapTail(r1);
      AsMapTail(r2);
      TailRanking(r1);
      TailRanking(r2);
      RankingUnique(r1[1..], r2[1..]);
      assert r1 == [r1[0]] + r1[1..];
      assert r2 == [r2[0]] + r2[1..];
    }
  }

  /** Sorting is idempotent: sorting the table an ordered list describes
      gives back that very list. */
  lemma ResortUnchanged(r: seq<Entry>)
    requires DistinctKeys(r) && Ordered(r)
    ensures SortByFrequency(AsMap(r)) == r
  {
    RankingUnique(SortByFrequency(AsMap(r)), r);
  }

  /** Any ordered list of a table's entries, however the entries were first
      enumerated, is the one `SortByFrequency` gives. */
  lemma SortedIsUnique(m: map<string, nat>, r: seq<Entry>)
    requires DistinctKeys(r) && Ordered(r) && AsMap(r) == m
    ensures SortByFrequency(m) == r
  {
    RankingUnique(SortByFrequency(m), r);
  }
}
