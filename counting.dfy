/**
 * Python's `collections.Counter` as used by the activity builder: a list of
 * (key, count) pairs in the order keys were first seen, filled one key at a
 * time, and `most_common(n)`, which is a stable sort by count, largest
 * first, cut to `n` entries.
 */
module Counting {
  import opened Wrappers
  import opened Sorting

  type Counter<K> = seq<(K, nat)>

  function Keys<K>(c: Counter<K>): (r: seq<K>)
    ensures |r| == |c|
    ensures forall i :: 0 <= i < |c| ==> r[i] == c[i].0
  {
    if c == [] then [] else [c[0].0] + Keys(c[1..])
  }

  predicate DistinctKeys<K(==)>(c: Counter<K>) {
    forall i, j :: 0 <= i < j < |c| ==> c[i].0 != c[j].0
  }

  /** `c.get(k, 0)` */
  function Get<K(==)>(c: Counter<K>, k: K): nat {
    if c == [] then 0 else if c[0].0 == k then c[0].1 else Get(c[1..], k)
  }

  /** `c[k] += 1`: bumps an existing entry in place, or appends `(k, 1)`. */
  function Increment<K(==)>(c: Counter<K>, k: K): Counter<K> {
    if c == [] then [(k, 1)]
    else if c[0].0 == k then [(k, c[0].1 + 1)] + c[1..]
    else [c[0]] + Increment(c[1..], k)
  }

  /** `Counter(ks)` */
  function CountAll<K(==)>(ks: seq<K>): Counter<K> {
    if ks == [] then [] else Increment(CountAll(ks[..|ks| - 1]), ks[|ks| - 1])
  }

  function CountOf<K>(e: (K, nat)): int {
    e.1
  }

  /** `c.most_common(n)` */
  function MostCommon<K>(c: Counter<K>, n: nat): seq<(K, nat)> {
    Take(SortDesc(c, CountOf), n)
  }

  /** `c.most_common(1)[0][0] if c else None` */
  function MostCommonKey<K>(c: Counter<K>): Option<K> {
    if c == [] then None else Some(SortDesc(c, CountOf)[0].0)
  }

  /** With distinct keys, the count stored at a position is the count of its key. */
  lemma {:induction false} GetAt<K>(c: Counter<K>, i: nat)
    requires DistinctKeys(c)
    requires i < |c|
    ensures Get(c, c[i].0) == c[i].1
  {
    if i > 0 {
      assert c[0].0 != c[i].0;
      GetAt(c[1..], i - 1);
    }
  }

  lemma {:induction false} GetAbsent<K>(c: Counter<K>, k: K)
    requires k !in Keys(c)
    ensures Get(c, k) == 0
  {
    if c != [] {
      assert Keys(c) == [c[0].0] + Keys(c[1..]);
      GetAbsent(c[1..], k);
    }
  }

  /** `c[k] += 1` adds one to the count of `k` and leaves every other count alone. */
  lemma {:induction false} IncrementGet<K>(c: Counter<K>, k: K, x: K)
    ensures Get(Increment(c, k), x) == Get(c, x) + (if x == k then 1 else 0)
  {
    if c != [] && c[0].0 != k {
      IncrementGet(c[1..], k, x);
      assert Increment(c, k)[1..] == Increment(c[1..], k);
    }
  }

  /** `c[k] += 1` keeps the keys and their order, appending `k` when it is new. */
  lemma {:induction false} IncrementKeys<K>(c: Counter<K>, k: K)
    ensures Keys(Increment(c, k)) == if k in Keys(c) then Keys(c) else Keys(c) + [k]
  {
    if c != [] {
      assert Keys(c) == [c[0].0] + Keys(c[1..]);
      if c[0].0 != k {
        IncrementKeys(c[1..], k);
        var d := Increment(c, k);
        assert Keys(d) == [c[0].0] + Keys(Increment(c[1..], k));
        if k !in Keys(c[1..]) {
          ConcatAssoc([c[0].0], Keys(c[1..]), [k]);
        }
      } else {
        assert Keys(Increment(c, k)) == [k] + Keys(c[1..]);
      }
    }
  }

  /** `c[k] += 1` never leaves a zero count behind. */
  lemma {:induction false} IncrementPositive<K>(c: Counter<K>, k: K)
    requires forall i :: 0 <= i < |c| ==> c[i].1 >= 1
    ensures forall i :: 0 <= i < |Increment(c, k)| ==> Increment(c, k)[i].1 >= 1
  {
    if c != [] && c[0].0 != k {
      IncrementPositive(c[1..], k);
      assert Increment(c, k)[1..] == Increment(c[1..], k);
    }
  }

  /** Distinct keys are exactly a duplicate-free key list. */
  lemma DistinctKeysList<K>(c: Counter<K>)
    ensures DistinctKeys(c) ==> forall i, j :: 0 <= i < j < |Keys(c)| ==> Keys(c)[i] != Keys(c)[j]
    ensures (forall i, j :: 0 <= i < j < |Keys(c)| ==> Keys(c)[i] != Keys(c)[j]) ==> DistinctKeys(c)
  {
    var ks := Keys(c);
    if DistinctKeys(c) {
      forall i, j | 0 <= i < j < |ks| ensures ks[i] != ks[j] {
        assert c[i].0 != c[j].0;
      }
    } else {
      var i, j :| 0 <= i < j < |c| && c[i].0 == c[j].0;
      assert ks[i] == ks[j];
    }
  }

  /** `c[k] += 1` keeps keys distinct. */
  lemma IncrementDistinct<K>(c: Counter<K>, k: K)
    requires DistinctKeys(c)
    ensures DistinctKeys(Increment(c, k))
  {
    var d := Increment(c, k);
    IncrementKeys(c, k);
    DistinctKeysList(c);
    DistinctKeysList(d);
    if k !in Keys(c) {
      forall i, j | 0 <= i < j < |Keys(d)| ensures Keys(d)[i] != Keys(d)[j] {
        if j == |Keys(c)| {
          assert Keys(d)[i] in Keys(c);
        } else {
          assert Keys(d)[i] == Keys(c)[i] && Keys(d)[j] == Keys(c)[j];
        }
      }
    }
  }

  /** `Counter(ks)` has distinct keys and no zero count. */
  lemma {:induction false} CountAllWellFormed<K>(ks: seq<K>)
    ensures DistinctKeys(CountAll(ks))
    ensures forall i :: 0 <= i < |CountAll(ks)| ==> CountAll(ks)[i].1 >= 1
  {
    if ks != [] {
      var init := ks[..|ks| - 1];
      CountAllWellFormed(init);
      IncrementDistinct(CountAll(init), ks[|ks| - 1]);
      IncrementPositive(CountAll(init), ks[|ks| - 1]);
    }
  }

  /** `Counter(ks)[x]` is the number of occurrences of `x` in `ks`. */
  lemma {:induction false} CountAllGet<K>(ks: seq<K>, x: K)
    ensures Get(CountAll(ks), x) == multiset(ks)[x]
  {
    if ks != [] {
      var init := ks[..|ks| - 1];
      var last := ks[|ks| - 1];
      CountAllGet(init, x);
      IncrementGet(CountAll(init), last, x);
      assert ks == init + [last];
      assert multiset(ks) == multiset(init) + multiset{last};
    }
  }

  /** The keys of `Counter(ks)` are the elements of `ks`. */
  lemma {:induction false} CountAllKeys<K>(ks: seq<K>)
    ensures forall x :: x in Keys(CountAll(ks)) <==> x in ks
  {
    if ks != [] {
      var init := ks[..|ks| - 1];
      var last := ks[|ks| - 1];
      CountAllKeys(init);
      IncrementKeys(CountAll(init), last);
      assert ks == init + [last];
    }
  }

  /** The position of the first occurrence of `x` in `s`, or `|s|` when `x` does not occur. */
  function FirstIndex<K(==)>(s: seq<K>, x: K): (r: nat)
    ensures r <= |s|
    ensures r < |s| <==> x in s
    ensures r < |s| ==> s[r] == x
    ensures forall j :: 0 <= j < r ==> s[j] != x
  {
    if s == [] || s[0] == x then 0 else 1 + FirstIndex(s[1..], x)
  }

  /** Appending an element does not move the first occurrence of anything already present. */
  lemma FirstIndexSnoc<K>(s: seq<K>, y: K, x: K)
    ensures x in s ==> FirstIndex(s + [y], x) == FirstIndex(s, x)
    ensures x !in s && x == y ==> FirstIndex(s + [y], x) == |s|
  {
    var r := FirstIndex(s, x);
    var r' := FirstIndex(s + [y], x);
    assert r < |s| ==> (s + [y])[r] == x;
    assert r' < |s| ==> s[r'] == (s + [y])[r'];
  }

  /** The keys of `Counter(ks)` are in the order in which they first occur in `ks`. */
  lemma {:induction false} CountAllOrder<K>(ks: seq<K>)
    ensures forall i, j :: 0 <= i < j < |Keys(CountAll(ks))| ==>
              FirstIndex(ks, Keys(CountAll(ks))[i]) < FirstIndex(ks, Keys(CountAll(ks))[j])
  {
    if ks != [] {
      var init := ks[..|ks| - 1];
      var last := ks[|ks| - 1];
      var before := Keys(CountAll(init));
      var after := Keys(CountAll(ks));
      assert ks == init + [last];
      CountAllOrder(init);
      CountAllKeys(init);
      IncrementKeys(CountAll(init), last);
      forall i, j | 0 <= i < j < |after| ensures FirstIndex(ks, after[i]) < FirstIndex(ks, after[j]) {
        assert after[i] == before[i];
        FirstIndexSnoc(init, last, after[i]);
        FirstIndexSnoc(init, last, after[j]);
        if j < |before| {
          assert after[j] == before[j];
        }
      }
    }
  }

  /**
   * `Counter(ks)` holds each distinct key of `ks` once, in order of first
   * appearance, with its number of occurrences; no entry has a zero count.
   */
  lemma CountAllSpec<K>(ks: seq<K>)
    ensures DistinctKeys(CountAll(ks))
    ensures forall i :: 0 <= i < |CountAll(ks)| ==> CountAll(ks)[i].1 >= 1
    ensures forall x :: Get(CountAll(ks), x) == multiset(ks)[x]
    ensures forall x :: x in Keys(CountAll(ks)) <==> x in ks
    ensures forall i, j :: 0 <= i < j < |CountAll(ks)| ==>
              FirstIndex(ks, CountAll(ks)[i].0) < FirstIndex(ks, CountAll(ks)[j].0)
  {
    CountAllWellFormed(ks);
    CountAllKeys(ks);
    forall x ensures Get(CountAll(ks), x) == multiset(ks)[x] {
      CountAllGet(ks, x);
    }
    CountAllOrder(ks);
    var c := CountAll(ks);
    forall i, j | 0 <= i < j < |c| ensures FirstIndex(ks, c[i].0) < FirstIndex(ks, c[j].0) {
      assert Keys(c)[i] == c[i].0 && Keys(c)[j] == c[j].0;
    }
  }

  /** Each entry of `Counter(ks)` holds its key's number of occurrences. */
  lemma CountAllAt<K>(ks: seq<K>, i: nat)
    requires i < |CountAll(ks)|
    ensures CountAll(ks)[i].1 == multiset(ks)[CountAll(ks)[i].0]
  {
    CountAllWellFormed(ks);
    GetAt(CountAll(ks), i);
    CountAllGet(ks, CountAll(ks)[i].0);
  }

  /** Every element of `ks` has an entry in `Counter(ks)`. */
  lemma CountAllEntry<K>(ks: seq<K>, x: K) returns (i: nat)
    requires x in ks
    ensures i < |CountAll(ks)| && CountAll(ks)[i].0 == x
  {
    CountAllKeys(ks);
    var keys := Keys(CountAll(ks));
    assert x in keys;
    i :| 0 <= i < |keys| && keys[i] == x;
  }

  lemma {:induction false} DistinctCard<K>(s: seq<K>)
    requires forall i, j :: 0 <= i < j < |s| ==> s[i] != s[j]
    ensures |set x | x in s| == |s|
  {
    if s != [] {
      var rest := s[1..];
      DistinctCard(rest);
      assert (set x | x in s) == {s[0]} + (set x | x in rest);
      assert s[0] !in rest;
    }
  }

  /** `len(Counter(ks))` is the number of distinct keys in `ks`. */
  lemma CountAllSize<K>(ks: seq<K>)
    ensures |CountAll(ks)| == |set x | x in ks|
  {
    var c := CountAll(ks);
    CountAllWellFormed(ks);
    CountAllKeys(ks);
    DistinctKeysList(c);
    DistinctCard(Keys(c));
    SameElements(Keys(c), ks);
  }

  lemma SameElements<K>(a: seq<K>, b: seq<K>)
    requires forall x :: x in a <==> x in b
    ensures (set x | x in a) == (set x | x in b)
  {
  }

  /**
   * `most_common(n)` returns `min(n, len(c))` entries of `c`, largest count
   * first, and every entry it leaves out has a count no larger than any it
   * keeps.
   */
  lemma MostCommonSpec<K>(c: Counter<K>, n: nat)
    ensures |MostCommon(c, n)| == if |c| < n then |c| else n
    ensures SortedDesc(MostCommon(c, n), CountOf)
    ensures forall e | e in MostCommon(c, n) :: e in c
    ensures forall e, x | e in c && e !in MostCommon(c, n) && x in MostCommon(c, n) :: x.1 >= e.1
    ensures multiset(MostCommon(c, n)) <= multiset(c)
    ensures forall k :: WithKey(MostCommon(c, n), CountOf, k) <= WithKey(c, CountOf, k)
    ensures DistinctKeys(c) ==> DistinctKeys(MostCommon(c, n))
  {
    var r := MostCommon(c, n);
    TopSorted<(K, nat)>(c, CountOf, n);
    forall e, x | e in c && e !in r && x in r ensures x.1 >= e.1 {
      assert CountOf(x) >= CountOf(e);
    }
    if DistinctKeys(c) {
      MostCommonDistinctKeys(c, n);
    }
  }

  /** `most_common(n)` of a counter with distinct keys repeats no key. */
  lemma MostCommonDistinctKeys<K>(c: Counter<K>, n: nat)
    requires DistinctKeys(c)
    ensures DistinctKeys(MostCommon(c, n))
  {
    var t := SortDesc(c, CountOf);
    var r := MostCommon(c, n);
    SortDescSortedPermutation(c, CountOf);
    PermutationDistinctKeys(c, t);
    assert r == t[..|r|];
  }

  /** Rearranging a counter with distinct keys leaves its keys distinct. */
  lemma PermutationDistinctKeys<K>(c: Counter<K>, t: Counter<K>)
    requires DistinctKeys(c)
    requires multiset(c) == multiset(t)
    ensures DistinctKeys(t)
  {
    DistinctPermutation(c, t);
    forall i, j | 0 <= i < j < |t| ensures t[i].0 != t[j].0 {
      assert t[i] in multiset(t) && t[j] in multiset(t);
      var p :| 0 <= p < |c| && c[p] == t[i];
      var q :| 0 <= q < |c| && c[q] == t[j];
      assert p != q;
    }
  }

  /**
   * Among the entries `most_common(n)` keeps from `Counter(ks)`, equal
   * counts are in order of first appearance in `ks`, and an entry left out
   * with the same count as a kept one first appears after it.
   */
  lemma MostCommonTies<K>(ks: seq<K>, n: nat)
    ensures var r := MostCommon(CountAll(ks), n);
            forall i, j :: 0 <= i < j < |r| && r[i].1 == r[j].1 ==> FirstIndex(ks, r[i].0) < FirstIndex(ks, r[j].0)
    ensures var r := MostCommon(CountAll(ks), n);
            forall e, x | x in r && e in CountAll(ks) && e !in r && e.1 == x.1 :: FirstIndex(ks, x.0) < FirstIndex(ks, e.0)
  {
    var c := CountAll(ks);
    var r := MostCommon(c, n);
    var rank := (e: (K, nat)) => FirstIndex(ks, e.0);
    CountAllOrder(ks);
    assert RankIncreasing(c, rank) by {
      forall i, j | 0 <= i < j < |c| ensures rank(c[i]) < rank(c[j]) {
        assert Keys(c)[i] == c[i].0 && Keys(c)[j] == c[j].0;
      }
    }
    TopTies(c, CountOf, rank, n);
    forall i, j | 0 <= i < j < |r| && r[i].1 == r[j].1 ensures FirstIndex(ks, r[i].0) < FirstIndex(ks, r[j].0) {
      assert CountOf(r[i]) == CountOf(r[j]);
    }
    forall e, x | x in r && e in c && e !in r && e.1 == x.1 ensures FirstIndex(ks, x.0) < FirstIndex(ks, e.0) {
      assert CountOf(e) == CountOf(x);
    }
  }

  /**
   * The most common key is absent only for an empty counter; otherwise it
   * has the largest count and is the first key, in insertion order, that
   * reaches that count.
   */
  lemma MostCommonKeySpec<K>(c: Counter<K>)
    ensures MostCommonKey(c).None? <==> c == []
    ensures MostCommonKey(c).Some? ==>
              exists i :: 0 <= i < |c| && c[i].0 == MostCommonKey(c).value
                          && (forall x | x in c :: c[i].1 >= x.1)
                          && (forall j :: 0 <= j < i ==> c[j].1 < c[i].1)
  {
    if c != [] {
      var i := MostCommonKeyIndex(c);
    }
  }

  /** The position in a non-empty counter of its most common key. */
  lemma MostCommonKeyIndex<K>(c: Counter<K>) returns (i: nat)
    requires c != []
    ensures i < |c| && MostCommonKey(c) == Some(c[i].0)
    ensures forall x | x in c :: c[i].1 >= x.1
    ensures forall j :: 0 <= j < i ==> c[j].1 < c[i].1
  {
    SortDescHead(c, CountOf);
    i :| 0 <= i < |c| && c[i] == SortDesc(c, CountOf)[0]
         && forall j :: 0 <= j < i ==> CountOf(c[j]) < CountOf(c[i]);
  }
}
