/**
 * Python's `sorted(s, key=key, reverse=True)`: a stable sort into
 * non-increasing key order (elements with equal keys keep their input
 * order).  `Counter.most_common(n)` is the same sort cut to `n` entries.
 */
module Sorting {

  predicate SortedDesc<T>(s: seq<T>, key: T -> int) {
    forall i, j :: 0 <= i < j < |s| ==> key(s[i]) >= key(s[j])
  }

  /** The elements of `s` whose key is `k`, in the order of `s`. */
  function WithKey<T>(s: seq<T>, key: T -> int, k: int): (r: seq<T>)
    ensures |r| <= |s|
    ensures forall x | x in r :: x in s && key(x) == k
  {
    if s == [] then []
    else (if key(s[0]) == k then [s[0]] else []) + WithKey(s[1..], key, k)
  }

  /** Inserts `x` in front of the first element whose key is not larger. */
  function InsertDesc<T>(x: T, s: seq<T>, key: T -> int): seq<T> {
    if s == [] || key(s[0]) <= key(x) then [x] + s
    else [s[0]] + InsertDesc(x, s[1..], key)
  }

  function SortDesc<T>(s: seq<T>, key: T -> int): seq<T> {
    if s == [] then [] else InsertDesc(s[0], SortDesc(s[1..], key), key)
  }

  /** The first `n` elements, or all of them when there are fewer: `s[:n]`. */
  function Take<T>(s: seq<T>, n: nat): (r: seq<T>)
    ensures |r| == if |s| < n then |s| else n
    ensures r <= s
  {
    if |s| < n then s else s[..n]
  }

  /** Inserting adds `x` and nothing else. */
  lemma {:induction false} InsertDescPermutation<T>(x: T, s: seq<T>, key: T -> int)
    ensures multiset(InsertDesc(x, s, key)) == multiset{x} + multiset(s)
  {
    if s != [] && key(s[0]) > key(x) {
      InsertDescPermutation(x, s[1..], key);
      assert s == [s[0]] + s[1..];
    }
  }

  lemma {:induction false} InsertDescMembers<T>(x: T, s: seq<T>, key: T -> int)
    ensures forall y | y in InsertDesc(x, s, key) :: y == x || y in s
  {
    if s != [] && key(s[0]) > key(x) {
      InsertDescMembers(x, s[1..], key);
    }
  }

  lemma {:induction false} InsertDescFacts<T>(x: T, s: seq<T>, key: T -> int)
    requires SortedDesc(s, key)
    ensures SortedDesc(InsertDesc(x, s, key), key)
    ensures multiset(InsertDesc(x, s, key)) == multiset{x} + multiset(s)
  {
    InsertDescPermutation(x, s, key);
    var r := InsertDesc(x, s, key);
    if s != [] && key(s[0]) > key(x) {
      InsertDescFacts(x, s[1..], key);
      var t := InsertDesc(x, s[1..], key);
      InsertDescMembers(x, s[1..], key);
      assert r == [s[0]] + t;
      forall i, j | 0 <= i < j < |r| ensures key(r[i]) >= key(r[j]) {
        assert r[j] == t[j - 1];
        if i == 0 {
          assert t[j - 1] in t;
        } else {
          assert r[i] == t[i - 1];
        }
      }
    } else {
      assert r == [x] + s;
      forall i, j | 0 <= i < j < |r| ensures key(r[i]) >= key(r[j]) {
        assert r[j] == s[j - 1];
        if i > 0 {
          assert r[i] == s[i - 1];
        }
      }
    }
  }

  /** The output of `SortDesc` is in non-increasing key order and is a permutation of the input. */
  lemma {:induction false} SortDescSortedPermutation<T>(s: seq<T>, key: T -> int)
    ensures SortedDesc(SortDesc(s, key), key)
    ensures multiset(SortDesc(s, key)) == multiset(s)
    ensures |SortDesc(s, key)| == |s|
  {
    if s != [] {
      SortDescSortedPermutation(s[1..], key);
      InsertDescFacts(s[0], SortDesc(s[1..], key), key);
      assert s == [s[0]] + s[1..];
    }
    assert |SortDesc(s, key)| == |multiset(SortDesc(s, key))|;
  }

  lemma {:induction false} WithKeyAppend<T>(a: seq<T>, b: seq<T>, key: T -> int, k: int)
    ensures WithKey(a + b, key, k) == WithKey(a, key, k) + WithKey(b, key, k)
  {
    if a != [] {
      assert (a + b)[1..] == a[1..] + b;
      WithKeyAppend(a[1..], b, key, k);
    } else {
      assert a + b == b;
    }
  }

  lemma {:induction false} WithKeyInsert<T>(x: T, s: seq<T>, key: T -> int, k: int)
    ensures WithKey(InsertDesc(x, s, key), key, k) == (if key(x) == k then [x] else []) + WithKey(s, key, k)
  {
    if s == [] || key(s[0]) <= key(x) {
      assert ([x] + s)[1..] == s;
    } else {
      var rest := InsertDesc(x, s[1..], key);
      WithKeyInsert(x, s[1..], key, k);
      assert ([s[0]] + rest)[1..] == rest;
      var first := if key(s[0]) == k then [s[0]] else [];
      var own := if key(x) == k then [x] else [];
      assert WithKey(InsertDesc(x, s, key), key, k) == first + (own + WithKey(s[1..], key, k));
      assert first == [] || own == [];
      ConcatAssoc(first, own, WithKey(s[1..], key, k));
      ConcatAssoc(own, first, WithKey(s[1..], key, k));
    }
  }

  /**
   * Stability: for every key, the elements carrying that key appear in the
   * output in exactly the order they had in the input.
   */
  lemma {:induction false} SortDescStable<T>(s: seq<T>, key: T -> int, k: int)
    ensures WithKey(SortDesc(s, key), key, k) == WithKey(s, key, k)
  {
    if s != [] {
      SortDescStable(s[1..], key, k);
      WithKeyInsert(s[0], SortDesc(s[1..], key), key, k);
    }
  }

  /**
   * The first element of a non-empty sorted output carries the largest key,
   * and it is the earliest input element with that key.
   */
  lemma SortDescHead<T>(s: seq<T>, key: T -> int)
    requires s != []
    ensures SortDesc(s, key) != []
    ensures forall x | x in s :: key(SortDesc(s, key)[0]) >= key(x)
    ensures exists i :: 0 <= i < |s| && s[i] == SortDesc(s, key)[0]
                        && forall j :: 0 <= j < i ==> key(s[j]) < key(s[i])
  {
    var t := SortDesc(s, key);
    SortDescSortedPermutation(s, key);
    assert |t| == |s|;
    forall x | x in s ensures key(t[0]) >= key(x) {
      assert x in multiset(t);
      var j :| 0 <= j < |t| && t[j] == x;
    }
    var m := key(t[0]);
    SortDescStable(s, key, m);
    assert t == [t[0]] + t[1..];
    assert WithKey(t, key, m)[0] == t[0];
    var i := FirstWithKey(s, key, m);
    forall j | 0 <= j < i ensures key(s[j]) < key(s[i]) {
      assert s[j] in s;
    }
  }

  /** The head of `WithKey(s, key, k)` is the first element of `s` whose key is `k`. */
  lemma {:induction false} FirstWithKey<T>(s: seq<T>, key: T -> int, k: int) returns (i: nat)
    requires WithKey(s, key, k) != []
    ensures i < |s| && s[i] == WithKey(s, key, k)[0] && key(s[i]) == k
    ensures forall j :: 0 <= j < i ==> key(s[j]) != k
  {
    if key(s[0]) == k {
      i := 0;
    } else {
      var i' := FirstWithKey(s[1..], key, k);
      i := i' + 1;
    }
  }

  /** Concatenation is associative. */
  lemma ConcatAssoc<T>(a: seq<T>, b: seq<T>, c: seq<T>)
    ensures a + (b + c) == (a + b) + c
  {
  }

  /** A head of a sorted sequence is sorted. */
  lemma SortedPrefix<T>(s: seq<T>, p: seq<T>, key: T -> int)
    requires SortedDesc(s, key) && p <= s
    ensures SortedDesc(p, key)
  {
    forall i, j | 0 <= i < j < |p| ensures key(p[i]) >= key(p[j]) {
      assert p[i] == s[i] && p[j] == s[j];
    }
  }

  /** Whatever a head of a sorted sequence leaves out has a key no larger than anything it keeps. */
  lemma PrefixDominates<T>(s: seq<T>, p: seq<T>, key: T -> int)
    requires SortedDesc(s, key) && p <= s
    ensures forall e, x | e in s && e !in p && x in p :: key(x) >= key(e)
  {
    forall e, x | e in s && e !in p && x in p ensures key(x) >= key(e) {
      var j :| 0 <= j < |s| && s[j] == e;
      var i :| 0 <= i < |p| && p[i] == x;
      assert s[i] == x;
      assert p == s[..|p|];
      assert j >= |p|;
    }
  }

  /** Sequences with the same multiset have the same members. */
  lemma SameMembers<T>(a: seq<T>, b: seq<T>)
    requires multiset(a) == multiset(b)
    ensures forall x :: x in a <==> x in b
  {
    forall x ensures x in a <==> x in b {
      assert x in a <==> x in multiset(a);
      assert x in b <==> x in multiset(b);
    }
  }

  /** A head of a sequence holds only members of the sequence. */
  lemma PrefixMembers<T>(s: seq<T>, p: seq<T>)
    requires p <= s
    ensures forall x | x in p :: x in s
  {
    forall x | x in p ensures x in s {
      var i :| 0 <= i < |p| && p[i] == x;
      assert s[i] == x;
    }
  }

  /**
   * `sorted(s, key=key, reverse=True)[:n]` has `min(n, len(s))` elements of
   * `s`, in non-increasing key order, and every element it leaves out has a
   * key no larger than any it keeps.
   */
  lemma TopSorted<T>(s: seq<T>, key: T -> int, n: nat)
    ensures |Take(SortDesc(s, key), n)| == if |s| < n then |s| else n
    ensures SortedDesc(Take(SortDesc(s, key), n), key)
    ensures forall e | e in Take(SortDesc(s, key), n) :: e in s
    ensures forall e, x | e in s && e !in Take(SortDesc(s, key), n) && x in Take(SortDesc(s, key), n) ::
              key(x) >= key(e)
    ensures multiset(Take(SortDesc(s, key), n)) <= multiset(s)
    ensures forall k :: WithKey(Take(SortDesc(s, key), n), key, k) <= WithKey(s, key, k)
  {
    var t := SortDesc(s, key);
    var r := Take(t, n);
    SortDescSortedPermutation(s, key);
    SameMembers(t, s);
    SortedPrefix(t, r, key);
    PrefixDominates(t, r, key);
    PrefixMembers(t, r);
    PrefixMultiset(t, r);
    forall k ensures WithKey(r, key, k) <= WithKey(s, key, k) {
      SortDescStable(s, key, k);
      PrefixWithKey(t, r, key, k);
    }
  }

  /** A head of a sequence holds a part of its elements. */
  lemma PrefixMultiset<T>(s: seq<T>, p: seq<T>)
    requires p <= s
    ensures multiset(p) <= multiset(s)
  {
    assert s == p + s[|p|..];
  }

  /** The elements with a given key of a head of `s` are a head of those of `s`. */
  lemma PrefixWithKey<T>(s: seq<T>, p: seq<T>, key: T -> int, k: int)
    requires p <= s
    ensures WithKey(p, key, k) <= WithKey(s, key, k)
  {
    assert s == p + s[|p|..];
    WithKeyAppend(p, s[|p|..], key, k);
  }

  /** `rank` strictly increases along `s`. */
  predicate RankIncreasing<T>(s: seq<T>, rank: T -> int) {
    forall i, j :: 0 <= i < j < |s| ==> rank(s[i]) < rank(s[j])
  }

  /** Along `s`, `rank` strictly increases among elements with equal keys. */
  predicate TiesByRank<T>(s: seq<T>, key: T -> int, rank: T -> int) {
    forall i, j :: 0 <= i < j < |s| && key(s[i]) == key(s[j]) ==> rank(s[i]) < rank(s[j])
  }

  /** Inserting an element that ranks before every other one keeps ties in rank order. */
  lemma {:induction false} InsertDescTies<T>(x: T, s: seq<T>, key: T -> int, rank: T -> int)
    requires TiesByRank(s, key, rank)
    requires forall y | y in s :: rank(x) < rank(y)
    ensures TiesByRank(InsertDesc(x, s, key), key, rank)
  {
    var r := InsertDesc(x, s, key);
    if s == [] || key(s[0]) <= key(x) {
      ConsTies(x, s, key, rank);
    } else {
      var tail := s[1..];
      assert TiesByRank(tail, key, rank) by {
        forall i, j | 0 <= i < j < |tail| && key(tail[i]) == key(tail[j]) ensures rank(tail[i]) < rank(tail[j]) {
          assert tail[i] == s[i + 1] && tail[j] == s[j + 1];
        }
      }
      var t := InsertDesc(x, tail, key);
      InsertDescTies(x, tail, key, rank);
      InsertDescMembers(x, tail, key);
      assert r == [s[0]] + t;
      forall i, j | 0 <= i < j < |r| && key(r[i]) == key(r[j]) ensures rank(r[i]) < rank(r[j]) {
        assert r[j] == t[j - 1];
        if i == 0 {
          assert t[j - 1] in t;
          if t[j - 1] != x {
            var q :| 0 <= q < |tail| && tail[q] == t[j - 1];
            assert s[q + 1] == t[j - 1];
          }
        } else {
          assert r[i] == t[i - 1];
        }
      }
    }
  }

  /** Putting in front an element that ranks before every other one keeps ties in rank order. */
  lemma ConsTies<T>(x: T, s: seq<T>, key: T -> int, rank: T -> int)
    requires TiesByRank(s, key, rank)
    requires forall y | y in s :: rank(x) < rank(y)
    ensures TiesByRank([x] + s, key, rank)
  {
    var r := [x] + s;
    forall i, j | 0 <= i < j < |r| && key(r[i]) == key(r[j]) ensures rank(r[i]) < rank(r[j]) {
      assert r[j] == s[j - 1];
      if i == 0 {
        assert s[j - 1] in s;
      } else {
        assert r[i] == s[i - 1];
      }
    }
  }

  /** When `rank` increases along the input, the sort puts elements with equal keys in rank order. */
  lemma {:induction false} SortDescTies<T>(s: seq<T>, key: T -> int, rank: T -> int)
    requires RankIncreasing(s, rank)
    ensures TiesByRank(SortDesc(s, key), key, rank)
  {
    if s != [] {
      var tail := s[1..];
      assert RankIncreasing(tail, rank) by {
        forall i, j | 0 <= i < j < |tail| ensures rank(tail[i]) < rank(tail[j]) {
          assert tail[i] == s[i + 1] && tail[j] == s[j + 1];
        }
      }
      SortDescTies(tail, key, rank);
      SortDescSortedPermutation(tail, key);
      SameMembers(SortDesc(tail, key), tail);
      forall y | y in SortDesc(tail, key) ensures rank(s[0]) < rank(y) {
        assert y in multiset(SortDesc(tail, key));
        var q :| 0 <= q < |tail| && tail[q] == y;
        assert s[q + 1] == y;
      }
      InsertDescTies(s[0], SortDesc(tail, key), key, rank);
    }
  }

  /**
   * When `rank` increases along `s`, the kept elements with equal keys are
   * in rank order, and an element left out ranks after every kept element
   * with its key: ties are cut in input order.
   */
  lemma TopTies<T>(s: seq<T>, key: T -> int, rank: T -> int, n: nat)
    requires RankIncreasing(s, rank)
    ensures TiesByRank(Take(SortDesc(s, key), n), key, rank)
    ensures forall e, x | x in Take(SortDesc(s, key), n) && e in s && e !in Take(SortDesc(s, key), n) && key(e) == key(x) ::
              rank(x) < rank(e)
  {
    var t := SortDesc(s, key);
    var p := Take(t, n);
    SortDescTies(s, key, rank);
    SortDescSortedPermutation(s, key);
    SameMembers(t, s);
    forall i, j | 0 <= i < j < |p| && key(p[i]) == key(p[j]) ensures rank(p[i]) < rank(p[j]) {
      assert p[i] == t[i] && p[j] == t[j];
    }
    forall e, x | x in p && e in s && e !in p && key(e) == key(x) ensures rank(x) < rank(e) {
      var i :| 0 <= i < |p| && p[i] == x;
      var j :| 0 <= j < |t| && t[j] == e;
      assert t[i] == x;
    }
  }

  /** Equal elements at two positions occur at least twice. */
  lemma Repeated<T>(s: seq<T>, i: nat, j: nat)
    requires i < j < |s| && s[i] == s[j]
    ensures multiset(s)[s[i]] >= 2
  {
    assert s == s[..j] + s[j..];
    assert s[i] in s[..j];
    assert s[j] in s[j..];
  }

  /** Elements of a list without repetitions occur once. */
  lemma {:induction false} Unrepeated<T>(s: seq<T>, x: T)
    requires forall i, j :: 0 <= i < j < |s| ==> s[i] != s[j]
    ensures multiset(s)[x] <= 1
  {
    if s != [] {
      Unrepeated(s[1..], x);
      assert s == [s[0]] + s[1..];
      if s[0] == x {
        assert x !in s[1..];
      }
    }
  }

  /** A permutation of a list without repetitions has none either. */
  lemma DistinctPermutation<T>(a: seq<T>, b: seq<T>)
    requires multiset(a) == multiset(b)
    requires forall i, j :: 0 <= i < j < |a| ==> a[i] != a[j]
    ensures forall i, j :: 0 <= i < j < |b| ==> b[i] != b[j]
  {
    forall i, j | 0 <= i < j < |b| ensures b[i] != b[j] {
      if b[i] == b[j] {
        Repeated(b, i, j);
        Unrepeated(a, b[i]);
        assert false;
      }
    }
  }
}
