/**
  The stable sort that every handler of the application relies on.

  JavaScript's `Array.prototype.sort` is stable, so sorting by a comparator
  `(a, b) => key(b) - key(a)` yields the elements in non-increasing key order
  and keeps equal-key elements in their stored order. `SortDesc` is that sort,
  written as an insertion sort; an ascending sort is `SortDesc` with the key
  negated.
 */
module Sorting {

  /** The keys of `s` never increase from left to right. */
  predicate NonIncreasing<T>(s: seq<T>, key: T -> int) {
    forall i, j :: 0 <= i < j < |s| ==> key(s[i]) >= key(s[j])
  }

  /** The relation `rel` holds of every pair of elements, taken left to right. */
  predicate Pairwise<T>(s: seq<T>, rel: (T, T) -> bool) {
    forall i, j :: 0 <= i < j < |s| ==> rel(s[i], s[j])
  }

  /** The elements of `s` whose key is exactly `k`, in their order in `s`. */
  function KeyClass<T>(s: seq<T>, key: T -> int, k: int): (r: seq<T>)
    ensures |r| <= |s|
    ensures forall i :: 0 <= i < |r| ==> key(r[i]) == k
  {
    if |s| == 0 then []
    else (if key(s[0]) == k then [s[0]] else []) + KeyClass(s[1..], key, k)
  }

  /** `s` read from right to left. */
  function Reverse<T>(s: seq<T>): (r: seq<T>)
    ensures |r| == |s|
    ensures forall i :: 0 <= i < |s| ==> r[i] == s[|s| - 1 - i]
  {
    if |s| == 0 then [] else Reverse(s[1..]) + [s[0]]
  }

  lemma {:induction false} ReverseMultiset<T>(s: seq<T>)
    ensures multiset(Reverse(s)) == multiset(s)
    decreases |s|
  {
    if |s| > 0 {
      ReverseMultiset(s[1..]);
      assert s == [s[0]] + s[1..];
    }
  }

  /** Places `x` in front of the first element whose key is not above key(x). */
  function InsertDesc<T>(x: T, s: seq<T>, key: T -> int): (r: seq<T>)
    requires NonIncreasing(s, key)
    ensures |r| == |s| + 1
    ensures multiset(r) == multiset(s) + multiset{x}
    ensures NonIncreasing(r, key)
  {
    if |s| == 0 || key(s[0]) <= key(x) then
      ConsNonIncreasing(x, s, key);
      [x] + s
    else
      var rest := InsertDesc(x, s[1..], key);
      assert s == [s[0]] + s[1..];
      KeysBounded(rest, s[1..], x, key, key(s[0]));
      ConsNonIncreasing(s[0], rest, key);
      [s[0]] + rest
  }

  /** Putting in front an element whose key is not below any other keeps the order. */
  lemma ConsNonIncreasing<T>(x: T, s: seq<T>, key: T -> int)
    requires NonIncreasing(s, key)
    requires forall j :: 0 <= j < |s| ==> key(s[j]) <= key(x)
    ensures NonIncreasing([x] + s, key)
  {
    var r := [x] + s;
    forall i, j | 0 <= i < j < |r|
      ensures key(r[i]) >= key(r[j])
    {
      assert r[j] == s[j - 1];
      if i > 0 {
        assert r[i] == s[i - 1];
      }
    }
  }

  /** A bound on every key of `s` and on key(x) bounds every key of a rearrangement of `s` and `x`. */
  lemma KeysBounded<T>(r: seq<T>, s: seq<T>, x: T, key: T -> int, bound: int)
    requires multiset(r) == multiset(s) + multiset{x}
    requires forall j :: 0 <= j < |s| ==> key(s[j]) <= bound
    requires key(x) <= bound
    ensures forall j :: 0 <= j < |r| ==> key(r[j]) <= bound
  {
    forall j | 0 <= j < |r|
      ensures key(r[j]) <= bound
    {
      assert r[j] in multiset(r);
      if r[j] != x {
        assert r[j] in multiset(s);
        var m :| 0 <= m < |s| && s[m] == r[j];
      }
    }
  }

  /** The stable descending sort. */
  function SortDesc<T>(s: seq<T>, key: T -> int): (r: seq<T>)
    ensures |r| == |s|
    ensures multiset(r) == multiset(s)
    ensures NonIncreasing(r, key)
  {
    if |s| == 0 then []
    else
      assert s == [s[0]] + s[1..];
      InsertDesc(s[0], SortDesc(s[1..], key), key)
  }

  lemma {:induction false} InsertDescKeyClass<T>(x: T, s: seq<T>, key: T -> int, k: int)
    requires NonIncreasing(s, key)
    ensures KeyClass(InsertDesc(x, s, key), key, k)
         == (if key(x) == k then [x] else []) + KeyClass(s, key, k)
  {
    if |s| == 0 || key(s[0]) <= key(x) {
      assert ([x] + s)[1..] == s;
    } else {
      var rest := InsertDesc(x, s[1..], key);
      assert ([s[0]] + rest)[1..] == rest;
      InsertDescKeyClass(x, s[1..], key, k);
    }
  }

  /** Stability: for every key, the elements carrying it keep their stored order. */
  lemma {:induction false} SortDescStable<T>(s: seq<T>, key: T -> int, k: int)
    ensures KeyClass(SortDesc(s, key), key, k) == KeyClass(s, key, k)
  {
    if |s| > 0 {
      SortDescStable(s[1..], key, k);
      InsertDescKeyClass(s[0], SortDesc(s[1..], key), key, k);
    }
  }

  /** A sequence that is already in non-increasing key order is left as it is. */
  lemma {:induction false} SortDescOfSorted<T>(s: seq<T>, key: T -> int)
    requires NonIncreasing(s, key)
    ensures SortDesc(s, key) == s
  {
    if |s| > 0 {
      SortDescOfSorted(s[1..], key);
      assert s == [s[0]] + s[1..];
    }
  }

  lemma {:induction false} InsertDescBelowAll<T>(x: T, s: seq<T>, key: T -> int)
    requires NonIncreasing(s, key)
    requires forall i :: 0 <= i < |s| ==> key(s[i]) > key(x)
    ensures InsertDesc(x, s, key) == s + [x]
  {
    if |s| > 0 {
      InsertDescBelowAll(x, s[1..], key);
      assert s == [s[0]] + s[1..];
    }
  }

  /** Strictly increasing keys come out exactly reversed. */
  lemma {:induction false} SortDescOfIncreasing<T>(s: seq<T>, key: T -> int)
    requires forall i, j :: 0 <= i < j < |s| ==> key(s[i]) < key(s[j])
    ensures SortDesc(s, key) == Reverse(s)
  {
    if |s| > 0 {
      var t := s[1..];
      SortDescOfIncreasing(t, key);
      ReverseTailAbove(s, key);
      InsertDescBelowAll(s[0], Reverse(t), key);
    }
  }

  lemma ReverseTailAbove<T>(s: seq<T>, key: T -> int)
    requires |s| > 0
    requires forall i, j :: 0 <= i < j < |s| ==> key(s[i]) < key(s[j])
    ensures forall i :: 0 <= i < |s| - 1 ==> key(Reverse(s[1..])[i]) > key(s[0])
  {
    var tail := Reverse(s[1..]);
    forall i | 0 <= i < |tail|
      ensures key(tail[i]) > key(s[0])
    {
      assert tail[i] == s[|s| - 1 - i];
    }
  }

  lemma {:induction false} InsertDescPairwise<T>(x: T, s: seq<T>, key: T -> int, rel: (T, T) -> bool)
    requires NonIncreasing(s, key)
    requires forall a, b :: rel(a, b) == rel(b, a)
    requires Pairwise(s, rel)
    requires forall i :: 0 <= i < |s| ==> rel(x, s[i])
    ensures Pairwise(InsertDesc(x, s, key), rel)
  {
    if |s| > 0 && key(s[0]) > key(x) {
      var t := s[1..];
      InsertDescPairwise(x, t, key, rel);
      HeadRelatesToInsert(x, s, key, rel);
      PairwiseCons(s[0], InsertDesc(x, t, key), rel);
    }
  }

  lemma PairwiseCons<T>(x: T, s: seq<T>, rel: (T, T) -> bool)
    requires Pairwise(s, rel)
    requires forall j :: 0 <= j < |s| ==> rel(x, s[j])
    ensures Pairwise([x] + s, rel)
  {
    var r := [x] + s;
    forall i, j | 0 <= i < j < |r|
      ensures rel(r[i], r[j])
    {
      if i > 0 {
        assert r[i] == s[i - 1] && r[j] == s[j - 1];
      } else {
        assert r[j] == s[j - 1];
      }
    }
  }

  lemma HeadRelatesToInsert<T>(x: T, s: seq<T>, key: T -> int, rel: (T, T) -> bool)
    requires |s| > 0 && NonIncreasing(s, key)
    requires forall a, b :: rel(a, b) == rel(b, a)
    requires Pairwise(s, rel)
    requires rel(x, s[0])
    ensures forall j :: 0 <= j < |InsertDesc(x, s[1..], key)| ==> rel(s[0], InsertDesc(x, s[1..], key)[j])
  {
    var rest := InsertDesc(x, s[1..], key);
    forall j | 0 <= j < |rest|
      ensures rel(s[0], rest[j])
    {
      assert rest[j] in multiset(rest);
      if rest[j] != x {
        assert rest[j] in multiset(s[1..]);
        var m :| 0 <= m < |s[1..]| && s[1..][m] == rest[j];
        assert s[1 + m] == rest[j];
        assert rel(s[0], s[1 + m]);
      } else {
        assert rel(s[0], x);
      }
    }
  }

  /** A symmetric relation that holds pairwise before sorting still holds after. */
  lemma {:induction false} SortDescPairwise<T>(s: seq<T>, key: T -> int, rel: (T, T) -> bool)
    requires forall a, b :: rel(a, b) == rel(b, a)
    requires Pairwise(s, rel)
    ensures Pairwise(SortDesc(s, key), rel)
  {
    if |s| > 0 {
      SortDescPairwise(s[1..], key, rel);
      var sorted := SortDesc(s[1..], key);
      forall i | 0 <= i < |sorted|
        ensures rel(s[0], sorted[i])
      {
        assert sorted[i] in multiset(sorted);
        assert sorted[i] in multiset(s[1..]);
        var m :| 0 <= m < |s[1..]| && s[1..][m] == sorted[i];
        assert s[1 + m] == sorted[i];
      }
      InsertDescPairwise(s[0], sorted, key, rel);
    }
  }

  /** Two arrangements of the same elements, both strictly ascending by `key`, are the same sequence. */
  lemma {:induction false} StrictlySortedUnique<T>(a: seq<T>, b: seq<T>, key: T -> int)
    requires multiset(a) == multiset(b)
    requires forall i, j :: 0 <= i < j < |a| ==> key(a[i]) < key(a[j])
    requires forall i, j :: 0 <= i < j < |b| ==> key(b[i]) < key(b[j])
    ensures a == b
    decreases |a|
  {
    assert |a| == |multiset(a)| == |b|;
    if |a| > 0 {
      StrictlySortedHeads(a, b, key);
      assert a == [a[0]] + a[1..] && b == [b[0]] + b[1..];
      MultisetTails(a, b);
      StrictlySortedUnique(a[1..], b[1..], key);
    }
  }

  /** The least element is the head of every strictly ascending arrangement. */
  lemma StrictlySortedHeads<T>(a: seq<T>, b: seq<T>, key: T -> int)
    requires |a| > 0 && |b| > 0
    requires multiset(a) == multiset(b)
    requires forall i, j :: 0 <= i < j < |a| ==> key(a[i]) < key(a[j])
    requires forall i, j :: 0 <= i < j < |b| ==> key(b[i]) < key(b[j])
    ensures a[0] == b[0]
  {
    assert a[0] in multiset(b);
    var j :| 0 <= j < |b| && b[j] == a[0];
    assert b[0] in multiset(a);
    var i :| 0 <= i < |a| && a[i] == b[0];
    assert key(b[0]) <= key(b[j]) && key(a[0]) <= key(a[i]);
  }

  lemma MultisetTails<T>(a: seq<T>, b: seq<T>)
    requires |a| > 0 && |b| > 0 && a[0] == b[0]
    requires multiset(a) == multiset(b)
    ensures multiset(a[1..]) == multiset(b[1..])
  {
    assert a == [a[0]] + a[1..] && b == [b[0]] + b[1..];
    assert multiset(a) == multiset([a[0]]) + multiset(a[1..]);
    assert multiset(b) == multiset([b[0]]) + multiset(b[1..]);
    assert multiset(a[1..]) == multiset(a) - multiset([a[0]]);
    assert multiset(b[1..]) == multiset(b) - multiset([b[0]]);
  }

  lemma ReverseReverse<T>(s: seq<T>)
    ensures Reverse(Reverse(s)) == s
  {
    var r := Reverse(Reverse(s));
    assert forall i :: 0 <= i < |s| ==> r[i] == Reverse(s)[|s| - 1 - i] == s[i];
  }
}
