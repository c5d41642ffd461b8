/**
  Python's `list.sort(key=...)` (and `reverse=True`) is a stable sort: it orders by
  the key and keeps the original order among equal keys. This module models it as
  a stable insertion sort ascending by a real-valued `rank`; a descending sort uses
  the negated key as the rank.
 */
module StableSort {
  import opened Sequences

  ghost predicate Sorted<T>(s: seq<T>, rank: T -> real) {
    forall i, j :: 0 <= i < j < |s| ==> rank(s[i]) <= rank(s[j])
  }

  /** The elements of `s` whose rank is `v`, in their order in `s`. */
  function WithRank<T>(s: seq<T>, rank: T -> real, v: real): seq<T> {
    if |s| == 0 then []
    else (if rank(s[0]) == v then [s[0]] else []) + WithRank(s[1..], rank, v)
  }

  /** Places `x` after every element of `s` whose rank is not larger than its own. */
  function Insert<T>(x: T, s: seq<T>, rank: T -> real): seq<T> {
    if |s| == 0 then [x]
    else if rank(x) < rank(s[0]) then [x] + s
    else [s[0]] + Insert(x, s[1..], rank)
  }

  /** Inserting into a sorted sequence keeps it sorted and adds exactly `x`. */
  lemma {:induction false} InsertFacts<T>(x: T, s: seq<T>, rank: T -> real)
    requires Sorted(s, rank)
    ensures Sorted(Insert(x, s, rank), rank)
    ensures multiset(Insert(x, s, rank)) == multiset(s) + multiset{x}
    ensures |Insert(x, s, rank)| == |s| + 1
    ensures Insert(x, s, rank)[0] == x || (|s| > 0 && Insert(x, s, rank)[0] == s[0])
  {
    InsertSorted(x, s, rank);
    InsertCount(x, s, rank);
  }

  lemma {:induction false} InsertSorted<T>(x: T, s: seq<T>, rank: T -> real)
    requires Sorted(s, rank)
    ensures Sorted(Insert(x, s, rank), rank)
  {
    if |s| == 0 {
    } else if rank(x) < rank(s[0]) {
      SortedCons(x, s, rank);
    } else {
      SortedTail(s, rank);
      InsertSorted(x, s[1..], rank);
      InsertAtLeast(x, s[1..], rank, rank(s[0]));
      SortedCons(s[0], Insert(x, s[1..], rank), rank);
    }
  }

  lemma {:induction false} InsertAtLeast<T>(x: T, s: seq<T>, rank: T -> real, b: real)
    requires b <= rank(x) && forall k :: 0 <= k < |s| ==> b <= rank(s[k])
    ensures forall k :: 0 <= k < |Insert(x, s, rank)| ==> b <= rank(Insert(x, s, rank)[k])
  {
    if |s| > 0 && rank(x) >= rank(s[0]) {
      assert forall k :: 0 <= k < |s| - 1 ==> s[1..][k] == s[k + 1];
      InsertAtLeast(x, s[1..], rank, b);
      var t := Insert(x, s[1..], rank);
      assert forall k :: 0 < k < |t| + 1 ==> ([s[0]] + t)[k] == t[k - 1];
    }
  }

  lemma SortedCons<T>(y: T, s: seq<T>, rank: T -> real)
    requires Sorted(s, rank) && forall k :: 0 <= k < |s| ==> rank(y) <= rank(s[k])
    ensures Sorted([y] + s, rank)
  {
    var r := [y] + s;
    assert forall k :: 0 < k < |r| ==> r[k] == s[k - 1];
  }

  lemma {:induction false} InsertCount<T>(x: T, s: seq<T>, rank: T -> real)
    ensures multiset(Insert(x, s, rank)) == multiset(s) + multiset{x}
    ensures |Insert(x, s, rank)| == |s| + 1
    ensures Insert(x, s, rank)[0] == x || (|s| > 0 && Insert(x, s, rank)[0] == s[0])
  {
    if |s| > 0 && rank(x) >= rank(s[0]) {
      InsertCount(x, s[1..], rank);
      assert s == [s[0]] + s[1..];
    }
  }

  /** Stable sort of `s`, ascending by `rank`. */
  function SortBy<T>(s: seq<T>, rank: T -> real): (r: seq<T>)
    ensures Sorted(r, rank)
    ensures multiset(r) == multiset(s)
    ensures |r| == |s|
  {
    if |s| == 0 then []
    else
      var init := s[..|s| - 1];
      assert s == init + [s[|s| - 1]];
      InsertFacts(s[|s| - 1], SortBy(init, rank), rank);
      Insert(s[|s| - 1], SortBy(init, rank), rank)
  }

  lemma {:induction false} WithRankConcat<T>(a: seq<T>, b: seq<T>, rank: T -> real, v: real)
    ensures WithRank(a + b, rank, v) == WithRank(a, rank, v) + WithRank(b, rank, v)
  {
    if |a| == 0 {
      assert a + b == b;
    } else {
      assert a + b == [a[0]] + (a[1..] + b);
      assert a == [a[0]] + a[1..];
      WithRankCons(a[0], a[1..] + b, rank, v);
      WithRankCons(a[0], a[1..], rank, v);
      WithRankConcat(a[1..], b, rank, v);
    }
  }

  lemma {:induction false} WithRankAbove<T>(s: seq<T>, rank: T -> real, v: real)
    requires forall k :: 0 <= k < |s| ==> v < rank(s[k])
    ensures WithRank(s, rank, v) == []
  {
    if |s| > 0 {
      WithRankAbove(s[1..], rank, v);
    }
  }

  /** Inserting `x` adds it at the end of its own rank class and changes no other class. */
  lemma {:induction false} InsertStable<T>(x: T, s: seq<T>, rank: T -> real, v: real)
    requires Sorted(s, rank)
    ensures WithRank(Insert(x, s, rank), rank, v)
         == WithRank(s, rank, v) + (if rank(x) == v then [x] else [])
  {
    if |s| == 0 {
      WithRankCons(x, [], rank, v);
    } else if rank(x) < rank(s[0]) {
      WithRankCons(x, s, rank, v);
      if rank(x) == v {
        WithRankAbove(s, rank, v);
      }
    } else {
      var t := Insert(x, s[1..], rank);
      assert Insert(x, s, rank) == [s[0]] + t;
      SortedTail(s, rank);
      InsertStable(x, s[1..], rank, v);
      ConsKeepsStable(s[0], s[1..], t, x, rank, v);
      assert [s[0]] + s[1..] == s;
    }
  }

  /** Putting the same head in front of both sides keeps `x` at the end of its class. */
  lemma ConsKeepsStable<T>(y: T, u: seq<T>, t: seq<T>, x: T, rank: T -> real, v: real)
    requires WithRank(t, rank, v) == WithRank(u, rank, v) + (if rank(x) == v then [x] else [])
    ensures WithRank([y] + t, rank, v) == WithRank([y] + u, rank, v) + (if rank(x) == v then [x] else [])
  {
    WithRankCons(y, t, rank, v);
    WithRankCons(y, u, rank, v);
    var c := if rank(y) == v then [y] else [];
    var e := if rank(x) == v then [x] else [];
    assert c + (WithRank(u, rank, v) + e) == (c + WithRank(u, rank, v)) + e;
  }

  lemma WithRankCons<T>(y: T, s: seq<T>, rank: T -> real, v: real)
    ensures WithRank([y] + s, rank, v) == (if rank(y) == v then [y] else []) + WithRank(s, rank, v)
  {
    assert ([y] + s)[0] == y && ([y] + s)[1..] == s;
  }

  lemma SortedTail<T>(s: seq<T>, rank: T -> real)
    requires |s| > 0 && Sorted(s, rank)
    ensures Sorted(s[1..], rank)
  {
    assert forall k :: 0 <= k < |s| - 1 ==> s[1..][k] == s[k + 1];
  }

  /**
    Stability: for every rank, the elements of that rank appear in the sorted
    result in exactly their original order.
   */
  lemma {:induction false} SortByStable<T>(s: seq<T>, rank: T -> real, v: real)
    ensures WithRank(SortBy(s, rank), rank, v) == WithRank(s, rank, v)
  {
    if |s| > 0 {
      var init := s[..|s| - 1];
      var x := s[|s| - 1];
      assert s == init + [x];
      var sorted := SortBy(init, rank);
      assert SortBy(s, rank) == Insert(x, sorted, rank);
      SortByStable(init, rank, v);
      InsertStable(x, sorted, rank, v);
      WithRankConcat(init, [x], rank, v);
      assert WithRank([x], rank, v) == (if rank(x) == v then [x] else []);
    }
  }

  /** A prefix of a sorted sequence is sorted and holds only elements of the sequence. */
  lemma SliceToSorted<T>(s: seq<T>, n: nat, rank: T -> real)
    requires Sorted(s, rank)
    ensures Sorted(SliceTo(s, n), rank)
    ensures forall k :: 0 <= k < |SliceTo(s, n)| ==> SliceTo(s, n)[k] == s[k]
  {
  }

  /** No two elements of `s` share a key. */
  predicate DistinctBy<T, K(==)>(s: seq<T>, key: T -> K) {
    forall i, j :: 0 <= i < j < |s| ==> key(s[i]) != key(s[j])
  }

  /** The tail of a sequence with distinct keys has distinct keys, none of them the head's. */
  lemma DistinctTail<T, K>(s: seq<T>, key: T -> K)
    requires |s| > 0 && DistinctBy(s, key)
    ensures DistinctBy(s[1..], key)
    ensures forall j :: 0 <= j < |s| - 1 ==> key(s[1..][j]) != key(s[0])
  {
    assert forall j :: 0 <= j < |s| - 1 ==> s[1..][j] == s[j + 1];
  }

  /** Putting in front an element whose key the rest does not have keeps keys distinct. */
  lemma DistinctPrepend<T, K>(x: T, rest: seq<T>, key: T -> K)
    requires DistinctBy(rest, key)
    requires forall k :: 0 <= k < |rest| ==> key(rest[k]) != key(x)
    ensures DistinctBy([x] + rest, key)
  {
    var r := [x] + rest;
    forall i, j | 0 <= i < j < |r| ensures key(r[i]) != key(r[j]) {
      assert r[j] == rest[j - 1];
      if i > 0 {
        assert r[i] == rest[i - 1];
      }
    }
  }

  lemma {:induction false} DistinctCount<T, K>(s: seq<T>, key: T -> K, x: T)
    requires DistinctBy(s, key)
    ensures multiset(s)[x] <= 1
  {
    if |s| > 0 {
      assert s == [s[0]] + s[1..];
      assert DistinctBy(s[1..], key);
      DistinctCount(s[1..], key, x);
      if s[0] == x {
        assert forall k :: 0 <= k < |s[1..]| ==> s[1..][k] != x;
      }
    }
  }

  lemma CountAtMostOneDistinct<T>(r: seq<T>, i: int, j: int)
    requires 0 <= i < j < |r| && multiset(r)[r[i]] <= 1
    ensures r[i] != r[j]
  {
    assert r == r[..j] + r[j..];
    assert r[i] == r[..j][i];
    assert r[j] == r[j..][0];
    assert multiset(r)[r[j]] == multiset(r[..j])[r[j]] + multiset(r[j..])[r[j]];
  }

  /** A permutation of a sequence with distinct keys has distinct keys. */
  lemma PermutationKeepsDistinct<T, K>(s: seq<T>, r: seq<T>, key: T -> K)
    requires multiset(r) == multiset(s) && DistinctBy(s, key)
    ensures DistinctBy(r, key)
  {
    forall i, j | 0 <= i < j < |r| ensures key(r[i]) != key(r[j]) {
      DistinctCount(s, key, r[i]);
      CountAtMostOneDistinct(r, i, j);
      assert r[i] in multiset(s) && r[j] in multiset(s);
      var p :| 0 <= p < |s| && s[p] == r[i];
      var q :| 0 <= q < |s| && s[q] == r[j];
      assert p != q;
    }
  }
}
