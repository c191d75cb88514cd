/**
 * Python's `sorted(xs, key=...)`: a stable sort. Keys are `Rank`s, a real number
 * or `float("inf")`; `SortBy` is an insertion sort that places each element after
 * every earlier element of no greater rank.
 */
module StableSort {

  /** A sort key: a finite real, or positive infinity. */
  datatype Rank = Fin(v: real) | PosInf

  /** `a <= b` on ranks; a total preorder. */
  predicate RankLe(a: Rank, b: Rank) {
    b.PosInf? || (a.Fin? && a.v <= b.v)
  }

  /** Ascending by rank. */
  ghost predicate Sorted<T>(s: seq<T>, rank: T -> Rank) {
    forall i, j :: 0 <= i < j < |s| ==> RankLe(rank(s[i]), rank(s[j]))
  }

  /** The elements of `s` whose rank is `k`, in their order in `s`. */
  function WithRank<T>(s: seq<T>, rank: T -> Rank, k: Rank): seq<T> {
    if s == [] then []
    else (if rank(s[0]) == k then [s[0]] else []) + WithRank(s[1..], rank, k)
  }

  lemma {:induction false} WithRankAppend<T>(a: seq<T>, b: seq<T>, rank: T -> Rank, k: Rank)
    ensures WithRank(a + b, rank, k) == WithRank(a, rank, k) + WithRank(b, rank, k)
  {
    if a == [] {
      assert a + b == b;
    } else {
      var head := if rank(a[0]) == k then [a[0]] else [];
      calc {
        WithRank(a + b, rank, k);
        { assert (a + b)[0] == a[0]; }
        head + WithRank((a + b)[1..], rank, k);
        { assert (a + b)[1..] == a[1..] + b; }
        head + WithRank(a[1..] + b, rank, k);
        { WithRankAppend(a[1..], b, rank, k); }
        head + (WithRank(a[1..], rank, k) + WithRank(b, rank, k));
        (head + WithRank(a[1..], rank, k)) + WithRank(b, rank, k);
      }
    }
  }

  /** Inserts `x` into `s` just before the first element whose rank is larger than `x`'s. */
  function Insert<T>(x: T, s: seq<T>, rank: T -> Rank): seq<T> {
    if s == [] then [x]
    else if RankLe(rank(s[0]), rank(x)) then [s[0]] + Insert(x, s[1..], rank)
    else [x] + s
  }

  lemma {:induction false} InsertMultiset<T>(x: T, s: seq<T>, rank: T -> Rank)
    ensures multiset(Insert(x, s, rank)) == multiset(s) + multiset{x}
  {
    if s != [] && RankLe(rank(s[0]), rank(x)) {
      InsertMultiset(x, s[1..], rank);
      assert s == [s[0]] + s[1..];
    }
  }

  lemma {:induction false} InsertSorted<T>(x: T, s: seq<T>, rank: T -> Rank)
    requires Sorted(s, rank)
    ensures Sorted(Insert(x, s, rank), rank)
  {
    if s != [] && RankLe(rank(s[0]), rank(x)) {
      var t := Insert(x, s[1..], rank);
      InsertSorted(x, s[1..], rank);
      InsertMultiset(x, s[1..], rank);
      forall j | 0 <= j < |t| ensures RankLe(rank(s[0]), rank(t[j])) {
        assert t[j] in multiset(s[1..]) + multiset{x};
        if t[j] != x {
          assert t[j] in s[1..];
          var m :| 0 <= m < |s[1..]| && s[1..][m] == t[j];
          assert s[m + 1] == t[j];
        }
      }
    }
  }

  lemma {:induction false} InsertWithRank<T>(x: T, s: seq<T>, rank: T -> Rank, k: Rank)
    requires Sorted(s, rank)
    ensures WithRank(Insert(x, s, rank), rank, k) == WithRank(s, rank, k) + (if rank(x) == k then [x] else [])
  {
    if s == [] {
      assert WithRank([x], rank, k) == (if rank(x) == k then [x] else []) + WithRank([], rank, k);
    } else if RankLe(rank(s[0]), rank(x)) {
      InsertWithRank(x, s[1..], rank, k);
      WithRankAppend([s[0]], Insert(x, s[1..], rank), rank, k);
      WithRankAppend([s[0]], s[1..], rank, k);
      assert s == [s[0]] + s[1..];
    } else {
      WithRankAppend([x], s, rank, k);
      if rank(x) == k { NoneWithRank(s, rank, k); }
    }
  }

  /** No element of a sorted list whose head outranks `k` has rank `k`. */
  lemma {:induction false} NoneWithRank<T>(s: seq<T>, rank: T -> Rank, k: Rank)
    requires Sorted(s, rank) && s != [] && !RankLe(rank(s[0]), k)
    ensures WithRank(s, rank, k) == []
  {
    if |s| > 1 {
      assert !RankLe(rank(s[1]), k) by { assert RankLe(rank(s[0]), rank(s[1])); }
      NoneWithRank(s[1..], rank, k);
    }
  }

  /**
   * `sorted(s, key=rank)`: ascending by rank, a permutation of `s`, and stable:
   * the elements of any one rank appear in the same order as in `s`.
   */
  function SortBy<T>(s: seq<T>, rank: T -> Rank): (r: seq<T>)
    ensures Sorted(r, rank)
    ensures multiset(r) == multiset(s)
    ensures forall k :: WithRank(r, rank, k) == WithRank(s, rank, k)
  {
    if s == [] then []
    else
      var p, x := s[..|s| - 1], s[|s| - 1];
      var t := SortBy(p, rank);
      InsertSorted(x, t, rank);
      InsertMultiset(x, t, rank);
      assert forall k :: WithRank(Insert(x, t, rank), rank, k) == WithRank(t, rank, k) + (if rank(x) == k then [x] else []) by {
        forall k ensures WithRank(Insert(x, t, rank), rank, k) == WithRank(t, rank, k) + (if rank(x) == k then [x] else []) {
          InsertWithRank(x, t, rank, k);
        }
      }
      assert s == p + [x];
      assert forall k :: WithRank(s, rank, k) == WithRank(p, rank, k) + (if rank(x) == k then [x] else []) by {
        forall k ensures WithRank(s, rank, k) == WithRank(p, rank, k) + (if rank(x) == k then [x] else []) {
          WithRankAppend(p, [x], rank, k);
        }
      }
      Insert(x, t, rank)
  }
}
