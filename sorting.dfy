/** Ordering of query results. Every `ORDER BY` of the handlers and every
    comparator given to `Array.prototype.sort` by the components orders by one
    integer key, ascending or descending; a descending key is the ascending
    order of its negation. The sort is a stable insertion sort. */
module Sorting {

  /** `s` is ordered by ascending `rank`. */
  predicate SortedBy<T>(s: seq<T>, rank: T -> int)
  {
    forall i, j :: 0 <= i < j < |s| ==> rank(s[i]) <= rank(s[j])
  }

  /** Places `x` in front of the first element whose rank is not smaller. */
  function Insert<T>(x: T, s: seq<T>, rank: T -> int): (r: seq<T>)
    requires SortedBy(s, rank)
    ensures |r| == |s| + 1
    ensures SortedBy(r, rank)
    ensures multiset(r) == multiset(s) + multiset{x}
  {
    if s == [] || rank(x) <= rank(s[0]) then [x] + s
    else
      var rest := Insert(x, s[1..], rank);
      assert s == [s[0]] + s[1..];
      forall k | 0 <= k < |rest| ensures rank(s[0]) <= rank(rest[k]) {
        HeadBelowRest(x, s, rank, rest[k]);
      }
      ConsSorted(s[0], rest, rank);
      [s[0]] + rest
  }

  /** In an ordered sequence, the head's rank bounds every element of the
      tail and any element of higher rank. */
  lemma HeadBelowRest<T>(x: T, s: seq<T>, rank: T -> int, y: T)
    requires SortedBy(s, rank) && s != [] && rank(s[0]) < rank(x)
    requires y in multiset(s[1..]) + multiset{x}
    ensures rank(s[0]) <= rank(y)
  {
    if y != x {
      assert y in multiset(s[1..]);
      var j :| 0 <= j < |s[1..]| && s[1..][j] == y;
      assert s[j + 1] == y;
    }
  }

  /** An element ranked no higher than an ordered sequence goes in front of it. */
  lemma ConsSorted<T>(h: T, rest: seq<T>, rank: T -> int)
    requires SortedBy(rest, rank)
    requires forall k :: 0 <= k < |rest| ==> rank(h) <= rank(rest[k])
    ensures SortedBy([h] + rest, rank)
  {
    var r := [h] + rest;
    forall i, j | 0 <= i < j < |r| ensures rank(r[i]) <= rank(r[j]) {
      assert r[j] == rest[j - 1];
      if i > 0 {
        assert r[i] == rest[i - 1];
      }
    }
  }

  /** A permutation of `s` ordered by ascending `rank`. */
  function SortBy<T>(s: seq<T>, rank: T -> int): (r: seq<T>)
    ensures |r| == |s|
    ensures SortedBy(r, rank)
    ensures multiset(r) == multiset(s)
    ensures forall i :: 0 <= i < |r| ==> r[i] in multiset(s)
  {
    if s == [] then []
    else
      assert s == [s[0]] + s[1..];
      Insert(s[0], SortBy(s[1..], rank), rank)
  }

  /** Sorting keeps exactly the elements of the input. */
  lemma SortByMembers<T>(s: seq<T>, rank: T -> int)
    ensures forall x :: x in SortBy(s, rank) <==> x in s
  {
    var r := SortBy(s, rank);
    forall x ensures x in r <==> x in s {
      assert x in r <==> x in multiset(r);
      assert x in s <==> x in multiset(s);
    }
  }

  /** Sorting an already ordered sequence leaves it as it is. */
  lemma {:induction false} SortBySorted<T>(s: seq<T>, rank: T -> int)
    requires SortedBy(s, rank)
    ensures SortBy(s, rank) == s
    decreases |s|
  {
    if s != [] {
      SortBySorted(s[1..], rank);
    }
  }

  /** The first `n` elements, or all of them when there are fewer (SQL `LIMIT`). */
  function Take<T>(s: seq<T>, n: nat): (r: seq<T>)
    ensures |r| == if |s| <= n then |s| else n
    ensures |s| <= n ==> r == s
    ensures r == s[..|r|]
  {
    if |s| <= n then s else s[..n]
  }

  /** Taking from an ordered sequence keeps the best-ranked elements: whatever
      is left off ranks no lower than anything taken. */
  lemma TakeIsTop<T>(s: seq<T>, n: nat, rank: T -> int, q: T)
    requires SortedBy(s, rank)
    requires q in multiset(s) - multiset(Take(s, n))
    ensures multiset(Take(s, n)) <= multiset(s)
    ensures forall p :: p in Take(s, n) ==> rank(p) <= rank(q)
  {
    var m := |Take(s, n)|;
    assert s == s[..m] + s[m..];
    assert multiset(s) == multiset(s[..m]) + multiset(s[m..]);
    assert q in multiset(s[m..]);
    var j :| 0 <= j < |s[m..]| && s[m..][j] == q;
    forall p | p in Take(s, n) ensures rank(p) <= rank(q) {
      var i :| 0 <= i < m && s[i] == p;
      assert s[m + j] == q;
    }
  }

  lemma TakeSorted<T>(s: seq<T>, n: nat, rank: T -> int)
    requires SortedBy(s, rank)
    ensures SortedBy(Take(s, n), rank)
  {
  }
}
