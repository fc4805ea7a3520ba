/**
 * Vocabulary shared by both tour builders: the cost matrix, the result record,
 * what a closed tour is, and the cost of a path read off the matrix.
 */
module Tours {

  /** The result record both engines return: a cost and the tour as a list of cities. */
  datatype TourResult = TourResult(cost: int, tour: seq<int>)

  /** `cities` is an n-by-n cost matrix (row `a`, column `b` is the cost from `a` to `b`). */
  predicate IsSquare(cities: seq<seq<int>>, n: int)
  {
    |cities| == n && forall a :: 0 <= a < n ==> |cities[a]| == n
  }

  /** Every element of `s` is a city in [0, n). */
  predicate InRange(s: seq<int>, n: int)
  {
    forall k :: 0 <= k < |s| ==> 0 <= s[k] < n
  }

  /** No city occurs twice in `s`. */
  predicate Distinct(s: seq<int>)
  {
    forall i, j :: 0 <= i < j < |s| ==> s[i] != s[j]
  }

  /** `s` lists every city 0..n-1 exactly once. */
  predicate IsPermutation(s: seq<int>, n: int)
  {
    |s| == n && InRange(s, n) && Distinct(s)
  }

  /** A closed tour over n cities: starts at city 0, visits every city once, and returns to 0. */
  predicate IsClosedTour(t: seq<int>, n: int)
  {
    0 <= n && |t| == n + 1 && IsPermutation(t[..n], n) && t[0] == 0 && t[n] == 0
  }

  /** The sum of the matrix entries between consecutive cities of `t`. */
  function PathCost(cities: seq<seq<int>>, n: int, t: seq<int>): int
    requires IsSquare(cities, n) && InRange(t, n)
  {
    if |t| <= 1 then 0
    else PathCost(cities, n, t[..|t| - 1]) + cities[t[|t| - 2]][t[|t| - 1]]
  }

  /** Extending a path by one city adds exactly the cost of the new leg. */
  lemma PathCostAppend(cities: seq<seq<int>>, n: int, t: seq<int>, x: int)
    requires IsSquare(cities, n) && InRange(t, n) && 0 <= x < n && |t| >= 1
    ensures InRange(t + [x], n)
    ensures PathCost(cities, n, t + [x]) == PathCost(cities, n, t) + cities[t[|t| - 1]][x]
  {
    var t' := t + [x];
    forall k | 0 <= k < |t'|
      ensures 0 <= t'[k] < n
    {
      if k < |t| {
        assert t'[k] == t[k];
      }
    }
    assert t'[..|t'| - 1] == t;
    assert t'[|t'| - 2] == t[|t| - 1] && t'[|t'| - 1] == x;
  }

  /** The cost of the first j+1 cities of a path is that of the first j plus the leg into city j. */
  lemma PathCostPrefix(cities: seq<seq<int>>, n: int, t: seq<int>, j: int)
    requires IsSquare(cities, n) && InRange(t, n) && 1 <= j < |t|
    ensures PathCost(cities, n, t[..j + 1]) == PathCost(cities, n, t[..j]) + cities[t[j - 1]][t[j]]
  {
    assert t[..j + 1][..j] == t[..j];
  }

  /** No cost in the matrix is negative. */
  predicate NonNegative(cities: seq<seq<int>>, n: int)
    requires IsSquare(cities, n)
  {
    forall a, b :: 0 <= a < n && 0 <= b < n ==> cities[a][b] >= 0
  }

  /** Over a matrix without negative costs every path costs at least 0. */
  lemma {:induction false} PathCostNonNegative(cities: seq<seq<int>>, n: int, t: seq<int>)
    requires IsSquare(cities, n) && InRange(t, n) && NonNegative(cities, n)
    ensures PathCost(cities, n, t) >= 0
  {
    if |t| > 1 {
      PathCostNonNegative(cities, n, t[..|t| - 1]);
    }
  }

  /** The set of cities 0..n-1. */
  function Cities(n: nat): (s: set<int>)
    ensures forall x :: x in s <==> 0 <= x < n
    ensures |s| == n
  {
    if n == 0 then {} else Cities(n - 1) + {n - 1}
  }

  /** A list without repeats has as many distinct elements as entries. */
  lemma {:induction false} DistinctSize(s: seq<int>)
    requires Distinct(s)
    ensures |set x | x in s| == |s|
  {
    if s != [] {
      var init := s[..|s| - 1];
      DistinctSize(init);
      assert (set x | x in s) == (set x | x in init) + {s[|s| - 1]};
      assert s[|s| - 1] !in init;
    }
  }

  /**
   * Pigeonhole: a repeat-free list of cities from [0, n) has at most n entries,
   * and it has exactly n entries precisely when it names every city.
   */
  lemma Pigeonhole(s: seq<int>, n: nat)
    requires Distinct(s) && InRange(s, n)
    ensures |s| <= n
    ensures |s| == n <==> forall x :: 0 <= x < n ==> x in s
  {
    var elems := set x | x in s;
    DistinctSize(s);
    assert elems <= Cities(n);
    assert |Cities(n) - elems| + |elems| == |Cities(n)|;
    if |s| == n {
      assert Cities(n) - elems == {};
      forall x | 0 <= x < n ensures x in s {
        assert x in Cities(n) && x !in Cities(n) - elems;
      }
    }
    if forall x :: 0 <= x < n ==> x in s {
      assert Cities(n) == elems;
    }
  }
}
