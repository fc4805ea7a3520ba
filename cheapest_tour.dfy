/**
 * The exhaustive tour builder: with city 0 pinned at the start, it walks
 * through (n-1)!/2 permutations produced by the Steinhaus-Johnson-Trotter
 * generator, prices each as a closed cycle, and keeps the first cheapest one.
 * A kept cost of 0 (INFINITE) counts as "nothing kept yet".
 */
module CheapestTour {
  import opened Tours
  import opened Sjt

  /** The cost that marks "no tour kept yet". */
  const Infinite := 0

  /** The largest value of a 32-bit signed `int`. */
  const IntMax := 2147483647

  /** n!, with 1 for every n <= 1. */
  function Fact(n: int): (r: int)
    ensures r >= 1
  {
    if n <= 1 then 1 else n * Fact(n - 1)
  }

  /** n! is at least (n-1)!. */
  lemma FactStep(n: int)
    requires n >= 2
    ensures Fact(n - 1) <= Fact(n)
  {
    var f := Fact(n - 1);
    assert Fact(n) == f + (n - 1) * f;
  }

  /** The factorial grows with its argument. */
  lemma {:induction false} FactMonotone(a: int, b: int)
    requires a <= b
    ensures Fact(a) <= Fact(b)
  {
    if a < b && b > 1 {
      FactMonotone(a, b - 1);
      FactStep(b);
    }
  }

  /** 12! is the largest factorial that fits in a 32-bit `int`. */
  lemma FactFitsUpTo12()
    ensures Fact(12) <= IntMax < Fact(13)
  {
    assert Fact(12) == 479001600;
    assert Fact(13) == 6227020800;
  }

  /** The accumulator loop computing n!; for n <= 12 no intermediate product overflows a 32-bit `int`. */
  method Factorial(n: int) returns (r: int)
    requires n <= 12
    ensures r == Fact(n) && r <= IntMax
  {
    FactFitsUpTo12();
    r := 1;
    var i := 2;
    while i <= n
      invariant 2 <= i && (i <= n + 1 || i == 2)
      invariant r == Fact(i - 1)
    {
      FactMonotone(i, 12);
      r := r * i;
      i := i + 1;
    }
  }

  /** The cycle that leaves from the first city of `p`, visits the rest in order and returns. */
  function Closed(p: seq<int>): seq<int>
    requires |p| >= 1
  {
    p + [p[0]]
  }

  /** Price the permutation in `p` as a closed cycle: position j is followed by j+1, and the last by position 0. */
  method CycleCost(cities: seq<seq<int>>, n: int, p: array<int>) returns (cost: int)
    requires n >= 1 && IsSquare(cities, n) && p.Length == n && InRange(p[..], n)
    ensures InRange(Closed(p[..]), n) && cost == PathCost(cities, n, Closed(p[..]))
  {
    ghost var q := Closed(p[..]);
    assert InRange(q, n);
    cost := 0;
    for j := 0 to n
      invariant cost == PathCost(cities, n, q[..j + 1])
    {
      var next := if j < n - 1 then j + 1 else 0;
      assert q[j] == p[j] && q[j + 1] == p[next];
      PathCostPrefix(cities, n, q, j + 1);
      cost := cost + cities[p[j]][p[next]];
    }
    assert q[..n + 1] == q;
  }

  /**
   * One retention step: the candidate replaces the kept result when it is
   * strictly cheaper or when the kept cost is INFINITE.
   */
  function Keep(kept: TourResult, c: TourResult): (r: TourResult)
    ensures r == kept || r == c
    ensures kept.cost == Infinite ==> r == c
    ensures kept.cost != Infinite ==> r.cost <= kept.cost && (c.cost >= kept.cost ==> r == kept)
  {
    if c.cost < kept.cost || kept.cost == Infinite then c else kept
  }

  /** What the search holds after pricing the candidates in order; before any candidate the tour is empty. */
  function Best(cands: seq<TourResult>): (r: TourResult)
    ensures cands == [] ==> r.tour == []
    ensures cands != [] ==> r.cost <= cands[|cands| - 1].cost
  {
    if cands == [] then TourResult(Infinite, [])
    else Keep(Best(cands[..|cands| - 1]), cands[|cands| - 1])
  }

  /** Pricing one more candidate is one more retention step. */
  lemma BestAppend(cands: seq<TourResult>, c: TourResult)
    ensures Best(cands + [c]) == Keep(Best(cands), c)
  {
    assert (cands + [c])[..|cands|] == cands;
  }

  /** After at least one candidate, the kept result is one of the candidates. */
  lemma {:induction false} BestIsCandidate(cands: seq<TourResult>)
    requires |cands| >= 1
    ensures Best(cands) in cands
  {
    var init := cands[..|cands| - 1];
    if |cands| > 1 {
      BestIsCandidate(init);
      assert Best(init) in init;
    }
  }

  /** Candidate j is the first cheapest of `cands`, and it is what the search keeps. */
  predicate FirstCheapest(cands: seq<TourResult>, j: int)
  {
    && 0 <= j < |cands|
    && Best(cands) == cands[j]
    && (forall i :: 0 <= i < |cands| ==> cands[j].cost <= cands[i].cost)
    && (forall i :: 0 <= i < j ==> cands[j].cost < cands[i].cost)
  }

  /**
   * When no candidate costs 0, the search keeps the first candidate of
   * minimum cost: ties go to the earlier one because of the strict `<`.
   */
  lemma {:induction false} BestIsFirstCheapest(cands: seq<TourResult>)
    requires |cands| >= 1
    requires forall i :: 0 <= i < |cands| ==> cands[i].cost != Infinite
    ensures exists j :: FirstCheapest(cands, j)
  {
    var k := |cands|;
    var init := cands[..k - 1];
    if k == 1 {
      assert FirstCheapest(cands, 0);
    } else {
      BestIsFirstCheapest(init);
      var j :| FirstCheapest(init, j);
      assert init[j] == cands[j];
      if cands[k - 1].cost < cands[j].cost {
        assert FirstCheapest(cands, k - 1);
      } else {
        assert FirstCheapest(cands, j);
      }
    }
  }

  /**
   * Because a kept cost of 0 reads as "nothing kept", a candidate that costs 0
   * is kept when no cost is negative, and the very next candidate replaces it
   * whatever it costs.
   */
  lemma ZeroCostIsOverwritten(cands: seq<TourResult>, zero: TourResult, next: TourResult)
    requires forall i :: 0 <= i < |cands| ==> cands[i].cost >= 0
    requires zero.cost == 0
    ensures Best(cands + [zero]) == zero
    ensures Best(cands + [zero] + [next]) == next
  {
    if cands != [] {
      BestIsCandidate(cands);
    }
    BestAppend(cands, zero);
    BestAppend(cands + [zero], next);
  }

  /** The k-th generated permutation, priced as a closed cycle. */
  function Priced(cities: seq<seq<int>>, n: int, k: nat): TourResult
    requires n >= 2 && IsSquare(cities, n)
  {
    TourResult(PathCost(cities, n, Closed(State(n, k).p)), State(n, k).p)
  }

  /** The first k generated permutations, priced, in generation order. */
  function Candidates(cities: seq<seq<int>>, n: int, k: nat): (r: seq<TourResult>)
    requires n >= 2 && IsSquare(cities, n)
  {
    seq(k, j requires 0 <= j < k => Priced(cities, n, j))
  }

  /** Generating one more permutation appends it, priced, to the candidate list. */
  lemma CandidatesGrow(cities: seq<seq<int>>, n: int, k: nat)
    requires n >= 2 && IsSquare(cities, n)
    ensures Candidates(cities, n, k + 1) == Candidates(cities, n, k) + [Priced(cities, n, k)]
  {
    var a := Candidates(cities, n, k + 1);
    var b := Candidates(cities, n, k) + [Priced(cities, n, k)];
    forall j | 0 <= j < k + 1
      ensures a[j] == b[j]
    {
      if j < k {
        assert b[j] == Candidates(cities, n, k)[j];
      }
    }
  }

  /** On a matrix without negative costs no priced candidate costs less than 0. */
  lemma CandidatesNonNegative(cities: seq<seq<int>>, n: int, k: nat)
    requires n >= 2 && IsSquare(cities, n) && NonNegative(cities, n)
    ensures forall i :: 0 <= i < k ==> Candidates(cities, n, k)[i].cost >= 0
  {
    forall i | 0 <= i < k
      ensures Candidates(cities, n, k)[i].cost >= 0
    {
      var t := Closed(State(n, i).p);
      PathCostNonNegative(cities, n, t);
      assert Candidates(cities, n, k)[i].cost == PathCost(cities, n, t);
    }
  }

  /**
   * On a matrix without negative costs, an arrangement whose cycle costs 0 is
   * kept when it is priced, and the search drops it for the very next
   * arrangement, whatever that one costs.
   */
  lemma ZeroPricedIsOverwritten(cities: seq<seq<int>>, n: int, k: nat)
    requires n >= 2 && IsSquare(cities, n) && NonNegative(cities, n)
    requires Priced(cities, n, k).cost == 0
    ensures Best(Candidates(cities, n, k + 1)) == Priced(cities, n, k)
    ensures Best(Candidates(cities, n, k + 2)) == Priced(cities, n, k + 1)
  {
    var cands := Candidates(cities, n, k);
    CandidatesNonNegative(cities, n, k);
    CandidatesGrow(cities, n, k);
    CandidatesGrow(cities, n, k + 1);
    ZeroCostIsOverwritten(cands, Priced(cities, n, k), Priced(cities, n, k + 1));
  }

  /**
   * After at least one candidate the search holds a permutation of the cities
   * starting at city 0, together with the cost of its closed cycle.
   */
  lemma KeptIsClosedTour(cities: seq<seq<int>>, n: int, k: nat)
    requires n >= 2 && IsSquare(cities, n) && k >= 1
    ensures var b := Best(Candidates(cities, n, k));
            IsPermutation(b.tour, n) && b.tour[0] == 0 && b.cost == PathCost(cities, n, Closed(b.tour))
  {
    var cands := Candidates(cities, n, k);
    BestIsCandidate(cands);
    var j :| 0 <= j < k && cands[j] == Best(cands);
    StateValid(n, j);
  }

  /**
   * Repeating the first city after a kept permutation that starts at city 0
   * gives a closed tour whose cost is the kept cost.
   */
  lemma ClosingKeptTour(cities: seq<seq<int>>, n: int, kept: TourResult, tour: seq<int>)
    requires n >= 2 && IsSquare(cities, n)
    requires IsPermutation(kept.tour, n) && kept.tour[0] == 0 && kept.cost == PathCost(cities, n, Closed(kept.tour))
    requires |tour| == n + 1 && tour[..n] == kept.tour && tour[n] == tour[0]
    ensures tour == kept.tour + [0]
    ensures IsClosedTour(tour, n) && kept.cost == PathCost(cities, n, tour)
  {
    assert tour == tour[..n] + [tour[n]];
  }

  /** Copy the permutation into the first n entries of the result tour. */
  method CopyTour(p: array<int>, tour: array<int>)
    requires tour.Length == p.Length + 1 && p != tour
    modifies tour
    ensures tour[..p.Length] == p[..]
    ensures tour[p.Length] == old(tour[p.Length])
  {
    for j := 0 to p.Length
      invariant tour[..j] == p[..j]
      invariant tour[p.Length] == old(tour[p.Length])
    {
      tour[j] := p[j];
    }
  }

  /** The state the search is about to price still has a mobile value. */
  lemma NotStuckAt(n: int, count: int, i: int)
    requires n >= 2 && NeverStuck(n, count) && 0 <= i < count
    ensures HasMobile(State(n, i), n)
  {
  }

  /**
   * One round of the search: price the current permutation as a closed
   * cycle, keep it if it is cheaper (or nothing is kept), and advance the
   * generator.
   */
  method PriceAndAdvance(cities: seq<seq<int>>, n: int, p: array<int>, d: array<int>, tour: array<int>,
                         cost: int, ghost i: nat) returns (cost': int)
    requires n >= 2 && IsSquare(cities, n)
    requires p.Length == n && d.Length == n && tour.Length == n + 1 && p != d && tour != p && tour != d
    requires Arrangement(p[..], d[..]) == State(n, i) && HasMobile(State(n, i), n)
    requires cost == Best(Candidates(cities, n, i)).cost
    requires i >= 1 ==> tour[..n] == Best(Candidates(cities, n, i)).tour
    modifies p, d, tour
    ensures Arrangement(p[..], d[..]) == State(n, i + 1)
    ensures cost' == Best(Candidates(cities, n, i + 1)).cost
    ensures tour[..n] == Best(Candidates(cities, n, i + 1)).tour
    ensures tour[n] == old(tour[n])
  {
    ghost var s := State(n, i);
    StateValid(n, i);
    var c := CycleCost(cities, n, p);
    assert Priced(cities, n, i) == TourResult(c, p[..]);
    CandidatesGrow(cities, n, i);
    BestAppend(Candidates(cities, n, i), Priced(cities, n, i));
    cost' := cost;
    if c < cost || cost == Infinite {
      cost' := c;
      CopyTour(p, tour);
    }
    assert Arrangement(p[..], d[..]) == s;
    Advance(p, d, n);
  }

  /**
   * The enumeration loop for a given number of arrangements: start from the
   * initial arrangement, price each one, keep the cheapest under the retention
   * rule, advance, and finally close the kept tour by repeating its first city.
   */
  method SearchArrangements(cities: seq<seq<int>>, n: int, count: int) returns (r: TourResult)
    requires 3 <= n && IsSquare(cities, n) && 1 <= count && NeverStuck(n, count)
    ensures r.cost == Best(Candidates(cities, n, count)).cost
    ensures r.tour == Best(Candidates(cities, n, count)).tour + [0]
    ensures IsClosedTour(r.tour, n) && r.cost == PathCost(cities, n, r.tour)
  {
    var p := new int[n];
    var d := new int[n];
    InitArrangement(p, d, n);

    var cost := Infinite;
    var tour := new int[n + 1];
    for i := 0 to count
      invariant Arrangement(p[..], d[..]) == State(n, i)
      invariant cost == Best(Candidates(cities, n, i)).cost
      invariant i >= 1 ==> tour[..n] == Best(Candidates(cities, n, i)).tour
    {
      NotStuckAt(n, count, i);
      cost := PriceAndAdvance(cities, n, p, d, tour, cost, i);
    }

    ghost var kept := Best(Candidates(cities, n, count));
    KeptIsClosedTour(cities, n, count);
    ghost var prefix := tour[..n];
    tour[n] := tour[0];
    assert tour[..n] == prefix;
    r := TourResult(cost, tour[..]);
    ClosingKeptTour(cities, n, kept, r.tour);
  }

  /**
   * The exhaustive engine: (n-1)!/2 arrangements are priced, and the result is
   * the one the retention rule keeps, closed back to city 0.
   */
  method GetOptimalTour(cities: seq<seq<int>>, n: int) returns (r: TourResult)
    requires 3 <= n <= 13 && IsSquare(cities, n) && NeverStuck(n, Fact(n - 1) / 2)
    ensures r.cost == Best(Candidates(cities, n, Fact(n - 1) / 2)).cost
    ensures r.tour == Best(Candidates(cities, n, Fact(n - 1) / 2)).tour + [0]
    ensures IsClosedTour(r.tour, n) && r.cost == PathCost(cities, n, r.tour)
  {
    var nrPerm := Factorial(n - 1);
    nrPerm := nrPerm / 2;
    FactMonotone(2, n - 1);
    assert nrPerm == Fact(n - 1) / 2 && nrPerm >= 1;
    r := SearchArrangements(cities, n, nrPerm);
  }
}
