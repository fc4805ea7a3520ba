/**
 * A worked four-city instance of the exhaustive engine: the first three
 * arrangements the generator produces, their cycle costs, and the tour the
 * engine keeps.
 */
module FourCityExample {
  import opened Tours
  import opened Sjt
  import opened CheapestTour

  /** A symmetric four-city cost matrix. */
  function Matrix(): (m: seq<seq<int>>)
    ensures IsSquare(m, 4)
  {
    [[0, 10, 15, 20], [10, 0, 35, 25], [15, 35, 0, 30], [20, 25, 30, 0]]
  }

  /** The generator's first three arrangements, none of them stuck. */
  lemma ExampleStates()
    ensures State(4, 0).p == [0, 1, 2, 3] && HasMobile(State(4, 0), 4)
    ensures State(4, 1).p == [0, 1, 3, 2] && HasMobile(State(4, 1), 4)
    ensures State(4, 2).p == [0, 3, 1, 2] && HasMobile(State(4, 2), 4)
  {
    var s0 := State(4, 0);
    assert s0 == Arrangement([0, 1, 2, 3], [Left, Left, Left, Left]);
    assert Mobile(s0, 4, 3);
    assert LargestMobile(s0, 4) == (3, 3);
    var s1 := State(4, 1);
    assert s1 == Arrangement([0, 1, 3, 2], [Left, Left, Left, Left]);
    assert Mobile(s1, 4, 2);
    assert LargestMobile(s1, 4) == (3, 2);
    var s2 := State(4, 2);
    assert s2 == Arrangement([0, 3, 1, 2], [Left, Left, Left, Left]);
    assert Mobile(s2, 4, 3);
  }

  /** The cost of a closed four-city cycle over the example matrix is the sum of its four legs. */
  lemma CycleCost4(p: seq<int>)
    requires |p| == 4 && InRange(p, 4)
    ensures InRange(Closed(p), 4)
    ensures PathCost(Matrix(), 4, Closed(p)) == Matrix()[p[0]][p[1]] + Matrix()[p[1]][p[2]] + Matrix()[p[2]][p[3]] + Matrix()[p[3]][p[0]]
  {
    var q := Closed(p);
    assert q[..1] == [p[0]];
    PathCostPrefix(Matrix(), 4, q, 1);
    PathCostPrefix(Matrix(), 4, q, 2);
    PathCostPrefix(Matrix(), 4, q, 3);
    PathCostPrefix(Matrix(), 4, q, 4);
    assert q[..5] == q;
  }

  /** The three priced candidates: costs 95, 80 and 95. */
  lemma ExampleCandidates()
    ensures Priced(Matrix(), 4, 0) == TourResult(95, [0, 1, 2, 3])
    ensures Priced(Matrix(), 4, 1) == TourResult(80, [0, 1, 3, 2])
    ensures Priced(Matrix(), 4, 2) == TourResult(95, [0, 3, 1, 2])
  {
    ExampleStates();
    CycleCost4([0, 1, 2, 3]);
    CycleCost4([0, 1, 3, 2]);
    CycleCost4([0, 3, 1, 2]);
  }

  /** The generator is not stuck during the (4-1)!/2 = 3 steps the engine takes. */
  lemma FourStuck()
    ensures NeverStuck(4, 3)
  {
    ExampleStates();
    forall k | 0 <= k < 3
      ensures HasMobile(State(4, k), 4)
    {
      if k == 0 {
      } else if k == 1 {
      } else {
        assert k == 2;
      }
    }
  }

  /** The retention rule keeps the second candidate, the only one of cost 80. */
  lemma FourBest()
    ensures Best(Candidates(Matrix(), 4, 3)) == TourResult(80, [0, 1, 3, 2])
  {
    var m := Matrix();
    ExampleCandidates();
    assert Candidates(m, 4, 0) == [];
    CandidatesGrow(m, 4, 0);
    BestAppend(Candidates(m, 4, 0), Priced(m, 4, 0));
    CandidatesGrow(m, 4, 1);
    BestAppend(Candidates(m, 4, 1), Priced(m, 4, 1));
    CandidatesGrow(m, 4, 2);
    BestAppend(Candidates(m, 4, 2), Priced(m, 4, 2));
  }

  /** On this matrix the exhaustive engine returns the cycle 0-1-3-2-0 of cost 80. */
  method FourCityRun() returns (r: TourResult)
    ensures r == TourResult(80, [0, 1, 3, 2, 0])
  {
    assert Fact(3) / 2 == 3;
    FourStuck();
    FourBest();
    r := GetOptimalTour(Matrix(), 4);
  }
}
