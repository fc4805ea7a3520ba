/**
 * A worked three-city instance of the approximate tour builder: the tree
 * Prim's loop grows, the trail the depth-first walk leaves, and the tour and
 * cost the builder returns. The matrix is not symmetric, so the direction in
 * which the tour is written shows in its cost.
 */
module ThreeCityExample {
  import opened Tours
  import opened HeuristicTour

  /** A three-city cost matrix with every off-diagonal entry non-zero. */
  function Matrix(): (m: seq<seq<int>>)
    ensures IsSquare(m, 3)
  {
    [[0, 1, 2], [1, 0, 9], [2, 3, 0]]
  }

  /** The tree: city 1 joins over the cost-1 edge from 0, then city 2 over the cost-2 edge from 0. */
  function Tree(): seq<Edge>
  {
    [Edge(0, 1, 1), Edge(0, 2, 2)]
  }

  /** Round 1: from [0] the cheapest edge is 0-1 at cost 1. */
  lemma FirstRound()
    ensures CheapestAt(Matrix(), 3, [0], Edge(0, 1, 1), 0)
  {
    var m := Matrix();
    forall k, j | 0 <= k < 1 && 0 <= j < 3 && Candidate(m, 3, [0], k, j)
      ensures 1 <= m[[0][k]][j]
    {
      assert j == 1 || j == 2;
    }
  }

  /** Round 2: from [0, 1] the cheapest edge is 0-2 at cost 2, which beats 1-2 at cost 9. */
  lemma SecondRound()
    ensures CheapestAt(Matrix(), 3, [0, 1], Edge(0, 2, 2), 0)
  {
    var m := Matrix();
    forall k, j | 0 <= k < 2 && 0 <= j < 3 && Candidate(m, 3, [0, 1], k, j)
      ensures j == 2 && 2 <= m[[0, 1][k]][j]
    {
      assert j != 0 && j != 1;
    }
  }

  /** Prim's loop grows exactly this tree, including the cities in the order 0, 1, 2. */
  lemma ExampleTree()
    ensures PrimTree(Matrix(), 3, [0, 1, 2], Tree())
  {
    var m, included, edges := Matrix(), [0, 1, 2], Tree();
    assert InRange(included, 3) && Distinct(included);
    forall k | 0 <= k < 2
      ensures edges[k].city2 == included[k + 1] && edges[k].city1 in included[..k + 1]
      ensures GreedyChoice(m, 3, included[..k + 1], edges[k])
    {
      if k == 0 {
        FirstRound();
        assert included[..1] == [0];
        assert CheapestAt(m, 3, [0], edges[0], 0);
      } else {
        SecondRound();
        assert included[..2] == [0, 1];
        assert CheapestAt(m, 3, [0, 1], edges[1], 0);
      }
    }
  }

  /** The tree joins 0 with 1 and 0 with 2, and nothing else. */
  lemma ExampleMatrix()
    ensures TreeMatrix(Tree(), 3) == [[false, true, true], [true, false, false], [true, false, false]]
  {
    var t := Tree();
    var adj := TreeMatrix(t, 3);
    assert Joins(t[0], 0, 1) && Joins(t[0], 1, 0) && Joins(t[1], 0, 2) && Joins(t[1], 2, 0);
    assert adj[0] == [false, true, true];
    assert adj[1] == [true, false, false];
    assert adj[2] == [true, false, false];
  }

  /**
   * The walk from 0 enters 1, returns to 0, enters 2 and returns to 0: neighbour
   * 1 is tried before neighbour 2.
   */
  lemma ExampleWalk()
    ensures TreeWalk(Tree(), 3) == [0, 1, 0, 2, 0]
  {
    var adj := [[false, true, true], [true, false, false], [true, false, false]];
    ExampleMatrix();
    var v1, v2, v3 := [true, false, false], [true, true, false], [true, true, true];
    assert ChildrenRun(adj, v3, 2, 0) == Run([], v3);
    assert v2[2 := true] == v3;
    assert DfsRun(adj, v2, 2) == Run([2], v3);
    assert ChildrenRun(adj, v3, 0, 3) == Run([], v3);
    assert ChildrenRun(adj, v2, 0, 2) == Run([2, 0], v3);
    assert ChildrenRun(adj, v2, 1, 0) == Run([], v2);
    assert v1[1 := true] == v2;
    assert DfsRun(adj, v1, 1) == Run([1], v2);
    assert ChildrenRun(adj, v1, 0, 1) == Run([1, 0, 2, 0], v3);
    assert ChildrenRun(adj, v1, 0, 0) == Run([1, 0, 2, 0], v3);
    assert Unmarked(3) == [false, false, false] && Unmarked(3)[0 := true] == v1;
    assert DfsRun(adj, Unmarked(3), 0) == Run([0, 1, 0, 2, 0], v3);
  }

  /** Shortcutting that walk keeps its first visits 0, 1, 2 and closes the tour at 0. */
  lemma ExampleShortcut()
    ensures Shortcut([0, 1, 0, 2, 0]) == [0, 1, 2, 0]
  {
    var w := [0, 1, 0, 2, 0];
    assert w[..4] == [0, 1, 0] + [2];
    assert [0, 1, 0] == [0, 1] + [0] && [0, 1] == [0] + [1] && [0] == [] + [0];
    DedupAppend([], 0);
    DedupAppend([0], 1);
    DedupAppend([0, 1], 0);
    DedupAppend([0, 1, 0], 2);
  }

  /** The tour 0-1-2-0 costs 1 + 9 + 2 on the example matrix. */
  lemma ExampleCost()
    ensures InRange([0, 1, 2, 0], 3) && PathCost(Matrix(), 3, [0, 1, 2, 0]) == 12
  {
    var m := Matrix();
    PathCostAppend(m, 3, [0], 1);
    PathCostAppend(m, 3, [0, 1], 2);
    PathCostAppend(m, 3, [0, 1, 2], 0);
    assert [0] + [1] == [0, 1] && [0, 1] + [2] == [0, 1, 2] && [0, 1, 2] + [0] == [0, 1, 2, 0];
  }

  /**
   * On this matrix the approximate builder returns the tour 0-1-2-0 at cost 12:
   * its contract leaves no other outcome.
   */
  method ThreeCityRun() returns (r: TourResult)
    ensures r == TourResult(12, [0, 1, 2, 0])
  {
    var m := Matrix();
    ghost var edges, walk;
    r, edges, walk := GetHeuristicTour(m, 3);
    ghost var included :| PrimTree(m, 3, included, edges) && IsPermutation(included, 3);
    ExampleTree();
    PrimTreeUnique(m, 3, included, edges, [0, 1, 2], Tree());
    ExampleWalk();
    ExampleShortcut();
    ExampleCost();
  }
}
