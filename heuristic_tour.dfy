/**
 * The approximate tour builder: Prim's algorithm grows a spanning tree from
 * city 0, a depth-first walk of the tree records every city on entry and again
 * after each child returns, and the walk is shortcut to its first visits plus
 * the closing city. A matrix entry of 0 means "no edge".
 */
module HeuristicTour {
  import opened Tours

  /** The cost value that doubles as "no edge" and "no edge chosen yet". */
  const Infinite := 0

  /** A tree edge chosen by Prim's algorithm: from an included city to a new one. */
  datatype Edge = Edge(city1: int, city2: int, weight: int)

  /** Every pair of distinct cities is joined by an edge (a non-zero cost). */
  predicate AllConnected(cities: seq<seq<int>>, n: int)
    requires IsSquare(cities, n)
  {
    forall a, b :: 0 <= a < n && 0 <= b < n && a != b ==> cities[a][b] != Infinite
  }

  /**
   * Position (k, j) of the edge scan is a candidate: its destination `j` is not
   * yet included and the matrix has an edge from the k-th included city to it.
   */
  predicate Candidate(cities: seq<seq<int>>, n: int, included: seq<int>, k: int, j: int)
    requires IsSquare(cities, n) && InRange(included, n)
    requires 0 <= k < |included| && 0 <= j < n
  {
    j !in included && cities[included[k]][j] != Infinite
  }

  /** Scan position (k1, j1) comes before (k2, j2): included list in insertion order, then j ascending. */
  predicate ScannedBefore(k1: int, j1: int, k2: int, j2: int)
  {
    k1 < k2 || (k1 == k2 && j1 < j2)
  }

  /**
   * `e` is the edge the scan over `included` settles on, found at scan position
   * (pos, e.city2): a candidate of least cost, and the first such in scan order.
   */
  ghost predicate CheapestAt(cities: seq<seq<int>>, n: int, included: seq<int>, e: Edge, pos: int)
    requires IsSquare(cities, n) && InRange(included, n)
  {
    && 0 <= pos < |included| && 0 <= e.city2 < n
    && e.city1 == included[pos]
    && Candidate(cities, n, included, pos, e.city2)
    && e.weight == cities[e.city1][e.city2]
    && (forall k, j :: 0 <= k < |included| && 0 <= j < n && Candidate(cities, n, included, k, j) ==>
          e.weight <= cities[included[k]][j])
    && (forall k, j ::
          (0 <= k < |included| && 0 <= j < n && Candidate(cities, n, included, k, j) && ScannedBefore(k, j, pos, e.city2))
          ==> e.weight < cities[included[k]][j])
  }

  /** The linear search of the included list for city `j` (the inner `found` loop). */
  method Contains(included: seq<int>, j: int) returns (found: bool)
    ensures found <==> j in included
  {
    found := false;
    for k := 0 to |included|
      invariant found <==> j in included[..k]
    {
      assert included[..k + 1] == included[..k] + [included[k]];
      if included[k] == j {
        found := true;
      }
    }
    assert included[..|included|] == included;
  }

  /**
   * One round of Prim's algorithm: scan every included city's row for the
   * cheapest edge to a city not yet included. The weight stays `Infinite` exactly
   * when there is no such edge; otherwise the edge is the first cheapest one.
   */
  method CheapestEdge(cities: seq<seq<int>>, n: int, included: seq<int>) returns (e: Edge, ghost pos: int)
    requires IsSquare(cities, n) && InRange(included, n)
    ensures e.weight == Infinite <==>
      forall k, j :: 0 <= k < |included| && 0 <= j < n ==> !Candidate(cities, n, included, k, j)
    ensures e.weight != Infinite ==> CheapestAt(cities, n, included, e, pos)
  {
    e := Edge(0, 0, Infinite);
    pos := 0;
    for k := 0 to |included|
      invariant e.weight == Infinite ==>
        forall k', j' :: 0 <= k' < k && 0 <= j' < n ==> !Candidate(cities, n, included, k', j')
      invariant e.weight != Infinite ==> 0 <= pos < k && ScanPrefixBest(cities, n, included, e, pos, k, 0)
    {
      for j := 0 to n
        invariant e.weight == Infinite ==>
          forall k', j' :: 0 <= k' < |included| && 0 <= j' < n && ScannedBefore(k', j', k, j) ==>
            !Candidate(cities, n, included, k', j')
        invariant e.weight != Infinite ==> 0 <= pos <= k && ScanPrefixBest(cities, n, included, e, pos, k, j)
      {
        var city1 := included[k];
        if cities[city1][j] == Infinite {
          continue;
        }
        var found := Contains(included, j);
        if !found && (e.weight == Infinite || cities[city1][j] < e.weight) {
          e := Edge(city1, j, cities[city1][j]);
          pos := k;
        }
      }
    }
  }

  /**
   * The loop invariant of the scan: among the positions scanned before (k, j),
   * `e` found at (pos, e.city2) is a candidate, is cheapest, and is the first cheapest.
   */
  ghost predicate ScanPrefixBest(cities: seq<seq<int>>, n: int, included: seq<int>, e: Edge, pos: int, k: int, j: int)
    requires IsSquare(cities, n) && InRange(included, n)
  {
    && 0 <= pos < |included| && 0 <= e.city2 < n
    && ScannedBefore(pos, e.city2, k, j)
    && e.city1 == included[pos]
    && Candidate(cities, n, included, pos, e.city2)
    && e.weight == cities[e.city1][e.city2]
    && (forall k', j' ::
          (0 <= k' < |included| && 0 <= j' < n && ScannedBefore(k', j', k, j) && Candidate(cities, n, included, k', j'))
          ==> e.weight <= cities[included[k']][j'] && (ScannedBefore(k', j', pos, e.city2) ==> e.weight < cities[included[k']][j']))
  }

  // ---------------------------------------------------------------------------
  // Prim's algorithm: the included list and the tree adjacency matrix
  // ---------------------------------------------------------------------------

  /** Edge `e` joins cities `a` and `b`, in either direction. */
  predicate Joins(e: Edge, a: int, b: int)
  {
    (e.city1 == a && e.city2 == b) || (e.city1 == b && e.city2 == a)
  }

  /** Cities `a` and `b` are adjacent in the tree made of `edges`. */
  ghost predicate TreeAdj(edges: seq<Edge>, a: int, b: int)
  {
    exists k :: 0 <= k < |edges| && Joins(edges[k], a, b)
  }

  /**
   * The shape Prim's loop builds: the included list starts at city 0 and never
   * repeats a city, and the k-th tree edge is the greedy choice of round k + 1:
   * the cheapest edge (first in scan order) from the first k + 1 included cities
   * to the city included next.
   */
  ghost predicate PrimTree(cities: seq<seq<int>>, n: int, included: seq<int>, edges: seq<Edge>)
    requires IsSquare(cities, n)
  {
    && InRange(included, n)
    && |included| == |edges| + 1
    && included[0] == 0
    && Distinct(included)
    && forall k :: 0 <= k < |edges| ==>
         && edges[k].city2 == included[k + 1]
         && edges[k].city1 in included[..k + 1]
         && GreedyChoice(cities, n, included[..k + 1], edges[k])
  }

  /** `e` is the edge the scan over `included` settles on. */
  ghost predicate GreedyChoice(cities: seq<seq<int>>, n: int, included: seq<int>, e: Edge)
    requires IsSquare(cities, n) && InRange(included, n)
  {
    exists pos :: CheapestAt(cities, n, included, e, pos)
  }

  /** The adjacency matrix is its own transpose. */
  predicate Symmetric(g: array2<bool>)
    reads g
  {
    g.Length0 == g.Length1 &&
    forall a, b :: 0 <= a < g.Length0 && 0 <= b < g.Length0 ==> g[a, b] == g[b, a]
  }

  /** The tree matrix marks exactly the pairs joined by an edge of `edges`. */
  ghost predicate MarksTree(mst: array2<bool>, edges: seq<Edge>, n: int)
    reads mst
  {
    && mst.Length0 == n && mst.Length1 == n
    && forall a, b :: 0 <= a < n && 0 <= b < n ==> (mst[a, b] <==> TreeAdj(edges, a, b))
  }

  /**
   * Prim's loop: starting from the list [0], each of the n - 1 rounds appends the
   * city reached by the cheapest edge out of the included cities and marks that
   * edge in both directions of the all-zero tree matrix.
   */
  method BuildSpanningTree(cities: seq<seq<int>>, n: int) returns (included: seq<int>, mst: array2<bool>, ghost edges: seq<Edge>)
    requires n >= 1 && IsSquare(cities, n) && AllConnected(cities, n)
    ensures fresh(mst) && mst.Length0 == n && mst.Length1 == n
    ensures PrimTree(cities, n, included, edges) && |edges| == n - 1
    ensures IsPermutation(included, n)
    ensures MarksTree(mst, edges, n) && Symmetric(mst)
  {
    mst := new bool[n, n]((a, b) => false);
    included := [0];
    edges := [];
    for i := 1 to n
      invariant |included| == i
      invariant PrimTree(cities, n, included, edges)
      invariant MarksTree(mst, edges, n)
    {
      Pigeonhole(included, n);
      var x :| 0 <= x < n && x !in included;
      assert Candidate(cities, n, included, 0, x);
      var e;
      ghost var pos;
      e, pos := CheapestEdge(cities, n, included);
      PrimTreeExtend(cities, n, included, edges, e, pos);
      MarkEdge(mst, n, edges, e);
      included := included + [e.city2];
      edges := edges + [e];
    }
    Pigeonhole(included, n);
    MarksSymmetric(mst, edges, n);
  }

  /** Mark the new tree edge in both directions of the matrix. */
  method MarkEdge(mst: array2<bool>, n: int, ghost edges: seq<Edge>, e: Edge)
    requires MarksTree(mst, edges, n) && 0 <= e.city1 < n && 0 <= e.city2 < n
    modifies mst
    ensures MarksTree(mst, edges + [e], n)
  {
    mst[e.city1, e.city2] := true;
    mst[e.city2, e.city1] := true;
    forall a, b | 0 <= a < n && 0 <= b < n
      ensures mst[a, b] <==> TreeAdj(edges + [e], a, b)
    {
      TreeAdjAppend(edges, e, a, b);
    }
  }

  /** Adding an edge to the tree adds exactly the pair it joins to the adjacency. */
  lemma TreeAdjAppend(edges: seq<Edge>, e: Edge, a: int, b: int)
    ensures TreeAdj(edges + [e], a, b) <==> TreeAdj(edges, a, b) || Joins(e, a, b)
  {
    var edges' := edges + [e];
    if TreeAdj(edges, a, b) {
      var k :| 0 <= k < |edges| && Joins(edges[k], a, b);
      assert Joins(edges'[k], a, b);
    }
    if Joins(e, a, b) {
      assert Joins(edges'[|edges|], a, b);
    }
    if TreeAdj(edges', a, b) {
      var k :| 0 <= k < |edges'| && Joins(edges'[k], a, b);
      if k < |edges| {
        assert Joins(edges[k], a, b);
      }
    }
  }

  /** A matrix that marks the pairs joined by tree edges is symmetric, since joining has no direction. */
  lemma MarksSymmetric(mst: array2<bool>, edges: seq<Edge>, n: int)
    requires MarksTree(mst, edges, n)
    ensures Symmetric(mst)
  {
    forall a, b | 0 <= a < n && 0 <= b < n
      ensures mst[a, b] == mst[b, a]
    {
      if TreeAdj(edges, a, b) {
        var k :| 0 <= k < |edges| && Joins(edges[k], a, b);
        assert Joins(edges[k], b, a);
      }
    }
  }

  /** One Prim round keeps the shape: the greedy edge leads to a city not yet included. */
  lemma PrimTreeExtend(cities: seq<seq<int>>, n: int, included: seq<int>, edges: seq<Edge>, e: Edge, pos: int)
    requires IsSquare(cities, n) && PrimTree(cities, n, included, edges)
    requires CheapestAt(cities, n, included, e, pos)
    ensures PrimTree(cities, n, included + [e.city2], edges + [e])
  {
    var included', edges' := included + [e.city2], edges + [e];
    assert included'[..|included|] == included;
    forall k | 0 <= k < |edges'|
      ensures edges'[k].city2 == included'[k + 1]
      ensures edges'[k].city1 in included'[..k + 1]
      ensures GreedyChoice(cities, n, included'[..k + 1], edges'[k])
    {
      assert included'[..k + 1] == included[..k + 1];
      if k == |edges| {
        assert included[pos] in included;
      }
    }
  }

  /**
   * The tree has exactly n - 1 edges and no two of them join the same pair of
   * cities, nor does any edge join a city to itself.
   */
  lemma TreeEdgesDistinct(cities: seq<seq<int>>, n: int, included: seq<int>, edges: seq<Edge>)
    requires IsSquare(cities, n) && PrimTree(cities, n, included, edges) && |included| == n
    ensures |edges| == n - 1
    ensures forall k :: 0 <= k < |edges| ==> edges[k].city1 != edges[k].city2
    ensures forall k1, k2 :: 0 <= k1 < k2 < |edges| ==> !Joins(edges[k1], edges[k2].city1, edges[k2].city2)
  {
    forall k1, k2 | 0 <= k1 < k2 < |edges|
      ensures !Joins(edges[k1], edges[k2].city1, edges[k2].city2)
    {
      assert included[..k1 + 1] <= included[..k2 + 1];
      assert edges[k1].city2 in included[..k2 + 1];
      assert edges[k2].city2 !in included[..k2 + 1];
    }
  }

  /**
   * Every tree edge is a real edge of the matrix: its weight is the matrix cost
   * between its cities and is never the "no edge" value 0.
   */
  lemma TreeEdgesAreEdges(cities: seq<seq<int>>, n: int, included: seq<int>, edges: seq<Edge>)
    requires IsSquare(cities, n) && PrimTree(cities, n, included, edges)
    ensures forall k :: 0 <= k < |edges| ==>
      && 0 <= edges[k].city1 < n && 0 <= edges[k].city2 < n
      && edges[k].weight == cities[edges[k].city1][edges[k].city2] && edges[k].weight != Infinite
  {
    forall k | 0 <= k < |edges|
      ensures 0 <= edges[k].city1 < n && 0 <= edges[k].city2 < n
      ensures edges[k].weight == cities[edges[k].city1][edges[k].city2] && edges[k].weight != Infinite
    {
      var pos :| CheapestAt(cities, n, included[..k + 1], edges[k], pos);
    }
  }

  /**
   * Every tree edge leads from a city already included to the next included
   * city, so any set that holds city 0 and is closed under the tree edges holds
   * every included city: the tree is connected.
   */
  lemma {:induction false} TreeConnected(cities: seq<seq<int>>, n: int, included: seq<int>, edges: seq<Edge>, reached: set<int>, m: nat)
    requires IsSquare(cities, n) && PrimTree(cities, n, included, edges)
    requires 0 in reached
    requires forall k :: 0 <= k < |edges| && edges[k].city1 in reached ==> edges[k].city2 in reached
    requires m <= |included|
    ensures forall k :: 0 <= k < m ==> included[k] in reached
  {
    if m > 0 {
      TreeConnected(cities, n, included, edges, reached, m - 1);
      if m > 1 {
        var e := edges[m - 2];
        var j :| 0 <= j < m - 1 && included[..m - 1][j] == e.city1;
        assert included[j] in reached;
      }
    }
  }

  /**
   * The scan settles on one edge only: two edges that are each the first
   * cheapest candidate over the same included list are the same edge, found at
   * the same position.
   */
  lemma CheapestAtUnique(cities: seq<seq<int>>, n: int, included: seq<int>, e1: Edge, pos1: int, e2: Edge, pos2: int)
    requires IsSquare(cities, n) && InRange(included, n)
    requires CheapestAt(cities, n, included, e1, pos1) && CheapestAt(cities, n, included, e2, pos2)
    ensures e1 == e2 && pos1 == pos2
  {
    assert !ScannedBefore(pos1, e1.city2, pos2, e2.city2);
    assert !ScannedBefore(pos2, e2.city2, pos1, e1.city2);
  }

  /** Two greedy choices over the same included list are the same edge. */
  lemma GreedyAgrees(cities: seq<seq<int>>, n: int, included: seq<int>, e1: Edge, e2: Edge)
    requires IsSquare(cities, n) && InRange(included, n)
    requires GreedyChoice(cities, n, included, e1) && GreedyChoice(cities, n, included, e2)
    ensures e1 == e2
  {
    var pos1 :| CheapestAt(cities, n, included, e1, pos1);
    var pos2 :| CheapestAt(cities, n, included, e2, pos2);
    CheapestAtUnique(cities, n, included, e1, pos1, e2, pos2);
  }

  /**
   * Prim's loop has one outcome: two trees of the same size grown by the
   * greedy rule over the same matrix have the same edges and include the
   * cities in the same order.
   */
  lemma PrimTreeUnique(cities: seq<seq<int>>, n: int, included1: seq<int>, edges1: seq<Edge>,
                       included2: seq<int>, edges2: seq<Edge>)
    requires IsSquare(cities, n)
    requires PrimTree(cities, n, included1, edges1) && PrimTree(cities, n, included2, edges2)
    requires |edges1| == |edges2|
    ensures edges1 == edges2 && included1 == included2
  {
    PrimPrefixesAgree(cities, n, included1, edges1, included2, edges2, |edges1|);
  }

  /** The first m rounds of two greedy trees over the same matrix agree. */
  lemma {:induction false} PrimPrefixesAgree(cities: seq<seq<int>>, n: int, included1: seq<int>, edges1: seq<Edge>,
                                             included2: seq<int>, edges2: seq<Edge>, m: nat)
    requires IsSquare(cities, n)
    requires PrimTree(cities, n, included1, edges1) && PrimTree(cities, n, included2, edges2)
    requires m <= |edges1| && m <= |edges2|
    ensures forall j :: 0 <= j < m ==> edges1[j] == edges2[j]
    ensures forall j :: 0 <= j <= m ==> included1[j] == included2[j]
  {
    if m > 0 {
      PrimPrefixesAgree(cities, n, included1, edges1, included2, edges2, m - 1);
      assert included1[..m] == included2[..m];
      PrimRoundAgrees(cities, n, included1, edges1, included2, edges2, m - 1);
    }
  }

  /** Round k + 1 of two greedy trees that have included the same cities so far picks the same edge. */
  lemma PrimRoundAgrees(cities: seq<seq<int>>, n: int, included1: seq<int>, edges1: seq<Edge>,
                        included2: seq<int>, edges2: seq<Edge>, k: nat)
    requires IsSquare(cities, n)
    requires PrimTree(cities, n, included1, edges1) && PrimTree(cities, n, included2, edges2)
    requires k < |edges1| && k < |edges2| && included1[..k + 1] == included2[..k + 1]
    ensures edges1[k] == edges2[k] && included1[k + 1] == included2[k + 1]
  {
    var prefix := included1[..k + 1];
    assert InRange(prefix, n) && GreedyChoice(cities, n, prefix, edges1[k]);
    assert GreedyChoice(cities, n, included2[..k + 1], edges2[k]);
    GreedyAgrees(cities, n, prefix, edges1[k], edges2[k]);
  }

  // ---------------------------------------------------------------------------
  // The depth-first walk of the tree
  // ---------------------------------------------------------------------------

  /** The cities of `s` in order of first occurrence. */
  function Dedup(s: seq<int>): (r: seq<int>)
    ensures |r| <= |s|
  {
    if s == [] then []
    else if s[|s| - 1] in s[..|s| - 1] then Dedup(s[..|s| - 1])
    else Dedup(s[..|s| - 1]) + [s[|s| - 1]]
  }

  /** First-occurrence order repeats no city and keeps exactly the cities of `s`. */
  lemma {:induction false} DedupProperties(s: seq<int>)
    ensures Distinct(Dedup(s))
    ensures forall x :: x in Dedup(s) <==> x in s
  {
    if s != [] {
      var init := s[..|s| - 1];
      DedupProperties(init);
      assert s == init + [s[|s| - 1]];
    }
  }

  /** Appending a city: a new one joins the first-occurrence order, a repeat leaves it alone. */
  lemma DedupAppend(s: seq<int>, x: int)
    ensures x !in s ==> Dedup(s + [x]) == Dedup(s) + [x]
    ensures x in s ==> Dedup(s + [x]) == Dedup(s)
  {
    assert (s + [x])[..|s|] == s;
  }

  /** A child's walk adds its entered cities to the first-occurrence order; the return to `node` adds none. */
  lemma DedupChild(trail: seq<int>, before: seq<int>, mid: seq<int>, node: int, entered: seq<int>, sub: seq<int>)
    requires Dedup(before) == Dedup(trail) + entered
    requires Dedup(mid) == Dedup(before) + sub
    requires node in mid
    ensures Dedup(mid + [node]) == Dedup(trail) + (entered + sub)
  {
    DedupAppend(mid, node);
  }

  /** The cities on the trail are exactly the visited ones. */
  ghost predicate TrailMatchesVisited(trail: seq<int>, visited: seq<bool>)
  {
    && (forall k :: 0 <= k < |trail| ==> 0 <= trail[k] < |visited| && visited[trail[k]])
    && (forall x :: 0 <= x < |visited| && visited[x] ==> x in trail)
  }

  /** Marking `x` visited (if it was not) and appending it keeps the trail matching the visited cities. */
  lemma TrailMatchesAppend(trail: seq<int>, before: seq<bool>, after: seq<bool>, x: int)
    requires TrailMatchesVisited(trail, before) && 0 <= x < |before|
    requires after == before[x := true]
    ensures TrailMatchesVisited(trail + [x], after)
  {
  }

  /** The cities not yet visited; every call of the walk visits one more. */
  ghost function Unvisited(visited: seq<bool>): set<int>
  {
    set x | 0 <= x < |visited| && !visited[x]
  }

  /** Visited marks only grow from `before` to `after`. */
  ghost predicate Grows(before: seq<bool>, after: seq<bool>)
  {
    |before| == |after| && forall y :: 0 <= y < |before| && before[y] ==> after[y]
  }

  /** Growing marks leave fewer (or the same) cities unvisited. */
  lemma GrowsShrinks(before: seq<bool>, after: seq<bool>)
    requires Grows(before, after)
    ensures Unvisited(after) <= Unvisited(before)
  {
  }

  /** Marks that grow twice have grown. */
  lemma GrowsTrans(a: seq<bool>, b: seq<bool>, c: seq<bool>)
    requires Grows(a, b) && Grows(b, c)
    ensures Grows(a, c)
  {
  }

  /** Every tree neighbour of `node` below position i is visited. */
  ghost predicate NeighboursBelowVisited(g: array2<bool>, node: int, visited: seq<bool>, i: int)
    reads g
  {
    forall y :: 0 <= y < i && y < |visited| && 0 <= node < g.Length0 && y < g.Length1 && g[node, y] ==> visited[y]
  }

  /** `adj` holds, as a value, the contents of the square matrix `g`. */
  ghost predicate Mirrors(g: array2<bool>, adj: seq<seq<bool>>)
    reads g
  {
    && g.Length0 == g.Length1 && Grid(adj, g.Length0)
    && forall a, b :: 0 <= a < g.Length0 && 0 <= b < g.Length0 ==> adj[a][b] == g[a, b]
  }

  /** `adj` is an n×n matrix. */
  ghost predicate Grid(adj: seq<seq<bool>>, n: int)
  {
    |adj| == n && forall a :: 0 <= a < n ==> |adj[a]| == n
  }

  /** What a walk records on the trail, and the visited marks it leaves behind. */
  datatype Run = Run(path: seq<int>, marks: seq<bool>)

  /**
   * The walk from `node` as the recursion performs it, over the adjacency
   * matrix `adj` with the marks `visited`: record `node`, then walk every
   * unvisited neighbour in ascending order, recording `node` after each.
   */
  ghost function DfsRun(adj: seq<seq<bool>>, visited: seq<bool>, node: int): (r: Run)
    requires Grid(adj, |visited|) && 0 <= node < |visited| && !visited[node]
    ensures Grows(visited, r.marks) && r.marks[node]
    decreases Unvisited(visited), 0
  {
    var v := visited[node := true];
    assert node in Unvisited(visited) - Unvisited(v);
    var rest := ChildrenRun(adj, v, node, 0);
    Run([node] + rest.path, rest.marks)
  }

  /** The neighbour loop of the walk from `node`, from city i on. */
  ghost function ChildrenRun(adj: seq<seq<bool>>, visited: seq<bool>, node: int, i: int): (r: Run)
    requires Grid(adj, |visited|) && 0 <= node < |visited| && 0 <= i <= |visited|
    ensures Grows(visited, r.marks)
    decreases Unvisited(visited), 1, |visited| - i
  {
    if i == |visited| then Run([], visited)
    else if adj[node][i] && !visited[i] then
      var child := DfsRun(adj, visited, i);
      assert i in Unvisited(visited) - Unvisited(child.marks);
      var rest := ChildrenRun(adj, child.marks, node, i + 1);
      Run(child.path + [node] + rest.path, rest.marks)
    else
      ChildrenRun(adj, visited, node, i + 1)
  }

  /**
   * The recursive depth-first walk from `node` over the tree matrix `g`: it marks
   * `node` visited and appends it to the trail, then for every unvisited neighbour
   * in ascending order walks that neighbour and appends `node` again. `entered`
   * lists the cities this call visits, in the order it enters them.
   */
  method Dfs(node: int, n: int, g: array2<bool>, ghost adj: seq<seq<bool>>, visited: array<bool>, trail: seq<int>)
    returns (trail': seq<int>, ghost entered: seq<int>)
    requires g.Length0 == n && g.Length1 == n && visited.Length == n && Symmetric(g) && Mirrors(g, adj)
    requires 0 <= node < n && !visited[node]
    requires TrailMatchesVisited(trail, visited[..])
    modifies visited
    decreases Unvisited(visited[..]), 0
    ensures Walked(node, n, g, old(visited[..]), visited[..], trail, trail', entered)
    ensures ClosedBeyond(g, visited[..], entered)
    ensures var run := DfsRun(adj, old(visited[..]), node);
      trail' == trail + run.path && visited[..] == run.marks
  {
    ghost var v0 := visited[..];
    visited[node] := true;
    ghost var v1 := visited[..];
    assert v1 == v0[node := true];
    trail' := trail + [node];
    entered := [node];
    WalkStart(node, n, g, v0, v1, trail);
    trail', entered := VisitNeighbours(node, n, g, adj, visited, trail, trail', v0, entered);
    DfsClose(node, g, adj, v0, visited[..], trail, trail', entered);
  }

  /**
   * Closing the walk from `node`: with every tree neighbour of `node` visited the
   * entered cities are closed, and the loop's trail and marks, after recording
   * `node`, are those of the walk from `node`.
   */
  lemma DfsClose(node: int, g: array2<bool>, adj: seq<seq<bool>>, v0: seq<bool>, now: seq<bool>,
                 trail: seq<int>, trail': seq<int>, entered: seq<int>)
    requires Grid(adj, |v0|) && 0 <= node < |v0| && !v0[node] && |now| == |v0|
    requires g.Length0 == |v0| && g.Length1 == |v0|
    requires |entered| >= 1 && entered[0] == node && ClosedBeyond(g, now, entered[1..])
    requires forall y :: 0 <= y < |v0| && g[node, y] ==> now[y]
    requires var rest := ChildrenRun(adj, v0[node := true], node, 0);
      trail' == trail + [node] + rest.path && now == rest.marks
    ensures ClosedBeyond(g, now, entered)
    ensures var run := DfsRun(adj, v0, node);
      trail' == trail + run.path && now == run.marks
  {
    assert entered == [node] + entered[1..];
  }

  /** The walk's neighbour loop: try every city in ascending order as a child of `node`. */
  method VisitNeighbours(node: int, n: int, g: array2<bool>, ghost adj: seq<seq<bool>>, visited: array<bool>,
                         trail: seq<int>, walk: seq<int>, ghost v0: seq<bool>, ghost entered: seq<int>)
    returns (walk': seq<int>, ghost entered': seq<int>)
    requires g.Length0 == n && g.Length1 == n && visited.Length == n && Symmetric(g) && Mirrors(g, adj) && 0 <= node < n
    requires Walked(node, n, g, v0, visited[..], trail, walk, entered)
    requires ClosedBeyond(g, visited[..], entered[1..])
    modifies visited
    decreases Unvisited(visited[..]), 2
    ensures Walked(node, n, g, v0, visited[..], trail, walk', entered')
    ensures ClosedBeyond(g, visited[..], entered'[1..])
    ensures forall y :: 0 <= y < n && g[node, y] ==> visited[y]
    ensures var run := ChildrenRun(adj, old(visited[..]), node, 0);
      walk' == walk + run.path && visited[..] == run.marks
  {
    ghost var vstart := visited[..];
    ghost var target := ChildrenRun(adj, vstart, node, 0);
    walk', entered' := walk, entered;
    for i := 0 to n
      invariant Walked(node, n, g, v0, visited[..], trail, walk', entered')
      invariant ClosedBeyond(g, visited[..], entered'[1..])
      invariant NeighboursBelowVisited(g, node, visited[..], i)
      invariant Grows(vstart, visited[..])
      invariant Following(adj, node, visited[..], i, walk, walk', target)
    {
      ghost var vb := visited[..];
      GrowsShrinks(vstart, vb);
      ghost var wb := walk';
      walk', entered' := VisitNeighbour(node, i, n, g, adj, visited, trail, walk', v0, entered');
      GrowsTrans(vstart, vb, visited[..]);
      NeighboursStep(g, node, vb, visited[..], i);
      FollowingStep(adj, node, vb, visited[..], i, walk, wb, walk', target);
    }
  }

  /**
   * One round of the walk's neighbour loop: when `node` has a tree edge to the
   * unvisited city `child`, walk from `child` and then record `node` again.
   */
  method VisitNeighbour(node: int, child: int, n: int, g: array2<bool>, ghost adj: seq<seq<bool>>, visited: array<bool>,
                        trail: seq<int>, walk: seq<int>, ghost v0: seq<bool>, ghost entered: seq<int>)
    returns (walk': seq<int>, ghost entered': seq<int>)
    requires g.Length0 == n && g.Length1 == n && visited.Length == n && Symmetric(g) && Mirrors(g, adj)
    requires 0 <= node < n && 0 <= child < n
    requires Walked(node, n, g, v0, visited[..], trail, walk, entered)
    requires ClosedBeyond(g, visited[..], entered[1..])
    modifies visited
    decreases Unvisited(visited[..]), 1
    ensures Walked(node, n, g, v0, visited[..], trail, walk', entered')
    ensures ClosedBeyond(g, visited[..], entered'[1..])
    ensures Grows(old(visited[..]), visited[..])
    ensures g[node, child] ==> visited[child]
    ensures old(g[node, child] && !visited[child]) ==>
      var run := DfsRun(adj, old(visited[..]), child);
      walk' == walk + run.path + [node] && visited[..] == run.marks
    ensures !old(g[node, child] && !visited[child]) ==> walk' == walk && visited[..] == old(visited[..])
  {
    walk', entered' := walk, entered;
    if g[node, child] && !visited[child] {
      ghost var vb := visited[..];
      ghost var sub;
      walk', sub := Dfs(child, n, g, adj, visited, walk);
      WalkChild(node, child, n, g, v0, vb, visited[..], trail, walk, walk', entered, sub);
      walk' := walk' + [node];
      entered' := entered + sub;
      assert visited[..][child];
    }
  }

  /**
   * The neighbour loop, stopped before city i, is on course: finishing it from
   * here adds to `walk'` what the whole loop adds to `walk`, and leaves the
   * same marks.
   */
  ghost predicate Following(adj: seq<seq<bool>>, node: int, visited: seq<bool>, i: int,
                            walk: seq<int>, walk': seq<int>, target: Run)
  {
    && Grid(adj, |visited|) && 0 <= node < |visited| && 0 <= i <= |visited|
    && var rest := ChildrenRun(adj, visited, node, i);
       walk' + rest.path == walk + target.path && rest.marks == target.marks
  }

  /** Trying city i as a child, as the recursion does, keeps the neighbour loop on course. */
  lemma FollowingStep(adj: seq<seq<bool>>, node: int, vb: seq<bool>, va: seq<bool>, i: int,
                      walk: seq<int>, wb: seq<int>, wa: seq<int>, target: Run)
    requires Following(adj, node, vb, i, walk, wb, target) && i < |vb|
    requires adj[node][i] && !vb[i] ==>
      var run := DfsRun(adj, vb, i);
      wa == wb + run.path + [node] && va == run.marks
    requires !(adj[node][i] && !vb[i]) ==> wa == wb && va == vb
    ensures Following(adj, node, va, i + 1, walk, wa, target)
  {
    if adj[node][i] && !vb[i] {
      var run := DfsRun(adj, vb, i);
      var rest := ChildrenRun(adj, va, node, i + 1);
      assert ChildrenRun(adj, vb, node, i).path == run.path + [node] + rest.path;
      assert wa + rest.path == wb + (run.path + [node] + rest.path);
    }
  }

  /** After trying city i as a child, every tree neighbour of `node` up to i is visited. */
  lemma NeighboursStep(g: array2<bool>, node: int, vb: seq<bool>, va: seq<bool>, i: int)
    requires NeighboursBelowVisited(g, node, vb, i) && Grows(vb, va)
    requires 0 <= node < g.Length0 && 0 <= i < g.Length1 && i < |va| && g[node, i] ==> va[i]
    ensures NeighboursBelowVisited(g, node, va, i + 1)
  {
  }

  /**
   * What a call of the walk from `node` has done so far, with `start` and `now`
   * the visited marks before the call and at this point: the trail grew by a
   * segment that starts and ends at `node`, is two entries per entered city
   * minus one long, and steps only along tree edges; the entered cities are
   * exactly the newly visited ones; and they are the segment's contribution to
   * the trail's first-occurrence order.
   */
  ghost predicate Walked(node: int, n: int, g: array2<bool>, start: seq<bool>, now: seq<bool>,
                         trail: seq<int>, trail': seq<int>, entered: seq<int>)
    reads g
  {
    && g.Length0 == n && g.Length1 == n && |now| == n
    && TrailMatchesVisited(trail', now)
    && |entered| >= 1 && |trail'| == |trail| + 2 * |entered| - 1 && trail'[..|trail|] == trail
    && trail'[|trail|] == node && trail'[|trail'| - 1] == node
    && (forall k :: |trail| <= k < |trail'| - 1 ==> g[trail'[k], trail'[k + 1]])
    && entered[0] == node
    && VisitsFrom(start, now, entered, n)
    && Dedup(trail') == Dedup(trail) + entered
  }

  /** Entering `node`: the trail gains `node` and so does the entered list. */
  lemma WalkStart(node: int, n: int, g: array2<bool>, start: seq<bool>, now: seq<bool>, trail: seq<int>)
    requires g.Length0 == n && g.Length1 == n && |start| == n
    requires 0 <= node < n && !start[node] && now == start[node := true]
    requires TrailMatchesVisited(trail, start)
    ensures Walked(node, n, g, start, now, trail, trail + [node], [node])
    ensures ClosedBeyond(g, now, [node][1..])
    ensures Unvisited(now) < Unvisited(start)
  {
    assert node in Unvisited(start) && node !in Unvisited(now);
    forall k | 0 <= k < |trail|
      ensures trail[k] != node
    {
      assert start[trail[k]];
    }
    TrailMatchesAppend(trail, start, now, node);
    DedupAppend(trail, node);
    assert (trail + [node])[..|trail|] == trail;
  }

  /** A finished child walk from `child`, followed by the return to `node`, extends the parent's walk. */
  lemma WalkChild(node: int, child: int, n: int, g: array2<bool>, v0: seq<bool>, vb: seq<bool>, va: seq<bool>,
                  trail: seq<int>, before: seq<int>, mid: seq<int>, entered: seq<int>, sub: seq<int>)
    requires g.Length0 == n && g.Length1 == n && Symmetric(g)
    requires 0 <= node < n && 0 <= child < n && g[node, child]
    requires Walked(node, n, g, v0, vb, trail, before, entered) && ClosedBeyond(g, vb, entered[1..])
    requires Walked(child, n, g, vb, va, before, mid, sub) && ClosedBeyond(g, va, sub)
    ensures Walked(node, n, g, v0, va, trail, mid + [node], entered + sub)
    ensures ClosedBeyond(g, va, (entered + sub)[1..])
    ensures Grows(vb, va)
  {
    ChildVisits(g, v0, vb, va, entered, sub, n);
    assert mid[|trail|] == node by {
      assert mid[..|before|][|trail|] == before[|trail|];
    }
    assert node in mid;
    DedupChild(trail, before, mid, node, entered, sub);
    assert va[node] by {
      assert vb[node];
    }
    assert va[node := true] == va;
    TrailMatchesAppend(mid, va, va, node);
    ChildStep(trail, before, mid, node, child, n, g);
  }

  /**
   * `entered` lists, without repeats, exactly the cities visited in `now` that
   * were not visited in `start`.
   */
  ghost predicate VisitsFrom(start: seq<bool>, now: seq<bool>, entered: seq<int>, n: int)
  {
    && |start| == n && |now| == n && Distinct(entered)
    && (forall x :: x in entered ==> 0 <= x < n && !start[x])
    && (forall x :: 0 <= x < n ==> (now[x] <==> start[x] || x in entered))
  }

  /** Every tree neighbour of a city in `cities` is visited. */
  ghost predicate ClosedBeyond(g: array2<bool>, visited: seq<bool>, cities: seq<int>)
    reads g
  {
    forall x, y :: x in cities && 0 <= x < g.Length0 && 0 <= y < g.Length1 && y < |visited| && g[x, y] ==> visited[y]
  }

  /** The bookkeeping of the cities a child walk enters, folded into its parent's. */
  lemma ChildVisits(g: array2<bool>, v0: seq<bool>, vb: seq<bool>, va: seq<bool>, entered: seq<int>, sub: seq<int>, n: int)
    requires g.Length0 == n && g.Length1 == n
    requires |entered| >= 1
    requires VisitsFrom(v0, vb, entered, n) && VisitsFrom(vb, va, sub, n)
    requires ClosedBeyond(g, vb, entered[1..]) && ClosedBeyond(g, va, sub)
    ensures VisitsFrom(v0, va, entered + sub, n)
    ensures ClosedBeyond(g, va, (entered + sub)[1..])
    ensures Grows(vb, va)
  {
    assert (entered + sub)[1..] == entered[1..] + sub;
    forall i, j | 0 <= i < j < |entered + sub|
      ensures (entered + sub)[i] != (entered + sub)[j]
    {
      if i < |entered| <= j {
        assert (entered + sub)[i] in entered;
        assert (entered + sub)[j] in sub;
      }
    }
  }

  /** Appending a child's walk and the return to `node` keeps the trail's shape. */
  lemma ChildStep(trail: seq<int>, before: seq<int>, after: seq<int>, node: int, child: int, n: int, g: array2<bool>)
    requires g.Length0 == n && g.Length1 == n && Symmetric(g)
    requires 0 <= node < n && 0 <= child < n && g[node, child]
    requires InRange(before, n) && InRange(after, n)
    requires |trail| < |before| < |after| && after[..|before|] == before && before[..|trail|] == trail
    requires before[|before| - 1] == node && after[|before|] == child && after[|after| - 1] == child
    requires forall k :: |trail| <= k < |before| - 1 ==> g[before[k], before[k + 1]]
    requires forall k :: |before| <= k < |after| - 1 ==> g[after[k], after[k + 1]]
    ensures (after + [node])[..|trail|] == trail
    ensures forall k :: |trail| <= k < |after| ==> g[(after + [node])[k], (after + [node])[k + 1]]
  {
    assert after[..|trail|] == trail by {
      assert after[..|trail|] == after[..|before|][..|trail|];
    }
    forall k | |trail| <= k < |after|
      ensures g[(after + [node])[k], (after + [node])[k + 1]]
    {
      if k < |before| - 1 {
        assert after[k] == before[k] && after[k + 1] == before[k + 1];
      } else if k == |before| - 1 {
        assert after[k] == before[k];
      } else if k == |after| - 1 {
        assert g[child, node] == g[node, child];
      }
    }
  }

  // ---------------------------------------------------------------------------
  // Shortcutting the walk into a tour, and the whole heuristic
  // ---------------------------------------------------------------------------

  /** The walk reduced to first visits, with the walk's last city re-emitted to close the tour. */
  function Shortcut(walk: seq<int>): (r: seq<int>)
    requires |walk| >= 1
    ensures 1 <= |r| <= |walk| && r[|r| - 1] == walk[|walk| - 1]
  {
    Dedup(walk[..|walk| - 1]) + [walk[|walk| - 1]]
  }

  /** How one more city of the walk changes the first visits seen so far. */
  lemma ShortcutStep(walk: seq<int>, w: int, n: int)
    requires 0 <= w < |walk| && InRange(walk, n)
    ensures |Dedup(walk[..w])| <= n && InRange(Dedup(walk[..w]), n)
    ensures walk[w] !in walk[..w] ==> Dedup(walk[..w + 1]) == Dedup(walk[..w]) + [walk[w]]
    ensures walk[w] in walk[..w] ==> Dedup(walk[..w + 1]) == Dedup(walk[..w])
    ensures w == |walk| - 1 ==> Shortcut(walk) == Dedup(walk[..w]) + [walk[w]]
    ensures forall x :: x in walk[..w + 1] <==> x in walk[..w] || x == walk[w]
  {
    assert walk[..w + 1] == walk[..w] + [walk[w]];
    DedupAppend(walk[..w], walk[w]);
    DedupProperties(walk[..w]);
    var d := Dedup(walk[..w]);
    forall k | 0 <= k < |d|
      ensures 0 <= d[k] < n
    {
      assert d[k] in d;
    }
    Pigeonhole(d, n);
  }

  /**
   * The state of the shortcut pass after the first w cities of the walk: `seen`
   * marks the cities met so far, `emitted` is their first-visit order (the whole
   * shortcut tour once the walk is done), and `cost` is the cost of that path.
   */
  ghost predicate Shortcutting(cities: seq<seq<int>>, n: int, walk: seq<int>, w: int,
                               seen: seq<bool>, emitted: seq<int>, cost: int)
    requires IsSquare(cities, n)
  {
    && 1 <= |walk| && 0 <= w <= |walk| && InRange(walk, n)
    && |seen| == n && |emitted| <= n + 1 && InRange(emitted, n)
    && (w < |walk| ==> emitted == Dedup(walk[..w]))
    && (w == |walk| ==> emitted == Shortcut(walk))
    && (forall x :: 0 <= x < n ==> (seen[x] <==> x in walk[..w]))
    && cost == PathCost(cities, n, emitted)
  }

  /**
   * The shortcut pass: traverse the walk with a cleared visited array, emit each
   * city the first time it is seen and always emit the last one, and add up the
   * matrix cost of every leg between consecutive emitted cities.
   */
  method ShortcutWalk(cities: seq<seq<int>>, n: int, walk: seq<int>) returns (r: TourResult)
    requires n >= 1 && IsSquare(cities, n) && |walk| >= 1 && InRange(walk, n)
    ensures r.tour == Shortcut(walk)
    ensures InRange(r.tour, n) && r.cost == PathCost(cities, n, r.tour)
  {
    var visited := new bool[n](x => false);
    var tour := new int[n + 1];
    var cost := Infinite;
    var i := 0;
    ghost var emitted: seq<int> := [];
    for w := 0 to |walk|
      invariant Shortcutting(cities, n, walk, w, visited[..], emitted, cost)
      invariant |emitted| == i && tour[..i] == emitted
    {
      i, cost, emitted := ShortcutStepAt(cities, n, walk, w, visited, tour, i, cost, emitted);
    }
    r := TourResult(cost, tour[..i]);
  }

  /** One city of the shortcut pass: emit it when it is new or the walk's last, pricing the leg into it. */
  method ShortcutStepAt(cities: seq<seq<int>>, n: int, walk: seq<int>, w: int, visited: array<bool>, tour: array<int>,
                        i: int, cost: int, ghost emitted: seq<int>)
    returns (i': int, cost': int, ghost emitted': seq<int>)
    requires IsSquare(cities, n) && 0 <= w < |walk| && visited.Length == n && tour.Length == n + 1
    requires Shortcutting(cities, n, walk, w, visited[..], emitted, cost)
    requires |emitted| == i && tour[..i] == emitted
    modifies visited, tour
    ensures Shortcutting(cities, n, walk, w + 1, visited[..], emitted', cost')
    ensures |emitted'| == i' && tour[..i'] == emitted'
  {
    ghost var seen := visited[..];
    var city := walk[w];
    ShortcutBounds(cities, n, walk, w, seen, emitted, cost);
    if !visited[city] || w == |walk| - 1 {
      visited[city] := true;
      tour[i] := city;
      cost' := cost;
      if i > 0 {
        assert tour[i - 1] == emitted[i - 1];
        cost' := cost + cities[tour[i - 1]][tour[i]];
      }
      emitted' := emitted + [city];
      assert tour[..i + 1] == emitted';
      i' := i + 1;
      ShortcutEmits(cities, n, walk, w, seen, emitted, cost, cost');
    } else {
      i', cost', emitted' := i, cost, emitted;
      ShortcutSkips(cities, n, walk, w, seen, emitted, cost);
    }
  }

  /** The city at position w is a valid city, and if it is emitted the tour still has room for it. */
  lemma ShortcutBounds(cities: seq<seq<int>>, n: int, walk: seq<int>, w: int, seen: seq<bool>, emitted: seq<int>, cost: int)
    requires IsSquare(cities, n) && 0 <= w < |walk|
    requires Shortcutting(cities, n, walk, w, seen, emitted, cost)
    ensures 0 <= walk[w] < n
    ensures !seen[walk[w]] || w == |walk| - 1 ==> |emitted| <= n
  {
    ShortcutStep(walk, w, n);
  }

  /** Emitting city walk[w] appends it to the first visits and adds the leg into it. */
  lemma ShortcutEmits(cities: seq<seq<int>>, n: int, walk: seq<int>, w: int, seen: seq<bool>, emitted: seq<int>,
                      cost: int, cost': int)
    requires IsSquare(cities, n) && 0 <= w < |walk|
    requires Shortcutting(cities, n, walk, w, seen, emitted, cost)
    requires 0 <= walk[w] < n && (!seen[walk[w]] || w == |walk| - 1)
    requires cost' == if |emitted| > 0 then cost + cities[emitted[|emitted| - 1]][walk[w]] else cost
    ensures Shortcutting(cities, n, walk, w + 1, seen[walk[w] := true], emitted + [walk[w]], cost')
  {
    var city := walk[w];
    var seen', emitted' := seen[city := true], emitted + [city];
    ShortcutStep(walk, w, n);
    if w + 1 < |walk| {
      assert city !in walk[..w];
      assert emitted' == Dedup(walk[..w + 1]);
    } else {
      assert emitted' == Shortcut(walk);
    }
    assert InRange(emitted', n) by {
      forall k | 0 <= k < |emitted'| ensures 0 <= emitted'[k] < n {
        if k < |emitted| {
          assert emitted'[k] == emitted[k];
        }
      }
    }
    forall x | 0 <= x < n
      ensures seen'[x] <==> x in walk[..w + 1]
    {
    }
    if |emitted| > 0 {
      PathCostAppend(cities, n, emitted, city);
    } else {
      assert emitted' == [city];
    }
  }

  /** Passing over an already seen city (not the walk's last) changes nothing. */
  lemma ShortcutSkips(cities: seq<seq<int>>, n: int, walk: seq<int>, w: int, seen: seq<bool>, emitted: seq<int>, cost: int)
    requires IsSquare(cities, n) && 0 <= w < |walk| - 1
    requires Shortcutting(cities, n, walk, w, seen, emitted, cost)
    requires 0 <= walk[w] < n && seen[walk[w]]
    ensures Shortcutting(cities, n, walk, w + 1, seen, emitted, cost)
  {
    ShortcutStep(walk, w, n);
  }

  /**
   * The heuristic tour: the spanning tree Prim's algorithm grows from city 0,
   * walked depth-first from city 0, shortcut to a closed tour that visits every
   * city once, with its cost read off the matrix. `edges` is the tree and `walk`
   * the depth-first trail.
   */
  method GetHeuristicTour(cities: seq<seq<int>>, n: int) returns (r: TourResult, ghost edges: seq<Edge>, ghost walk: seq<int>)
    requires n >= 2 && IsSquare(cities, n) && AllConnected(cities, n)
    ensures exists included :: PrimTree(cities, n, included, edges) && IsPermutation(included, n)
    ensures |walk| == 2 * (n - 1) + 1 && walk[0] == 0 && walk[|walk| - 1] == 0
    ensures forall k :: 0 <= k < |walk| - 1 ==> TreeAdj(edges, walk[k], walk[k + 1])
    ensures IsPermutation(Dedup(walk), n)
    ensures walk == TreeWalk(edges, n)
    ensures r.tour == Shortcut(walk)
    ensures IsClosedTour(r.tour, n)
    ensures r.cost == PathCost(cities, n, r.tour)
  {
    var included, mst;
    included, mst, edges := BuildSpanningTree(cities, n);
    ghost var entered;
    var trail;
    trail, entered := WalkTree(cities, n, included, mst, edges);
    walk := trail;
    ClosingRepeat(walk);
    r := ShortcutWalk(cities, n, trail);
    assert r.tour[..n] == entered;
  }

  /**
   * The depth-first walk of the whole tree from city 0 with a cleared visited
   * array: a closed trail of 2(n - 1) steps along tree edges whose first visits
   * are `entered`, every city once, starting at city 0.
   */
  method WalkTree(cities: seq<seq<int>>, n: int, ghost included: seq<int>, mst: array2<bool>, ghost edges: seq<Edge>)
    returns (trail: seq<int>, ghost entered: seq<int>)
    requires n >= 1 && IsSquare(cities, n) && PrimTree(cities, n, included, edges) && IsPermutation(included, n)
    requires MarksTree(mst, edges, n) && Symmetric(mst)
    ensures InRange(trail, n) && |trail| == 2 * |entered| - 1 && trail[0] == 0 && trail[|trail| - 1] == 0
    ensures forall k :: 0 <= k < |trail| - 1 ==> TreeAdj(edges, trail[k], trail[k + 1])
    ensures Dedup(trail) == entered && IsPermutation(entered, n) && entered[0] == 0
    ensures trail == TreeWalk(edges, n)
  {
    ghost var now;
    trail, entered, now := WalkFromZero(n, mst, edges);
    WalkSummary(cities, n, included, mst, edges, Unmarked(n), now, trail, entered);
  }

  /** The recursive walk from city 0 over the tree matrix, with no city visited at the start. */
  method WalkFromZero(n: int, mst: array2<bool>, ghost edges: seq<Edge>)
    returns (trail: seq<int>, ghost entered: seq<int>, ghost now: seq<bool>)
    requires n >= 1 && MarksTree(mst, edges, n) && Symmetric(mst)
    ensures Walked(0, n, mst, Unmarked(n), now, [], trail, entered) && ClosedBeyond(mst, now, entered)
    ensures trail == TreeWalk(edges, n)
  {
    var visited := new bool[n](x => false);
    assert visited[..] == Unmarked(n);
    TreeMirrors(mst, edges, n);
    ghost var adj :| Mirrors(mst, adj);
    trail, entered := Dfs(0, n, mst, adj, visited, []);
    now := visited[..];
    WalkIsTreeWalk(mst, adj, edges, n, trail);
  }

  /** The walk over a matrix that marks exactly the tree's pairs is the tree's walk. */
  lemma WalkIsTreeWalk(mst: array2<bool>, adj: seq<seq<bool>>, edges: seq<Edge>, n: nat, trail: seq<int>)
    requires n >= 1 && MarksTree(mst, edges, n) && Mirrors(mst, adj)
    requires trail == [] + DfsRun(adj, Unmarked(n), 0).path
    ensures trail == TreeWalk(edges, n)
  {
    var t := TreeMatrix(edges, n);
    forall a | 0 <= a < n
      ensures adj[a] == t[a]
    {
      assert forall b :: 0 <= b < n ==> adj[a][b] == t[a][b];
    }
    assert adj == t;
  }

  /** n cities, none visited. */
  function Unmarked(n: nat): (v: seq<bool>)
    ensures |v| == n && forall x :: 0 <= x < n ==> !v[x]
  {
    seq(n, x => false)
  }

  /** The adjacency matrix of the tree made of `edges`, over n cities. */
  ghost function TreeMatrix(edges: seq<Edge>, n: nat): (adj: seq<seq<bool>>)
    ensures Grid(adj, n)
  {
    seq(n, a => seq(n, b => TreeAdj(edges, a, b)))
  }

  /**
   * The trail the recursive walk of the tree leaves when started at city 0 with
   * no city visited.
   */
  ghost function TreeWalk(edges: seq<Edge>, n: nat): seq<int>
    requires n >= 1
  {
    DfsRun(TreeMatrix(edges, n), Unmarked(n), 0).path
  }

  /** A matrix that marks exactly the tree's pairs holds the tree's adjacency matrix. */
  lemma TreeMirrors(mst: array2<bool>, edges: seq<Edge>, n: nat)
    requires MarksTree(mst, edges, n)
    ensures exists adj :: Mirrors(mst, adj)
  {
    assert Mirrors(mst, TreeMatrix(edges, n));
  }

  /** What a finished walk from city 0 with a cleared visited array amounts to. */
  lemma WalkSummary(cities: seq<seq<int>>, n: int, included: seq<int>, mst: array2<bool>, edges: seq<Edge>,
                    start: seq<bool>, now: seq<bool>, trail: seq<int>, entered: seq<int>)
    requires n >= 1 && IsSquare(cities, n) && PrimTree(cities, n, included, edges) && IsPermutation(included, n)
    requires MarksTree(mst, edges, n) && forall x :: 0 <= x < |start| ==> !start[x]
    requires Walked(0, n, mst, start, now, [], trail, entered) && ClosedBeyond(mst, now, entered)
    ensures InRange(trail, n) && |trail| == 2 * |entered| - 1 && trail[0] == 0 && trail[|trail| - 1] == 0
    ensures forall k :: 0 <= k < |trail| - 1 ==> TreeAdj(edges, trail[k], trail[k + 1])
    ensures Dedup(trail) == entered && IsPermutation(entered, n) && entered[0] == 0
  {
    WalkCoversTree(cities, n, included, edges, mst, start, now, entered);
    WalkFollowsTree(mst, edges, n, trail);
  }

  /**
   * A walk from city 0 that stops only where every tree neighbour is visited
   * enters every city of the connected tree, each once.
   */
  lemma WalkCoversTree(cities: seq<seq<int>>, n: int, included: seq<int>, edges: seq<Edge>, mst: array2<bool>,
                       start: seq<bool>, now: seq<bool>, entered: seq<int>)
    requires IsSquare(cities, n) && PrimTree(cities, n, included, edges) && IsPermutation(included, n)
    requires MarksTree(mst, edges, n)
    requires VisitsFrom(start, now, entered, n) && forall x :: 0 <= x < n ==> !start[x]
    requires ClosedBeyond(mst, now, entered) && 0 in entered
    ensures IsPermutation(entered, n)
  {
    ghost var reached := set x | x in entered;
    forall k | 0 <= k < |edges| && edges[k].city1 in reached
      ensures edges[k].city2 in reached
    {
      assert Joins(edges[k], edges[k].city1, edges[k].city2);
      assert mst[edges[k].city1, edges[k].city2];
    }
    TreeConnected(cities, n, included, edges, reached, n);
    Pigeonhole(included, n);
    forall x | 0 <= x < n
      ensures x in entered
    {
      assert x in included;
      var k :| 0 <= k < n && included[k] == x;
      assert included[k] in reached;
    }
    assert InRange(entered, n) by {
      forall k | 0 <= k < |entered| ensures 0 <= entered[k] < n {
        assert entered[k] in entered;
      }
    }
    Pigeonhole(entered, n);
  }

  /** Every step of a walk along marked matrix entries moves between adjacent tree cities. */
  lemma WalkFollowsTree(mst: array2<bool>, edges: seq<Edge>, n: int, walk: seq<int>)
    requires MarksTree(mst, edges, n) && InRange(walk, n)
    requires forall k :: 0 <= k < |walk| - 1 ==> mst[walk[k], walk[k + 1]]
    ensures forall k :: 0 <= k < |walk| - 1 ==> TreeAdj(edges, walk[k], walk[k + 1])
  {
  }

  /** A walk that ends where it started has the same first visits without its last city. */
  lemma ClosingRepeat(walk: seq<int>)
    requires |walk| >= 2 && walk[|walk| - 1] == walk[0]
    ensures Dedup(walk) == Dedup(walk[..|walk| - 1])
  {
    assert walk[|walk| - 1] in walk[..|walk| - 1] by {
      assert walk[..|walk| - 1][0] == walk[0];
    }
    assert walk == walk[..|walk| - 1] + [walk[|walk| - 1]];
    DedupAppend(walk[..|walk| - 1], walk[|walk| - 1]);
  }
}
