# Travelling-salesman tour builders, modelled in Dafny

The repository has two command-line programs. Each reads an N×N integer cost
matrix and prints a tour that starts at city 0, visits every city once, and
returns to city 0. In the heuristic (source/HeuristicTour.c) a matrix entry of 0
(`INFINITE`) means "no edge". The exhaustive search (source/CheapestTour.c)
compares `INFINITE` only with the kept cost, as "nothing kept yet"; it prices a
0 matrix entry as an ordinary leg of cost 0.

* `getHeuristicTour` (source/HeuristicTour.c) runs in three stages:
  * Prim's algorithm grows a spanning tree from city 0, recorded in an adjacency matrix `mst`.
  * A recursive depth-first walk (`dfs`) records every city when it is entered and again after each child returns.
  * The walk is shortcut to its first visits, with the final 0 kept. The cost is summed from the matrix as the tour is written.
* `getOptimalTour` (source/CheapestTour.c) searches exhaustively:
  * City 0 is pinned at position 0 of a permutation `p`.
  * A parallel direction array `d` drives the Steinhaus-Johnson-Trotter generator.
  * `factorial(N-1)/2` permutations are priced as closed cycles. The first cheapest one is kept; a kept cost of 0 reads as "nothing kept yet".

The model follows the C code's own form:

* The matrix is a read-only `seq<seq<int>>`.
* The state the C code updates in place is kept in Dafny arrays:
  * `visited` and `mst` in the heuristic;
  * `p`, `d` and the result tour in the exhaustive search.
* The singly linked vertex lists (the included list and the trail) are sequences that the methods extend by appending.
* Each loop is a Dafny loop whose invariants tie it to a specification function:
  * the Prim round is specified by `CheapestAt` and `PrimTree`;
  * the walk by `Walked` and, for its exact order, by the reference recursion `DfsRun`;
  * the shortcut pass by `Shortcut` and `PathCost`;
  * the generator step by `Step` and `State`;
  * the retention rule by `Best` over the priced candidates `Candidates`.

Files:

* `tours.dfy` holds the shared vocabulary: permutations, closed tours, path cost and a pigeonhole lemma.
* `heuristic_tour.dfy` is the heuristic builder.
* `sjt.dfy` is the permutation generator.
* `cheapest_tour.dfy` is the exhaustive builder and `factorial`.
* `four_cities.dfy` works one four-city instance of the exhaustive builder through to its result.
* `three_cities.dfy` works one three-city instance of the heuristic builder through to its result.
* `generator_examples.dfy` evaluates the generator for three and five cities and shows it is never stuck in the rounds the search takes.

Where the code and its comments disagree, the model follows the code:

* The header of source/HeuristicTour.c:2 calls the algorithm "Nearest Neighbour". The code builds a spanning tree, walks it and shortcuts the walk, and that is what is modelled.
* Edge presence is the code's test `cost != INFINITE`, not `cost > 0`. So the heuristic's precondition `AllConnected` asks only that off-diagonal entries be non-zero.

## Model

| member | source | states |
|---|---|---|
| Tours.PathCost | source/HeuristicTour.c:258-260 | the cost of a path is the sum of the matrix entries between consecutive cities, 0 for fewer than two cities; it has no contract of its own, and PathCostAppend, PathCostPrefix and PathCostNonNegative state its properties |
| Tours.PathCostAppend | source/HeuristicTour.c:258-260 | appending a city to a path adds exactly the matrix cost of the leg into it |
| Tours.PathCostPrefix | source/CheapestTour.c:129-132 | the cost of the first j+1 cities of a path is the cost of the first j plus the leg into city j |
| Tours.PathCostNonNegative | source/CheapestTour.c:128-132 | over a matrix without negative entries, every path costs at least 0 |
| Tours.Pigeonhole | source/HeuristicTour.c:191-231 | a repeat-free list of cities from [0, n) has at most n entries, and has n exactly when it names every city |
| Tours.DistinctSize | source/HeuristicTour.c:191-231 | a repeat-free list has as many distinct elements as entries |
| Tours.Cities | source/HeuristicTour.c:191 | the set of cities 0..n-1 has n members, exactly the integers in range |
| HeuristicTour.Contains | source/HeuristicTour.c:209-212 | the linear search of the included list reports found exactly when the city is in the list |
| HeuristicTour.CheapestEdge | source/HeuristicTour.c:197-225 | the weight stays INFINITE exactly when no included city has an edge to a city not yet included; otherwise the edge leaves the included city at some position pos for a city not yet included, is a real edge, has the least cost among all candidates, and is strictly cheaper than every candidate scanned before it (included list in order, then j ascending) |
| HeuristicTour.CheapestAt | source/HeuristicTour.c:197-223 | what one Prim round settles on: a real edge from the included city at position pos to a city not yet included, no dearer than any candidate, and strictly cheaper than every candidate scanned before it; a specification predicate without a contract of its own, whose partner is CheapestAtUnique |
| HeuristicTour.GreedyChoice | source/HeuristicTour.c:197-225 | the edge one Prim round settles on over the current included list: some position satisfies CheapestAt for it; a specification predicate without a contract of its own, whose partner is GreedyAgrees |
| HeuristicTour.PrimTree | source/HeuristicTour.c:185-235 | the state of Prim's loop after k rounds: the included list starts at 0, repeats no city and has one more entry than the edge list, and round k's edge is the greedy choice over the first k + 1 included cities and leads to the (k+1)-th; a specification predicate without a contract of its own, whose partners are PrimTreeExtend and PrimTreeUnique |
| HeuristicTour.CheapestAtUnique | source/HeuristicTour.c:197-223 | at most one edge and position satisfy CheapestAt, because the strict `<` leaves the first cheapest candidate in scan order |
| HeuristicTour.GreedyAgrees | source/HeuristicTour.c:197-223 | two greedy choices over the same included list are the same edge |
| HeuristicTour.PrimTreeUnique | source/HeuristicTour.c:191-235 | two Prim trees of the same size over the same matrix have the same edges and the same included list, so the matrix alone fixes the tree |
| HeuristicTour.PrimPrefixesAgree | source/HeuristicTour.c:191-235 | two Prim trees agree on their first m edges and first m + 1 included cities |
| HeuristicTour.PrimRoundAgrees | source/HeuristicTour.c:197-230 | when two Prim trees agree on the included list up to round k, they pick the same edge in round k and include the same city |
| HeuristicTour.BuildSpanningTree | source/HeuristicTour.c:170-235 | after n - 1 rounds the included list is a permutation of the cities starting with 0, every round's edge is that round's greedy choice and leads to the newly included city, there are n - 1 edges, and the fresh matrix marks exactly the tree's pairs and is symmetric |
| HeuristicTour.MarkEdge | source/HeuristicTour.c:233-234 | setting both entries of the new edge makes the matrix mark exactly the pairs of the extended edge list |
| HeuristicTour.TreeAdjAppend | source/HeuristicTour.c:233-234 | adding an edge adds exactly the pair it joins, in both directions, to the tree adjacency |
| HeuristicTour.MarksSymmetric | source/HeuristicTour.c:233-234 | a matrix marking the tree's pairs is its own transpose |
| HeuristicTour.PrimTreeExtend | source/HeuristicTour.c:227-230 | appending the greedy edge's destination to the included list keeps the tree's shape: the new city was not included, and the new edge is the greedy choice of the new round |
| HeuristicTour.TreeEdgesAreEdges | source/HeuristicTour.c:205-206 | no tree edge has the "no edge" cost 0: every edge's weight is the matrix entry between its cities and is non-zero |
| HeuristicTour.TreeEdgesDistinct | source/HeuristicTour.c:191-234 | the finished tree has n - 1 edges, none joins a city to itself, and no two join the same pair |
| HeuristicTour.TreeConnected | source/HeuristicTour.c:191-234 | any set holding city 0 and closed under the tree edges holds every included city, so the tree is connected |
| HeuristicTour.Dedup | source/HeuristicTour.c:249-256 | the first-occurrence order of a list is never longer than the list; DedupProperties and DedupAppend are its partners |
| HeuristicTour.DedupProperties | source/HeuristicTour.c:249-256 | the first-occurrence order of a list repeats no city and holds exactly the list's cities |
| HeuristicTour.DedupAppend | source/HeuristicTour.c:254 | appending a new city extends the first-occurrence order by it; appending a repeat leaves the order unchanged |
| HeuristicTour.DedupChild | source/HeuristicTour.c:125-137 | a child walk followed by the return to its parent adds exactly the child's entered cities to the first-occurrence order |
| HeuristicTour.TrailMatchesAppend | source/HeuristicTour.c:104-116 | marking a city visited and appending it keeps the trail's cities equal to the visited ones |
| HeuristicTour.Dfs | source/HeuristicTour.c:93-140 | the call marks node visited and grows the trail by a segment that starts and ends at node, has 2·(entered) - 1 entries, and steps only along tree edges; the entered cities are exactly the newly visited ones, repeat-free, node first, and are the segment's first-occurrence order; every tree neighbour of an entered city ends up visited; and the segment and the final marks are exactly those of the reference recursion DfsRun, which tries neighbours in ascending order |
| HeuristicTour.DfsRun | source/HeuristicTour.c:103-139 | the reference walk from an unvisited node: record node, then walk each unvisited neighbour in ascending order and record node after it; the marks only grow and include node |
| HeuristicTour.ChildrenRun | source/HeuristicTour.c:119-139 | the reference neighbour loop from city i on; the marks only grow |
| HeuristicTour.DfsClose | source/HeuristicTour.c:119-140 | once every tree neighbour of node is visited, the entered cities are closed under tree edges, and recording node followed by the neighbour loop's run is the walk from node |
| HeuristicTour.VisitNeighbours | source/HeuristicTour.c:119-139 | the neighbour loop keeps the walk's shape, leaves every tree neighbour of node visited, and appends exactly the reference neighbour loop's path, leaving its marks |
| HeuristicTour.VisitNeighbour | source/HeuristicTour.c:122-138 | when city i is an unvisited tree neighbour, the child walk and the return to node extend the walk's shape by exactly the reference walk from i followed by node; otherwise the walk and the marks are unchanged; visited marks only grow; afterwards a tree neighbour i is visited |
| HeuristicTour.FollowingStep | source/HeuristicTour.c:119-138 | after city i is tried, the trail built so far plus the reference loop from i + 1 on still equals the reference loop from 0 |
| HeuristicTour.NeighboursStep | source/HeuristicTour.c:119-125 | after city i is tried as a child, every tree neighbour of node up to i is visited |
| HeuristicTour.GrowsTrans | source/HeuristicTour.c:104 | marks that grow twice have grown |
| HeuristicTour.GrowsShrinks | source/HeuristicTour.c:104 | visited marks only grow, so the set of unvisited cities only shrinks (the walk's termination measure) |
| HeuristicTour.WalkStart | source/HeuristicTour.c:103-116 | entering node starts a one-entry segment whose entered list is [node], and leaves fewer cities unvisited |
| HeuristicTour.WalkChild | source/HeuristicTour.c:122-137 | a finished child walk from a tree neighbour, followed by the return to node, extends the parent's walk shape and entered list |
| HeuristicTour.ChildVisits | source/HeuristicTour.c:122-125 | the cities entered by a child walk join the parent's entered list without repeats, and exactly the new visits are added |
| HeuristicTour.ChildStep | source/HeuristicTour.c:125-137 | the trail after the child walk and the return still starts with the old trail and steps only along tree edges |
| HeuristicTour.Shortcut | source/HeuristicTour.c:249-265 | the shortcut tour is no longer than the walk, non-empty, and ends with the walk's last city |
| HeuristicTour.ShortcutWalk | source/HeuristicTour.c:241-265 | the tour written is the walk's first-occurrence order of all but its last city, followed by the last city, and the cost is the sum of the matrix entries along that tour, starting from 0 |
| HeuristicTour.ShortcutStepAt | source/HeuristicTour.c:254-264 | one step of the pass writes the city when it is unvisited or the walk's last, prices the leg into it, and keeps the pass's state |
| HeuristicTour.ShortcutStep | source/HeuristicTour.c:254 | one more walk city either extends the first visits by itself (a new city) or leaves them as they are (a repeat), and the first visits stay within n cities |
| HeuristicTour.ShortcutBounds | source/HeuristicTour.c:254-256 | the walk city is in range and, when it is written, the tour still has room for it |
| HeuristicTour.ShortcutEmits | source/HeuristicTour.c:254-262 | writing a city extends the written tour by it and adds the cost of the leg into it |
| HeuristicTour.ShortcutSkips | source/HeuristicTour.c:254 | passing over an already visited city that is not the walk's last changes neither the tour nor the cost |
| HeuristicTour.GetHeuristicTour | source/HeuristicTour.c:147-268 | the tree is a Prim tree over a permutation of the cities; the walk has 2(n - 1) + 1 entries, starts and ends at 0, steps between tree-adjacent cities, and is exactly the reference walk TreeWalk of the tree; its first-occurrence order is a permutation; the result tour is the shortcut walk, a closed tour (n + 1 entries, a permutation of the cities, then 0), and its cost is the tour's matrix cost |
| HeuristicTour.WalkTree | source/HeuristicTour.c:239 | the walk from 0 over the tree is closed at 0, steps along tree edges, enters every city exactly once, in first-occurrence order, and is the reference walk TreeWalk |
| HeuristicTour.TreeWalk | source/HeuristicTour.c:239 | the trail `dfs(0, …)` leaves on the finished tree: DfsRun from city 0 over the tree's adjacency with every city unvisited; a reference definition without a contract of its own, which WalkTree and GetHeuristicTour are proved equal to |
| HeuristicTour.WalkFromZero | source/HeuristicTour.c:237-239 | the walk from 0 with every city unvisited is a finished, closed walk and equals TreeWalk of the tree's edges |
| HeuristicTour.TreeMatrix | source/HeuristicTour.c:233-234 | the adjacency the tree's edges define, as an n×n grid |
| HeuristicTour.TreeMirrors | source/HeuristicTour.c:233-234 | a matrix that marks the tree's pairs has a sequence mirror |
| HeuristicTour.WalkIsTreeWalk | source/HeuristicTour.c:239 | the reference walk over any mirror of the tree matrix is TreeWalk, the walk over the tree's own adjacency |
| HeuristicTour.Unmarked | source/HeuristicTour.c:170-176 | the cleared visited marks: n entries, all unvisited |
| HeuristicTour.WalkSummary | source/HeuristicTour.c:239 | a finished walk from 0 with all cities unvisited at the start enters every city once and steps along tree edges |
| HeuristicTour.WalkCoversTree | source/HeuristicTour.c:119-125 | a walk from 0 that stops only when every tree neighbour is visited enters all n cities of the connected tree |
| HeuristicTour.WalkFollowsTree | source/HeuristicTour.c:122 | each step of the walk moves between cities adjacent in the tree |
| HeuristicTour.ClosingRepeat | source/HeuristicTour.c:254 | a walk that ends where it starts has the same first visits with or without its last city |
| Sjt.Flip | source/CheapestTour.c:167 | reversing a direction gives the other direction |
| Sjt.Scan | source/CheapestTour.c:143-152 | a non-zero scan result is the value at a mobile position below j, and that position is returned with it |
| Sjt.ScanBound | source/CheapestTour.c:147-150 | no mobile value at a scanned position exceeds the scan result |
| Sjt.ScanFindsLargest | source/CheapestTour.c:143-152 | the scan returns 0 exactly when no scanned position is mobile, and otherwise a value at least as large as every mobile one |
| Sjt.LargestMobile | source/CheapestTour.c:143-152 | the pair the full scan over positions 1..n-1 leaves in largestMobile and largestMobileIndex; a specification function without a contract of its own, characterised by LargestMobileCharacterised |
| Sjt.LargestMobileCharacterised | source/CheapestTour.c:143-152 | the scan returns 0 exactly when nothing is mobile; otherwise a mobile value at the returned position, strictly larger than every other mobile value |
| Sjt.Mobile | source/CheapestTour.c:145-147 | a mobile position is in 1..n-1 and faces a neighbour at a position from 1 to n-1, so city 0 never moves |
| Sjt.Move | source/CheapestTour.c:155-169 | the moved value lands at the position it faced, the smaller neighbour takes its place, every other value stays, and the state keeps its shape |
| Sjt.Step | source/CheapestTour.c:143-169 | a step keeps the state's shape, and when the scan finds a mobile value the permutation changes |
| Sjt.Swap | source/CheapestTour.c:155-162 | the two entries are exchanged and every other entry is unchanged |
| Sjt.FlipAbove | source/CheapestTour.c:165-169 | the flipped direction list has the same length and holds only LEFT and RIGHT |
| Sjt.SwapCommutes | source/CheapestTour.c:155-157 | exchanging positions i and j is the same as exchanging j and i |
| Sjt.SwapPermutation | source/CheapestTour.c:155-157 | exchanging two entries of a permutation gives a permutation |
| Sjt.MoveValid | source/CheapestTour.c:155-169 | moving a mobile value keeps the state a permutation with city 0 first and flags LEFT or RIGHT |
| Sjt.MoveShaped | source/CheapestTour.c:155-169 | moving a mobile value keeps both arrays' lengths, the flags and the value range |
| Sjt.StepShaped | source/CheapestTour.c:143-169 | a step keeps both arrays' lengths, the flags and the value range |
| Sjt.StepValid | source/CheapestTour.c:143-169 | a step keeps the state a permutation of the cities with p[0] = 0 and every flag LEFT or RIGHT |
| Sjt.MoveSwapsAdjacent | source/CheapestTour.c:145-157 | moving a mobile value exchanges two adjacent positions, both at least 1, and the value lands at the position it faced |
| Sjt.StepSwapsAdjacent | source/CheapestTour.c:143-157 | a step from a state with a mobile value exchanges two adjacent positions, both at least 1, and moves the largest mobile value one place in its direction |
| Sjt.MoveDirections | source/CheapestTour.c:159-169 | after a move each flag is still with its value, reversed exactly when the value exceeds the moved one |
| Sjt.StepDirections | source/CheapestTour.c:159-169 | after a step each flag is still with its value, reversed exactly when the value exceeds the largest mobile value |
| Sjt.State | source/CheapestTour.c:120-170 | every generated state has n entries in both arrays, flags LEFT or RIGHT and values in range |
| Sjt.StateValid | source/CheapestTour.c:120-170 | every generated state is a permutation of the cities with city 0 first |
| Sjt.InitArrangement | source/CheapestTour.c:120-124 | p becomes the identity and every flag LEFT, which is the generator's first state |
| Sjt.FindLargestMobile | source/CheapestTour.c:143-152 | the loop returns the scan's pair; the value is 0 exactly when nothing is mobile; otherwise the position is mobile and holds the value, and no mobile value is larger |
| Sjt.ScanArrays | source/CheapestTour.c:143-152 | the array loop computes the sequence scan over positions 1..n-1 |
| Sjt.SwapMobile | source/CheapestTour.c:155-162 | both arrays have their entries at the two positions exchanged, so the flag moves with its value |
| Sjt.FlipLarger | source/CheapestTour.c:165-169 | the flag of every position from 1 on whose value exceeds m is reversed, and no other flag changes |
| Sjt.ApplyMove | source/CheapestTour.c:155-169 | the arrays end in the state the move specifies |
| Sjt.Advance | source/CheapestTour.c:142-169 | from a valid state with a mobile value, the arrays end in the generator's next state |
| CheapestTour.Fact | source/CheapestTour.c:79-89 | n! is at least 1 |
| CheapestTour.FactStep | source/CheapestTour.c:84-86 | n! is at least (n-1)! |
| CheapestTour.FactMonotone | source/CheapestTour.c:79-89 | the factorial grows with its argument |
| CheapestTour.FactFitsUpTo12 | source/CheapestTour.c:79-89 | 12! fits in a 32-bit int and 13! does not |
| CheapestTour.Factorial | source/CheapestTour.c:79-89 | the accumulator loop returns n! (1 for n <= 1), and for n <= 12 the result fits a 32-bit int |
| CheapestTour.CycleCost | source/CheapestTour.c:128-132 | the cost is the closed cycle's path cost: each position is followed by the next and the last by position 0 |
| CheapestTour.Keep | source/CheapestTour.c:135 | the result is the kept one or the candidate; an empty keep (cost INFINITE) always takes the candidate; otherwise the cost never rises, and a candidate that is not strictly cheaper leaves the kept result as it is |
| CheapestTour.Best | source/CheapestTour.c:134-140 | before any candidate the kept tour is empty; afterwards the kept cost is at most the latest candidate's cost |
| CheapestTour.BestAppend | source/CheapestTour.c:134-140 | pricing one more candidate is one more retention step |
| CheapestTour.BestIsCandidate | source/CheapestTour.c:134-140 | after at least one candidate, the kept result is one of the candidates |
| CheapestTour.BestIsFirstCheapest | source/CheapestTour.c:134-140 | when no candidate costs 0, the kept result is the first candidate of least cost: ties go to the earlier one |
| CheapestTour.ZeroCostIsOverwritten | source/CheapestTour.c:107 | with costs that are never negative, a candidate of cost 0 is kept but the very next candidate replaces it, whatever it costs |
| CheapestTour.CandidatesNonNegative | source/CheapestTour.c:128-132 | on a matrix without negative costs every priced candidate costs at least 0 |
| CheapestTour.ZeroPricedIsOverwritten | source/CheapestTour.c:134-140 | on such a matrix a generated permutation whose cycle costs 0 is kept when priced and replaced by the very next one |
| CheapestTour.Priced | source/CheapestTour.c:128-132 | round k's pricing: the k-th generated permutation with the cost of its closed cycle; a specification function without a contract of its own, whose partner is CycleCost |
| CheapestTour.Candidates | source/CheapestTour.c:126-132 | the first k generated permutations, priced, in generation order; a specification function without a contract of its own, whose partners are CandidatesGrow and CandidatesNonNegative |
| CheapestTour.CandidatesGrow | source/CheapestTour.c:126-132 | generating one more permutation appends it, priced, to the candidate list |
| CheapestTour.KeptIsClosedTour | source/CheapestTour.c:134-140 | after at least one candidate, the kept tour is a permutation starting at city 0 and the kept cost is its cycle's cost |
| CheapestTour.ClosingKeptTour | source/CheapestTour.c:173 | writing the first city after the kept permutation gives a closed tour whose cost is the kept cost |
| CheapestTour.CopyTour | source/CheapestTour.c:137-139 | the first n entries of the result tour become the permutation, and its last entry is left untouched |
| CheapestTour.NotStuckAt | source/CheapestTour.c:143-152 | every state the search prices has a mobile value |
| CheapestTour.PriceAndAdvance | source/CheapestTour.c:127-169 | one round moves the arrays from state i to state i + 1 and the kept cost and tour from the best of i candidates to the best of i + 1, leaving the result tour's last entry untouched |
| CheapestTour.SearchArrangements | source/CheapestTour.c:120-173 | after count rounds the result is the retention rule's choice among the first count priced states, closed with city 0, a closed tour whose cost is its own path cost |
| CheapestTour.GetOptimalTour | source/CheapestTour.c:95-176 | with factorial(n-1)/2 rounds the result is the retention rule's choice among that many generated permutations, a closed tour starting and ending at 0 whose cost is its path cost |
| FourCityExample.ExampleStates | source/CheapestTour.c:120-169 | on four cities the generator produces 0123, 0132 and 0312, each with a mobile value |
| FourCityExample.CycleCost4 | source/CheapestTour.c:128-132 | a closed four-city cycle costs the sum of its four legs |
| FourCityExample.ExampleCandidates | source/CheapestTour.c:128-132 | those three permutations cost 95, 80 and 95 on the example matrix |
| FourCityExample.FourStuck | source/CheapestTour.c:115 | the generator is never stuck in the 3 = 3!/2 rounds the search runs on four cities |
| FourCityExample.FourBest | source/CheapestTour.c:134-140 | the retention rule keeps the 80-cost permutation 0132 |
| FourCityExample.FourCityRun | source/CheapestTour.c:95-176 | on the example matrix the exhaustive engine returns cost 80 with tour 0-1-3-2-0 |
| ThreeCityExample.FirstRound | source/HeuristicTour.c:197-223 | from [0] the first Prim round settles on the edge 0-1 of cost 1 |
| ThreeCityExample.SecondRound | source/HeuristicTour.c:197-223 | from [0, 1] the second round settles on 0-2 of cost 2, which beats 1-2 of cost 9 |
| ThreeCityExample.ExampleTree | source/HeuristicTour.c:191-235 | Prim's loop grows the tree 0-1, 0-2 and includes the cities in the order 0, 1, 2 |
| ThreeCityExample.ExampleMatrix | source/HeuristicTour.c:233-234 | that tree joins 0 with 1 and 0 with 2 and nothing else |
| ThreeCityExample.ExampleWalk | source/HeuristicTour.c:93-140 | the walk from 0 is 0, 1, 0, 2, 0: neighbour 1 is tried before neighbour 2 |
| ThreeCityExample.ExampleShortcut | source/HeuristicTour.c:249-265 | shortcutting that walk gives 0, 1, 2, 0 |
| ThreeCityExample.ExampleCost | source/HeuristicTour.c:258-260 | the tour 0-1-2-0 costs 1 + 9 + 2 = 12 on the example matrix |
| ThreeCityExample.ThreeCityRun | source/HeuristicTour.c:147-268 | on the example matrix the heuristic builder returns cost 12 with tour 0-1-2-0, and no other result |
| GeneratorExamples.StepFrom | source/CheapestTour.c:143-169 | from a known state whose scan settles on position i, the next generated state is the move at i, and the state has a mobile value |
| GeneratorExamples.ThreeNeverStuck | source/CheapestTour.c:115 | on three cities the single round the search takes starts from a state with a mobile value |
| GeneratorExamples.FiveNeverStuck | source/CheapestTour.c:115 | on five cities none of the 4!/2 = 12 states the search prices is stuck |
| GeneratorExamples.FiveStates | source/CheapestTour.c:126-169 | each of the first twelve five-city states has a mobile value |

## Left out

- The matrix loaders, loadCitiesFromFile in both files, are left out because they do file I/O. The model takes the matrix as a parameter.
- `main` in both files is left out. It parses the command line and prints the result.
- `malloc` and freeing are not modelled. The linked vertex lists are sequences, and the leaked memory does not affect the result.
- Integer width: costs and sums are unbounded integers. The model does not capture 32-bit overflow of tour costs.
  - `factorial`'s overflow is not modelled either. Instead GetOptimalTour requires n <= 13, and FactFitsUpTo12 shows that is the largest size at which `factorial(n-1)` fits.
- Undefined-behaviour paths are excluded by preconditions rather than modelled:
  - HeuristicTour.GetHeuristicTour requires n >= 2 and every off-diagonal entry non-zero. Otherwise a Prim round could find no edge and read the unset new vertex, and with n = 1 the tour's second entry is never written.
  - CheapestTour.GetOptimalTour requires n >= 3. For n <= 2 the count factorial(n-1)/2 is 0, so the result tour is never written before it is read.
- CheapestTour.GetOptimalTour: its precondition NeverStuck requires that each of the (n-1)!/2 generated states has a mobile value.
  - The source would otherwise swap at an uninitialised or stale largestMobileIndex (see Sjt.Step below).
  - This holds for the Steinhaus-Johnson-Trotter order. The model proves it for three, four and five cities (GeneratorExamples.ThreeNeverStuck, FourCityExample.FourStuck, GeneratorExamples.FiveNeverStuck), not in general.
- CheapestTour.GetOptimalTour is not claimed to return the cheapest tour overall. The header comment says the first (n-1)!/2 permutations hold one tour per start city and direction, and that claim is not proved.
  - Its contract states the tour the retention rule keeps among the permutations actually priced.
  - BestIsFirstCheapest shows that this is the first of least cost when no candidate costs 0.
- Sjt.Step returns the state unchanged when nothing is mobile, which is not what the source does in that case:
  - largestMobileIndex (source/CheapestTour.c:101) is assigned only when a mobile value is found (:147-150).
  - In the first round with nothing mobile the swap at :155-162 reads an uninitialised index.
  - In a later such round it swaps at the index left from the previous round, and then reverses the flag of every position from 1 on, since every value there exceeds largestMobile = 0 (:165-169).
  - The model does not capture either behaviour. Under NeverStuck, which GetOptimalTour requires, the search never takes such a step.
- HeuristicTour.ShortcutWalk clears the visited array by allocating a fresh one. The source reuses the array from the walk after clearing it, and the two are the same for the result.
- HeuristicTour.BuildSpanningTree does not claim the tree is a minimum spanning tree. It states the per-round greedy choice. No approximation bound of the heuristic is claimed.
