# Dijkstra on a grid map, in Dafny

A model of `dijstra_gridmap.cc`, the Boost Graph Library example that runs
Dijkstra's single-source shortest paths over a six-cell grid. The model covers
three pieces of that program's `main`:

- **Graph.** The graph is built from an edge list with non-negative integer
  weights (`Graphs`).
  - Boost iterates the edges of an `adjacency_list<listS, vecS, directedS>`
    vertex by vertex, taking each vertex's out-edges in insertion order.
  - `EdgeOrder` models that order. It is proved to be a permutation of the
    edge list that keeps each vertex's edges in their original order and is
    sorted by source.
- **Solver.** `dijkstra_shortest_paths` is called with a predecessor map and a
  distance map (`Dijkstra`). `Solve` is Dijkstra's algorithm with an O(V²)
  frontier.
  - Initially the source has distance 0, every other vertex has `Inf`, and
    every vertex is its own predecessor.
  - A vertex's entries change only on a strict improvement, `d[u] + w < d[v]`.
  - Its result is proved to have the solver's shape (`SolverResult`) and to
    match a reference definition of shortest distances over all walks
    (`ShortestDistances`).
- **Route.** The route is rebuilt by the loop `current = p[current]`, which
  runs from the goal back to the start and is then reversed
  (`PathReconstruction`, `Route`).
- **DOT text.** The program writes a DOT file in which every edge is labelled
  with its weight. Edge `u -> v` is black exactly when its source is the
  predecessor recorded for its target (`p[v] == u`), and grey otherwise
  (`Decimal`, `DotExport`). Only the endpoints are compared, so every
  parallel edge from that predecessor is black too, whatever its weight.
  - The text is produced exactly, character for character. For the program's
    grid the whole file is stated literally (`GridExportText`).
  - A reader for it is proved to recover every edge, in iteration order, with
    its endpoints, weight and colour.

`GridInput` and `GridExample` model the program's own scenario:

- six cells, of which cell 1 is an obstacle;
- the moves `0->3`, `2->5`, `3->4`, `4->5`, `5->2`, each of weight 1;
- source cell 0 and goal cell 2.

The solved scenario has these distances and predecessors (cell 1 is unreachable):

| cell | 0 | 1 | 2 | 3 | 4 | 5 |
|---|---|---|---|---|---|---|
| distance | 0 | `Inf` | 4 | 1 | 2 | 3 |
| predecessor | 0 | 1 | 5 | 0 | 3 | 4 |

It also gives the route `0 3 4 5 2` and a DOT file in which only `2->5` is grey.

Infinity is the constructor `Dist.Inf`, where Boost writes `INT_MAX` into the
distance vector. Weights and distances are unbounded naturals.

For a goal that was never reached, the program's reconstruction loop never
ends. The model keeps that behaviour as written and also gives a corrected
reconstruction that reports `Unreachable` (see Findings).

## Model

| member | source | states |
|---|---|---|
| Graphs.EdgeOrder | dijstra_gridmap.cc:125-126 | every edge `edges(g)` yields is an edge of the list the graph was built from; the order itself is stated by the four lemmas below |
| Graphs.OutEdgesMembers | dijstra_gridmap.cc:63 | the out-edge list a vertex gets in the adjacency list holds exactly the listed edges leaving that vertex |
| Graphs.EdgeOrderPermutation | dijstra_gridmap.cc:125-126 | `edges(g)` visits every edge of a valid graph exactly as many times as the edge list holds it (multiset equality) |
| Graphs.EdgeOrderStable | dijstra_gridmap.cc:125-126 | `edges(g)` lists each vertex's out-edges in insertion order |
| Graphs.EdgeOrderSorted | dijstra_gridmap.cc:125-126 | `edges(g)` visits the edges grouped by ascending source vertex |
| Graphs.EdgeOrderOfSorted | dijstra_gridmap.cc:125-126 | an edge list already sorted by source is visited in exactly its own order |
| Dijkstra.Solve | dijstra_gridmap.cc:72-74 | the distance and predecessor vectors are complete and correct. The source has distance 0 and is its own predecessor. Each unreached vertex has `Inf` and is its own predecessor. Each reached vertex hangs off a graph edge from its predecessor that accounts for its distance. Every edge out of a reached vertex is relaxed. Every predecessor chain of a reached vertex arrives at the source. The distances are the least walk costs, with `Inf` exactly where no walk arrives |
| Dijkstra.SolverResultIsShortest | dijstra_gridmap.cc:72-74 | any distance/predecessor pair of the solver's shape holds the least cost over all walks from the source, and `Inf` exactly for vertices no walk reaches |
| Dijkstra.LowerBound | dijstra_gridmap.cc:72-74 | no walk from the source is cheaper than the recorded distance of its end, and its end is reached |
| Dijkstra.TreeWalk | dijstra_gridmap.cc:72-74 | following predecessors from a reached vertex gives a walk whose cost is that vertex's distance |
| Dijkstra.DistancesUnique | dijstra_gridmap.cc:72-74 | two results of the solver's shape from the same source have the same distance vector, so solving again changes no distance |
| Dijkstra.NearestUnsettled | dijstra_gridmap.cc:72-74 | the frontier's extract-minimum returns an unsettled reached vertex whose distance is at most that of every other unsettled reached vertex, or none when every unsettled vertex is at `Inf` |
| Dijkstra.Relax | dijstra_gridmap.cc:72-74 | relaxing edge `u -> v` changes `d[v]` (to `d[u] + w`, with `p[v] := u`) if and only if that strictly improves it. It touches no other entry and leaves the edge relaxed |
| Dijkstra.RelaxOutEdges | dijstra_gridmap.cc:72-74 | relaxing all out-edges of the newly settled vertex keeps the frontier invariant and leaves every settled entry unchanged. Afterwards every edge out of a settled vertex is relaxed |
| Dijkstra.Settle | dijstra_gridmap.cc:72-74 | settling the nearest unsettled reached vertex keeps the frontier invariant, with its distance as the new bound |
| PathReconstruction.Reconstruct | dijstra_gridmap.cc:94-112 | the route exists if and only if the predecessor walk from the goal meets the start; otherwise the result is `Unreachable`. The route runs from start to goal with `p[b] == a` for each consecutive pair, never repeats the start, and is no longer than the vertex count. If goal equals start the route is exactly `[start]` |
| PathReconstruction.Follow | dijstra_gridmap.cc:97 | after any number of rounds of `current = p[current]`, `current` still names a vertex, so the lookup `p[current]` stays in range |
| PathReconstruction.FollowStep | dijstra_gridmap.cc:97 | one more round of the loop moves `current` to the predecessor of where it was |
| PathReconstruction.Reverse | dijstra_gridmap.cc:105-112 | the reverse iteration yields the collected vertices back to front |
| PathReconstruction.FollowFixed | dijstra_gridmap.cc:94-98 | once `current` sits on a vertex that is its own predecessor, the loop leaves it there forever |
| PathReconstruction.ReachesWithin | dijstra_gridmap.cc:94-98 | a predecessor walk that ever meets a vertex meets it within fewer steps than there are vertices |
| PathReconstruction.NeverReaches | dijstra_gridmap.cc:94-98 | a walk that misses a vertex in its first `|p|` steps never meets it |
| PathReconstruction.ChainIsWalk | dijstra_gridmap.cc:94-100 | the route, read from the end, is the sequence of values `current` takes in the loop |
| PathReconstruction.ChainUnique | dijstra_gridmap.cc:94-100 | the predecessor vector determines the route from start to goal uniquely |
| Route.ReachedGoalHasRoute | dijstra_gridmap.cc:94-98 | for a goal the solver reached, the walk from the goal meets the source, so the loop ends |
| Route.UnreachedGoalHasNoRoute | dijstra_gridmap.cc:94-98 | for an unreached goal other than the source, the walk never meets the source, so the loop never ends |
| Route.RouteIsShortest | dijstra_gridmap.cc:94-100 | the route for a goal is a walk along graph edges, one per step, costing the goal's distance, and no walk to the goal costs less |
| Decimal.FromNat | dijstra_gridmap.cc:130-131 | a number is written as a non-empty run of decimal digits with no leading zero |
| Decimal.ValueFromNat | dijstra_gridmap.cc:130-131 | the digits written for a number denote that number |
| Decimal.ParseFromNat | dijstra_gridmap.cc:130-131 | reading a numeral back from the front of the text recovers the number and the rest of the text |
| Decimal.FromNatInjective | dijstra_gridmap.cc:130-131 | different numbers are written differently |
| DotExport.Export | dijstra_gridmap.cc:119-138 | the file starts with the fixed preamble and ends with the closing brace |
| DotExport.ColourRoundTrip | dijstra_gridmap.cc:132-135 | the black and grey colour attributes are told apart by a reader |
| DotExport.AttributesRoundTrip | dijstra_gridmap.cc:130-136 | a reader recovers the weight label and the colour from an edge's attribute list |
| DotExport.DeclarationRoundTrip | dijstra_gridmap.cc:130-136 | a reader recovers source, target, weight and colour from one edge declaration |
| DotExport.DeclarationsSnoc | dijstra_gridmap.cc:125-137 | the edge loop's text for a list of edges is its text for all but the last edge with the last edge's declaration appended, so each pass writes exactly one declaration after those already written |
| DotExport.DeclarationsRoundTrip | dijstra_gridmap.cc:125-138 | a reader recovers every declaration, in order, from the concatenated declarations and the closing brace |
| DotExport.ExportRoundTrip | dijstra_gridmap.cc:119-138 | the file holds exactly one declaration per edge, in `edges(g)` order, with the edge's endpoints and weight. Each is black if and only if `p[v] == u`, grey otherwise |
| DotExport.ParallelEdgesShareColour | dijstra_gridmap.cc:132-135 | the colour test compares endpoints only: declarations of parallel edges (same source and target, any weights) get the same colour |
| GridExample.GridSolution | dijstra_gridmap.cc:56-74 | on the grid from cell 0 the only possible result is distances `0, Inf, 4, 1, 2, 3` and predecessors `0, 1, 5, 0, 3, 4` |
| GridExample.GridEdgeOrder | dijstra_gridmap.cc:125-126 | the grid's moves are visited in the order they were listed |
| GridExample.GridRoute | dijstra_gridmap.cc:87-100 | the route to cell 2 is `0, 3, 4, 5, 2` |
| GridExample.GridDot | dijstra_gridmap.cc:119-138 | the grid's DOT file declares the five moves in order, all black except `2->5` |
| GridExample.Move03Text | dijstra_gridmap.cc:130-135 | the tree move `0->3` is written as `0 -> 3[label="1", color="black"]` |
| GridExample.Move25Text | dijstra_gridmap.cc:130-135 | the non-tree move `2->5` is written as `2 -> 5[label="1", color="grey"]` |
| GridExample.Move34Text | dijstra_gridmap.cc:130-135 | the tree move `3->4` is written as `3 -> 4[label="1", color="black"]` |
| GridExample.Move45Text | dijstra_gridmap.cc:130-135 | the tree move `4->5` is written as `4 -> 5[label="1", color="black"]` |
| GridExample.Move52Text | dijstra_gridmap.cc:130-135 | the tree move `5->2` is written as `5 -> 2[label="1", color="black"]` |
| GridExample.GridDeclarationsText | dijstra_gridmap.cc:125-137 | the edge loop writes the five moves' declarations one after another, character for character |
| GridExample.GridExportText | dijstra_gridmap.cc:119-138 | the grid's whole DOT file is the preamble, the five declarations in insertion order and the closing brace, character for character |
| GridExample.ObstacleLoopNeverExits | dijstra_gridmap.cc:94-98 | with the obstacle cell 1 as goal, `current` stays on cell 1 after any number of rounds and never meets the start |
| GridExample.RunGrid | dijstra_gridmap.cc:56-138 | solving the program's scenario gives those distances and predecessors, the route `0, 3, 4, 5, 2`, and exactly the DOT text above, which reads back as the five declarations |
| GridExample.RunObstacle | dijstra_gridmap.cc:94-98 | the corrected reconstruction reports the obstacle cell as `Unreachable` |

## Left out

- Console output of distances, parents and the route (`dijstra_gridmap.cc:76-83`, `104-114`). This is formatting only. The reversed route that gets printed is `Reconstruct`'s result.
- Opening, writing and closing the DOT file (`dijstra_gridmap.cc:117`, `140`). The file's content is the string `Export` returns.
- The `Position` struct and the `GridMap` literal (`dijstra_gridmap.cc:19-43`). Only the vertex count `grid.size()` is used.
- Property maps and the adjacency-list plumbing. These are library mechanism. The model uses an edge sequence and vectors indexed by vertex.
- The weight vector is sized with `sizeof(edge_array)` (`dijstra_gridmap.cc:59`). Only the first `num_arcs` entries are read, so every edge has weight 1 as listed.
- Dijkstra.Solve: Boost's 4-ary heap (`d_ary_heap_indirect`) is replaced by a linear scan that picks the lowest-numbered vertex among equal distances. The library leaves ties unspecified. Distances do not depend on the choice (`DistancesUnique`). Predecessors can, when two shortest routes tie.
- Dijkstra.Solve: `int` overflow of distances and the `INT_MAX` sentinel are not modelled. Distances are unbounded naturals and infinity is `Inf`.
- Dijkstra.Solve: `main` does no input validation. Edges with out-of-range endpoints are excluded by the precondition `Valid(g)`. The library's `negative_edge` exception for a negative weight is not modelled, because weights are `nat`.

## Findings

| source | as written | input that shows it | evidently intended | confidence | as-written member | corrected member |
|---|---|---|---|---|---|---|
| dijstra_gridmap.cc:94-98 | `while (current != start)` follows predecessors with no bound. For a goal the solver never reached, `p[goal] == goal != start`, so the loop never exits; each pass pushes onto `path`, which grows until allocation fails. | the program's grid with goal cell 1 (the obstacle) instead of cell 2 | report that the goal is unreachable and stop | not executed; certain for that input, but the program as shipped only asks for cell 2 | GridExample.ObstacleLoopNeverExits | PathReconstruction.Reconstruct (shown on that input by GridExample.RunObstacle) |
