# Emergency map: verified model of the route search

This project models the part of the emergency map application that chooses
where an ambulance goes and by which roads. It covers five pieces:

- **Dijkstra's search** (`dijkstra`). It computes, from a start
  intersection, the distance to every node of the road graph and a
  predecessor table. It then chooses the nearest hospital.
- **A\* search** (`aStar`). It stops at the first hospital it takes off its
  open set. It orders the open set by the distance so far plus a heuristic
  estimate to the nearest hospital (`heuristic`).
- **Snapping** (`findClosestNode`). It picks the intersection closest to a
  clicked point.
- **Route read-back** (`reconstructPath`). It reads a route out of a
  predecessor table.
- **Benchmark helper** (`findClosestHospitalFromDistances`). It repeats the
  hospital choice over Dijkstra's distances.

## Modelling choices

- **Tables and keys.** The graph and the node table are JavaScript objects
  keyed by node-id strings. Each is modelled as a `Table`: a map plus the
  key order `Object.keys` returns.
  - Node ids are integers, one per distinct id string.
  - Two strings matter to the code and get fixed codes: `"null"`, which a
    `null` id becomes when it indexes an object, and `""`, the one falsy
    string.
- **Priority queue.** It is a multiset of `{node, priority}` entries. A
  dequeue takes any entry of least priority.
- **Distances.** A distance is a natural number or Infinity. Edge weights
  are natural numbers.
- **Errors.** A `TypeError` from reading a property of `undefined` is the
  `Threw` outcome. In `dijkstra` that is iterating `graph[x]` for a missing
  `x`. In `aStar` it is `nodes[x].type` or `nodes[x].coordinates` for a
  missing `x`.
- **Shared relaxation step.** The two searches run the same step
  (`Frontiers.RelaxEdge`), differing only in the priority they queue:
  - Dijkstra queues the new distance (an estimate of 0 everywhere);
  - A\* queues the new distance plus the neighbour's `hScore`.

  The search loops are methods over these tables. Their loop invariants
  are proved to hold, and the loops are proved to terminate: each turn
  lowers the count of infinite distances, the sum of finite ones, or the
  queue size.
- **Heuristic as written.** The model follows the code. Its second term is
  `(coord1[1] - coord1[1]) ** 2`, which is always 0, so the heuristic is
  the latitude difference alone (`Heuristics.HeuristicIgnoresLongitude`).
  The application's description calls it a Euclidean distance.
- **Square roots.** Both `findClosestNode` and the heuristic compare square
  roots. The model compares squared distances, which order points the same
  way. `Heuristics.Heuristic` is the exact integer root, since the latitude
  difference squared is a perfect square.

## Model

| member | source | states |
|---|---|---|
| Relaxation.InitScores | src/utils/algorithms/dijkstra.js:14-17 | every graph key gets distance Infinity and predecessor `null`, and no other key is set |
| Relaxation.ScoreKeys | src/utils/algorithms/dijkstra.js:14-19 | the keys the distance table can ever hold: exactly the graph's keys plus the start, without repeats |
| Frontiers.InitFrontier | src/utils/algorithms/dijkstra.js:13-19 | after initialisation only the start has a finite distance (0), every predecessor is `null`, and the queue holds the start entry alone (same as astar.js:16-25) |
| MinQueue.Dequeue | src/utils/algorithms/dijkstra.js:23 | the entry taken off has no smaller priority than any other queued entry, and the queue loses exactly that entry |
| Frontiers.RelaxEdge | src/utils/algorithms/dijkstra.js:30-36 | after relaxing edge `u→v`, `v`'s distance is at most `u`'s plus the weight; `u`'s distance and the table's keys do not change |
| Frontiers.RelaxFirst | src/utils/algorithms/dijkstra.js:29-37 | relaxing the first `n` edges of `u` keeps the key set and `u`'s own distance |
| Frontiers.RelaxFirstLowers | src/utils/algorithms/dijkstra.js:32-33 | relaxation never raises a distance |
| Frontiers.RelaxFirstKeepsPrevious | src/utils/algorithms/dijkstra.js:32-35 | a node whose distance did not change keeps its predecessor entry |
| Frontiers.RelaxFirstMarks | src/utils/algorithms/dijkstra.js:32-35 | a node whose distance went down now has `u` as predecessor, and an entry with its new priority is queued |
| Frontiers.RelaxFirstGrows | src/utils/algorithms/dijkstra.js:35 | the loop only adds queue entries, and each new entry names a scored node with a finite distance |
| Frontiers.RelaxFirstConsistent | src/utils/algorithms/dijkstra.js:32-35 | every recorded predecessor stays the tail of a graph edge along which the distance grows by at least the weight |
| Frontiers.RelaxFirstRealized | src/utils/algorithms/dijkstra.js:30-34 | every finite distance stays the weight of some walk from the start |
| Frontiers.RelaxFirstRelaxes | src/utils/algorithms/dijkstra.js:29-37 | after the loop over `u`'s edges, no edge out of `u` can lower its target's distance any further |
| Frontiers.RelaxFirstDescends | src/utils/algorithms/dijkstra.js:29-37 | relaxing `u`'s edges either changes nothing or lowers the termination measure (infinite count, then finite sum) |
| Descent.LoweringDescends | src/utils/algorithms/dijkstra.js:32-33 | lowering one distance strictly lowers the termination measure |
| Relaxation.PrevConsistentAfterRelax | src/utils/algorithms/dijkstra.js:32-34 | one successful relaxation keeps every predecessor a graph edge along which the distance grows by at least the weight |
| Frontiers.ExpandShaped | src/utils/algorithms/dijkstra.js:21-38 | expanding a node keeps the table keys as initialised, the start at 0 and the start without predecessor |
| Frontiers.ExpandQueueOk | src/utils/algorithms/dijkstra.js:21-38 | expanding a node keeps every queued entry naming a graph key with a finite distance |
| Frontiers.ExpandScored | src/utils/algorithms/astar.js:28-53 | expanding a node keeps every queued entry naming a scored node with a finite distance |
| Frontiers.ExpandCovered | src/utils/algorithms/dijkstra.js:21-38 | every finite node either has all its edges relaxed or is still queued |
| Frontiers.ExpandRooted | src/utils/algorithms/dijkstra.js:32-34 | the start stays the only finite node without a predecessor |
| Frontiers.ExpandRankedBy | src/utils/algorithms/dijkstra.js:32-35 | when every predecessor ranks below its node by (distance, turn last lowered), expanding a node keeps that true with the lowered nodes stamped with the current turn |
| Frontiers.ExpandRanked | src/utils/algorithms/dijkstra.js:29-37 | expanding a node keeps the predecessor links climbing some rank (same as astar.js:37-53) |
| Frontiers.DrainedIsRelaxed | src/utils/algorithms/dijkstra.js:21 | once the queue is empty, no edge can lower any distance |
| Relaxation.PrevTightWhenRelaxed | src/utils/algorithms/dijkstra.js:21-38 | when no edge can lower a distance, every predecessor edge is tight: distance of the node = distance of the predecessor + weight |
| Relaxation.RelaxedBoundsWalk | src/utils/algorithms/dijkstra.js:21-38 | when every edge is relaxed, a node's distance is at most the distance of a walk's first node plus the walk's weight |
| Dijkstra.RelaxNeighbors | src/utils/algorithms/dijkstra.js:29-37 | the loop over the current node's edges computes exactly the relaxation of all of them, in list order |
| Dijkstra.ExpandKeeps | src/utils/algorithms/dijkstra.js:21-38 | one turn of the main loop keeps the search invariant and lowers the termination measure or shrinks the queue |
| Dijkstra.EarlyStop | src/utils/algorithms/dijkstra.js:26 | the `break` is taken only when the start is falsy or the node `""` exists, and in the first turn only for a falsy start |
| Dijkstra.ThrowsOnlyAtStart | src/utils/algorithms/dijkstra.js:29 | iterating a missing adjacency list can only happen for a start that is not a graph key |
| Dijkstra.InitialInv | src/utils/algorithms/dijkstra.js:14-19 | the initialised tables satisfy the loop invariant |
| Dijkstra.ExitSettles | src/utils/algorithms/dijkstra.js:21-38 | when the loop ends, the tables are settled: keys, start at 0, consistent and tight predecessors that climb a rank (so walking back ends), every finite distance realised by a walk, every edge relaxed |
| Dijkstra.Dijkstra | src/utils/algorithms/dijkstra.js:3-52 | `dijkstra` throws exactly when a truthy start is not a graph key; otherwise it returns settled tables and the nearest hospital by distance, the first in key order among equals |
| Dijkstra.SettledIsShortest | src/utils/algorithms/dijkstra.js:3-38 | each settled distance is the weight of a lightest walk from the start: some walk weighs that much and none weighs less; Infinity means no walk reaches the node |
| Dijkstra.ReadBackTerminates | src/utils/reconstructPath.js:4-7 | on the tables `dijkstra` returns, the walk back through `previous` ends for every target, so `reconstructPath` terminates |
| Dijkstra.RouteIsShortest | src/utils/reconstructPath.js:1-10 | for a reachable node, the read-back on Dijkstra's tables ends, gives the same route for every step bound, starts at the start, follows graph edges, weighs exactly the node's distance, and no walk is lighter |
| HospitalChoice.SelectNearestHospital | src/utils/algorithms/dijkstra.js:40-50 | the chosen node is a hospital of least finite distance, the first such in key order; it is undefined only when no hospital has a finite distance |
| HospitalChoice.NearestHospitalUnique | src/utils/algorithms/dijkstra.js:43-50 | the hospital choice is a function of the distances and the key order: two answers meeting it are equal |
| Benchmark.FindClosestHospitalFromDistances | src/test/benchmark.js:69-81 | returns a hospital of least finite distance, the first such in key order, and `null` only when no hospital has a finite distance |
| Snapping.FindClosestNode | src/utils/findClosestNode.js:1-20 | returns an intersection at least as close as every other, the first such in key order; returns `null` exactly when there is no intersection; an intersection exactly at the point is always found |
| Snapping.ClosestIntersectionUnique | src/utils/findClosestNode.js:6-17 | the closest-intersection choice is unique for a given point and node table |
| Heuristics.Heuristic | src/utils/algorithms/astar.js:59-64 | the heuristic squared equals the code's sum of squares, whose longitude term subtracts the first point's longitude from itself |
| Heuristics.HeuristicIgnoresLongitude | src/utils/algorithms/astar.js:62 | the heuristic does not depend on either point's longitude |
| Heuristics.HeuristicBelowStraightLine | src/utils/algorithms/astar.js:58-64 | the heuristic never exceeds the straight-line distance between the two points (compared squared) |
| Heuristics.HospitalsIn | src/utils/algorithms/astar.js:45-46 | the filter keeps exactly the hospital keys |
| Heuristics.NearestEstimate | src/utils/algorithms/astar.js:44-48 | `Math.min` over the hospitals' heuristics: Infinity for no hospital; otherwise at most every hospital's heuristic and equal to one of them |
| Heuristics.HScore | src/utils/algorithms/astar.js:44-48 | `hScore` returns whenever the neighbour is in the node table |
| Heuristics.HScoreThrows | src/utils/algorithms/astar.js:47 | `hScore` throws exactly when some hospital exists and the neighbour is not in the node table |
| Heuristics.HScoreNearest | src/utils/algorithms/astar.js:44-48 | a returned `hScore` is Infinity exactly when there is no hospital; otherwise it is the least heuristic from the neighbour to a hospital |
| AStar.HEstimates | src/utils/algorithms/astar.js:44-49 | the table of estimates A* adds to a distance agrees with `hScore` wherever `hScore` returns |
| AStar.RelaxEdgeQueuesHScore | src/utils/algorithms/astar.js:49-51 | an A* relaxation queues the neighbour at its new distance plus its `hScore` |
| AStar.RelaxEdgeOrThrow | src/utils/algorithms/astar.js:38-52 | one neighbour: it throws exactly when `tentativeG` is below the neighbour's `gScore` and `hScore` throws; otherwise it is the relaxation with `gScore + hScore` as priority |
| AStar.RelaxNeighbors | src/utils/algorithms/astar.js:37-53 | the loop over `graph[currentNode] \|\| []` throws exactly when some edge, relaxed after the ones before it, lowers its target and makes `hScore` throw (that target is scored but missing from the node table); otherwise it computes the relaxation of all edges |
| AStar.InitialInv | src/utils/algorithms/astar.js:16-25 | the initialised tables satisfy A*'s loop invariant |
| AStar.ExpandKeeps | src/utils/algorithms/astar.js:28-54 | one turn of A*'s loop on a non-hospital keeps the invariant and lowers the termination measure or shrinks the open set |
| AStar.ExpandScreened | src/utils/algorithms/astar.js:37-53 | every hospital with a finite `gScore` stays in the open set until it is taken off |
| AStar.MissingNode | src/utils/algorithms/astar.js:33 | `nodes[currentNode].type` throws only when the start or some graph key is missing from the node table |
| AStar.MissingNeighbour | src/utils/algorithms/astar.js:47 | the heuristic throws only when some graph key is missing from the node table |
| AStar.HospitalFound | src/utils/algorithms/astar.js:32-35 | returning at a dequeued hospital gives a hospital with a finite `gScore` and consistent tables; a hospital start returns in the first turn with itself |
| AStar.Exhausted | src/utils/algorithms/astar.js:55 | an empty open set means every edge is relaxed and no hospital has a finite `gScore` |
| AStar.AStar | src/utils/algorithms/astar.js:3-56 | `aStar` throws for a start missing from the node table. It returns when start and all graph keys are in the node table. A hospital start returns itself at once. A returned target is a hospital with finite `gScore`; `null` means no hospital got one |
| AStar.FindsReachableHospital | src/utils/algorithms/astar.js:28-55 | when some walk leads from the start to a scored hospital, A* returns a hospital, not `null` |
| AStar.ReadBackTerminates | src/utils/reconstructPath.js:4-7 | on the tables `aStar` returns, the walk back through `previous` ends for every target, so `reconstructPath` terminates |
| AStar.RouteWithinScore | src/utils/reconstructPath.js:1-10 | for a found hospital, the read-back on A*'s tables ends, gives the same route for every step bound, starts at the start, follows graph edges, ends at the hospital, and weighs at most its `gScore` |
| PathReconstruction.Reversed | src/utils/reconstructPath.js:9 | `path.reverse()` keeps the length and puts element `i` at position `len - 1 - i` |
| PathReconstruction.Chain | src/utils/reconstructPath.js:4-7 | the nodes met walking back from the target: none for `null`, else starting with the target, at most `n` of them |
| PathReconstruction.ReconstructPath | src/utils/reconstructPath.js:1-10 | the returned path is the walk back through `previous` from the target, reversed |
| PathReconstruction.ChainLinks | src/utils/reconstructPath.js:6 | each node of the walk back is followed by its recorded predecessor, and the last has none |
| PathReconstruction.ChainDistinct | src/utils/reconstructPath.js:4-7 | a walk back that reaches `null` never visits a node twice |
| PathReconstruction.PathShape | src/utils/reconstructPath.js:1-10 | the path is empty exactly for a `null` target. Otherwise it ends at the target and starts at a node without predecessor. Each node's predecessor is the node before it, and no node repeats |
| PathReconstruction.PredecessorWalk | src/utils/reconstructPath.js:6 | a sequence linked by recorded predecessors is a walk of the graph whose weight is at most the distance gained along it, and exactly that when predecessors are tight |
| PathReconstruction.RankedByEnds | src/utils/reconstructPath.js:4-7 | when every predecessor ranks below its node, the walk back from a scored node reaches `null` or `undefined` |
| PathReconstruction.ReadBackEnds | src/utils/reconstructPath.js:4-7 | on ranked tables whose predecessor keys all have distances, the walk back ends for every target, including `null` and ids without an entry |
| PathReconstruction.RouteFromStart | src/utils/reconstructPath.js:1-10 | on either search's tables, the path to a finite node starts at the start and is a walk of weight at most the node's distance |

## Left out

- The user interface, map rendering, `fetch` of the graph and node files,
  timing and memory measurement in `runBenchmark`, and console output. They
  do no route computation.
- Floating point. Coordinates are fixed-point integers, weights are natural
  numbers, and `Math.sqrt` comparisons are replaced by comparisons of
  squares.
- Strings as ids. An id is an integer standing for its string; only `"null"`
  and `""` are singled out.
- Internals and tie order of `MinPriorityQueue`. The model lets a dequeue
  return any entry of least priority, so every property holds whichever
  tie the library breaks.
- `PathReconstruction.ReconstructPath`: requires that the walk back ends
  within `n` steps, because `reconstructPath` loops forever on a cycle of
  predecessors. For the tables either search returns, this is proved by
  `Dijkstra.ReadBackTerminates` and `AStar.ReadBackTerminates`.
- `PathReconstruction.RouteFromStart`: takes the same step bound as a
  hypothesis, since it is stated for any tables of the right shape. The
  search-specific `Dijkstra.RouteIsShortest` and `AStar.RouteWithinScore`
  prove it.
- `fScore` table. A\*'s `fScore` is only written and read back at once as
  the queued priority, so the model queues that priority and keeps no
  `fScore` table.
- A\* optimality. The heuristic as written is not a lower bound on road
  distance, so a first-found hospital need not be the nearest by road, and
  the model does not claim that it is. It proves the returned hospital
  reachable and its route a real walk. It also proves that `null` means no
  hospital with an adjacency entry (or the start itself) is reachable from
  the start.
- Nodes without an adjacency entry. Both searches score only the keys of
  the graph and the start. A node reached by an edge but missing from the
  graph has `undefined` as its score, and `newDist < undefined` is false
  (dijkstra.js:32, astar.js:40). So such a node is never scored, never
  queued and never chosen. A hospital that is only the target of edges is
  invisible to both searches: `dijkstra` reports no target for it and
  `aStar` returns `null`. The model reproduces this; `Frontiers.RelaxEdge`
  leaves a target without a distance unchanged.
- `Dijkstra.Dijkstra`: shortest distances are guaranteed only when the
  start is truthy and no node is named `""`. A dequeued `""` entry stops
  the search early, so only the invariant's weaker facts are stated for
  that case.
- `AStar.AStar`: a non-hospital start that is in the node table is proved
  to return only when every graph key is also in the node table. Otherwise
  a missing neighbour or node may throw, and the model states only that a
  throw then has such a missing key behind it.
