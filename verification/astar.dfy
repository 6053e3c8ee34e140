/** A* search from a start node towards the nearest hospital. It runs the
    relaxation loop Dijkstra's search runs, with two differences: a queued
    node's priority is its tentative distance plus the heuristic estimate to
    the nearest hospital, and the search stops at the first hospital it takes
    off the queue. */
module AStar {
  import opened RoadGraph
  import opened MinQueue
  import opened Descent
  import opened Relaxation
  import opened Heuristics
  import opened Frontiers
  import opened PathReconstruction

  /** `est` gives each node the priority estimate A* computes for it,
      wherever that computation returns. */
  ghost predicate IsHEstimate(nodes: NodeTable, est: Estimate)
    requires nodes.Valid()
  {
    forall v | HScore(nodes, v).Returned? :: EstimateAt(est, v) == HScore(nodes, v).value
  }

  /** The queue-priority estimates of A*: each node's `hScore`, and
      Infinity for nodes outside the node table, where `hScore` is Infinity
      whenever it does not throw. */
  function HEstimates(nodes: NodeTable): (est: Estimate)
    requires nodes.Valid()
    ensures IsHEstimate(nodes, est)
  {
    var est := Estimate(map v | v in nodes.at :: HScore(nodes, v).value, Inf);
    forall v | HScore(nodes, v).Returned? ensures EstimateAt(est, v) == HScore(nodes, v).value {
      if v !in nodes.at {
        HScoreThrows(nodes, v);
        HScoreNearest(nodes, v);
      }
    }
    est
  }

  /** A relaxation step of A* queues the lowered neighbour at its new
      distance plus its `hScore`. */
  lemma RelaxEdgeQueuesHScore(nodes: NodeTable, est: Estimate, f: Frontier, u: NodeId, e: Edge)
    requires nodes.Valid() && IsHEstimate(nodes, est) && u in f.distances && e.to in f.distances
    requires f.distances[u].Plus(e.weight).Lt(f.distances[e.to]) && HScore(nodes, e.to).Returned?
    ensures var newDist := f.distances[u].Plus(e.weight);
      RelaxEdge(est, f, u, e) ==
        Frontier(f.distances[e.to := newDist], f.previous[e.to := Some(u)],
                 f.pq + multiset{Entry(Some(e.to), newDist.Add(HScore(nodes, e.to).value))})
  {
  }

  /** One pass of the inner loop body for `neighbor`: when `gScore[u] +
      weight` is below the neighbour's `gScore`, the neighbour gets the new
      `gScore`, then its `hScore`, which throws when the neighbour is not in
      the node table while hospitals exist; otherwise it gets `u` as
      predecessor and a queue entry at `gScore + hScore`. */
  method RelaxEdgeOrThrow(nodes: NodeTable, ghost est: Estimate, f: Frontier, u: NodeId, neighbor: Edge) returns (r: Completion<Frontier>)
    requires nodes.Valid() && IsHEstimate(nodes, est) && u in f.distances
    ensures r.Returned? ==> r.value == RelaxEdge(est, f, u, neighbor)
    ensures r.Threw? ==> neighbor.to in f.distances && neighbor.to !in nodes.at
    ensures r.Threw? <==>
      neighbor.to in f.distances && f.distances[u].Plus(neighbor.weight).Lt(f.distances[neighbor.to]) &&
      HScore(nodes, neighbor.to).Threw?
  {
    var gScore, previous, openSet := f.distances, f.previous, f.pq;
    var tentativeG := gScore[u].Plus(neighbor.weight);
    if neighbor.to in gScore && tentativeG.Lt(gScore[neighbor.to]) {
      gScore := gScore[neighbor.to := tentativeG];
      var hScore := HScore(nodes, neighbor.to);
      if hScore.Threw? {
        return Threw;
      }
      previous := previous[neighbor.to := Some(u)];
      openSet := openSet + multiset{Entry(Some(neighbor.to), tentativeG.Add(hScore.value))};
      RelaxEdgeQueuesHScore(nodes, est, f, u, neighbor);
    }
    r := Returned(Frontier(gScore, previous, openSet));
  }

  /** The neighbour whose relaxation throws is a neighbour of `u` with a
      distance that the node table lacks. */
  lemma ThrowingNeighbour(graph: Graph, nodes: NodeTable, est: Estimate, f: Frontier, u: NodeId, j: nat)
    requires u in f.distances && j < |EdgesOf(graph, u)|
    requires var e := EdgesOf(graph, u)[j];
      e.to in RelaxFirst(graph, est, f, u, j).distances && e.to !in nodes.at
    ensures exists e | e in EdgesOf(graph, u) :: e.to in f.distances && e.to !in nodes.at
  {
    var e := EdgesOf(graph, u)[j];
    assert e in EdgesOf(graph, u) && e.to in f.distances;
  }

  /** The `j`-th edge of `u`, relaxed after the edges before it, lowers its
      target's `gScore` and then makes `hScore` throw. */
  ghost predicate ThrowsAt(graph: Graph, nodes: NodeTable, est: Estimate, f: Frontier, u: NodeId, j: nat)
    requires nodes.Valid() && u in f.distances && j < |EdgesOf(graph, u)|
  {
    var g := RelaxFirst(graph, est, f, u, j);
    var e := EdgesOf(graph, u)[j];
    e.to in g.distances && g.distances[u].Plus(e.weight).Lt(g.distances[e.to]) && HScore(nodes, e.to).Threw?
  }

  /** `for (let neighbor of graph[currentNode] || [])`: the edges of `u` are
      relaxed in order until one of them throws. */
  method RelaxNeighbors(graph: Graph, nodes: NodeTable, ghost est: Estimate, u: NodeId, f: Frontier) returns (r: Completion<Frontier>)
    requires nodes.Valid() && IsHEstimate(nodes, est) && u in f.distances
    ensures r.Returned? ==> r.value == RelaxFirst(graph, est, f, u, |EdgesOf(graph, u)|)
    ensures r.Threw? ==> exists e | e in EdgesOf(graph, u) :: e.to in f.distances && e.to !in nodes.at
    ensures r.Threw? <==> exists j | 0 <= j < |EdgesOf(graph, u)| :: ThrowsAt(graph, nodes, est, f, u, j)
  {
    var g := f;
    var edges := EdgesOf(graph, u);
    for j := 0 to |edges|
      invariant g == RelaxFirst(graph, est, f, u, j)
      invariant forall i | 0 <= i < j :: !ThrowsAt(graph, nodes, est, f, u, i)
    {
      RelaxFirstStep(graph, est, f, u, j + 1);
      var step := RelaxEdgeOrThrow(nodes, est, g, u, edges[j]);
      assert step.Threw? <==> ThrowsAt(graph, nodes, est, f, u, j);
      if step.Threw? {
        ThrowingNeighbour(graph, nodes, est, f, u, j);
        return Threw;
      }
      g := step.value;
    }
    r := Returned(g);
  }

  /** Every hospital with a finite distance still has a queue entry: the
      search never expands a hospital, it stops there. */
  ghost predicate Screened(nodes: NodeTable, f: Frontier)
  {
    forall v | v in f.distances && f.distances[v].Fin? && IsHospital(nodes, v) :: v in Queued(f.pq)
  }

  /** The loop invariant. `first` holds until a node has been expanded;
      before that the tables are as initialised and the queue holds the
      start entry alone; after it, the start is known to be a node of the
      table and not a hospital. */
  ghost predicate SearchInv(graph: Graph, nodes: NodeTable, startNode: Option<NodeId>, first: bool, f: Frontier)
  {
    var startKey := KeyOf(startNode);
    Shaped(graph, startKey, f) &&
    PrevConsistent(graph, f.distances, f.previous) &&
    Realized(graph, startKey, f.distances) &&
    Rooted(startKey, f) &&
    Ranked(f.distances, f.previous) &&
    Covered(graph, f) &&
    Scored(f) &&
    Screened(nodes, f) &&
    (first ==> Initial(graph, startKey, f) && f.pq == multiset{Entry(startNode, Fin(0))}) &&
    (!first ==> startKey in nodes.at && !IsHospital(nodes, startKey))
  }

  /** The tables as initialised, with the start entry queued, meet the
      loop invariant. */
  lemma InitialInv(graph: Graph, nodes: NodeTable, startNode: Option<NodeId>, f: Frontier)
    requires Initial(graph, KeyOf(startNode), f) && f.pq == multiset{Entry(startNode, Fin(0))}
    ensures SearchInv(graph, nodes, startNode, true, f)
  {
    var startKey := KeyOf(startNode);
    assert startKey in Queued(f.pq);
    EmptyWalk(graph, startKey);
    assert RankedBy(f.distances, f.previous, map k | k in f.distances :: 0, 1);
  }

  /** One turn of the loop that expands `u`, a node of the table that is not
      a hospital, keeps the invariant and either lowers the termination
      measure or leaves the distances as they were with one queue entry
      fewer. */
  lemma ExpandKeeps(graph: Graph, nodes: NodeTable, est: Estimate, startNode: Option<NodeId>, first: bool, f: Frontier, e: Entry, rest: multiset<Entry>, u: NodeId)
    requires graph.Valid() && SearchInv(graph, nodes, startNode, first, f)
    requires e in f.pq && rest == f.pq - multiset{e} && u == KeyOf(e.node)
    requires u in nodes.at && !IsHospital(nodes, u)
    ensures u in f.distances
    ensures var g := RelaxFirst(graph, est, Frontier(f.distances, f.previous, rest), u, |EdgesOf(graph, u)|);
      var ks := ScoreKeys(graph, KeyOf(startNode));
      SearchInv(graph, nodes, startNode, false, g) &&
      (Below(InfCount(ks, g.distances), FinSum(ks, g.distances), InfCount(ks, f.distances), FinSum(ks, f.distances)) ||
       (g.distances == f.distances && |g.pq| < |f.pq|))
  {
    var startKey := KeyOf(startNode);
    var f0 := Frontier(f.distances, f.previous, rest);
    var n := |EdgesOf(graph, u)|;
    var ks := ScoreKeys(graph, startKey);
    if first {
      assert e == Entry(startNode, Fin(0));
    }
    assert Scored(f0);
    ExpandShaped(graph, est, startKey, f0, u);
    ExpandScored(graph, est, f0, u);
    RelaxFirstConsistent(graph, est, f0, u, n);
    RelaxFirstRealized(graph, est, startKey, f0, u, n);
    ExpandRooted(graph, est, startKey, f0, u);
    ExpandRanked(graph, est, f0, u);
    ExpandCovered(graph, est, startKey, f, e, u);
    ExpandScreened(graph, nodes, est, f, e, u);
    ShapedIsWellKeyed(graph, startKey, f0);
    RelaxFirstDescends(graph, est, ks, f0, u, n);
    assert |rest| < |f.pq|;
  }

  /** Expanding a node that is not a hospital keeps every finite hospital
      queued: a lowered node gets a new entry, and the others keep theirs. */
  lemma ExpandScreened(graph: Graph, nodes: NodeTable, est: Estimate, f: Frontier, e: Entry, u: NodeId)
    requires Screened(nodes, f) && e in f.pq && u == KeyOf(e.node) && !IsHospital(nodes, u)
    requires u in f.distances && f.distances[u].Fin?
    ensures var f0 := Frontier(f.distances, f.previous, f.pq - multiset{e});
      Screened(nodes, RelaxFirst(graph, est, f0, u, |EdgesOf(graph, u)|))
  {
    var f0 := Frontier(f.distances, f.previous, f.pq - multiset{e});
    var n := |EdgesOf(graph, u)|;
    RelaxFirstMarks(graph, est, f0, u, n);
    RelaxFirstGrows(graph, est, f0, u, n);
    RelaxFirstLowers(graph, est, f0, u, n);
    var g := RelaxFirst(graph, est, f0, u, n);
    forall v | v in g.distances && g.distances[v].Fin? && IsHospital(nodes, v)
      ensures v in Queued(g.pq)
    {
      if g.distances[v] != f0.distances[v] {
        var x := Entry(Some(v), g.distances[v].Add(EstimateAt(est, v)));
        assert x in g.pq && KeyOf(x.node) == v;
      } else {
        QueuedAfterRemoval(f.pq, e, v);
        var x :| x in f0.pq && KeyOf(x.node) == v;
        assert x in g.pq;
      }
    }
  }

  /** A dequeued node missing from the node table can only be the start, or
      a graph node missing from it. */
  lemma MissingNode(graph: Graph, nodes: NodeTable, startNode: Option<NodeId>, first: bool, f: Frontier, e: Entry)
    requires SearchInv(graph, nodes, startNode, first, f) && e in f.pq
    requires KeyOf(e.node) !in nodes.at
    ensures KeyOf(startNode) !in nodes.at || exists k | k in graph.at :: k !in nodes.at
  {
  }

  /** A neighbour with a distance that is missing from the node table is a
      graph node missing from it, once the start is known to be in it. */
  lemma MissingNeighbour(graph: Graph, nodes: NodeTable, startNode: Option<NodeId>, f: Frontier, u: NodeId)
    requires Shaped(graph, KeyOf(startNode), f) && KeyOf(startNode) in nodes.at
    requires exists e | e in EdgesOf(graph, u) :: e.to in f.distances && e.to !in nodes.at
    ensures exists k | k in graph.at :: k !in nodes.at
  {
    var e :| e in EdgesOf(graph, u) && e.to in f.distances && e.to !in nodes.at;
    assert e.to in graph.at;
  }

  /** What `aStar` returns: tables of the shape both searches keep, each
      finite distance the weight of a walk from the start, each predecessor
      an edge that led there, and either a hospital with a finite distance as
      target, or `null` as target with every edge relaxed and no hospital at
      a finite distance. */
  ghost predicate Found(graph: Graph, nodes: NodeTable, startNode: Option<NodeId>, res: SearchResult)
  {
    var startKey := KeyOf(startNode);
    var target := KeyOf(res.target);
    Shaped(graph, startKey, Frontier(res.scores, res.previous, multiset{})) &&
    PrevConsistent(graph, res.scores, res.previous) &&
    Realized(graph, startKey, res.scores) &&
    Rooted(startKey, Frontier(res.scores, res.previous, multiset{})) &&
    Ranked(res.scores, res.previous) &&
    ((target in res.scores && IsHospital(nodes, target) && res.scores[target].Fin?) ||
     (res.target == None && AllRelaxed(graph, res.scores) &&
      forall k | k in res.scores && IsHospital(nodes, k) :: res.scores[k].Inf?))
  }

  /** Taking a hospital off the queue ends the search with a result that
      meets `Found`; in the first turn that hospital is the start. */
  lemma HospitalFound(graph: Graph, nodes: NodeTable, startNode: Option<NodeId>, first: bool, f: Frontier, e: Entry)
    requires SearchInv(graph, nodes, startNode, first, f) && e in f.pq
    requires IsHospital(nodes, KeyOf(e.node))
    ensures Found(graph, nodes, startNode, SearchResult(f.distances, f.previous, e.node))
    ensures IsHospital(nodes, KeyOf(startNode)) ==> first && e.node == startNode
  {
    if first {
      assert e == Entry(startNode, Fin(0));
    }
    TablesWithoutQueue(graph, KeyOf(startNode), f);
    assert KeyOf(e.node) in f.distances && f.distances[KeyOf(e.node)].Fin?;
  }

  /** A queue that runs dry ends the search with `null` as target, every
      edge relaxed and no hospital at a finite distance. */
  lemma Exhausted(graph: Graph, nodes: NodeTable, startNode: Option<NodeId>, first: bool, f: Frontier)
    requires SearchInv(graph, nodes, startNode, first, f) && f.pq == multiset{}
    ensures !first
    ensures Found(graph, nodes, startNode, SearchResult(f.distances, f.previous, None))
  {
    DrainedIsRelaxed(graph, f);
    forall k | k in f.distances && IsHospital(nodes, k) ensures f.distances[k].Inf? {
      assert k !in Queued(f.pq);
    }
  }

  /** `aStar(graph, startNode, nodes)`. The result's `scores` are the
      returned `gScore`. */
  method AStar(graph: Graph, startNode: Option<NodeId>, nodes: NodeTable) returns (r: Completion<SearchResult>)
    requires graph.Valid() && nodes.Valid()
    ensures KeyOf(startNode) !in nodes.at ==> r.Threw?
    ensures KeyOf(startNode) in nodes.at && (forall k | k in graph.at :: k in nodes.at) ==> r.Returned?
    ensures IsHospital(nodes, KeyOf(startNode)) ==>
      r.Returned? && r.value.target == startNode &&
      Initial(graph, KeyOf(startNode), Frontier(r.value.scores, r.value.previous, multiset{}))
    ensures r.Returned? ==> Found(graph, nodes, startNode, r.value)
  {
    var f := InitFrontier(graph, startNode);
    InitialInv(graph, nodes, startNode, f);
    ghost var est := HEstimates(nodes);
    var gScore, previous, openSet := f.distances, f.previous, f.pq;
    ghost var ks := ScoreKeys(graph, KeyOf(startNode));
    ghost var first := true;
    while |openSet| > 0
      invariant SearchInv(graph, nodes, startNode, first, Frontier(gScore, previous, openSet))
      decreases InfCount(ks, gScore), FinSum(ks, gScore), |openSet|
    {
      var e, rest := Dequeue(openSet);
      var currentNode := e.node;
      var u := KeyOf(currentNode);
      if u !in nodes.at {
        MissingNode(graph, nodes, startNode, first, Frontier(gScore, previous, openSet), e);
        return Threw;
      }
      if nodes.at[u].kind == Hospital {
        HospitalFound(graph, nodes, startNode, first, Frontier(gScore, previous, openSet), e);
        return Returned(SearchResult(gScore, previous, currentNode));
      }
      ExpandKeeps(graph, nodes, est, startNode, first, Frontier(gScore, previous, openSet), e, rest, u);
      var step := RelaxNeighbors(graph, nodes, est, u, Frontier(gScore, previous, rest));
      if step.Threw? {
        MissingNeighbour(graph, nodes, startNode, Frontier(gScore, previous, rest), u);
        return Threw;
      }
      gScore, previous, openSet := step.value.distances, step.value.previous, step.value.pq;
      first := false;
    }
    Exhausted(graph, nodes, startNode, first, Frontier(gScore, previous, openSet));
    r := Returned(SearchResult(gScore, previous, None));
  }

  /** The search is complete: when some walk from the start reaches a
      hospital with a distance slot, the search found a hospital. */
  lemma FindsReachableHospital(graph: Graph, nodes: NodeTable, startNode: Option<NodeId>, res: SearchResult, ps: seq<NodeId>, es: seq<nat>)
    requires Found(graph, nodes, startNode, res)
    requires IsWalk(graph, ps, es) && ps[0] == KeyOf(startNode)
    requires ps[|ps| - 1] in res.scores && IsHospital(nodes, ps[|ps| - 1])
    ensures KeyOf(res.target) in res.scores && IsHospital(nodes, KeyOf(res.target)) && res.scores[KeyOf(res.target)].Fin?
  {
    var target := KeyOf(res.target);
    if !(target in res.scores && IsHospital(nodes, target) && res.scores[target].Fin?) {
      WalkStaysScored(graph, res.scores, ps, es);
      RelaxedBoundsWalk(graph, res.scores, ps, es);
    }
  }

  /** `reconstructPath(previous, target)` on the tables A* returns ends,
      whatever the target. */
  lemma ReadBackTerminates(graph: Graph, nodes: NodeTable, startNode: Option<NodeId>, res: SearchResult, target: Option<NodeId>) returns (n: nat)
    requires Found(graph, nodes, startNode, res)
    ensures EndsWithin(res.previous, target, n)
  {
    n := ReadBackEnds(res.scores, res.previous, target);
  }

  /** The route `reconstructPath(previous, target)` reads out of a search
      that found a hospital: the read-back ends (within `n` steps), the route
      does not depend on the step bound, starts at the start node, ends at
      that hospital, follows edges of the graph, and weighs no more than the
      hospital's `gScore`. */
  lemma RouteWithinScore(graph: Graph, nodes: NodeTable, startNode: Option<NodeId>, res: SearchResult) returns (n: nat)
    requires Found(graph, nodes, startNode, res) && res.target.Some?
    ensures EndsWithin(res.previous, res.target, n)
    ensures forall m | EndsWithin(res.previous, res.target, m) :: Chain(res.previous, res.target, m) == Chain(res.previous, res.target, n)
    ensures var p := Reversed(Chain(res.previous, res.target, n));
      p != [] && p[0] == KeyOf(startNode) && p[|p| - 1] == res.target.value &&
      IsHospital(nodes, res.target.value) && res.scores[res.target.value].Fin? &&
      exists es :: IsWalk(graph, p, es) && WalkWeight(graph, p, es) <= res.scores[res.target.value].n
  {
    n := ReadBackEnds(res.scores, res.previous, res.target);
    forall m | EndsWithin(res.previous, res.target, m)
      ensures Chain(res.previous, res.target, m) == Chain(res.previous, res.target, n)
    {
      ChainDetermined(res.previous, res.target, res.target, m, n);
    }
    var es := RouteFromStart(graph, KeyOf(startNode), res.scores, res.previous, res.target.value, n);
  }
}
