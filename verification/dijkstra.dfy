/** Dijkstra's search over the whole graph with a lazily updated priority
    queue, followed by the choice of the nearest hospital. */
module Dijkstra {
  import opened RoadGraph
  import opened MinQueue
  import opened Descent
  import opened Relaxation
  import opened HospitalChoice
  import opened Frontiers
  import opened PathReconstruction

  /** Dijkstra's search queues a node at its new distance: the estimate is
      0 everywhere. */
  const NoEstimate := Estimate(map[], Fin(0))

  /** The body of `for (let neighbor of graph[currentNode])`. */
  method RelaxNeighbors(graph: Graph, u: NodeId, f: Frontier) returns (g: Frontier)
    requires u in graph.at && u in f.distances
    ensures g == RelaxFirst(graph, NoEstimate, f, u, |EdgesOf(graph, u)|)
  {
    var distances, previous, pq := f.distances, f.previous, f.pq;
    var edges := graph.at[u];
    for j := 0 to |edges|
      invariant Frontier(distances, previous, pq) == RelaxFirst(graph, NoEstimate, f, u, j)
    {
      var neighbor := edges[j];
      var newDist := distances[u].Plus(neighbor.weight);
      if neighbor.to in distances && newDist.Lt(distances[neighbor.to]) {
        distances := distances[neighbor.to := newDist];
        previous := previous[neighbor.to := Some(u)];
        pq := pq + multiset{Entry(Some(neighbor.to), newDist)};
        assert newDist == newDist.Add(EstimateAt(NoEstimate, neighbor.to));
      }
    }
    g := Frontier(distances, previous, pq);
  }

  /** The loop invariant of the search. `first` holds until a node has been
      expanded; before that the tables are as initialised and the queue holds
      the start entry alone. */
  ghost predicate SearchInv(graph: Graph, startNode: Option<NodeId>, first: bool, f: Frontier)
  {
    Shaped(graph, KeyOf(startNode), f) &&
    PrevConsistent(graph, f.distances, f.previous) &&
    Realized(graph, KeyOf(startNode), f.distances) &&
    Rooted(KeyOf(startNode), f) &&
    Ranked(f.distances, f.previous) &&
    Covered(graph, f) &&
    (Falsy(startNode) ==> first) &&
    (first ==> Initial(graph, KeyOf(startNode), f) && f.pq == multiset{Entry(startNode, Fin(0))}) &&
    (!first ==> KeyOf(startNode) in graph.at && QueueOk(graph, f))
  }

  /** The node an entry taken from the queue names is a scored node with a
      finite distance. */
  lemma DequeuedIsScored(graph: Graph, startNode: Option<NodeId>, first: bool, f: Frontier, e: Entry)
    requires SearchInv(graph, startNode, first, f) && e in f.pq
    ensures KeyOf(e.node) in f.distances && f.distances[KeyOf(e.node)].Fin?
  {
    if first {
      assert e == Entry(startNode, Fin(0));
    }
  }

  /** One turn of the loop, from taking `e` off the queue to relaxing the
      edges of its node, keeps the invariant and either lowers the
      termination measure or leaves the tables as they were with one queue
      entry fewer. */
  lemma ExpandKeeps(graph: Graph, startNode: Option<NodeId>, first: bool, f: Frontier, e: Entry, rest: multiset<Entry>, u: NodeId)
    requires graph.Valid() && SearchInv(graph, startNode, first, f)
    requires e in f.pq && rest == f.pq - multiset{e} && u == KeyOf(e.node)
    requires !Falsy(e.node) && u in graph.at
    ensures u in f.distances
    ensures var g := RelaxFirst(graph, NoEstimate, Frontier(f.distances, f.previous, rest), u, |EdgesOf(graph, u)|);
      var ks := ScoreKeys(graph, KeyOf(startNode));
      SearchInv(graph, startNode, false, g) &&
      (Below(InfCount(ks, g.distances), FinSum(ks, g.distances), InfCount(ks, f.distances), FinSum(ks, f.distances)) ||
       (g.distances == f.distances && |g.pq| < |f.pq|))
  {
    var startKey := KeyOf(startNode);
    var f0 := Frontier(f.distances, f.previous, rest);
    var n := |EdgesOf(graph, u)|;
    var ks := ScoreKeys(graph, startKey);
    DequeuedIsScored(graph, startNode, first, f, e);
    if first {
      assert e == Entry(startNode, Fin(0));
      assert f0.pq == multiset{};
    }
    assert startKey in graph.at && !Falsy(startNode);
    assert QueueOk(graph, f0);
    ExpandShaped(graph, NoEstimate, startKey, f0, u);
    ExpandQueueOk(graph, NoEstimate, startKey, f0, u);
    RelaxFirstConsistent(graph, NoEstimate, f0, u, n);
    RelaxFirstRealized(graph, NoEstimate, startKey, f0, u, n);
    ExpandRooted(graph, NoEstimate, startKey, f0, u);
    ExpandRanked(graph, NoEstimate, f0, u);
    ExpandCovered(graph, NoEstimate, startKey, f, e, u);
    ShapedIsWellKeyed(graph, startKey, f0);
    RelaxFirstDescends(graph, NoEstimate, ks, f0, u, n);
    assert |rest| < |f.pq|;
  }

  /** The loop stops early only when the start is falsy or the empty-string
      node was reached; in the first turn, only when the start is falsy. */
  lemma EarlyStop(graph: Graph, startNode: Option<NodeId>, first: bool, f: Frontier, e: Entry)
    requires SearchInv(graph, startNode, first, f) && e in f.pq
    requires Falsy(e.node) || (KeyOf(e.node) in f.distances && f.distances[KeyOf(e.node)].Inf?)
    ensures Falsy(startNode) || EmptyName in graph.at
    ensures first ==> Falsy(startNode)
  {
    DequeuedIsScored(graph, startNode, first, f, e);
    if first {
      assert e == Entry(startNode, Fin(0));
    }
  }

  /** The only node that can make the loop body throw is a start that is
      not a key of the graph, in the first turn. */
  lemma ThrowsOnlyAtStart(graph: Graph, startNode: Option<NodeId>, first: bool, f: Frontier, e: Entry)
    requires SearchInv(graph, startNode, first, f) && e in f.pq
    requires !Falsy(e.node) && KeyOf(e.node) !in graph.at
    ensures !Falsy(startNode) && KeyOf(startNode) !in graph.at
  {
    if first {
      assert e == Entry(startNode, Fin(0));
    }
  }

  /** The tables as initialised, with the start entry queued, meet the
      loop invariant. */
  lemma InitialInv(graph: Graph, startNode: Option<NodeId>, f: Frontier)
    requires Initial(graph, KeyOf(startNode), f) && f.pq == multiset{Entry(startNode, Fin(0))}
    ensures SearchInv(graph, startNode, true, f)
  {
    var startKey := KeyOf(startNode);
    assert startKey in Queued(f.pq);
    EmptyWalk(graph, startKey);
    assert RankedBy(f.distances, f.previous, map k | k in f.distances :: 0, 1);
  }

  /** What the tables satisfy when the loop is over: the invariant's
      facts, and, when the start is a usable key and the empty-string node
      does not exist, every edge relaxed. */
  ghost predicate Settled(graph: Graph, startNode: Option<NodeId>, scores: map<NodeId, Dist>, previous: map<NodeId, Option<NodeId>>)
  {
    var startKey := KeyOf(startNode);
    (forall k :: k in scores <==> k in graph.at || k == startKey) &&
    (forall k :: k in previous <==> k in graph.at) &&
    startKey in scores && scores[startKey] == Fin(0) &&
    PrevConsistent(graph, scores, previous) &&
    Realized(graph, startKey, scores) &&
    Rooted(startKey, Frontier(scores, previous, multiset{})) &&
    Ranked(scores, previous) &&
    (Falsy(startNode) ==>
      (forall k | k in scores :: scores[k] == if k == startKey then Fin(0) else Inf) &&
      (forall k | k in previous :: previous[k] == None)) &&
    (!Falsy(startNode) && EmptyName !in graph.at ==>
      AllRelaxed(graph, scores) && PrevTight(graph, scores, previous))
  }

  /** The loop's exit: either the queue ran dry, or it stopped early, which
      only a falsy start or the empty-string node causes. */
  lemma ExitSettles(graph: Graph, startNode: Option<NodeId>, first: bool, f: Frontier)
    requires SearchInv(graph, startNode, first, f)
    requires f.pq == multiset{} || Falsy(startNode) || EmptyName in graph.at
    ensures Settled(graph, startNode, f.distances, f.previous)
  {
    if !Falsy(startNode) && EmptyName !in graph.at {
      DrainedIsRelaxed(graph, f);
      PrevTightWhenRelaxed(graph, f.distances, f.previous);
    }
  }

  /** `dijkstra(graph, startNode, nodes)`. The result's `scores` are the
      returned `distances`. */
  method Dijkstra(graph: Graph, startNode: Option<NodeId>, nodes: NodeTable) returns (r: Completion<SearchResult>)
    requires graph.Valid() && nodes.Valid()
    ensures r.Threw? <==> !Falsy(startNode) && KeyOf(startNode) !in graph.at
    ensures r.Returned? ==> Settled(graph, startNode, r.value.scores, r.value.previous)
    ensures r.Returned? ==> NearestHospital(nodes, r.value.scores, r.value.target)
  {
    var f := InitFrontier(graph, startNode);
    InitialInv(graph, startNode, f);
    var distances, previous, pq := f.distances, f.previous, f.pq;
    ghost var ks := ScoreKeys(graph, KeyOf(startNode));
    ghost var first := true;
    while |pq| > 0
      invariant SearchInv(graph, startNode, first, Frontier(distances, previous, pq))
      decreases InfCount(ks, distances), FinSum(ks, distances), |pq|
    {
      var e, rest := Dequeue(pq);
      var currentNode := e.node;
      var u := KeyOf(currentNode);
      if Falsy(currentNode) || (u in distances && distances[u].Inf?) {
        EarlyStop(graph, startNode, first, Frontier(distances, previous, pq), e);
        break;
      }
      if u !in graph.at {
        ThrowsOnlyAtStart(graph, startNode, first, Frontier(distances, previous, pq), e);
        return Threw;
      }
      ExpandKeeps(graph, startNode, first, Frontier(distances, previous, pq), e, rest, u);
      var g := RelaxNeighbors(graph, u, Frontier(distances, previous, rest));
      distances, previous, pq := g.distances, g.previous, g.pq;
      first := false;
    }
    ExitSettles(graph, startNode, first, Frontier(distances, previous, pq));
    var targetNode := SelectNearestHospital(nodes, distances);
    r := Returned(SearchResult(distances, previous, targetNode));
  }

  /** When the search from a usable start has settled, each node's distance
      is the weight of a lightest walk from the start: some walk weighs
      exactly that much, no walk weighs less, and a node at Infinity is
      reached by no walk at all. */
  lemma SettledIsShortest(graph: Graph, startNode: Option<NodeId>, scores: map<NodeId, Dist>, previous: map<NodeId, Option<NodeId>>, v: NodeId)
    requires Settled(graph, startNode, scores, previous)
    requires !Falsy(startNode) && EmptyName !in graph.at && v in scores
    ensures scores[v].Fin? ==> WalkOfWeight(graph, KeyOf(startNode), v, scores[v].n)
    ensures forall ps, es | IsWalk(graph, ps, es) && ps[0] == KeyOf(startNode) && ps[|ps| - 1] == v ::
      scores[v].Fin? && scores[v].n <= WalkWeight(graph, ps, es)
  {
    forall ps, es | IsWalk(graph, ps, es) && ps[0] == KeyOf(startNode) && ps[|ps| - 1] == v
      ensures scores[v].Fin? && scores[v].n <= WalkWeight(graph, ps, es)
    {
      WalkStaysScored(graph, scores, ps, es);
      RelaxedBoundsWalk(graph, scores, ps, es);
    }
  }

  /** `reconstructPath(previous, target)` on the tables of a finished
      search ends, whatever the target. */
  lemma ReadBackTerminates(graph: Graph, startNode: Option<NodeId>, scores: map<NodeId, Dist>, previous: map<NodeId, Option<NodeId>>, target: Option<NodeId>) returns (n: nat)
    requires Settled(graph, startNode, scores, previous)
    ensures EndsWithin(previous, target, n)
  {
    n := ReadBackEnds(scores, previous, target);
  }

  /** The route `reconstructPath(previous, v)` reads out of a settled search
      from a usable start is a shortest route to `v`: the read-back ends
      (within `n` steps), the route does not depend on the step bound, starts
      at the start node, ends at `v`, follows edges of the graph, weighs
      exactly `v`'s distance, and no walk from the start to `v` weighs less. */
  lemma RouteIsShortest(graph: Graph, startNode: Option<NodeId>, scores: map<NodeId, Dist>, previous: map<NodeId, Option<NodeId>>, v: NodeId) returns (n: nat)
    requires Settled(graph, startNode, scores, previous)
    requires !Falsy(startNode) && EmptyName !in graph.at
    requires v in scores && scores[v].Fin?
    ensures EndsWithin(previous, Some(v), n)
    ensures forall m | EndsWithin(previous, Some(v), m) :: Chain(previous, Some(v), m) == Chain(previous, Some(v), n)
    ensures var p := Reversed(Chain(previous, Some(v), n));
      p != [] && p[0] == KeyOf(startNode) && p[|p| - 1] == v &&
      (exists es :: IsWalk(graph, p, es) && WalkWeight(graph, p, es) == scores[v].n) &&
      forall ps, es | IsWalk(graph, ps, es) && ps[0] == KeyOf(startNode) && ps[|ps| - 1] == v ::
        scores[v].n <= WalkWeight(graph, ps, es)
  {
    n := ReadBackEnds(scores, previous, Some(v));
    forall m | EndsWithin(previous, Some(v), m)
      ensures Chain(previous, Some(v), m) == Chain(previous, Some(v), n)
    {
      ChainDetermined(previous, Some(v), Some(v), m, n);
    }
    var es := RouteFromStart(graph, KeyOf(startNode), scores, previous, v, n);
    SettledIsShortest(graph, startNode, scores, previous, v);
  }
}
