/** The edge-relaxation loop both searches run on the neighbours of the node
    they take off the queue, and what it preserves. The two searches differ
    only in the priority a queued entry gets: the new distance in Dijkstra's
    search, the new distance plus the heuristic estimate in A*; `est` is that
    estimate. */
module Frontiers {
  import opened RoadGraph
  import opened MinQueue
  import opened Descent
  import opened Relaxation

  /** The estimate a search adds to a node's new distance to get the
      priority of its queue entry: `at[v]` for the nodes `at` lists,
      `otherwise` for every other node. */
  datatype Estimate = Estimate(at: map<NodeId, Dist>, otherwise: Dist)

  function EstimateAt(est: Estimate, v: NodeId): Dist
  {
    if v in est.at then est.at[v] else est.otherwise
  }

  /** The three working tables both searches share: the tentative distances
      (`distances` in Dijkstra's search, `gScore` in A*), `previous`, and the
      queue. */
  datatype Frontier = Frontier(distances: map<NodeId, Dist>, previous: map<NodeId, Option<NodeId>>, pq: multiset<Entry>)

  /** One pass of the inner loop body: `newDist = distances[u] + weight`; when
      it is below `distances[to]` (a missing `to` compares false) the
      neighbour gets the new distance, `u` as predecessor and a queue entry
      whose priority is the new distance plus `est(to)`. */
  function RelaxEdge(est: Estimate, f: Frontier, u: NodeId, e: Edge): (g: Frontier)
    requires u in f.distances
    ensures g.distances.Keys == f.distances.Keys
    ensures g.distances[u] == f.distances[u]
    ensures e.to in f.distances ==> g.distances[e.to].Le(f.distances[u].Plus(e.weight))
  {
    var newDist := f.distances[u].Plus(e.weight);
    if e.to in f.distances && newDist.Lt(f.distances[e.to]) then
      Frontier(f.distances[e.to := newDist], f.previous[e.to := Some(u)], f.pq + multiset{Entry(Some(e.to), newDist.Add(EstimateAt(est, e.to)))})
    else
      f
  }

  /** The tables after relaxing the first `n` edges leaving `u`, in order. */
  function RelaxFirst(graph: Graph, est: Estimate, f: Frontier, u: NodeId, n: nat): (g: Frontier)
    requires u in f.distances && n <= |EdgesOf(graph, u)|
    ensures g.distances.Keys == f.distances.Keys
    ensures g.distances[u] == f.distances[u]
  {
    if n == 0 then f else RelaxEdge(est, RelaxFirst(graph, est, f, u, n - 1), u, EdgesOf(graph, u)[n - 1])
  }

  /** `RelaxFirst` one edge at a time. */
  lemma RelaxFirstStep(graph: Graph, est: Estimate, f: Frontier, u: NodeId, n: nat)
    requires u in f.distances && 0 < n <= |EdgesOf(graph, u)|
    ensures RelaxFirst(graph, est, f, u, n) == RelaxEdge(est, RelaxFirst(graph, est, f, u, n - 1), u, EdgesOf(graph, u)[n - 1])
  {
  }

  /** One relaxation step changes at most the distance of the edge's
      target: it gets `distances[u] + weight`, `u` as predecessor and a queue
      entry at its new distance plus its estimate. */
  lemma RelaxEdgeAt(est: Estimate, f: Frontier, u: NodeId, e: Edge, k: NodeId)
    requires u in f.distances && k in f.distances
    ensures var g := RelaxEdge(est, f, u, e);
      g.distances[k] != f.distances[k] ==>
        k == e.to && g.distances[k] == f.distances[u].Plus(e.weight) &&
        k in g.previous && g.previous[k] == Some(u) && Entry(Some(k), g.distances[k].Add(EstimateAt(est, k))) in g.pq
  {
  }

  /** One relaxation step keeps every queue entry. */
  lemma RelaxEdgeKeepsQueue(est: Estimate, f: Frontier, u: NodeId, e: Edge)
    requires u in f.distances
    ensures f.pq <= RelaxEdge(est, f, u, e).pq
  {
  }

  /** One relaxation step only lowers distances. */
  lemma RelaxEdgeLowers(est: Estimate, f: Frontier, u: NodeId, e: Edge, k: NodeId)
    requires u in f.distances && k in f.distances
    ensures RelaxEdge(est, f, u, e).distances[k].Le(f.distances[k])
  {
  }

  /** `p` and `q` agree at `k`: both lack it, or both map it to the same
      predecessor. */
  predicate SameSlot(p: map<NodeId, Option<NodeId>>, q: map<NodeId, Option<NodeId>>, k: NodeId)
  {
    (k in p <==> k in q) && (k in q ==> p[k] == q[k])
  }

  /** One relaxation step leaves the predecessor slot of a node whose
      distance it did not change as it was. */
  lemma RelaxEdgeKeepsPrevious(est: Estimate, f: Frontier, u: NodeId, e: Edge, k: NodeId)
    requires u in f.distances && k in f.distances
    requires RelaxEdge(est, f, u, e).distances[k] == f.distances[k]
    ensures var g := RelaxEdge(est, f, u, e);
      SameSlot(g.previous, f.previous, k)
  {
  }

  /** The assumptions every relaxation lemma shares: `ks` lists the keys of
      `distances`, and the one key without a predecessor slot is the start,
      at distance 0. */
  ghost predicate WellKeyed(ks: seq<NodeId>, f: Frontier)
  {
    Distinct(ks) && (forall k :: k in f.distances <==> k in ks) &&
    (forall k | k in f.previous :: k in f.distances) &&
    (forall k | k in f.distances && k !in f.previous :: f.distances[k] == Fin(0))
  }

  /** Relaxing edges only lowers distances. */
  lemma {:induction false} RelaxFirstLowersAt(graph: Graph, est: Estimate, f: Frontier, u: NodeId, n: nat, k: NodeId)
    requires u in f.distances && n <= |EdgesOf(graph, u)| && k in f.distances
    ensures RelaxFirst(graph, est, f, u, n).distances[k].Le(f.distances[k])
  {
    if n > 0 {
      RelaxFirstLowersAt(graph, est, f, u, n - 1, k);
    }
  }

  lemma RelaxFirstLowers(graph: Graph, est: Estimate, f: Frontier, u: NodeId, n: nat)
    requires u in f.distances && n <= |EdgesOf(graph, u)|
    ensures forall k | k in f.distances :: RelaxFirst(graph, est, f, u, n).distances[k].Le(f.distances[k])
  {
    forall k | k in f.distances ensures RelaxFirst(graph, est, f, u, n).distances[k].Le(f.distances[k]) {
      RelaxFirstLowersAt(graph, est, f, u, n, k);
    }
  }

  /** The last of `n` relaxation steps: if it ends with `k`'s distance as
      it started, the first `n - 1` steps did too, and the last step left
      `k`'s predecessor slot alone. */
  lemma RelaxFirstStepKeeps(graph: Graph, est: Estimate, f: Frontier, u: NodeId, n: nat, k: NodeId)
    requires u in f.distances && 0 < n <= |EdgesOf(graph, u)| && k in f.distances
    requires RelaxFirst(graph, est, f, u, n).distances[k] == f.distances[k]
    ensures RelaxFirst(graph, est, f, u, n - 1).distances[k] == f.distances[k]
    ensures SameSlot(RelaxFirst(graph, est, f, u, n).previous, RelaxFirst(graph, est, f, u, n - 1).previous, k)
  {
    var g0 := RelaxFirst(graph, est, f, u, n - 1);
    var e := EdgesOf(graph, u)[n - 1];
    RelaxFirstStep(graph, est, f, u, n);
    RelaxFirstLowersAt(graph, est, f, u, n - 1, k);
    LeAntisymmetric(g0.distances[k], RelaxEdge(est, g0, u, e).distances[k]);
    RelaxEdgeKeepsPrevious(est, g0, u, e, k);
  }

  /** Where the distance did not go down, the predecessor slot is as it was. */
  lemma {:induction false} RelaxFirstKeepsPreviousAt(graph: Graph, est: Estimate, f: Frontier, u: NodeId, n: nat, k: NodeId)
    requires u in f.distances && n <= |EdgesOf(graph, u)| && k in f.distances
    requires RelaxFirst(graph, est, f, u, n).distances[k] == f.distances[k]
    ensures var g := RelaxFirst(graph, est, f, u, n);
      SameSlot(g.previous, f.previous, k)
  {
    if n == 0 {
      assert RelaxFirst(graph, est, f, u, n) == f;
    } else {
      RelaxFirstStepKeeps(graph, est, f, u, n, k);
      RelaxFirstKeepsPreviousAt(graph, est, f, u, n - 1, k);
      var p, p0 := RelaxFirst(graph, est, f, u, n).previous, RelaxFirst(graph, est, f, u, n - 1).previous;
      assert SameSlot(p, p0, k) && SameSlot(p0, f.previous, k);
    }
  }

  lemma RelaxFirstKeepsPrevious(graph: Graph, est: Estimate, f: Frontier, u: NodeId, n: nat)
    requires u in f.distances && n <= |EdgesOf(graph, u)|
    ensures var g := RelaxFirst(graph, est, f, u, n);
      forall k | k in f.distances && g.distances[k] == f.distances[k] ::
        SameSlot(g.previous, f.previous, k)
  {
    var g := RelaxFirst(graph, est, f, u, n);
    forall k | k in f.distances && g.distances[k] == f.distances[k]
      ensures SameSlot(g.previous, f.previous, k)
    {
      RelaxFirstKeepsPreviousAt(graph, est, f, u, n, k);
    }
  }

  /** Every predecessor slot relaxation adds belongs to a node with a
      distance. */
  lemma {:induction false} RelaxFirstPreviousKeys(graph: Graph, est: Estimate, f: Frontier, u: NodeId, n: nat)
    requires u in f.distances && n <= |EdgesOf(graph, u)|
    ensures RelaxFirst(graph, est, f, u, n).previous.Keys <= f.previous.Keys + f.distances.Keys
  {
    if n > 0 {
      RelaxFirstPreviousKeys(graph, est, f, u, n - 1);
    }
  }

  /** Where relaxation changed a distance, the node has `u` as predecessor
      and a queue entry at its new distance plus its estimate. */
  lemma {:induction false} RelaxFirstMarksAt(graph: Graph, est: Estimate, f: Frontier, u: NodeId, n: nat, k: NodeId)
    requires u in f.distances && n <= |EdgesOf(graph, u)| && k in f.distances
    requires RelaxFirst(graph, est, f, u, n).distances[k] != f.distances[k]
    ensures var g := RelaxFirst(graph, est, f, u, n);
      k in g.previous && g.previous[k] == Some(u) && Entry(Some(k), g.distances[k].Add(EstimateAt(est, k))) in g.pq
  {
    if n > 0 {
      var g := RelaxFirst(graph, est, f, u, n - 1);
      var e := EdgesOf(graph, u)[n - 1];
      RelaxFirstStep(graph, est, f, u, n);
      RelaxEdgeAt(est, g, u, e, k);
      if RelaxEdge(est, g, u, e).distances[k] == g.distances[k] {
        RelaxFirstMarksAt(graph, est, f, u, n - 1, k);
        RelaxEdgeKeepsPrevious(est, g, u, e, k);
        RelaxEdgeKeepsQueue(est, g, u, e);
      }
    }
  }

  lemma RelaxFirstMarks(graph: Graph, est: Estimate, f: Frontier, u: NodeId, n: nat)
    requires u in f.distances && f.distances[u].Fin? && n <= |EdgesOf(graph, u)|
    ensures var g := RelaxFirst(graph, est, f, u, n);
      forall k | k in f.distances && g.distances[k] != f.distances[k] ::
        k in g.previous && g.previous[k] == Some(u) && Entry(Some(k), g.distances[k].Add(EstimateAt(est, k))) in g.pq
  {
    var g := RelaxFirst(graph, est, f, u, n);
    forall k | k in f.distances && g.distances[k] != f.distances[k]
      ensures k in g.previous && g.previous[k] == Some(u) && Entry(Some(k), g.distances[k].Add(EstimateAt(est, k))) in g.pq
    {
      RelaxFirstMarksAt(graph, est, f, u, n, k);
    }
  }

  /** Relaxation never takes an entry off the queue. */
  lemma {:induction false} RelaxFirstKeepsEntry(graph: Graph, est: Estimate, f: Frontier, u: NodeId, n: nat, x: Entry)
    requires u in f.distances && n <= |EdgesOf(graph, u)| && x in f.pq
    ensures x in RelaxFirst(graph, est, f, u, n).pq
  {
    if n > 0 {
      RelaxFirstStep(graph, est, f, u, n);
      RelaxFirstKeepsEntry(graph, est, f, u, n - 1, x);
    }
  }

  /** An entry relaxation adds names a node with a distance, now finite. */
  lemma {:induction false} RelaxFirstNewEntry(graph: Graph, est: Estimate, f: Frontier, u: NodeId, n: nat, x: Entry)
    requires u in f.distances && n <= |EdgesOf(graph, u)|
    requires x in RelaxFirst(graph, est, f, u, n).pq && x !in f.pq
    ensures x.node.Some? && x.node.value in f.distances && RelaxFirst(graph, est, f, u, n).distances[x.node.value].Fin?
  {
    if n > 0 {
      var g := RelaxFirst(graph, est, f, u, n - 1);
      var e := EdgesOf(graph, u)[n - 1];
      RelaxFirstStep(graph, est, f, u, n);
      if x in g.pq {
        RelaxFirstNewEntry(graph, est, f, u, n - 1, x);
        RelaxEdgeLowers(est, g, u, e, x.node.value);
      } else {
        assert x == Entry(Some(e.to), g.distances[u].Plus(e.weight).Add(EstimateAt(est, e.to)));
      }
    }
  }

  /** The queue keeps its entries, and each entry added names a node with a
      score and a finite distance. */
  lemma RelaxFirstGrows(graph: Graph, est: Estimate, f: Frontier, u: NodeId, n: nat)
    requires u in f.distances && f.distances[u].Fin? && n <= |EdgesOf(graph, u)|
    ensures var g := RelaxFirst(graph, est, f, u, n);
      forall x | x in f.pq :: x in g.pq
    ensures var g := RelaxFirst(graph, est, f, u, n);
      forall x | x in g.pq && x !in f.pq :: x.node.Some? && x.node.value in f.distances && g.distances[x.node.value].Fin?
  {
    var g := RelaxFirst(graph, est, f, u, n);
    forall x | x in f.pq ensures x in g.pq {
      RelaxFirstKeepsEntry(graph, est, f, u, n, x);
    }
    forall x | x in g.pq && x !in f.pq
      ensures x.node.Some? && x.node.value in f.distances && g.distances[x.node.value].Fin?
    {
      RelaxFirstNewEntry(graph, est, f, u, n, x);
    }
  }

  /** A distance relaxation changed was set through one of the first `n`
      edges: it is `distances[u]` plus that edge's weight. */
  lemma {:induction false} RelaxFirstChangedAt(graph: Graph, est: Estimate, f: Frontier, u: NodeId, n: nat, k: NodeId) returns (j: nat)
    requires u in f.distances && 0 < n <= |EdgesOf(graph, u)| && k in f.distances
    requires RelaxFirst(graph, est, f, u, n).distances[k] != f.distances[k]
    ensures j < n && EdgesOf(graph, u)[j].to == k
    ensures RelaxFirst(graph, est, f, u, n).distances[k] == f.distances[u].Plus(EdgesOf(graph, u)[j].weight)
  {
    var g := RelaxFirst(graph, est, f, u, n - 1);
    var e := EdgesOf(graph, u)[n - 1];
    RelaxFirstStep(graph, est, f, u, n);
    RelaxEdgeAt(est, g, u, e, k);
    if RelaxEdge(est, g, u, e).distances[k] != g.distances[k] {
      j := n - 1;
    } else {
      j := RelaxFirstChangedAt(graph, est, f, u, n - 1, k);
    }
  }

  /** Every finite distance relaxation produces is the weight of a walk from
      `s`, given that the distances it starts from are. */
  lemma RelaxFirstRealizedAt(graph: Graph, est: Estimate, s: NodeId, f: Frontier, u: NodeId, n: nat, v: NodeId)
    requires u in f.distances && f.distances[u].Fin? && n <= |EdgesOf(graph, u)|
    requires WalkOfWeight(graph, s, u, f.distances[u].n)
    requires v in f.distances && f.distances[v].Fin? ==> WalkOfWeight(graph, s, v, f.distances[v].n)
    requires v in f.distances && RelaxFirst(graph, est, f, u, n).distances[v].Fin?
    ensures WalkOfWeight(graph, s, v, RelaxFirst(graph, est, f, u, n).distances[v].n)
  {
    var g := RelaxFirst(graph, est, f, u, n);
    if g.distances[v] != f.distances[v] {
      var j := RelaxFirstChangedAt(graph, est, f, u, n, v);
      ExtendWalk(graph, s, u, f.distances[u].n, j);
    }
  }

  lemma RelaxFirstRealized(graph: Graph, est: Estimate, s: NodeId, f: Frontier, u: NodeId, n: nat)
    requires Realized(graph, s, f.distances)
    requires u in f.distances && f.distances[u].Fin? && n <= |EdgesOf(graph, u)|
    ensures Realized(graph, s, RelaxFirst(graph, est, f, u, n).distances)
  {
    var g := RelaxFirst(graph, est, f, u, n);
    forall v | v in g.distances && g.distances[v].Fin? ensures WalkOfWeight(graph, s, v, g.distances[v].n) {
      RelaxFirstRealizedAt(graph, est, s, f, u, n, v);
    }
  }

  /** Relaxing edges keeps every predecessor link consistent. */
  lemma {:induction false} RelaxFirstConsistent(graph: Graph, est: Estimate, f: Frontier, u: NodeId, n: nat)
    requires PrevConsistent(graph, f.distances, f.previous)
    requires u in f.distances && f.distances[u].Fin? && n <= |EdgesOf(graph, u)|
    ensures PrevConsistent(graph, RelaxFirst(graph, est, f, u, n).distances, RelaxFirst(graph, est, f, u, n).previous)
  {
    if n > 0 {
      RelaxFirstConsistent(graph, est, f, u, n - 1);
      var g := RelaxFirst(graph, est, f, u, n - 1);
      var e := EdgesOf(graph, u)[n - 1];
      if e.to in g.distances && g.distances[u].Plus(e.weight).Lt(g.distances[e.to]) {
        PrevConsistentAfterRelax(graph, g.distances, g.previous, u, n - 1);
      }
    }
  }

  /** The tables are unchanged or strictly lower in the termination measure. */
  lemma {:induction false} RelaxFirstDescends(graph: Graph, est: Estimate, ks: seq<NodeId>, f: Frontier, u: NodeId, n: nat)
    requires WellKeyed(ks, f)
    requires u in f.distances && f.distances[u].Fin? && n <= |EdgesOf(graph, u)|
    ensures var g := RelaxFirst(graph, est, f, u, n);
      Below(InfCount(ks, g.distances), FinSum(ks, g.distances), InfCount(ks, f.distances), FinSum(ks, f.distances)) ||
      g == f
  {
    if n > 0 {
      RelaxFirstDescends(graph, est, ks, f, u, n - 1);
      var g := RelaxFirst(graph, est, f, u, n - 1);
      var e := EdgesOf(graph, u)[n - 1];
      var newDist := g.distances[u].Plus(e.weight);
      if e.to in g.distances && newDist.Lt(g.distances[e.to]) {
        LoweringDescends(ks, g.distances, e.to, newDist.n);
      }
    }
  }

  /** After the first `n` edges of `u` are relaxed, each of them satisfies
      `distances[to] <= distances[u] + weight`. */
  lemma {:induction false} RelaxFirstRelaxes(graph: Graph, est: Estimate, f: Frontier, u: NodeId, n: nat)
    requires u in f.distances && f.distances[u].Fin? && n <= |EdgesOf(graph, u)|
    ensures forall i | 0 <= i < n && EdgesOf(graph, u)[i].to in f.distances ::
      RelaxFirst(graph, est, f, u, n).distances[EdgesOf(graph, u)[i].to].Le(f.distances[u].Plus(EdgesOf(graph, u)[i].weight))
  {
    if n > 0 {
      RelaxFirstRelaxes(graph, est, f, u, n - 1);
      var g := RelaxFirst(graph, est, f, u, n - 1);
      assert RelaxFirst(graph, est, f, u, n) == RelaxEdge(est, g, u, EdgesOf(graph, u)[n - 1]);
    }
  }

  /** The tables right after initialisation: every graph node at Infinity
      without a predecessor, the start at 0. */
  ghost predicate Initial(graph: Graph, startKey: NodeId, f: Frontier)
  {
    (forall k :: k in f.distances <==> k in graph.at || k == startKey) &&
    (forall k | k in f.distances :: f.distances[k] == if k == startKey then Fin(0) else Inf) &&
    (forall k :: k in f.previous <==> k in graph.at) &&
    (forall k | k in f.previous :: f.previous[k] == None)
  }

  /** The lines before either search's loop: every graph node at Infinity
      without a predecessor, then the start's distance set to 0 and its
      entry queued at priority 0. */
  method InitFrontier(graph: Graph, startNode: Option<NodeId>) returns (f: Frontier)
    requires graph.Valid()
    ensures Initial(graph, KeyOf(startNode), f) && f.pq == multiset{Entry(startNode, Fin(0))}
  {
    var distances, previous := InitScores(graph);
    distances := distances[KeyOf(startNode) := Fin(0)];
    f := Frontier(distances, previous, multiset{Entry(startNode, Fin(0))});
  }

  /** The shape the tables keep throughout: `distances` holds the graph's
      nodes and the start, `previous` the graph's nodes, and the start stays
      at 0 without a predecessor. */
  ghost predicate Shaped(graph: Graph, startKey: NodeId, f: Frontier)
  {
    (forall k :: k in f.distances <==> k in graph.at || k == startKey) &&
    (forall k :: k in f.previous <==> k in graph.at) &&
    startKey in f.distances && f.distances[startKey] == Fin(0) &&
    (startKey in f.previous ==> f.previous[startKey] == None)
  }

  /** Every queued entry names a graph node with a finite distance. */
  ghost predicate QueueOk(graph: Graph, f: Frontier)
  {
    forall x | x in f.pq :: x.node.Some? && x.node.value in graph.at && x.node.value in f.distances && f.distances[x.node.value].Fin?
  }

  /** Every queued entry names a node with a finite distance. */
  ghost predicate Scored(f: Frontier)
  {
    forall x | x in f.pq :: KeyOf(x.node) in f.distances && f.distances[KeyOf(x.node)].Fin?
  }

  /** Every node with a finite distance has its edges relaxed or is still
      queued. */
  ghost predicate Covered(graph: Graph, f: Frontier)
  {
    forall v | v in f.distances && f.distances[v].Fin? :: Relaxed(graph, f.distances, v) || v in Queued(f.pq)
  }

  /** The start is the only node with a finite distance and no
      predecessor. */
  ghost predicate Rooted(startKey: NodeId, f: Frontier)
  {
    forall k | k in f.previous && f.previous[k] == None && k in f.distances && f.distances[k].Fin? :: k == startKey
  }

  /** `u` ranks below `v`: both have finite distances, and `u`'s distance is
      smaller, or equal with an earlier stamp. */
  ghost predicate RankBelow(dist: map<NodeId, Dist>, stamp: map<NodeId, nat>, u: NodeId, v: NodeId)
  {
    u in dist && v in dist && u in stamp && v in stamp && dist[u].Fin? && dist[v].Fin? &&
    (dist[u].n < dist[v].n || (dist[u].n == dist[v].n && stamp[u] < stamp[v]))
  }

  /** Every recorded predecessor ranks below its node, where a node's rank
      is its distance and then `stamp`, the turn of the search in which its
      distance last went down (all turns so far are before `clock`). */
  ghost predicate RankedBy(dist: map<NodeId, Dist>, previous: map<NodeId, Option<NodeId>>, stamp: map<NodeId, nat>, clock: nat)
  {
    (forall k :: k in stamp <==> k in dist) &&
    (forall k | k in stamp :: stamp[k] < clock) &&
    forall v | v in previous && previous[v].Some? && v in dist :: RankBelow(dist, stamp, previous[v].value, v)
  }

  /** The predecessor links climb some rank, so walking back along them
      ends. */
  ghost predicate Ranked(dist: map<NodeId, Dist>, previous: map<NodeId, Option<NodeId>>)
  {
    exists stamp: map<NodeId, nat>, clock: nat :: RankedBy(dist, previous, stamp, clock)
  }

  /** The stamps after the turn numbered `clock`: the nodes whose distance
      went down in it get that turn. */
  ghost function Restamp(f: Frontier, g: Frontier, stamp: map<NodeId, nat>, clock: nat): map<NodeId, nat>
  {
    map k | k in stamp :: if k in f.distances && k in g.distances && g.distances[k] != f.distances[k] then clock else stamp[k]
  }

  lemma ShapedIsWellKeyed(graph: Graph, startKey: NodeId, f: Frontier)
    requires graph.Valid() && Shaped(graph, startKey, f)
    ensures WellKeyed(ScoreKeys(graph, startKey), f)
  {
  }

  /** Expanding `u` keeps the shape of the tables. */
  lemma {:induction false} ExpandShaped(graph: Graph, est: Estimate, startKey: NodeId, f: Frontier, u: NodeId)
    requires graph.Valid() && Shaped(graph, startKey, f)
    requires u in f.distances && f.distances[u].Fin?
    ensures Shaped(graph, startKey, RelaxFirst(graph, est, f, u, |EdgesOf(graph, u)|))
  {
    var n := |EdgesOf(graph, u)|;
    ShapedIsWellKeyed(graph, startKey, f);
    RelaxFirstLowers(graph, est, f, u, n);
    RelaxFirstKeepsPrevious(graph, est, f, u, n);
    RelaxFirstPreviousKeys(graph, est, f, u, n);
    RelaxFirstMarks(graph, est, f, u, n);
    var g := RelaxFirst(graph, est, f, u, n);
    assert g.distances[startKey].Le(f.distances[startKey]);
    forall k ensures k in g.previous <==> k in graph.at {
      if k in f.distances && g.distances[k] != f.distances[k] {
        assert k in g.previous;
        assert g.distances[k].Le(f.distances[k]);
        assert k != startKey;
      }
    }
  }

  /** Expanding `u` leaves every queued entry naming a graph node with a
      finite distance. */
  lemma {:induction false} ExpandQueueOk(graph: Graph, est: Estimate, startKey: NodeId, f: Frontier, u: NodeId)
    requires graph.Valid() && Shaped(graph, startKey, f) && startKey in graph.at
    requires u in f.distances && f.distances[u].Fin?
    requires QueueOk(graph, f)
    ensures QueueOk(graph, RelaxFirst(graph, est, f, u, |EdgesOf(graph, u)|))
  {
    var n := |EdgesOf(graph, u)|;
    RelaxFirstLowers(graph, est, f, u, n);
    RelaxFirstGrows(graph, est, f, u, n);
    var g := RelaxFirst(graph, est, f, u, n);
    forall x | x in g.pq
      ensures x.node.Some? && x.node.value in graph.at && x.node.value in g.distances && g.distances[x.node.value].Fin?
    {
      var k := x.node.value;
      if x in f.pq {
        assert k in f.distances && f.distances[k].Fin?;
        assert g.distances[k].Le(f.distances[k]);
      } else {
        assert k in f.distances;
      }
    }
  }

  /** Expanding `u` leaves every queued entry naming a node with a finite
      distance. */
  lemma {:induction false} ExpandScored(graph: Graph, est: Estimate, f: Frontier, u: NodeId)
    requires Scored(f) && u in f.distances && f.distances[u].Fin?
    ensures Scored(RelaxFirst(graph, est, f, u, |EdgesOf(graph, u)|))
  {
    var n := |EdgesOf(graph, u)|;
    RelaxFirstLowers(graph, est, f, u, n);
    RelaxFirstGrows(graph, est, f, u, n);
    var g := RelaxFirst(graph, est, f, u, n);
    forall x | x in g.pq ensures KeyOf(x.node) in g.distances && g.distances[KeyOf(x.node)].Fin? {
      var k := KeyOf(x.node);
      if x in f.pq {
        assert g.distances[k].Le(f.distances[k]);
      } else {
        assert k == x.node.value;
      }
    }
  }

  /** Expanding `u` (its entry already removed from the queue) relaxes `u`
      and queues every node whose distance it lowers, so coverage holds
      again. */
  lemma {:induction false} ExpandCovered(graph: Graph, est: Estimate, startKey: NodeId, f: Frontier, e: Entry, u: NodeId)
    requires graph.Valid() && Shaped(graph, startKey, f)
    requires Covered(graph, f) && e in f.pq && u == KeyOf(e.node)
    requires u in f.distances && f.distances[u].Fin?
    ensures var f0 := Frontier(f.distances, f.previous, f.pq - multiset{e});
      Covered(graph, RelaxFirst(graph, est, f0, u, |EdgesOf(graph, u)|))
  {
    var f0 := Frontier(f.distances, f.previous, f.pq - multiset{e});
    var n := |EdgesOf(graph, u)|;
    var ks := ScoreKeys(graph, startKey);
    ShapedIsWellKeyed(graph, startKey, f0);
    RelaxFirstLowers(graph, est, f0, u, n);
    RelaxFirstMarks(graph, est, f0, u, n);
    RelaxFirstGrows(graph, est, f0, u, n);
    RelaxFirstRelaxes(graph, est, f0, u, n);
    var g := RelaxFirst(graph, est, f0, u, n);
    forall v | v in g.distances && g.distances[v].Fin?
      ensures Relaxed(graph, g.distances, v) || v in Queued(g.pq)
    {
      if g.distances[v] != f0.distances[v] {
        var x := Entry(Some(v), g.distances[v].Add(EstimateAt(est, v)));
        assert x in g.pq && KeyOf(x.node) == v;
      } else if v == u {
        assert Relaxed(graph, g.distances, v);
      } else if Relaxed(graph, f0.distances, v) {
        RelaxedUnderLowering(graph, f0.distances, g.distances, v);
      } else {
        QueuedAfterRemoval(f.pq, e, v);
        var x :| x in f0.pq && KeyOf(x.node) == v;
        assert x in g.pq;
      }
    }
  }

  /** The table facts do not depend on the queue: they carry over to the
      tables a search returns. */
  lemma TablesWithoutQueue(graph: Graph, startKey: NodeId, f: Frontier)
    requires Shaped(graph, startKey, f) && Rooted(startKey, f)
    ensures var t := Frontier(f.distances, f.previous, multiset{});
      Shaped(graph, startKey, t) && Rooted(startKey, t)
  {
  }

  /** Expanding `u` keeps the start the only root: a node whose distance
      goes down gets `u` as predecessor, the others keep theirs. */
  lemma ExpandRooted(graph: Graph, est: Estimate, startKey: NodeId, f: Frontier, u: NodeId)
    requires Rooted(startKey, f) && u in f.distances && f.distances[u].Fin?
    ensures Rooted(startKey, RelaxFirst(graph, est, f, u, |EdgesOf(graph, u)|))
  {
    var n := |EdgesOf(graph, u)|;
    RelaxFirstMarks(graph, est, f, u, n);
    RelaxFirstKeepsPrevious(graph, est, f, u, n);
    var g := RelaxFirst(graph, est, f, u, n);
    forall k | k in g.previous && g.previous[k] == None && k in g.distances && g.distances[k].Fin?
      ensures k == startKey
    {
      assert k in f.distances && g.distances[k] == f.distances[k];
      assert SameSlot(g.previous, f.previous, k);
    }
  }

  /** Expanding `u` in the turn numbered `clock` keeps the ranking: a
      lowered node gets `u`, whose distance is no larger and whose stamp is
      older, as predecessor; a node whose predecessor was lowered now ranks
      above it by distance. */
  lemma ExpandRankedBy(graph: Graph, est: Estimate, f: Frontier, u: NodeId, stamp: map<NodeId, nat>, clock: nat)
    requires RankedBy(f.distances, f.previous, stamp, clock)
    requires PrevConsistent(graph, f.distances, f.previous)
    requires u in f.distances && f.distances[u].Fin?
    ensures var g := RelaxFirst(graph, est, f, u, |EdgesOf(graph, u)|);
      RankedBy(g.distances, g.previous, Restamp(f, g, stamp, clock), clock + 1)
  {
    var n := |EdgesOf(graph, u)|;
    var g := RelaxFirst(graph, est, f, u, n);
    var s := Restamp(f, g, stamp, clock);
    RelaxFirstMarks(graph, est, f, u, n);
    RelaxFirstKeepsPrevious(graph, est, f, u, n);
    RelaxFirstLowers(graph, est, f, u, n);
    RelaxFirstConsistent(graph, est, f, u, n);
    forall v | v in g.previous && g.previous[v].Some? && v in g.distances
      ensures RankBelow(g.distances, s, g.previous[v].value, v)
    {
      if g.distances[v] != f.distances[v] {
        assert g.previous[v] == Some(u);
        assert PrevEdge(graph, g.distances, u, v);
      } else {
        assert SameSlot(g.previous, f.previous, v);
        assert RankBelow(f.distances, stamp, f.previous[v].value, v);
      }
    }
  }

  lemma ExpandRanked(graph: Graph, est: Estimate, f: Frontier, u: NodeId)
    requires Ranked(f.distances, f.previous) && PrevConsistent(graph, f.distances, f.previous)
    requires u in f.distances && f.distances[u].Fin?
    ensures var g := RelaxFirst(graph, est, f, u, |EdgesOf(graph, u)|);
      Ranked(g.distances, g.previous)
  {
    var stamp, clock :| RankedBy(f.distances, f.previous, stamp, clock);
    ExpandRankedBy(graph, est, f, u, stamp, clock);
  }

  /** With the queue empty, every node with a finite distance has its edges
      relaxed. */
  lemma DrainedIsRelaxed(graph: Graph, f: Frontier)
    requires Covered(graph, f) && f.pq == multiset{}
    ensures AllRelaxed(graph, f.distances)
  {
    forall v | v in f.distances ensures Relaxed(graph, f.distances, v) {
      if f.distances[v].Fin? {
        assert v !in Queued(f.pq);
      }
    }
  }
}
