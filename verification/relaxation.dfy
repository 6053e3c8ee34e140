/** What the two searches share: their result record, the initialisation
    of their score tables, and the facts about edge relaxation that both
    loops maintain (relaxed edges, predecessor links, walks). */
module Relaxation {
  import opened RoadGraph

  /** `{distances | gScore, previous, targetNode}` as the searches return it. */
  datatype SearchResult = SearchResult(
    scores: map<NodeId, Dist>,
    previous: map<NodeId, Option<NodeId>>,
    target: Option<NodeId>)

  /** `Object.keys(graph).forEach(node => { scores[node] = Infinity;
      previous[node] = null; })`. */
  method InitScores(graph: Graph) returns (scores: map<NodeId, Dist>, previous: map<NodeId, Option<NodeId>>)
    requires graph.Valid()
    ensures forall k :: k in scores <==> k in graph.at
    ensures forall k :: k in previous <==> k in graph.at
    ensures forall k | k in scores :: scores[k] == Inf
    ensures forall k | k in previous :: previous[k] == None
  {
    scores, previous := map[], map[];
    for i := 0 to |graph.keys|
      invariant forall k :: k in scores <==> k in graph.keys[..i]
      invariant forall k :: k in previous <==> k in graph.keys[..i]
      invariant forall k | k in scores :: scores[k] == Inf
      invariant forall k | k in previous :: previous[k] == None
    {
      assert graph.keys[..i + 1] == graph.keys[..i] + [graph.keys[i]];
      scores := scores[graph.keys[i] := Inf];
      previous := previous[graph.keys[i] := None];
    }
    assert graph.keys[..|graph.keys|] == graph.keys;
  }

  /** The keys a score table has during a search: the graph's keys and the
      start node's key (which the start assignment adds when it is missing). */
  function ScoreKeys(graph: Graph, startKey: NodeId): (ks: seq<NodeId>)
    requires graph.Valid()
    ensures Distinct(ks)
    ensures forall k :: k in ks <==> k in graph.at || k == startKey
  {
    var extra := if startKey in graph.at then [] else [startKey];
    var ks := graph.keys + extra;
    assert forall i | |graph.keys| <= i < |ks| :: ks[i] == startKey;
    ks
  }

  /** Every edge from `u` to a node with a score satisfies
      `score[to] <= score[u] + weight`. */
  ghost predicate Relaxed(graph: Graph, dist: map<NodeId, Dist>, u: NodeId)
  {
    u in dist && dist[u].Fin? ==>
      forall j | 0 <= j < |EdgesOf(graph, u)| && EdgesOf(graph, u)[j].to in dist ::
        dist[EdgesOf(graph, u)[j].to].Le(dist[u].Plus(EdgesOf(graph, u)[j].weight))
  }

  ghost predicate AllRelaxed(graph: Graph, dist: map<NodeId, Dist>)
  {
    forall u | u in dist :: Relaxed(graph, dist, u)
  }

  /** `v`'s predecessor is `u`: some edge u -> v of weight w has
      `score[u] + w <= score[v]`, both scores finite. */
  ghost predicate PrevEdge(graph: Graph, dist: map<NodeId, Dist>, u: NodeId, v: NodeId)
  {
    u in dist && v in dist && dist[u].Fin? && dist[v].Fin? &&
    exists j :: 0 <= j < |EdgesOf(graph, u)| && EdgesOf(graph, u)[j].to == v &&
      dist[u].n + EdgesOf(graph, u)[j].weight <= dist[v].n
  }

  /** As `PrevEdge`, with equality: `score[v] == score[u] + w`. */
  ghost predicate TightEdge(graph: Graph, dist: map<NodeId, Dist>, u: NodeId, v: NodeId)
  {
    u in dist && v in dist && dist[u].Fin? && dist[v].Fin? &&
    exists j :: 0 <= j < |EdgesOf(graph, u)| && EdgesOf(graph, u)[j].to == v &&
      dist[u].n + EdgesOf(graph, u)[j].weight == dist[v].n
  }

  ghost predicate PrevConsistent(graph: Graph, dist: map<NodeId, Dist>, prev: map<NodeId, Option<NodeId>>)
  {
    forall v | v in prev && prev[v].Some? :: PrevEdge(graph, dist, prev[v].value, v)
  }

  ghost predicate PrevTight(graph: Graph, dist: map<NodeId, Dist>, prev: map<NodeId, Option<NodeId>>)
  {
    forall v | v in prev && prev[v].Some? :: TightEdge(graph, dist, prev[v].value, v)
  }

  /** Lowering scores other than `x`'s keeps the edges out of `x` relaxed. */
  lemma RelaxedUnderLowering(graph: Graph, dist: map<NodeId, Dist>, dist': map<NodeId, Dist>, x: NodeId)
    requires Relaxed(graph, dist, x)
    requires forall k :: k in dist' <==> k in dist
    requires forall k | k in dist :: dist'[k].Le(dist[k])
    requires x in dist && dist'[x] == dist[x]
    ensures Relaxed(graph, dist', x)
  {
    if dist[x].Fin? {
      forall j | 0 <= j < |EdgesOf(graph, x)| && EdgesOf(graph, x)[j].to in dist'
        ensures dist'[EdgesOf(graph, x)[j].to].Le(dist'[x].Plus(EdgesOf(graph, x)[j].weight))
      {
        assert dist[EdgesOf(graph, x)[j].to].Le(dist[x].Plus(EdgesOf(graph, x)[j].weight));
      }
    }
  }

  /** The relaxation step `score[v] = score[u] + w; previous[v] = u` along
      edge `j` of `u` keeps every predecessor link consistent. */
  lemma PrevConsistentAfterRelax(graph: Graph, dist: map<NodeId, Dist>, prev: map<NodeId, Option<NodeId>>, u: NodeId, j: nat)
    requires PrevConsistent(graph, dist, prev)
    requires u in dist && dist[u].Fin? && j < |EdgesOf(graph, u)|
    requires EdgesOf(graph, u)[j].to in dist
    requires dist[u].Plus(EdgesOf(graph, u)[j].weight).Lt(dist[EdgesOf(graph, u)[j].to])
    ensures PrevConsistent(graph,
                           dist[EdgesOf(graph, u)[j].to := dist[u].Plus(EdgesOf(graph, u)[j].weight)],
                           prev[EdgesOf(graph, u)[j].to := Some(u)])
  {
    var v := EdgesOf(graph, u)[j].to;
    var dist', prev' := dist[v := dist[u].Plus(EdgesOf(graph, u)[j].weight)], prev[v := Some(u)];
    forall x | x in prev' && prev'[x].Some? ensures PrevEdge(graph, dist', prev'[x].value, x) {
      if x == v {
        assert EdgesOf(graph, u)[j].to == x;
      } else {
        var y := prev[x].value;
        var i :| 0 <= i < |EdgesOf(graph, y)| && EdgesOf(graph, y)[i].to == x &&
          dist[y].n + EdgesOf(graph, y)[i].weight <= dist[x].n;
        assert dist'[y].Le(dist[y]);
        assert EdgesOf(graph, y)[i].to == x && dist'[y].n + EdgesOf(graph, y)[i].weight <= dist'[x].n;
      }
    }
  }

  /** Once every edge is relaxed, each predecessor link is exact: the score
      of `v` is the score of its predecessor plus the linking edge. */
  lemma PrevTightWhenRelaxed(graph: Graph, dist: map<NodeId, Dist>, prev: map<NodeId, Option<NodeId>>)
    requires AllRelaxed(graph, dist) && PrevConsistent(graph, dist, prev)
    ensures PrevTight(graph, dist, prev)
  {
    forall v | v in prev && prev[v].Some? ensures TightEdge(graph, dist, prev[v].value, v) {
      var u := prev[v].value;
      var j :| 0 <= j < |EdgesOf(graph, u)| && EdgesOf(graph, u)[j].to == v &&
        dist[u].n + EdgesOf(graph, u)[j].weight <= dist[v].n;
      assert Relaxed(graph, dist, u);
    }
  }

  /** `ps[0] -> ps[1] -> ... ` where `es[i]` indexes the edge taken out of `ps[i]`. */
  ghost predicate IsWalk(graph: Graph, ps: seq<NodeId>, es: seq<nat>)
  {
    |ps| == |es| + 1 &&
    forall i | 0 <= i < |es| :: es[i] < |EdgesOf(graph, ps[i])| && EdgesOf(graph, ps[i])[es[i]].to == ps[i + 1]
  }

  ghost function WalkWeight(graph: Graph, ps: seq<NodeId>, es: seq<nat>): nat
    requires IsWalk(graph, ps, es)
  {
    if |es| == 0 then 0
    else
      var k := |es| - 1;
      assert IsWalk(graph, ps[..k + 1], es[..k]);
      WalkWeight(graph, ps[..k + 1], es[..k]) + EdgesOf(graph, ps[k])[es[k]].weight
  }

  /** When every edge is relaxed, the score at the end of any walk is at most
      the score at its start plus the walk's weight; from a start of score 0,
      a node's score is at most the weight of every walk reaching it. */
  lemma {:induction false} RelaxedBoundsWalk(graph: Graph, dist: map<NodeId, Dist>, ps: seq<NodeId>, es: seq<nat>)
    requires IsWalk(graph, ps, es) && AllRelaxed(graph, dist)
    requires forall i | 0 <= i < |ps| :: ps[i] in dist
    requires dist[ps[0]].Fin?
    ensures dist[ps[|ps| - 1]].Le(dist[ps[0]].Plus(WalkWeight(graph, ps, es)))
  {
    if |es| > 0 {
      var k := |es| - 1;
      var ps', es' := ps[..k + 1], es[..k];
      assert IsWalk(graph, ps', es');
      RelaxedBoundsWalk(graph, dist, ps', es');
      assert Relaxed(graph, dist, ps[k]);
    }
  }

  /** Some walk from `s` to `v` weighs exactly `w`. */
  ghost predicate WalkOfWeight(graph: Graph, s: NodeId, v: NodeId, w: nat)
  {
    exists ps, es :: IsWalk(graph, ps, es) && ps[0] == s && ps[|ps| - 1] == v && WalkWeight(graph, ps, es) == w
  }

  /** Every finite score is the weight of a walk from `s`. */
  ghost predicate Realized(graph: Graph, s: NodeId, dist: map<NodeId, Dist>)
  {
    forall v | v in dist && dist[v].Fin? :: WalkOfWeight(graph, s, v, dist[v].n)
  }

  /** The empty walk reaches the start at weight 0. */
  lemma EmptyWalk(graph: Graph, s: NodeId)
    ensures WalkOfWeight(graph, s, s, 0)
  {
    assert IsWalk(graph, [s], []);
  }

  /** Following one more edge out of a walk's last node gives a walk that
      weighs that edge more. */
  lemma AppendEdge(graph: Graph, ps: seq<NodeId>, es: seq<nat>, j: nat)
    requires IsWalk(graph, ps, es) && j < |EdgesOf(graph, ps[|ps| - 1])|
    ensures var e := EdgesOf(graph, ps[|ps| - 1])[j];
      IsWalk(graph, ps + [e.to], es + [j]) &&
      WalkWeight(graph, ps + [e.to], es + [j]) == WalkWeight(graph, ps, es) + e.weight
  {
    var ps', es' := ps + [EdgesOf(graph, ps[|ps| - 1])[j].to], es + [j];
    assert IsWalk(graph, ps', es');
    assert ps'[..|es'|] == ps && es'[..|es'| - 1] == es;
  }

  lemma ExtendWalk(graph: Graph, s: NodeId, u: NodeId, w: nat, j: nat)
    requires WalkOfWeight(graph, s, u, w) && j < |EdgesOf(graph, u)|
    ensures WalkOfWeight(graph, s, EdgesOf(graph, u)[j].to, w + EdgesOf(graph, u)[j].weight)
  {
    var ps, es :| IsWalk(graph, ps, es) && ps[0] == s && ps[|ps| - 1] == u && WalkWeight(graph, ps, es) == w;
    AppendEdge(graph, ps, es, j);
    assert (ps + [EdgesOf(graph, u)[j].to])[0] == s;
  }


  /** The inner nodes of a walk have outgoing edges, so they are keys of the
      graph; a walk whose ends have scores runs through scored nodes only. */
  lemma WalkStaysScored(graph: Graph, dist: map<NodeId, Dist>, ps: seq<NodeId>, es: seq<nat>)
    requires IsWalk(graph, ps, es)
    requires forall k | k in graph.at :: k in dist
    requires ps[0] in dist && ps[|ps| - 1] in dist
    ensures forall i | 0 <= i < |ps| :: ps[i] in dist
  {
    forall i | 0 <= i < |ps| ensures ps[i] in dist {
      if 0 < i < |ps| - 1 {
        assert es[i] < |EdgesOf(graph, ps[i])|;
      }
    }
  }
}
