/** Reading a route out of a search's predecessor table: follow the
    recorded predecessors back from the target until there is none, then
    reverse what was collected. */
module PathReconstruction {
  import opened RoadGraph
  import opened Relaxation
  import opened Frontiers

  /** `previous[v]`: the recorded predecessor of `v`. A node without an
      entry reads as `undefined`, which ends the walk back like `null`. */
  function Next(previous: map<NodeId, Option<NodeId>>, v: NodeId): Option<NodeId>
  {
    if v in previous then previous[v] else None
  }

  /** Following predecessors back from `x` reaches `null` within `n` steps. */
  ghost predicate EndsWithin(previous: map<NodeId, Option<NodeId>>, x: Option<NodeId>, n: nat)
    decreases n
  {
    x == None || (n > 0 && EndsWithin(previous, Next(previous, x.value), n - 1))
  }

  /** The nodes met when following predecessors back from `x`, `x` first. */
  ghost function Chain(previous: map<NodeId, Option<NodeId>>, x: Option<NodeId>, n: nat): (c: seq<NodeId>)
    requires EndsWithin(previous, x, n)
    ensures |c| <= n
    ensures c == [] <==> x == None
    ensures x.Some? ==> c[0] == x.value
    decreases n
  {
    if x == None then [] else [x.value] + Chain(previous, Next(previous, x.value), n - 1)
  }

  /** `Array.prototype.reverse`: the same elements, last first. */
  function Reversed<T>(s: seq<T>): (r: seq<T>)
    ensures |r| == |s|
    ensures forall i | 0 <= i < |s| :: r[i] == s[|s| - 1 - i]
  {
    if s == [] then [] else Reversed(s[1..]) + [s[0]]
  }

  /** `reconstructPath(previous, target)`. The loop only ends when the walk
      back reaches `null` or `undefined`, so the caller must hand it a target
      from which that happens (`n` bounds the number of steps). */
  method ReconstructPath(previous: map<NodeId, Option<NodeId>>, target: Option<NodeId>, ghost n: nat) returns (path: seq<NodeId>)
    requires EndsWithin(previous, target, n)
    ensures path == Reversed(Chain(previous, target, n))
  {
    var pushed: seq<NodeId> := [];
    var current := target;
    while current != None
      invariant |pushed| <= n
      invariant EndsWithin(previous, current, n - |pushed|)
      invariant pushed + Chain(previous, current, n - |pushed|) == Chain(previous, target, n)
      decreases n - |pushed|
    {
      ChainStep(previous, pushed, current, n - |pushed|);
      pushed := pushed + [current.value];
      current := Next(previous, current.value);
    }
    assert Chain(previous, current, n - |pushed|) == [];
    assert pushed == Chain(previous, target, n);
    path := Reversed(pushed);
  }

  /** One turn of `reconstructPath`'s loop: pushing the current node and
      stepping to its predecessor leaves the pushed nodes followed by the
      rest of the chain unchanged. */
  lemma ChainStep(previous: map<NodeId, Option<NodeId>>, pushed: seq<NodeId>, x: Option<NodeId>, m: nat)
    requires x.Some? && EndsWithin(previous, x, m)
    ensures m > 0 && EndsWithin(previous, Next(previous, x.value), m - 1)
    ensures pushed + Chain(previous, x, m) == (pushed + [x.value]) + Chain(previous, Next(previous, x.value), m - 1)
  {
    assert Chain(previous, x, m) == [x.value] + Chain(previous, Next(previous, x.value), m - 1);
  }

  /** Each node of the chain has the next one as its predecessor; the last
      has none. */
  lemma {:induction false} ChainLinks(previous: map<NodeId, Option<NodeId>>, x: Option<NodeId>, n: nat, i: nat)
    requires EndsWithin(previous, x, n)
    requires i < |Chain(previous, x, n)|
    ensures var c := Chain(previous, x, n);
      Next(previous, c[i]) == if i + 1 < |c| then Some(c[i + 1]) else None
    decreases n
  {
    var c := Chain(previous, x, n);
    var rest := Chain(previous, Next(previous, x.value), n - 1);
    assert c == [x.value] + rest;
    if i > 0 {
      ChainLinks(previous, Next(previous, x.value), n - 1, i - 1);
    }
  }

  /** The chain from a node does not depend on the step bound, nor on how
      the node is reached. */
  lemma {:induction false} ChainDetermined(previous: map<NodeId, Option<NodeId>>, x: Option<NodeId>, y: Option<NodeId>, n: nat, m: nat)
    requires EndsWithin(previous, x, n) && EndsWithin(previous, y, m)
    ensures x == y ==> Chain(previous, x, n) == Chain(previous, y, m)
    decreases n
  {
    if x == y && x.Some? {
      ChainDetermined(previous, Next(previous, x.value), Next(previous, y.value), n - 1, m - 1);
    }
  }

  /** What follows the `i`-th node of a chain is the chain from that node. */
  lemma {:induction false} ChainSuffix(previous: map<NodeId, Option<NodeId>>, x: Option<NodeId>, n: nat, i: nat)
    requires EndsWithin(previous, x, n)
    requires i < |Chain(previous, x, n)|
    ensures i < n
    ensures EndsWithin(previous, Some(Chain(previous, x, n)[i]), n - i)
    ensures Chain(previous, Some(Chain(previous, x, n)[i]), n - i) == Chain(previous, x, n)[i..]
    decreases n
  {
    var c := Chain(previous, x, n);
    var rest := Chain(previous, Next(previous, x.value), n - 1);
    assert c == [x.value] + rest;
    if i > 0 {
      ChainSuffix(previous, Next(previous, x.value), n - 1, i - 1);
      assert c[i..] == rest[i - 1..];
    }
  }

  /** A chain that ends never visits a node twice. */
  lemma ChainDistinct(previous: map<NodeId, Option<NodeId>>, x: Option<NodeId>, n: nat)
    requires EndsWithin(previous, x, n)
    ensures Distinct(Chain(previous, x, n))
  {
    var c := Chain(previous, x, n);
    forall i, j | 0 <= i < j < |c|
      ensures c[i] != c[j]
    {
      ChainSuffix(previous, x, n, i);
      ChainSuffix(previous, x, n, j);
      ChainDetermined(previous, Some(c[i]), Some(c[j]), n - i, n - j);
      assert |c[i..]| != |c[j..]|;
    }
  }

  /** The path `reconstructPath` returns: empty exactly for a `null` target;
      otherwise it ends at the target, starts at a node without predecessor,
      records each node's predecessor just before it, and repeats no node. */
  lemma PathShape(previous: map<NodeId, Option<NodeId>>, target: Option<NodeId>, n: nat)
    requires EndsWithin(previous, target, n)
    ensures var p := Reversed(Chain(previous, target, n));
      (p == [] <==> target == None) &&
      (target.Some? ==> p[|p| - 1] == target.value) &&
      (p != [] ==> Next(previous, p[0]) == None) &&
      (forall i | 0 < i < |p| :: Next(previous, p[i]) == Some(p[i - 1])) &&
      Distinct(p) && |p| <= n
  {
    var c := Chain(previous, target, n);
    var p := Reversed(c);
    ChainDistinct(previous, target, n);
    if p != [] {
      ChainLinks(previous, target, n, |c| - 1);
    }
    forall i | 0 < i < |p|
      ensures Next(previous, p[i]) == Some(p[i - 1])
    {
      ChainLinks(previous, target, n, |c| - 1 - i);
    }
    forall i, j | 0 <= i < j < |p|
      ensures p[i] != p[j]
    {
      assert p[i] == c[|c| - 1 - i] && p[j] == c[|c| - 1 - j];
    }
  }

  /** The edge behind a recorded predecessor: an edge from `u` to `v`
      along which the distance grows by at least its weight, and by exactly
      its weight when every recorded predecessor edge is tight. */
  lemma PredecessorEdge(graph: Graph, dist: map<NodeId, Dist>, previous: map<NodeId, Option<NodeId>>, u: NodeId, v: NodeId) returns (j: nat)
    requires PrevConsistent(graph, dist, previous) && Next(previous, v) == Some(u)
    ensures j < |EdgesOf(graph, u)| && EdgesOf(graph, u)[j].to == v
    ensures u in dist && v in dist && dist[u].Fin? && dist[v].Fin?
    ensures dist[u].n + EdgesOf(graph, u)[j].weight <= dist[v].n
    ensures PrevTight(graph, dist, previous) ==> dist[u].n + EdgesOf(graph, u)[j].weight == dist[v].n
  {
    assert v in previous && previous[v] == Some(u);
    var edges := EdgesOf(graph, u);
    if PrevTight(graph, dist, previous) {
      assert TightEdge(graph, dist, u, v);
      j :| 0 <= j < |edges| && edges[j].to == v && dist[u].n + edges[j].weight == dist[v].n;
    } else {
      assert PrevEdge(graph, dist, u, v);
      j :| 0 <= j < |edges| && edges[j].to == v && dist[u].n + edges[j].weight <= dist[v].n;
    }
  }

  /** A non-empty sequence in which each node is recorded as the predecessor
      of the next is a walk through the graph whose weight is at most the
      growth of the distance along it, and exactly that when every recorded
      predecessor edge is tight. */
  lemma {:induction false} PredecessorWalk(graph: Graph, dist: map<NodeId, Dist>, previous: map<NodeId, Option<NodeId>>, p: seq<NodeId>) returns (es: seq<nat>)
    requires PrevConsistent(graph, dist, previous)
    requires p != [] && p[|p| - 1] in dist && dist[p[|p| - 1]].Fin?
    requires forall i | 0 < i < |p| :: Next(previous, p[i]) == Some(p[i - 1])
    ensures IsWalk(graph, p, es)
    ensures p[0] in dist && dist[p[0]].Fin?
    ensures dist[p[0]].n + WalkWeight(graph, p, es) <= dist[p[|p| - 1]].n
    ensures PrevTight(graph, dist, previous) ==> dist[p[0]].n + WalkWeight(graph, p, es) == dist[p[|p| - 1]].n
    decreases |p|
  {
    if |p| == 1 {
      es := [];
    } else {
      var k := |p| - 2;
      var front := p[..k + 1];
      assert p == front + [p[k + 1]];
      var j := PredecessorEdge(graph, dist, previous, p[k], p[k + 1]);
      var es' := PredecessorWalk(graph, dist, previous, front);
      AppendEdge(graph, front, es', j);
      es := es' + [j];
    }
  }

  /** Walking back from a node whose predecessor links climb a rank ends:
      each step lowers the rank, distance first, then stamp. */
  lemma {:induction false} RankedByEnds(dist: map<NodeId, Dist>, previous: map<NodeId, Option<NodeId>>, stamp: map<NodeId, nat>, clock: nat, v: NodeId) returns (n: nat)
    requires RankedBy(dist, previous, stamp, clock) && v in dist
    ensures EndsWithin(previous, Some(v), n)
    decreases if dist[v].Fin? then dist[v].n else 0, stamp[v]
  {
    var next := Next(previous, v);
    if next == None {
      n := 1;
    } else {
      var u := next.value;
      assert v in previous && previous[v] == Some(u);
      assert RankBelow(dist, stamp, u, v);
      var m := RankedByEnds(dist, previous, stamp, clock, u);
      n := m + 1;
    }
  }

  /** On ranked tables in which every node with a predecessor entry has a
      distance, `reconstructPath` ends for every target. */
  lemma ReadBackEnds(dist: map<NodeId, Dist>, previous: map<NodeId, Option<NodeId>>, target: Option<NodeId>) returns (n: nat)
    requires Ranked(dist, previous) && forall k | k in previous :: k in dist
    ensures EndsWithin(previous, target, n)
  {
    var stamp, clock :| RankedBy(dist, previous, stamp, clock);
    if target == None {
      n := 0;
    } else if target.value in dist {
      n := RankedByEnds(dist, previous, stamp, clock, target.value);
    } else {
      assert Next(previous, target.value) == None;
      n := 1;
    }
  }

  /** Given the key shape and invariants both searches leave behind, the
      path read back from a node with a finite distance starts at the start
      node and is a walk to that node weighing at most its distance (exactly
      its distance when every recorded predecessor edge is tight). */
  lemma RouteFromStart(graph: Graph, startKey: NodeId, dist: map<NodeId, Dist>, previous: map<NodeId, Option<NodeId>>, v: NodeId, n: nat) returns (es: seq<nat>)
    requires forall k :: k in dist <==> k in graph.at || k == startKey
    requires forall k :: k in previous <==> k in graph.at
    requires startKey in dist && dist[startKey] == Fin(0)
    requires PrevConsistent(graph, dist, previous) && Rooted(startKey, Frontier(dist, previous, multiset{}))
    requires v in dist && dist[v].Fin? && EndsWithin(previous, Some(v), n)
    ensures var p := Reversed(Chain(previous, Some(v), n));
      p != [] && p[0] == startKey && p[|p| - 1] == v &&
      IsWalk(graph, p, es) && WalkWeight(graph, p, es) <= dist[v].n &&
      (PrevTight(graph, dist, previous) ==> WalkWeight(graph, p, es) == dist[v].n)
  {
    var p := Reversed(Chain(previous, Some(v), n));
    PathShape(previous, Some(v), n);
    es := PredecessorWalk(graph, dist, previous, p);
    assert Next(previous, p[0]) == None;
  }
}
