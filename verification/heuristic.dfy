/** The estimate A* adds to a node's distance: the heuristic distance from
    the node to the nearest hospital, over all hospitals of the node table. */
module Heuristics {
  import opened RoadGraph

  function Abs(x: int): nat
  {
    if x < 0 then -x else x
  }

  /** `heuristic(coord1, coord2)`, the square root of
      `(coord1[0] - coord2[0])² + (coord1[1] - coord1[1])²`. The second term
      subtracts the first point's longitude from itself, so it is always 0. */
  function Heuristic(a: Node, b: Node): (h: nat)
    ensures h * h == (a.lat - b.lat) * (a.lat - b.lat) + (a.lng - a.lng) * (a.lng - a.lng)
  {
    Abs(a.lat - b.lat)
  }

  /** A natural number is determined by its square. */
  lemma SquareDetermines(x: nat, y: nat)
    requires x * x == y * y
    ensures x == y
  {
  }

  /** The heuristic is the latitude difference alone: it does not depend on
      either point's longitude. */
  lemma {:induction false} HeuristicIgnoresLongitude(a: Node, b: Node, a': Node, b': Node)
    requires a.lat == a'.lat && b.lat == b'.lat
    ensures Heuristic(a, b) == Heuristic(a', b')
  {
    var h, h' := Heuristic(a, b), Heuristic(a', b');
    assert h * h == h' * h';
    SquareDetermines(h, h');
  }

  /** The heuristic never exceeds the straight-line distance between the two
      points (compared squared). */
  lemma {:induction false} HeuristicBelowStraightLine(a: Node, b: Node)
    ensures Heuristic(a, b) * Heuristic(a, b) <= (a.lat - b.lat) * (a.lat - b.lat) + (a.lng - b.lng) * (a.lng - b.lng)
  {
    var h := Heuristic(a, b);
    assert h * h == (a.lat - b.lat) * (a.lat - b.lat);
    assert 0 <= (a.lng - b.lng) * (a.lng - b.lng);
  }

  /** `ks.filter(node => nodes[node].type === "hospital")`: the hospitals among
      `ks`, in the same order. */
  function HospitalsIn(nodes: NodeTable, ks: seq<NodeId>): (hs: seq<NodeId>)
    requires forall k | k in ks :: k in nodes.at
    ensures forall h :: h in hs <==> h in ks && nodes.at[h].kind == Hospital
    ensures |hs| <= |ks|
  {
    if ks == [] then []
    else
      assert ks[0] in ks && forall k | k in ks[1..] :: k in ks;
      assert forall k | k in ks :: k == ks[0] || k in ks[1..];
      var rest := HospitalsIn(nodes, ks[1..]);
      if nodes.at[ks[0]].kind == Hospital then [ks[0]] + rest else rest
  }

  /** `Math.min(...hs.map(h => heuristic(a, nodes[h].coordinates)))`, where
      `Math.min()` of nothing is Infinity. */
  function NearestEstimate(a: Node, nodes: NodeTable, hs: seq<NodeId>): (m: Dist)
    requires forall h | h in hs :: h in nodes.at
    ensures m.Inf? <==> hs == []
    ensures forall h | h in hs :: m.Le(Fin(Heuristic(a, nodes.at[h])))
    ensures m.Fin? ==> exists h | h in hs :: m.n == Heuristic(a, nodes.at[h])
  {
    if hs == [] then Inf
    else
      assert hs[0] in hs && forall h | h in hs[1..] :: h in hs;
      assert forall h | h in hs :: h == hs[0] || h in hs[1..];
      var rest := NearestEstimate(a, nodes, hs[1..]);
      var x := Heuristic(a, nodes.at[hs[0]]);
      if rest.Fin? && rest.n < x then rest else Fin(x)
  }

  /** The `hScore` A* computes for a neighbour `v`: Infinity when the table
      has no hospital (the mapping callback never runs); a TypeError when there
      are hospitals and `v` is not in the node table (`nodes[v].coordinates`
      on undefined); otherwise the least heuristic from `v` to a hospital. */
  function HScore(nodes: NodeTable, v: NodeId): (r: Completion<Dist>)
    requires nodes.Valid()
    ensures v in nodes.at ==> r.Returned?
    ensures r.Threw? ==> v !in nodes.at
  {
    var hs := HospitalsIn(nodes, nodes.keys);
    if hs == [] then Returned(Inf)
    else if v !in nodes.at then Threw
    else Returned(NearestEstimate(nodes.at[v], nodes, hs))
  }

  /** `hScore` throws exactly when hospitals exist and `v` is not in the
      node table. */
  lemma HScoreThrows(nodes: NodeTable, v: NodeId)
    requires nodes.Valid()
    ensures HScore(nodes, v).Threw? <==> (exists h | h in nodes.keys :: IsHospital(nodes, h)) && v !in nodes.at
  {
    var hs := HospitalsIn(nodes, nodes.keys);
    if hs != [] {
      assert hs[0] in hs;
    }
  }

  /** A returned `hScore` is Infinity exactly when there is no hospital;
      otherwise it is the heuristic distance from `v` to a nearest
      hospital. */
  lemma HScoreNearest(nodes: NodeTable, v: NodeId)
    requires nodes.Valid() && HScore(nodes, v).Returned?
    ensures HScore(nodes, v).value.Inf? <==> forall h | h in nodes.keys :: !IsHospital(nodes, h)
    ensures HScore(nodes, v).value.Fin? ==>
      (forall h | h in nodes.keys && IsHospital(nodes, h) :: HScore(nodes, v).value.n <= Heuristic(nodes.at[v], nodes.at[h])) &&
      exists h | h in nodes.keys && IsHospital(nodes, h) :: HScore(nodes, v).value.n == Heuristic(nodes.at[v], nodes.at[h])
  {
    var hs := HospitalsIn(nodes, nodes.keys);
    if hs != [] {
      assert hs[0] in hs;
    }
  }
}
