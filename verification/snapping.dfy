/** Snapping a clicked point to the road network: the intersection node
    nearest to it. Distances are compared squared, which picks the same node
    as comparing their square roots. */
module Snapping {
  import opened RoadGraph

  /** Squared planar distance from (lat, lng) to a node. */
  function SqDist(lat: int, lng: int, node: Node): nat
  {
    (lat - node.lat) * (lat - node.lat) + (lng - node.lng) * (lng - node.lng)
  }

  /** `closest` is what the scan over intersections settles on: `None` when
      the table has no intersection; otherwise an intersection no farther
      than any other, and strictly nearer than every intersection listed
      before it. */
  ghost predicate ClosestIntersection(lat: int, lng: int, nodes: NodeTable, closest: Option<NodeId>)
    requires nodes.Valid()
  {
    match closest
    case None =>
      forall k | k in nodes.keys :: !IsIntersection(nodes, k)
    case Some(c) =>
      IsIntersection(nodes, c) &&
      (forall k | k in nodes.keys && IsIntersection(nodes, k) ::
         SqDist(lat, lng, nodes.at[c]) <= SqDist(lat, lng, nodes.at[k])) &&
      exists i :: 0 <= i < |nodes.keys| && nodes.keys[i] == c &&
        forall j | 0 <= j < i && IsIntersection(nodes, nodes.keys[j]) ::
          SqDist(lat, lng, nodes.at[c]) < SqDist(lat, lng, nodes.at[nodes.keys[j]])
  }

  /** `findClosestNode`: a scan over the entries of the node table in key
      order that keeps an intersection when it is strictly nearer than the
      best so far (`minDist` starts at Infinity, written here as `None`). */
  method FindClosestNode(lat: int, lng: int, nodes: NodeTable) returns (closestNode: Option<NodeId>)
    requires nodes.Valid()
    ensures ClosestIntersection(lat, lng, nodes, closestNode)
    ensures closestNode.None? <==> forall k | k in nodes.keys :: !IsIntersection(nodes, k)
    ensures closestNode.Some? ==> nodes.at[closestNode.value].kind == Intersection
    ensures (exists k | k in nodes.keys :: IsIntersection(nodes, k) && SqDist(lat, lng, nodes.at[k]) == 0) ==>
      closestNode.Some? && SqDist(lat, lng, nodes.at[closestNode.value]) == 0
  {
    var minDist: Option<nat> := None;
    closestNode := None;
    for i := 0 to |nodes.keys|
      invariant closestNode.None? <==> minDist.None?
      invariant closestNode.None? ==> forall j | 0 <= j < i :: !IsIntersection(nodes, nodes.keys[j])
      invariant closestNode.Some? ==>
        IsIntersection(nodes, closestNode.value) && minDist.value == SqDist(lat, lng, nodes.at[closestNode.value])
      invariant closestNode.Some? ==>
        forall j | 0 <= j < i && IsIntersection(nodes, nodes.keys[j]) :: minDist.value <= SqDist(lat, lng, nodes.at[nodes.keys[j]])
      invariant closestNode.Some? ==>
        exists t :: 0 <= t < i && nodes.keys[t] == closestNode.value &&
          forall j | 0 <= j < t && IsIntersection(nodes, nodes.keys[j]) ::
            minDist.value < SqDist(lat, lng, nodes.at[nodes.keys[j]])
    {
      var id := nodes.keys[i];
      var node := nodes.at[id];
      if node.kind == Intersection {
        var dist := SqDist(lat, lng, node);
        if minDist.None? || dist < minDist.value {
          minDist := Some(dist);
          closestNode := Some(id);
        }
      }
    }
    if closestNode.Some? {
      forall k | k in nodes.keys && IsIntersection(nodes, k)
        ensures minDist.value <= SqDist(lat, lng, nodes.at[k])
      {
        var j :| 0 <= j < |nodes.keys| && nodes.keys[j] == k;
      }
    }
  }

  /** The scan's answer is determined by the point and the table: any two
      results meeting `ClosestIntersection` are the same node. */
  lemma ClosestIntersectionUnique(lat: int, lng: int, nodes: NodeTable, a: Option<NodeId>, b: Option<NodeId>)
    requires nodes.Valid()
    requires ClosestIntersection(lat, lng, nodes, a) && ClosestIntersection(lat, lng, nodes, b)
    ensures a == b
  {
    if a.Some? && b.Some? {
      var i :| 0 <= i < |nodes.keys| && nodes.keys[i] == a.value &&
        forall j | 0 <= j < i && IsIntersection(nodes, nodes.keys[j]) ::
          SqDist(lat, lng, nodes.at[a.value]) < SqDist(lat, lng, nodes.at[nodes.keys[j]]);
      var i' :| 0 <= i' < |nodes.keys| && nodes.keys[i'] == b.value &&
        forall j | 0 <= j < i' && IsIntersection(nodes, nodes.keys[j]) ::
          SqDist(lat, lng, nodes.at[b.value]) < SqDist(lat, lng, nodes.at[nodes.keys[j]]);
      if i < i' {
        assert false;
      } else if i' < i {
        assert false;
      }
    } else if a.Some? {
      assert false;
    } else if b.Some? {
      assert false;
    }
  }
}
