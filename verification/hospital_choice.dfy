/** What "the nearest hospital" means once the tentative distances are
    known: a scan over the node table in key order that keeps a hospital
    only when its distance is strictly below the best so far. */
module HospitalChoice {
  import opened RoadGraph

  /** A hospital the scan can pick: it has a finite distance. */
  ghost predicate Candidate(nodes: NodeTable, dist: map<NodeId, Dist>, k: NodeId)
  {
    IsHospital(nodes, k) && k in dist && dist[k].Fin?
  }

  /** `t` is the result of the scan: `None` when no hospital has a finite
      distance; otherwise a candidate whose distance is at most every
      hospital's, strictly below that of every candidate listed before it. */
  ghost predicate NearestHospital(nodes: NodeTable, dist: map<NodeId, Dist>, t: Option<NodeId>)
  {
    match t
    case None =>
      forall k | k in nodes.keys :: !Candidate(nodes, dist, k)
    case Some(h) =>
      Candidate(nodes, dist, h) &&
      (forall k | k in nodes.keys && Candidate(nodes, dist, k) :: dist[h].Le(dist[k])) &&
      exists i :: 0 <= i < |nodes.keys| && nodes.keys[i] == h &&
        forall j | 0 <= j < i && Candidate(nodes, dist, nodes.keys[j]) :: dist[h].Lt(dist[nodes.keys[j]])
  }

  /** The scan's result is determined by the node table and the distances:
      two scans over the same inputs pick the same node. */
  lemma NearestHospitalUnique(nodes: NodeTable, dist: map<NodeId, Dist>, a: Option<NodeId>, b: Option<NodeId>)
    requires nodes.Valid()
    requires NearestHospital(nodes, dist, a) && NearestHospital(nodes, dist, b)
    ensures a == b
  {
    if a.Some? && b.Some? {
      var i :| 0 <= i < |nodes.keys| && nodes.keys[i] == a.value &&
        forall j | 0 <= j < i && Candidate(nodes, dist, nodes.keys[j]) :: dist[a.value].Lt(dist[nodes.keys[j]]);
      var i' :| 0 <= i' < |nodes.keys| && nodes.keys[i'] == b.value &&
        forall j | 0 <= j < i' && Candidate(nodes, dist, nodes.keys[j]) :: dist[b.value].Lt(dist[nodes.keys[j]]);
      if i < i' {
        assert false;
      } else if i' < i {
        assert false;
      }
    } else if a.Some? {
      assert false;
    } else if b.Some? {
      assert false;
    }
  }

  /** The scan itself: `Object.keys(nodes).forEach` keeping a hospital whose
      distance is below the best so far (`min`, starting at Infinity); a
      node without a distance compares false. */
  method SelectNearestHospital(nodes: NodeTable, dist: map<NodeId, Dist>) returns (closestHospital: Option<NodeId>)
    requires nodes.Valid()
    ensures NearestHospital(nodes, dist, closestHospital)
  {
    var minDistance := Inf;
    closestHospital := None;
    for i := 0 to |nodes.keys|
      invariant closestHospital.None? ==> minDistance == Inf
      invariant closestHospital.None? ==> forall j | 0 <= j < i :: !Candidate(nodes, dist, nodes.keys[j])
      invariant closestHospital.Some? ==> Candidate(nodes, dist, closestHospital.value) && minDistance == dist[closestHospital.value]
      invariant closestHospital.Some? ==> forall j | 0 <= j < i && Candidate(nodes, dist, nodes.keys[j]) :: minDistance.Le(dist[nodes.keys[j]])
      invariant closestHospital.Some? ==>
        exists t :: 0 <= t < i && nodes.keys[t] == closestHospital.value &&
          forall j | 0 <= j < t && Candidate(nodes, dist, nodes.keys[j]) :: minDistance.Lt(dist[nodes.keys[j]])
    {
      var k := nodes.keys[i];
      if nodes.at[k].kind == Hospital && k in dist && dist[k].Lt(minDistance) {
        minDistance := dist[k];
        closestHospital := Some(k);
      }
    }
    if closestHospital.Some? {
      forall k | k in nodes.keys && Candidate(nodes, dist, k) ensures minDistance.Le(dist[k]) {
        var j :| 0 <= j < |nodes.keys| && nodes.keys[j] == k;
      }
    }
  }
}
