/** The benchmark harness's helper that picks the closest hospital from the
    distances Dijkstra's search computed. */
module Benchmark {
  import opened RoadGraph
  import opened HospitalChoice

  /** `findClosestHospitalFromDistances`: the same scan as the one that ends
      Dijkstra's search (strict `<` against a minimum starting at Infinity,
      `null` when no hospital has a finite distance). */
  method FindClosestHospitalFromDistances(nodes: NodeTable, dist: map<NodeId, Dist>) returns (closestHospital: Option<NodeId>)
    requires nodes.Valid()
    ensures NearestHospital(nodes, dist, closestHospital)
  {
    closestHospital := SelectNearestHospital(nodes, dist);
  }
}
