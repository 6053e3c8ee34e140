/** The road network as the searches see it: a node table and an adjacency
    table, both keyed by node id and iterated in a fixed key order, plus the
    extended-number type used for tentative distances. */
module RoadGraph {

  /** Node ids are the string keys of the JSON tables. Each distinct string
      is represented by a distinct integer (an interning of the key strings);
      two of them matter to the searches and get fixed codes. */
  type NodeId = int

  /** The property name "null", which a `null` id turns into when it indexes
      an object. */
  const NullName: NodeId := -1

  /** The empty string, the one id string JavaScript treats as false. */
  const EmptyName: NodeId := -2

  datatype Option<T> = None | Some(value: T)

  /** How a call ends: with a value, or with the TypeError a JavaScript
      property access on `undefined` raises. */
  datatype Completion<T> = Returned(value: T) | Threw

  /** The `type` tag of a node table entry. */
  datatype Kind = Intersection | Hospital | OtherKind(tag: string)

  /** A node table entry; `lat`/`lng` are the two coordinates, in fixed point. */
  datatype Node = Node(lat: int, lng: int, kind: Kind)

  /** One entry `{to, weight}` of an adjacency list. */
  datatype Edge = Edge(to: NodeId, weight: nat)

  predicate Distinct(ks: seq<NodeId>)
  {
    forall i, j :: 0 <= i < j < |ks| ==> ks[i] != ks[j]
  }

  /** A JavaScript object used as a dictionary: its entries and the order in
      which `Object.keys` lists them. */
  datatype Table<T> = Table(keys: seq<NodeId>, at: map<NodeId, T>)
  {
    predicate Valid()
    {
      Distinct(keys) && (forall k | k in keys :: k in at) && (forall k | k in at :: k in keys)
    }
  }

  type Graph = Table<seq<Edge>>

  type NodeTable = Table<Node>

  /** A tentative distance: a finite number or `Infinity`. */
  datatype Dist = Fin(n: nat) | Inf
  {
    /** JavaScript `<` on numbers extended with `Infinity`. */
    predicate Lt(d: Dist)
    {
      Fin? && (d.Inf? || n < d.n)
    }

    predicate Le(d: Dist)
    {
      d.Inf? || (Fin? && n <= d.n)
    }

    function Plus(w: nat): Dist
    {
      if Fin? then Fin(n + w) else Inf
    }

    function Add(d: Dist): Dist
    {
      if Fin? && d.Fin? then Fin(n + d.n) else Inf
    }
  }

  lemma LeAntisymmetric(a: Dist, b: Dist)
    requires a.Le(b) && b.Le(a)
    ensures a == b
  {
  }

  /** The property name JavaScript uses when an id indexes an object:
      `null` is converted to the string "null" (`NullName`). */
  function KeyOf(id: Option<NodeId>): NodeId
  {
    if id.Some? then id.value else NullName
  }

  /** `!id` in JavaScript: true for `null` and for the empty string
      (`EmptyName`). */
  predicate Falsy(id: Option<NodeId>)
  {
    id == None || id == Some(EmptyName)
  }

  predicate IsHospital(nodes: NodeTable, id: NodeId)
  {
    id in nodes.at && nodes.at[id].kind == Hospital
  }

  predicate IsIntersection(nodes: NodeTable, id: NodeId)
  {
    id in nodes.at && nodes.at[id].kind == Intersection
  }

  /** The adjacency list of `u`, `graph[u] || []`. */
  function EdgesOf(graph: Graph, u: NodeId): seq<Edge>
  {
    if u in graph.at then graph.at[u] else []
  }
}
