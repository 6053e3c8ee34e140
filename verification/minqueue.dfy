/** The priority queue of `@datastructures-js/priority-queue`, seen only
    through what the searches rely on: it holds `{node, priority}` entries
    and `dequeue` removes an entry of least priority. Which of several
    least entries it removes is left open. */
module MinQueue {
  import opened RoadGraph

  datatype Entry = Entry(node: Option<NodeId>, priority: Dist)

  /** `e` is an entry of `q` whose priority no other entry undercuts. */
  predicate IsMin(e: Entry, q: multiset<Entry>)
  {
    e in q && forall x | x in q :: e.priority.Le(x.priority)
  }

  /** Every non-empty queue has an entry that `dequeue` may return. */
  lemma {:induction false} MinExists(q: multiset<Entry>)
    requires |q| > 0
    ensures exists e :: IsMin(e, q)
    decreases |q|
  {
    var x :| x in q;
    var rest := q - multiset{x};
    if |rest| == 0 {
      assert rest == multiset{};
      assert q == rest + multiset{x};
      assert IsMin(x, q);
    } else {
      MinExists(rest);
      var m :| IsMin(m, rest);
      assert forall y | y in q :: y == x || y in rest;
      if m.priority.Le(x.priority) {
        assert IsMin(m, q);
      } else {
        assert IsMin(x, q);
      }
    }
  }

  /** The set of node keys that still have an entry in the queue. */
  function Queued(q: multiset<Entry>): set<NodeId>
  {
    set e | e in q :: KeyOf(e.node)
  }

  /** `dequeue`: removes and returns an entry of least priority. */
  method Dequeue(q: multiset<Entry>) returns (e: Entry, rest: multiset<Entry>)
    requires |q| > 0
    ensures IsMin(e, q)
    ensures rest == q - multiset{e}
  {
    MinExists(q);
    e :| IsMin(e, q);
    rest := q - multiset{e};
  }

  /** Removing one entry leaves every other node queued. */
  lemma QueuedAfterRemoval(q: multiset<Entry>, e: Entry, x: NodeId)
    requires x in Queued(q) && x != KeyOf(e.node)
    ensures x in Queued(q - multiset{e})
  {
    var e' :| e' in q && KeyOf(e'.node) == x;
    assert e' != e;
    assert (q - multiset{e})[e'] == q[e'];
  }
}
