/** A measure on a table of tentative distances that strictly decreases
    whenever one entry is lowered: first the number of entries still at
    `Infinity`, then the sum of the finite entries. Both searches lower an
    entry every time they enqueue, which is why their loops end. */
module Descent {
  import opened RoadGraph

  function InfCount(ks: seq<NodeId>, m: map<NodeId, Dist>): nat
  {
    if ks == [] then 0
    else (if ks[0] in m && m[ks[0]].Fin? then 0 else 1) + InfCount(ks[1..], m)
  }

  function FinSum(ks: seq<NodeId>, m: map<NodeId, Dist>): nat
  {
    if ks == [] then 0
    else (if ks[0] in m && m[ks[0]].Fin? then m[ks[0]].n else 0) + FinSum(ks[1..], m)
  }

  /** Lexicographic order on (InfCount, FinSum). */
  predicate Below(a: nat, b: nat, c: nat, d: nat)
  {
    a < c || (a == c && b < d)
  }

  lemma {:induction false} UpdateElsewhere(ks: seq<NodeId>, m: map<NodeId, Dist>, v: NodeId, d: Dist)
    requires v !in ks
    ensures InfCount(ks, m[v := d]) == InfCount(ks, m)
    ensures FinSum(ks, m[v := d]) == FinSum(ks, m)
  {
    if ks != [] {
      UpdateElsewhere(ks[1..], m, v, d);
    }
  }

  /** Lowering the entry of one key strictly decreases the measure. */
  lemma {:induction false} LoweringDescends(ks: seq<NodeId>, m: map<NodeId, Dist>, v: NodeId, n: nat)
    requires Distinct(ks) && v in ks && v in m
    requires Fin(n).Lt(m[v])
    ensures Below(InfCount(ks, m[v := Fin(n)]), FinSum(ks, m[v := Fin(n)]), InfCount(ks, m), FinSum(ks, m))
  {
    if ks[0] == v {
      assert v !in ks[1..] by {
        forall i | 0 <= i < |ks[1..]| ensures ks[1..][i] != v {
          assert ks[1..][i] == ks[i + 1];
        }
      }
      UpdateElsewhere(ks[1..], m, v, Fin(n));
    } else {
      assert Distinct(ks[1..]) by {
        forall i, j | 0 <= i < j < |ks[1..]| ensures ks[1..][i] != ks[1..][j] {
          assert ks[1..][i] == ks[i + 1] && ks[1..][j] == ks[j + 1];
        }
      }
      LoweringDescends(ks[1..], m, v, n);
    }
  }
}
