/** Weighted edges. */
module Edges {
  datatype Edge = Edge(u: nat, v: nat, w: int)

  ghost predicate InRange(V: nat, edges: seq<Edge>) {
    forall e :: e in edges ==> e.u < V && e.v < V
  }

  function Weight(edges: seq<Edge>): int {
    if edges == [] then 0 else Weight(edges[..|edges| - 1]) + edges[|edges| - 1].w
  }

  lemma {:induction false} WeightConcat(p: seq<Edge>, q: seq<Edge>)
    ensures Weight(p + q) == Weight(p) + Weight(q)
    decreases |q|
  {
    if q == [] {
      assert p + q == p;
    } else {
      var q' := q[..|q| - 1];
      assert (p + q)[..|p + q| - 1] == p + q';
      WeightConcat(p, q');
    }
  }
}
