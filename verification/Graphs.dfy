/** Adjacency lists. */
module Graphs {
  import opened Edges

  /** g[u] lists the neighbours of u with the weights of the edges to them. */
  type Graph = seq<seq<(nat, int)>>

  ghost predicate IsArc(g: Graph, e: Edge) {
    e.u < |g| && (e.v, e.w) in g[e.u]
  }

  function ArcsFrom(u: nat, neighbours: seq<(nat, int)>): (arcs: seq<Edge>)
    ensures forall e :: e in arcs <==> e.u == u && (e.v, e.w) in neighbours
  {
    var arcs := seq(|neighbours|, i requires 0 <= i < |neighbours| => Edge(u, neighbours[i].0, neighbours[i].1));
    assert forall i :: 0 <= i < |neighbours| ==> arcs[i].u == u && (arcs[i].v, arcs[i].w) == neighbours[i];
    arcs
  }

  function Arcs(g: Graph): (arcs: seq<Edge>)
    ensures forall e :: e in arcs <==> IsArc(g, e)
  {
    if g == [] then []
    else Arcs(g[..|g| - 1]) + ArcsFrom(|g| - 1, g[|g| - 1])
  }

  /** An undirected graph: every edge is listed at both of its ends. */
  ghost predicate Undirected(g: Graph) {
    forall e :: IsArc(g, e) ==> e.v < |g| && IsArc(g, Edge(e.v, e.u, e.w))
  }

  ghost predicate WellFormed(g: Graph) {
    forall e :: IsArc(g, e) ==> e.v < |g|
  }

  /** The k-th entry of a list is an arc. */
  lemma EntryIsArc(g: Graph, u: nat, k: nat)
    requires u < |g| && k < |g[u]|
    ensures IsArc(g, Edge(u, g[u][k].0, g[u][k].1))
  {
  }
}
