/** Kruskal's and Prim's algorithms find trees of the same total weight. */
module MinimumTrees {
  import opened Edges
  import opened Graphs
  import opened Partition
  import opened SpanningForest
  import Kruskal
  import Prim

  /** g lists every edge at both of its ends, and nothing else. */
  ghost predicate AdjacencyOf(V: nat, edges: seq<Edge>, g: Graph) {
    && |g| == V && InRange(V, edges)
    && forall e :: IsArc(g, e) <==> Offers(edges, e)
  }

  lemma SameSpanningForests(V: nat, edges: seq<Edge>, g: Graph, forest: seq<Edge>)
    requires AdjacencyOf(V, edges, g)
    ensures Undirected(g)
    ensures SpanningForestOf(V, edges, forest) <==> SpanningForestOf(V, Arcs(g), forest)
  {
    assert forall e :: IsArc(g, e) ==> Offers(edges, Edge(e.v, e.u, e.w));
    assert forall e :: Offers(edges, e) ==> e.u < V && e.v < V;
    assert forall e :: Offers(edges, e) <==> Offers(Arcs(g), e);
    if SpanningForestOf(V, edges, forest) {
      forall e | e in Arcs(g)
        ensures Joins(V, forest, e)
      {
        assert Joins(V, forest, if e in edges then e else Edge(e.v, e.u, e.w));
      }
    }
    if SpanningForestOf(V, Arcs(g), forest) {
      forall e | e in edges
        ensures Joins(V, forest, e)
      {
        assert IsArc(g, e) by { assert Offers(edges, e); }
      }
    }
  }

  lemma SameConnectivity(V: nat, edges: seq<Edge>, g: Graph)
    requires AdjacencyOf(V, edges, g) && ConnectedGraph(V, edges)
    ensures ConnectedGraph(V, Arcs(g))
  {
    forall e | e in edges
      ensures e in Arcs(g)
    {
      assert Offers(edges, e);
    }
    assert forall e :: Offers(edges, e) ==> e.u < V && e.v < V;
    assert forall e :: IsArc(g, e) ==> e.u < V && e.v < V;
    EdgesStayInside(V, Arcs(g));
    Refines(V, edges, Arcs(g));
    forall a, b | 0 <= a < V && 0 <= b < V
      ensures Connected(Arcs(g), a, b)
    {
      LabelsAreConnectivity(V, edges, a, b);
      LabelsAreConnectivity(V, Arcs(g), a, b);
    }
  }

  /** The two programs, run on one connected graph, return equal totals. */
  method CompareTotals(V: nat, edges: seq<Edge>, sorted: seq<Edge>, g: Graph) returns (totalK: int, totalP: int)
    requires V > 0 && AdjacencyOf(V, edges, g) && ConnectedGraph(V, edges)
    requires multiset(sorted) == multiset(edges) && Kruskal.SortedByWeight(sorted)
    ensures totalK == totalP
    ensures forall tree :: SpanningTreeOf(V, edges, tree) ==> totalK <= Weight(tree)
    ensures exists tree :: SpanningTreeOf(V, edges, tree) && totalK == Weight(tree)
  {
    hide AdjacencyOf, ConnectedGraph, SpanningTreeOf, SpanningForestOf;
    AdjacencyRange(V, edges, g);
    var mstK := Kruskal.Kruskal(V, edges, sorted);
    SameSpanningForests(V, edges, g, mstK);
    var mstP, _ := Prim.Prim(g);
    SameConnectivity(V, edges, g);
    SameSpanningForests(V, edges, g, mstP);
    TreesAreSpanningForests(V, Arcs(g), mstP);
    forall tree | SpanningTreeOf(V, edges, tree)
      ensures Weight(mstK) <= Weight(tree)
    {
      TreesAreSpanningForests(V, edges, tree);
    }
    return Weight(mstK), Weight(mstP);
  }

  lemma AdjacencyRange(V: nat, edges: seq<Edge>, g: Graph)
    requires AdjacencyOf(V, edges, g)
    ensures |g| == V && InRange(V, edges) && InRange(V, Arcs(g))
  {
  }
}
