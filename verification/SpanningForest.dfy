/** Minimum spanning forests, and a criterion by weight thresholds that both algorithms meet. */
module SpanningForest {
  import opened Counting
  import opened Edges
  import opened Partition

  /** `e` or its reversal is one of `edges`. */
  predicate Offers(edges: seq<Edge>, e: Edge) {
    e in edges || Edge(e.v, e.u, e.w) in edges
  }

  /** Every edge joins two blocks of the edges before it: no cycles. */
  ghost predicate Forest(V: nat, edges: seq<Edge>) {
    InRange(V, edges) && Rank(V, edges) == |edges|
  }

  /** A forest of edges of the graph that connects whatever the graph connects. */
  ghost predicate SpanningForestOf(V: nat, graph: seq<Edge>, forest: seq<Edge>) {
    && InRange(V, graph) && Forest(V, forest)
    && (forall e :: e in forest ==> Offers(graph, e))
    && (forall e :: e in graph ==> Joins(V, forest, e))
  }

  /** The textbook notion: V - 1 edges of the graph that connect every two vertices. */
  ghost predicate SpanningTreeOf(V: nat, graph: seq<Edge>, tree: seq<Edge>) {
    && (forall e :: e in tree ==> Offers(graph, e))
    && |tree| + 1 == V
    && (forall a, b :: 0 <= a < V && 0 <= b < V ==> Connected(tree, a, b))
  }

  ghost predicate ConnectedGraph(V: nat, graph: seq<Edge>) {
    forall a, b :: 0 <= a < V && 0 <= b < V ==> Connected(graph, a, b)
  }

  // ---------- Thresholds ----------

  function AtMost(edges: seq<Edge>, w: int): seq<Edge> {
    if edges == [] then []
    else
      var before, last := AtMost(edges[..|edges| - 1], w), edges[|edges| - 1];
      if last.w <= w then before + [last] else before
  }

  lemma {:induction false} InAtMost(edges: seq<Edge>, w: int)
    ensures forall e :: e in AtMost(edges, w) <==> e in edges && e.w <= w
    ensures |AtMost(edges, w)| <= |edges|
    decreases |edges|
  {
    if edges != [] {
      InAtMost(edges[..|edges| - 1], w);
      assert edges == edges[..|edges| - 1] + [edges[|edges| - 1]];
    }
  }

  lemma {:induction false} AllAtMost(edges: seq<Edge>, w: int)
    ensures |AtMost(edges, w)| == |edges| <==> forall e :: e in edges ==> e.w <= w
    ensures (forall e :: e in edges ==> e.w <= w) ==> AtMost(edges, w) == edges
    decreases |edges|
  {
    if edges != [] {
      var before, last := edges[..|edges| - 1], edges[|edges| - 1];
      assert edges == before + [last];
      AllAtMost(before, w);
      InAtMost(before, w);
    }
  }

  /** `forest` connects, with edges of weight at most e.w, the ends of every edge of `graph`. */
  ghost predicate SpansThresholds(V: nat, graph: seq<Edge>, forest: seq<Edge>) {
    && InRange(V, graph) && InRange(V, forest)
    && (forall e :: e in graph ==> JoinsBelow(V, forest, e))
  }

  ghost predicate JoinsBelow(V: nat, forest: seq<Edge>, e: Edge)
    requires InRange(V, forest)
  {
    InAtMost(forest, e.w);
    e.u < V && e.v < V && Joins(V, AtMost(forest, e.w), e)
  }

  lemma JoinsBelowMonotone(V: nat, few: seq<Edge>, many: seq<Edge>, e: Edge, w: int)
    requires InRange(V, few) && InRange(V, many) && e.w <= w && JoinsBelow(V, few, e)
    requires forall f :: f in few ==> f in many
    ensures InRange(V, AtMost(many, w)) && Joins(V, AtMost(many, w), e)
  {
    InAtMost(few, e.w);
    InAtMost(many, w);
    JoinsMonotone(V, AtMost(few, e.w), AtMost(many, w), e);
  }

  // ---------- The criterion ----------

  /** An edge between two blocks keeps a forest a forest. */
  lemma ForestExtends(V: nat, forest: seq<Edge>, e: Edge)
    requires Forest(V, forest) && e.u < V && e.v < V && !Joins(V, forest, e)
    ensures Forest(V, forest + [e])
  {
    assert (forest + [e])[..|forest|] == forest;
  }

  lemma {:induction false} ForestBelow(V: nat, forest: seq<Edge>, w: int)
    requires Forest(V, forest)
    ensures Forest(V, AtMost(forest, w))
    decreases |forest|
  {
    InAtMost(forest, w);
    if forest != [] {
      var before, last := forest[..|forest| - 1], forest[|forest| - 1];
      RankAtMostSize(V, before);
      ForestBelow(V, before, w);
      InAtMost(before, w);
      var below := AtMost(before, w);
      if Joins(V, below, last) {
        JoinsMonotone(V, below, before, last);
      } else {
        ForestExtends(V, below, last);
      }
    }
  }

  lemma {:induction false} RankAtMostSize(V: nat, edges: seq<Edge>)
    requires InRange(V, edges)
    ensures Rank(V, edges) <= |edges|
    decreases |edges|
  {
    if edges != [] {
      RankAtMostSize(V, edges[..|edges| - 1]);
    }
  }

  /** Of any forest's edges, no more lie below a threshold than of one that spans it. */
  lemma FewerBelow(V: nat, graph: seq<Edge>, best: seq<Edge>, other: seq<Edge>, w: int)
    requires SpansThresholds(V, graph, best) && Forest(V, other)
    requires forall e :: e in other ==> Offers(graph, e)
    ensures |AtMost(other, w)| <= |AtMost(best, w)|
  {
    ForestBelow(V, other, w);
    InAtMost(other, w);
    InAtMost(best, w);
    forall e | e in AtMost(other, w)
      ensures Joins(V, AtMost(best, w), e)
    {
      var f := if e in graph then e else Edge(e.v, e.u, e.w);
      assert JoinsBelow(V, best, f);
      JoinsBelowMonotone(V, best, best, f, w);
    }
    RankMonotone(V, AtMost(other, w), AtMost(best, w));
    RankAtMostSize(V, AtMost(best, w));
  }

  ghost predicate Heaviest(edges: seq<Edge>, k: nat) {
    k < |edges| && forall e :: e in edges ==> e.w <= edges[k].w
  }

  lemma {:induction false} HeaviestExists(edges: seq<Edge>) returns (k: nat)
    requires edges != []
    ensures Heaviest(edges, k)
    decreases |edges|
  {
    k := |edges| - 1;
    if |edges| > 1 {
      var j := HeaviestExists(edges[..|edges| - 1]);
      if edges[k].w < edges[j].w {
        k := j;
      }
      assert edges == edges[..|edges| - 1] + [edges[|edges| - 1]];
    }
  }

  lemma {:induction false} Removing(edges: seq<Edge>, k: nat, w: int)
    requires k < |edges|
    ensures Weight(Without(edges, k)) == Weight(edges) - edges[k].w
    ensures |AtMost(Without(edges, k), w)| == |AtMost(edges, w)| - if edges[k].w <= w then 1 else 0
    decreases |edges|
  {
    hide Weight, AtMost;
    var before, last := edges[..|edges| - 1], edges[|edges| - 1];
    assert edges == before + [last];
    OneMore(before, last, w);
    if k == |edges| - 1 {
      assert Without(edges, k) == before;
    } else {
      Removing(before, k, w);
      assert Without(edges, k) == Without(before, k) + [last];
      OneMore(Without(before, k), last, w);
    }
  }

  lemma OneMore(edges: seq<Edge>, e: Edge, w: int)
    ensures Weight(edges + [e]) == Weight(edges) + e.w
    ensures |AtMost(edges + [e], w)| == |AtMost(edges, w)| + if e.w <= w then 1 else 0
  {
    assert (edges + [e])[..|edges|] == edges;
  }

  lemma RemovingHeaviest(best: seq<Edge>, other: seq<Edge>, i: nat, j: nat, w: int)
    requires |best| == |other| && Heaviest(best, i) && Heaviest(other, j)
    requires forall x :: |AtMost(other, x)| <= |AtMost(best, x)|
    ensures best[i].w <= other[j].w
    ensures |AtMost(Without(other, j), w)| <= |AtMost(Without(best, i), w)|
  {
    hide AtMost;
    AllAtMost(other, other[j].w);
    AllAtMost(best, other[j].w);
    InAtMost(best, other[j].w);
    assert best[i].w <= other[j].w by {
      assert |AtMost(other, other[j].w)| <= |AtMost(best, other[j].w)|;
    }
    Removing(best, i, w);
    Removing(other, j, w);
    AllAtMost(best, w);
    AllAtMost(other, w);
    InAtMost(other, w);
    assert |AtMost(other, w)| <= |AtMost(best, w)|;
  }

  /** A list with at least as many entries below every threshold weighs no more. */
  lemma {:induction false} LighterByThresholds(best: seq<Edge>, other: seq<Edge>)
    requires |best| == |other|
    requires forall w :: |AtMost(other, w)| <= |AtMost(best, w)|
    ensures Weight(best) <= Weight(other)
    decreases |best|
  {
    if best != [] {
      var i := HeaviestExists(best);
      var j := HeaviestExists(other);
      forall w
        ensures |AtMost(Without(other, j), w)| <= |AtMost(Without(best, i), w)|
      {
        RemovingHeaviest(best, other, i, j, w);
      }
      RemovingHeaviest(best, other, i, j, 0);
      Removing(best, i, 0);
      Removing(other, j, 0);
      LighterByThresholds(Without(best, i), Without(other, j));
    }
  }

  /** The criterion: a forest that spans every threshold weighs no more than any other
      spanning forest. */
  lemma MinimumBySpanningThresholds(V: nat, graph: seq<Edge>, best: seq<Edge>, other: seq<Edge>)
    requires SpanningForestOf(V, graph, best) && SpansThresholds(V, graph, best)
    requires SpanningForestOf(V, graph, other)
    ensures |best| == |other| && Weight(best) <= Weight(other)
  {
    SameSize(V, graph, best, other);
    SameSize(V, graph, other, best);
    forall w
      ensures |AtMost(other, w)| <= |AtMost(best, w)|
    {
      FewerBelow(V, graph, best, other, w);
    }
    LighterByThresholds(best, other);
  }

  lemma SameSize(V: nat, graph: seq<Edge>, a: seq<Edge>, b: seq<Edge>)
    requires SpanningForestOf(V, graph, a) && SpanningForestOf(V, graph, b)
    ensures |a| <= |b|
  {
    forall e | e in a
      ensures Joins(V, b, e)
    {
      assert Joins(V, b, if e in graph then e else Edge(e.v, e.u, e.w));
    }
    RankMonotone(V, a, b);
  }

  // ---------- Spanning trees of connected graphs ----------

  /** On a connected graph the spanning forests are exactly the spanning trees. */
  lemma TreesAreSpanningForests(V: nat, graph: seq<Edge>, tree: seq<Edge>)
    requires V > 0 && InRange(V, graph) && ConnectedGraph(V, graph)
    ensures SpanningForestOf(V, graph, tree) <==> SpanningTreeOf(V, graph, tree)
  {
    if SpanningTreeOf(V, graph, tree) {
      TreeIsForest(V, graph, tree);
    }
    if SpanningForestOf(V, graph, tree) {
      ForestIsTree(V, graph, tree);
    }
  }

  lemma OneBlock(V: nat, labels: Labels)
    requires V > 0 && |labels| == V
    ensures (forall a, b :: 0 <= a < V && 0 <= b < V ==> labels[a] == labels[b]) <==> |Blocks(labels)| == 1
  {
    assert labels[0] in Blocks(labels);
    if forall a, b :: 0 <= a < V && 0 <= b < V ==> labels[a] == labels[b] {
      assert Blocks(labels) == {labels[0]};
    }
    if |Blocks(labels)| == 1 {
      assert |Blocks(labels) - {labels[0]}| == 0;
      assert forall l :: l in Blocks(labels) ==> l == labels[0] by {
        assert Blocks(labels) - {labels[0]} == {};
      }
      assert forall a :: 0 <= a < V ==> labels[a] in Blocks(labels);
    }
  }

  lemma TreeIsForest(V: nat, graph: seq<Edge>, tree: seq<Edge>)
    requires V > 0 && InRange(V, graph) && SpanningTreeOf(V, graph, tree)
    ensures SpanningForestOf(V, graph, tree)
  {
    hide LabelsOf, Rank, Connected;
    assert InRange(V, tree);
    forall a, b | 0 <= a < V && 0 <= b < V
      ensures LabelsOf(V, tree)[a] == LabelsOf(V, tree)[b]
    {
      LabelsAreConnectivity(V, tree, a, b);
    }
    OneBlock(V, LabelsOf(V, tree));
    RankCountsBlocks(V, tree);
  }

  lemma ForestIsTree(V: nat, graph: seq<Edge>, forest: seq<Edge>)
    requires V > 0 && ConnectedGraph(V, graph) && SpanningForestOf(V, graph, forest)
    ensures SpanningTreeOf(V, graph, forest)
  {
    hide LabelsOf, Rank, Connected;
    Refines(V, graph, forest);
    forall a, b | 0 <= a < V && 0 <= b < V
      ensures LabelsOf(V, forest)[a] == LabelsOf(V, forest)[b] && Connected(forest, a, b)
    {
      LabelsAreConnectivity(V, graph, a, b);
      LabelsAreConnectivity(V, forest, a, b);
    }
    OneBlock(V, LabelsOf(V, forest));
    RankCountsBlocks(V, forest);
  }
}
