/** Kruskal's algorithm over the union-find of `DisjointSets`. */
module Kruskal {
  import opened Edges
  import opened Partition
  import opened SpanningForest
  import DisjointSets

  ghost predicate SortedByWeight(edges: seq<Edge>) {
    forall i, j :: 0 <= i < j < |edges| ==> edges[i].w <= edges[j].w
  }

  ghost predicate SamePartition(V: nat, a: Labels, b: Labels) {
    && |a| == |b| == V
    && forall x, y :: 0 <= x < V && 0 <= y < V ==> (a[x] == a[y] <==> b[x] == b[y])
  }

  lemma SameAfterMerge(V: nat, sets: Labels, sets': Labels, labels: Labels, x: nat, y: nat)
    requires SamePartition(V, sets, labels) && x < V && y < V
    requires sets' == Merge(sets, x, y) || sets' == Merge(sets, y, x)
    ensures SamePartition(V, sets', Merge(labels, x, y))
  {
  }

  /** The scan: every edge is kept that joins two blocks of those kept before it. */
  ghost function Scan(V: nat, sorted: seq<Edge>): (kept: seq<Edge>)
    requires InRange(V, sorted)
    ensures forall e :: e in kept ==> e in sorted
  {
    if sorted == [] then []
    else
      var before, last := sorted[..|sorted| - 1], sorted[|sorted| - 1];
      var kept := Scan(V, before);
      assert sorted == before + [last];
      if Joins(V, kept, last) then kept else kept + [last]
  }

  lemma ScanNext(V: nat, sorted: seq<Edge>, i: nat)
    requires InRange(V, sorted) && i < |sorted|
    ensures InRange(V, sorted[..i]) && InRange(V, sorted[..i + 1]) && InRange(V, Scan(V, sorted[..i]))
    ensures var kept := Scan(V, sorted[..i]);
            Scan(V, sorted[..i + 1]) == if Joins(V, kept, sorted[i]) then kept else kept + [sorted[i]]
  {
    assert sorted[..i + 1][..i] == sorted[..i];
  }

  lemma LabelsNext(V: nat, mst: seq<Edge>, e: Edge)
    requires InRange(V, mst) && e.u < V && e.v < V
    ensures InRange(V, mst + [e]) && LabelsOf(V, mst + [e]) == Merge(LabelsOf(V, mst), e.u, e.v)
  {
    assert (mst + [e])[..|mst|] == mst;
  }

  lemma SameJoins(V: nat, sets: Labels, mst: seq<Edge>, e: Edge)
    requires InRange(V, mst) && SamePartition(V, sets, LabelsOf(V, mst)) && e.u < V && e.v < V
    ensures |sets| == V && (sets[e.u] == sets[e.v] <==> Joins(V, mst, e))
  {
  }

  lemma NothingScanned(V: nat, sorted: seq<Edge>)
    requires InRange(V, sorted)
    ensures Scan(V, sorted[..0]) == [] && Grown(V, sorted, 0, [])
    ensures LabelsOf(V, []) == Singletons(V) && SamePartition(V, Singletons(V), Singletons(V))
  {
  }

  /** Once everything is joined, the rest of the scan keeps nothing. */
  lemma {:induction false} ScanRest(V: nat, sorted: seq<Edge>, i: nat, mst: seq<Edge>)
    requires InRange(V, sorted) && i <= |sorted| && InRange(V, sorted[..i]) && mst == Scan(V, sorted[..i])
    requires InRange(V, mst) && forall e :: e in sorted ==> Joins(V, mst, e)
    ensures Scan(V, sorted) == mst
    decreases |sorted| - i
  {
    if i == |sorted| {
      assert sorted[..i] == sorted;
    } else {
      ScanNext(V, sorted, i);
      ScanRest(V, sorted, i + 1, mst);
    }
  }

  /** What the loop knows after looking at the first `done` edges. */
  ghost predicate Grown(V: nat, sorted: seq<Edge>, done: nat, mst: seq<Edge>) {
    && done <= |sorted| && InRange(V, sorted) && Forest(V, mst)
    && (forall e :: e in mst ==> e in sorted[..done])
    && (forall e :: e in sorted[..done] ==> JoinsBelow(V, mst, e))
  }

  /** An edge that closes a cycle is already spanned by edges that are no heavier. */
  lemma Rejected(V: nat, sorted: seq<Edge>, done: nat, mst: seq<Edge>)
    requires Grown(V, sorted, done, mst) && SortedByWeight(sorted) && done < |sorted|
    requires Joins(V, mst, sorted[done])
    ensures Grown(V, sorted, done + 1, mst)
  {
    var e := sorted[done];
    AllAtMost(mst, e.w);
    assert sorted[..done + 1] == sorted[..done] + [e];
    assert JoinsBelow(V, mst, e);
  }

  lemma Accepted(V: nat, sorted: seq<Edge>, done: nat, mst: seq<Edge>)
    requires Grown(V, sorted, done, mst) && SortedByWeight(sorted) && done < |sorted|
    requires !Joins(V, mst, sorted[done])
    ensures Grown(V, sorted, done + 1, mst + [sorted[done]])
  {
    hide LabelsOf, Rank;
    var e := sorted[done];
    var mst' := mst + [e];
    ForestExtends(V, mst, e);
    AllAtMost(mst', e.w);
    assert sorted[..done + 1] == sorted[..done] + [e];
    EdgesStayInside(V, mst');
    forall f | f in sorted[..done + 1]
      ensures JoinsBelow(V, mst', f)
    {
      if f in sorted[..done] {
        JoinsBelowMonotone(V, mst, mst', f, f.w);
      }
    }
  }

  /** A forest of V - 1 edges connects everything, so the edges not looked at add nothing. */
  lemma Complete(V: nat, sorted: seq<Edge>, done: nat, mst: seq<Edge>)
    requires Grown(V, sorted, done, mst) && SortedByWeight(sorted) && |mst| + 1 == V
    ensures Grown(V, sorted, |sorted|, mst)
    ensures InRange(V, mst) && forall e :: e in sorted ==> Joins(V, mst, e)
  {
    assert sorted[..|sorted|] == sorted;
    RankCountsBlocks(V, mst);
    OneBlock(V, LabelsOf(V, mst));
    forall e | e in sorted
      ensures JoinsBelow(V, mst, e)
    {
      if e !in sorted[..done] {
        var i :| 0 <= i < |sorted| && sorted[i] == e;
        AllAtMost(mst, e.w);
      }
    }
  }

  lemma GrownSpans(V: nat, edges: seq<Edge>, sorted: seq<Edge>, mst: seq<Edge>)
    requires Grown(V, sorted, |sorted|, mst) && multiset(sorted) == multiset(edges)
    ensures SpanningForestOf(V, edges, mst) && SpansThresholds(V, edges, mst)
  {
    assert sorted[..|sorted|] == sorted;
    assert forall e :: e in sorted <==> e in multiset(sorted);
    assert forall e :: e in edges <==> e in multiset(edges);
    forall e | e in edges
      ensures Joins(V, mst, e)
    {
      assert JoinsBelow(V, mst, e);
      InAtMost(mst, e.w);
      JoinsMonotone(V, AtMost(mst, e.w), mst, e);
    }
  }

  /** `sorted` is what std::sort made of `edges`. The result is a spanning forest of least
      weight; on a connected graph, a spanning tree. */
  method Kruskal(V: nat, edges: seq<Edge>, sorted: seq<Edge>) returns (mst: seq<Edge>)
    requires V > 0 && InRange(V, edges)
    requires multiset(sorted) == multiset(edges) && SortedByWeight(sorted)
    ensures SpanningForestOf(V, edges, mst)
    ensures forall other :: SpanningForestOf(V, edges, other) ==> Weight(mst) <= Weight(other)
    ensures ConnectedGraph(V, edges) ==> SpanningTreeOf(V, edges, mst)
    ensures InRange(V, sorted) && mst == Scan(V, sorted)
  {
    hide Grown, Scan, SpanningForestOf, SpanningTreeOf, ConnectedGraph, LabelsOf, Forest, JoinsBelow, SortedByWeight;
    hide DisjointSets.Dsu.Valid, DisjointSets.Dsu.Linked, Merge, SamePartition, Weight;
    assert forall e :: e in sorted ==> e in multiset(edges);
    NothingScanned(V, sorted);
    var dsu := new DisjointSets.Dsu(V);
    mst := [];
    ghost var done := 0;
    for i := 0 to |sorted|
      invariant done == i
      invariant dsu.Valid() && dsu.n == V && fresh(dsu) && fresh(dsu.parent) && fresh(dsu.rank)
      invariant InRange(V, mst) && Grown(V, sorted, done, mst) && SamePartition(V, dsu.sets, LabelsOf(V, mst))
      invariant InRange(V, sorted[..i]) && mst == Scan(V, sorted[..i])
    {
      var e := sorted[i];
      ScanNext(V, sorted, i);
      ghost var before := dsu.sets;
      var joined := dsu.Unite(e.u, e.v);
      SameJoins(V, before, mst, e);
      if joined {
        SameAfterMerge(V, before, dsu.sets, LabelsOf(V, mst), e.u, e.v);
        Accepted(V, sorted, i, mst);
        LabelsNext(V, mst, e);
        mst := mst + [e];
        if |mst| == V - 1 {
          Complete(V, sorted, i + 1, mst);
          ScanRest(V, sorted, i + 1, mst);
          done := |sorted|;
          break;
        }
      } else {
        Rejected(V, sorted, i, mst);
      }
      done := i + 1;
    }
    assert sorted[..|sorted|] == sorted;
    Minimum(V, edges, sorted, mst);
  }

  lemma Minimum(V: nat, edges: seq<Edge>, sorted: seq<Edge>, mst: seq<Edge>)
    requires V > 0 && Grown(V, sorted, |sorted|, mst) && multiset(sorted) == multiset(edges)
    ensures SpanningForestOf(V, edges, mst)
    ensures forall other :: SpanningForestOf(V, edges, other) ==> Weight(mst) <= Weight(other)
    ensures ConnectedGraph(V, edges) ==> SpanningTreeOf(V, edges, mst)
  {
    GrownSpans(V, edges, sorted, mst);
    forall other | SpanningForestOf(V, edges, other)
      ensures Weight(mst) <= Weight(other)
    {
      MinimumBySpanningThresholds(V, edges, mst, other);
    }
    if ConnectedGraph(V, edges) {
      TreesAreSpanningForests(V, edges, mst);
    }
  }
}
