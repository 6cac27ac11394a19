/** Partitions of the vertices 0..V-1 that a list of edges induces, as label sequences, and
    `Connected`, the independent notion by walks. */
module Partition {
  import opened Edges

  type Labels = seq<nat>

  function Singletons(V: nat): Labels {
    seq(V, i => i)
  }

  /** One block out of the blocks of `a` and `b`; it keeps the label of `b`. */
  function Merge(labels: Labels, a: nat, b: nat): Labels
    requires a < |labels| && b < |labels|
  {
    seq(|labels|, i requires 0 <= i < |labels| => if labels[i] == labels[a] then labels[b] else labels[i])
  }

  ghost function LabelsOf(V: nat, edges: seq<Edge>): (labels: Labels)
    requires InRange(V, edges)
    ensures |labels| == V
  {
    if edges == [] then Singletons(V)
    else
      var last := edges[|edges| - 1];
      Merge(LabelsOf(V, edges[..|edges| - 1]), last.u, last.v)
  }

  /** How many edges, taken in order, join two different blocks. */
  ghost function Rank(V: nat, edges: seq<Edge>): nat
    requires InRange(V, edges)
  {
    if edges == [] then 0
    else
      var before, last := edges[..|edges| - 1], edges[|edges| - 1];
      Rank(V, before) + if Joins(V, before, last) then 0 else 1
  }

  /** The edges connect the ends of `e`. */
  ghost predicate Joins(V: nat, edges: seq<Edge>, e: Edge)
    requires InRange(V, edges) && e.u < V && e.v < V
  {
    LabelsOf(V, edges)[e.u] == LabelsOf(V, edges)[e.v]
  }

  // ---------- Connectivity by walks ----------

  ghost predicate Adjacent(edges: seq<Edge>, a: nat, b: nat) {
    exists e :: e in edges && ((e.u == a && e.v == b) || (e.u == b && e.v == a))
  }

  ghost predicate IsWalk(edges: seq<Edge>, walk: seq<nat>) {
    walk != [] && forall i :: 0 <= i < |walk| - 1 ==> Adjacent(edges, walk[i], walk[i + 1])
  }

  ghost predicate Connected(edges: seq<Edge>, a: nat, b: nat) {
    exists walk :: IsWalk(edges, walk) && walk[0] == a && walk[|walk| - 1] == b
  }

  // ---------- Labels ----------

  /** The labels of `edges` are the finest in which every edge stays inside a block. */
  lemma {:induction false} LabelsAreFinest(V: nat, edges: seq<Edge>, other: Labels)
    requires InRange(V, edges) && |other| == V
    requires forall e :: e in edges ==> other[e.u] == other[e.v]
    ensures forall a, b ::
              0 <= a < V && 0 <= b < V && LabelsOf(V, edges)[a] == LabelsOf(V, edges)[b] ==> other[a] == other[b]
    decreases |edges|
  {
    if edges != [] {
      LabelsAreFinest(V, edges[..|edges| - 1], other);
    }
  }

  lemma {:induction false} EdgesStayInside(V: nat, edges: seq<Edge>)
    requires InRange(V, edges)
    ensures forall e :: e in edges ==> Joins(V, edges, e)
    decreases |edges|
  {
    if edges != [] {
      var before, last := edges[..|edges| - 1], edges[|edges| - 1];
      EdgesStayInside(V, before);
      forall e | e in edges
        ensures Joins(V, edges, e)
      {
        assert e in before || e == last;
        if e in before {
          assert Joins(V, before, e);
        }
      }
    }
  }

  /** Two vertices carry the same label exactly when a walk connects them. */
  lemma LabelsAreConnectivity(V: nat, edges: seq<Edge>, a: nat, b: nat)
    requires InRange(V, edges) && a < V && b < V
    ensures LabelsOf(V, edges)[a] == LabelsOf(V, edges)[b] <==> Connected(edges, a, b)
  {
    hide LabelsOf;
    EdgesStayInside(V, edges);
    if Connected(edges, a, b) {
      var walk :| IsWalk(edges, walk) && walk[0] == a && walk[|walk| - 1] == b;
      WalkStaysInside(V, edges, walk);
    }
    ReachedIsClosed(V, edges, a);
    LabelsAreFinest(V, edges, Reached(V, edges, a));
    assert IsWalk(edges, [a]) && [a][0] == a && [a][|[a]| - 1] == a;
    assert Connected(edges, a, a);
  }

  ghost function Reached(V: nat, edges: seq<Edge>, a: nat): Labels {
    seq(V, i requires 0 <= i < V => if Connected(edges, a, i) then 1 else 0)
  }

  lemma ReachedIsClosed(V: nat, edges: seq<Edge>, a: nat)
    requires InRange(V, edges)
    ensures forall e :: e in edges ==> Reached(V, edges, a)[e.u] == Reached(V, edges, a)[e.v]
  {
    forall e | e in edges
      ensures Connected(edges, a, e.u) <==> Connected(edges, a, e.v)
    {
      assert Adjacent(edges, e.u, e.v) && Adjacent(edges, e.v, e.u);
      if Connected(edges, a, e.u) { ConnectedAcross(edges, a, e.u, e.v); }
      if Connected(edges, a, e.v) { ConnectedAcross(edges, a, e.v, e.u); }
    }
  }

  lemma ConnectedAcross(edges: seq<Edge>, a: nat, b: nat, c: nat)
    requires Connected(edges, a, b) && Adjacent(edges, b, c)
    ensures Connected(edges, a, c)
  {
    var walk :| IsWalk(edges, walk) && walk[0] == a && walk[|walk| - 1] == b;
    var longer := walk + [c];
    assert IsWalk(edges, longer) && longer[0] == a && longer[|longer| - 1] == c;
  }

  lemma {:induction false} WalkStaysInside(V: nat, edges: seq<Edge>, walk: seq<nat>)
    requires InRange(V, edges) && IsWalk(edges, walk) && walk[0] < V
    requires forall e :: e in edges ==> Joins(V, edges, e)
    ensures walk[|walk| - 1] < V && LabelsOf(V, edges)[walk[0]] == LabelsOf(V, edges)[walk[|walk| - 1]]
    decreases |walk|
  {
    if |walk| > 1 {
      assert Adjacent(edges, walk[0], walk[1]);
      assert IsWalk(edges, walk[1..]) by {
        forall i | 0 <= i < |walk[1..]| - 1
          ensures Adjacent(edges, walk[1..][i], walk[1..][i + 1])
        {
          assert Adjacent(edges, walk[i + 1], walk[i + 2]);
        }
      }
      WalkStaysInside(V, edges, walk[1..]);
    }
  }

  /** Edges that stay inside the blocks of `coarse` make blocks inside the blocks of `coarse`. */
  lemma Refines(V: nat, fine: seq<Edge>, coarse: seq<Edge>)
    requires InRange(V, fine) && InRange(V, coarse)
    requires forall e :: e in fine ==> Joins(V, coarse, e)
    ensures forall a, b :: 0 <= a < V && 0 <= b < V && LabelsOf(V, fine)[a] == LabelsOf(V, fine)[b]
              ==> LabelsOf(V, coarse)[a] == LabelsOf(V, coarse)[b]
  {
    hide LabelsOf;
    LabelsAreFinest(V, fine, LabelsOf(V, coarse));
  }

  lemma JoinsMonotone(V: nat, few: seq<Edge>, many: seq<Edge>, e: Edge)
    requires InRange(V, few) && InRange(V, many) && e.u < V && e.v < V
    requires (forall f :: f in few ==> f in many) && Joins(V, few, e)
    ensures Joins(V, many, e)
  {
    EdgesStayInside(V, many);
    Refines(V, few, many);
  }

  // ---------- Counting blocks ----------

  ghost function Blocks(labels: Labels): set<nat> {
    set l | l in labels
  }

  lemma MergeBlocks(labels: Labels, a: nat, b: nat)
    requires a < |labels| && b < |labels|
    ensures |Blocks(Merge(labels, a, b))| == |Blocks(labels)| - if labels[a] == labels[b] then 0 else 1
  {
    var merged := Merge(labels, a, b);
    if labels[a] == labels[b] {
      assert merged == labels;
    } else {
      assert merged[b] == labels[b];
      forall l | l in Blocks(labels) && l != labels[a]
        ensures l in Blocks(merged)
      {
        var i :| 0 <= i < |labels| && labels[i] == l;
        assert merged[i] == l;
      }
      assert Blocks(merged) == Blocks(labels) - {labels[a]};
    }
  }

  lemma {:induction false} SingletonBlocks(V: nat)
    ensures |Blocks(Singletons(V))| == V
  {
    if V > 0 {
      SingletonBlocks(V - 1);
      var all := Singletons(V);
      assert all[V - 1] == V - 1;
      forall l | l in Blocks(Singletons(V - 1))
        ensures l in Blocks(all)
      {
        assert all[l] == l;
      }
      forall l | l in Blocks(all) && l != V - 1
        ensures l in Blocks(Singletons(V - 1))
      {
        assert Singletons(V - 1)[l] == l;
      }
      assert Blocks(all) == Blocks(Singletons(V - 1)) + {V - 1};
    }
  }

  /** Every joining edge merges two blocks into one. */
  lemma {:induction false} RankCountsBlocks(V: nat, edges: seq<Edge>)
    requires InRange(V, edges)
    ensures Rank(V, edges) + |Blocks(LabelsOf(V, edges))| == V
    decreases |edges|
  {
    if edges == [] {
      SingletonBlocks(V);
    } else {
      var before, last := edges[..|edges| - 1], edges[|edges| - 1];
      RankCountsBlocks(V, before);
      MergeBlocks(LabelsOf(V, before), last.u, last.v);
    }
  }

  lemma {:induction false} ImageSize(sources: set<nat>, images: set<nat>, f: map<nat, nat>)
    requires sources <= f.Keys && forall y :: y in images ==> exists x :: x in sources && f[x] == y
    ensures |images| <= |sources|
    decreases images
  {
    if images != {} {
      var y :| y in images;
      var x :| x in sources && f[x] == y;
      ImageSize(sources - {x}, images - {y}, f);
    }
  }

  lemma CoarserHasFewerBlocks(fine: Labels, coarse: Labels)
    requires |fine| == |coarse|
    requires forall a, b :: 0 <= a < |fine| && 0 <= b < |fine| && fine[a] == fine[b] ==> coarse[a] == coarse[b]
    ensures |Blocks(coarse)| <= |Blocks(fine)|
  {
    var f := map l | l in Blocks(fine) :: var i :| 0 <= i < |fine| && fine[i] == l; coarse[i];
    forall y | y in Blocks(coarse)
      ensures exists x :: x in Blocks(fine) && f[x] == y
    {
      var i :| 0 <= i < |coarse| && coarse[i] == y;
      assert fine[i] in Blocks(fine) && f[fine[i]] == y;
    }
    ImageSize(Blocks(fine), Blocks(coarse), f);
  }

  /** Edges inside the blocks of `coarse` have no larger rank. */
  lemma RankMonotone(V: nat, fine: seq<Edge>, coarse: seq<Edge>)
    requires InRange(V, fine) && InRange(V, coarse)
    requires forall e :: e in fine ==> Joins(V, coarse, e)
    ensures Rank(V, fine) <= Rank(V, coarse)
  {
    hide LabelsOf, Rank;
    Refines(V, fine, coarse);
    RankCountsBlocks(V, fine);
    RankCountsBlocks(V, coarse);
    CoarserHasFewerBlocks(LabelsOf(V, fine), LabelsOf(V, coarse));
  }
}
