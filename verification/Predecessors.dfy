/** The predecessors that relaxing edges records: without a negative cycle they form a tree. */
module Predecessors {
  import opened Counting
  import opened Edges
  import opened Walks

  /** p follows the predecessors of v back to the start, and its weight is accounted for by
      the distances. */
  ghost predicate Traces(edges: seq<Edge>, d: seq<int>, prev: seq<int>, start: nat, p: seq<Edge>, v: nat)
    decreases |p|
  {
    && v < |d| == |prev|
    && if p == [] then v == start
       else
         var last := p[|p| - 1];
         && last in edges && last.v == v && prev[v] == last.u < |d|
         && d[last.u] < INF && d[last.u] + last.w <= d[v]
         && Traces(edges, d, prev, start, p[..|p| - 1], last.u)
  }

  ghost predicate IsTraced(edges: seq<Edge>, d: seq<int>, prev: seq<int>, start: nat, v: nat) {
    exists p :: Traces(edges, d, prev, start, p, v)
  }

  /** Every vertex of finite distance is traced back to the start, which has no predecessor. */
  ghost predicate Tree(edges: seq<Edge>, d: seq<int>, prev: seq<int>, start: nat) {
    && start < |d| == |prev| && d[start] == 0 && prev[start] == -1
    && forall v :: 0 <= v < |d| ==> if d[v] < INF then IsTraced(edges, d, prev, start, v) else prev[v] == -1
  }

  lemma {:induction false} TraceIsWalk(edges: seq<Edge>, d: seq<int>, prev: seq<int>, start: nat, p: seq<Edge>, v: nat)
    requires Traces(edges, d, prev, start, p, v)
    ensures IsWalk(edges, p, start, v) && start < |d| && Weight(p) <= d[v] - d[start]
    decreases |p|
  {
    if p != [] {
      TraceIsWalk(edges, d, prev, start, p[..|p| - 1], p[|p| - 1].u);
    }
  }

  lemma NoWeight()
    ensures Weight([]) == 0
  {
  }

  lemma SuffixWeight(p: seq<Edge>, i: nat)
    requires i < |p|
    ensures Weight(p[i..]) == Weight(p[..|p| - 1][i..]) + p[|p| - 1].w
  {
    assert p[i..][..|p[i..]| - 1] == p[..|p| - 1][i..];
  }

  /** From each vertex on its way a trace weighs at most the difference of the distances. */
  lemma {:induction false} TraceFrom(edges: seq<Edge>, d: seq<int>, prev: seq<int>, start: nat, p: seq<Edge>, v: nat,
                                     i: nat)
    requires Traces(edges, d, prev, start, p, v) && i <= |p|
    ensures var x := Vertices(p, start)[i];
            x < |d| && Traces(edges, d, prev, start, p[..i], x) && Weight(p[i..]) <= d[v] - d[x]
    decreases |p|
  {
    hide Weight;
    if i == |p| {
      assert p[..i] == p && p[i..] == [];
      NoWeight();
    } else {
      var p', last := p[..|p| - 1], p[|p| - 1];
      TraceFrom(edges, d, prev, start, p', last.u, i);
      assert p'[..i] == p[..i];
      SuffixWeight(p, i);
    }
  }

  /** A vertex has one trace only. */
  lemma {:induction false} TraceIsUnique(edges: seq<Edge>, d: seq<int>, prev: seq<int>, start: nat, p: seq<Edge>,
                                         q: seq<Edge>, v: nat)
    requires Traces(edges, d, prev, start, p, v) && Traces(edges, d, prev, start, q, v)
    requires start < |prev| && prev[start] == -1
    ensures |p| == |q|
    decreases |p|
  {
    if p != [] && q != [] {
      TraceIsUnique(edges, d, prev, start, p[..|p| - 1], q[..|q| - 1], p[|p| - 1].u);
    }
  }

  /** So a trace never visits a vertex twice. */
  lemma TraceIsPath(edges: seq<Edge>, d: seq<int>, prev: seq<int>, start: nat, p: seq<Edge>, v: nat)
    requires Traces(edges, d, prev, start, p, v) && start < |prev| && prev[start] == -1
    ensures IsPath(edges, p, start, v)
  {
    hide Traces, Vertices, IsWalk;
    TraceIsWalk(edges, d, prev, start, p, v);
    var vs := Vertices(p, start);
    forall i, j | 0 <= i < j < |vs|
      ensures vs[i] != vs[j]
    {
      TraceFrom(edges, d, prev, start, p, v, i);
      TraceFrom(edges, d, prev, start, p, v, j);
      if vs[i] == vs[j] {
        TraceIsUnique(edges, d, prev, start, p[..i], p[..j], vs[i]);
      }
    }
  }

  // ---------- Relaxing an edge ----------

  ghost predicate Improves(d: seq<int>, e: Edge) {
    e.u < |d| && e.v < |d| && d[e.u] < INF && d[e.u] + e.w < d[e.v] <= INF
  }

  /** The end of an edge that improves on it is not among its own ancestors: the way from it
      and back over the edge would be a negative cycle. */
  lemma NotAnAncestor(edges: seq<Edge>, d: seq<int>, prev: seq<int>, start: nat, p: seq<Edge>, e: Edge)
    requires Traces(edges, d, prev, start, p, e.u) && e in edges && Improves(d, e) && NoNegativeCycle(edges, start)
    ensures e.v !in Vertices(p, start)
  {
    hide Traces, Vertices, IsWalk, Weight;
    TraceIsWalk(edges, d, prev, start, p, e.u);
    if e.v in Vertices(p, start) {
      var i :| 0 <= i <= |p| && Vertices(p, start)[i] == e.v;
      TraceFrom(edges, d, prev, start, p, e.u, i);
      WalkCut(edges, p, start, e.u, i);
      OneEdgeWalk(edges, e);
      WalkConcat(edges, p[i..], [e], e.v, e.u, e.v);
      assert false;
    }
  }

  /** Traces that avoid e.v stay as they are. */
  lemma {:induction false} TraceStays(edges: seq<Edge>, d: seq<int>, prev: seq<int>, start: nat, p: seq<Edge>, v: nat,
                                      e: Edge)
    requires Traces(edges, d, prev, start, p, v) && Improves(d, e) && e.v !in Vertices(p, start)
    ensures Traces(edges, d[e.v := d[e.u] + e.w], prev[e.v := e.u], start, p, v)
    decreases |p|
  {
    assert Vertices(p, start)[|p|] == v;
    if p != [] {
      assert forall x :: x in Vertices(p[..|p| - 1], start) ==> x in Vertices(p, start);
      TraceStays(edges, d, prev, start, p[..|p| - 1], p[|p| - 1].u, e);
    }
  }

  /** All others are led over e from e.v on. */
  lemma {:induction false} TraceMoves(edges: seq<Edge>, d: seq<int>, prev: seq<int>, start: nat, p: seq<Edge>,
                                      q: seq<Edge>, v: nat, e: Edge) returns (r: seq<Edge>)
    requires Improves(d, e) && e in edges && e.v != start && |prev| == |d|
    requires Traces(edges, d[e.v := d[e.u] + e.w], prev[e.v := e.u], start, p, e.u)
    requires Traces(edges, d, prev, start, q, v) && d[e.u] == d[e.v := d[e.u] + e.w][e.u]
    ensures Traces(edges, d[e.v := d[e.u] + e.w], prev[e.v := e.u], start, r, v)
    decreases |q|
  {
    if q == [] {
      r := [];
    } else if v == e.v {
      r := p + [e];
      assert r[..|r| - 1] == p;
    } else {
      var last := q[|q| - 1];
      var r' := TraceMoves(edges, d, prev, start, p, q[..|q| - 1], last.u, e);
      r := r' + [last];
      assert r[..|r| - 1] == r';
    }
  }

  /** Relaxing an edge keeps the tree, whatever the weights, if no cycle is negative. */
  lemma RelaxTree(edges: seq<Edge>, d: seq<int>, prev: seq<int>, start: nat, e: Edge)
    requires Tree(edges, d, prev, start) && e in edges && Improves(d, e) && NoNegativeCycle(edges, start)
    ensures Tree(edges, d[e.v := d[e.u] + e.w], prev[e.v := e.u], start)
  {
    hide Traces, NoNegativeCycle, IsWalk;
    assert IsTraced(edges, d, prev, start, e.u);
    var p :| Traces(edges, d, prev, start, p, e.u);
    NotAnAncestor(edges, d, prev, start, p, e);
    HangTree(edges, d, prev, start, p, e);
  }

  /** A vertex that is not its own ancestor then is hung up elsewhere with all its descendants. */
  lemma HangTree(edges: seq<Edge>, d: seq<int>, prev: seq<int>, start: nat, p: seq<Edge>, e: Edge)
    requires Tree(edges, d, prev, start) && e in edges && Improves(d, e)
    requires Traces(edges, d, prev, start, p, e.u) && e.v !in Vertices(p, start)
    ensures Tree(edges, d[e.v := d[e.u] + e.w], prev[e.v := e.u], start)
  {
    hide Traces, IsWalk;
    var d', prev' := d[e.v := d[e.u] + e.w], prev[e.v := e.u];
    assert Vertices(p, start)[0] == start && Vertices(p, start)[|p|] == e.u by {
      TraceIsWalk(edges, d, prev, start, p, e.u);
      LastVertex(edges, p, start, e.u);
    }
    TraceStays(edges, d, prev, start, p, e.u, e);
    forall v | 0 <= v < |d'| && d'[v] < INF
      ensures IsTraced(edges, d', prev', start, v)
    {
      if v == e.v {
        FirstTrace(edges, d', prev', start, p, e);
      } else {
        assert IsTraced(edges, d, prev, start, v);
        var q :| Traces(edges, d, prev, start, q, v);
        var r := TraceMoves(edges, d, prev, start, p, q, v, e);
      }
    }
  }

  lemma FirstTrace(edges: seq<Edge>, d: seq<int>, prev: seq<int>, start: nat, p: seq<Edge>, e: Edge)
    requires Traces(edges, d, prev, start, p, e.u) && e in edges && e.v < |d| && prev[e.v] == e.u
    requires d[e.u] < INF && d[e.u] + e.w <= d[e.v]
    ensures IsTraced(edges, d, prev, start, e.v)
  {
    var r := p + [e];
    assert r[..|r| - 1] == p;
    assert Traces(edges, d, prev, start, r, e.v);
  }

  lemma OnlyStart(edges: seq<Edge>, d: seq<int>, prev: seq<int>, start: nat)
    requires start < |d| == |prev| && d[start] == 0
    requires forall v :: 0 <= v < |d| ==> (v != start ==> d[v] == INF) && prev[v] == -1
    ensures Tree(edges, d, prev, start)
  {
    assert Traces(edges, d, prev, start, [], start);
  }

  // ---------- What following predecessors leads to ----------

  /** The vertices are those met when following predecessors from the last one back. */
  predicate FollowedBack(prev: seq<int>, vs: seq<nat>) {
    forall i :: 0 < i < |vs| ==> vs[i] < |prev| && prev[vs[i]] == vs[i - 1]
  }

  lemma {:induction false} TraceIsFollowed(edges: seq<Edge>, d: seq<int>, prev: seq<int>, start: nat, p: seq<Edge>,
                                           v: nat)
    requires Traces(edges, d, prev, start, p, v)
    ensures FollowedBack(prev, Vertices(p, start)) && Vertices(p, start)[|p|] == v
    decreases |p|
  {
    if p != [] {
      TraceIsFollowed(edges, d, prev, start, p[..|p| - 1], p[|p| - 1].u);
    }
  }

  /** From every vertex of finite distance the predecessors lead back to the start in at most
      V - 1 steps, along a path that is no heavier than its distance. */
  lemma PrevLeadsToStart(V: nat, edges: seq<Edge>, d: seq<int>, prev: seq<int>, start: nat, v: nat)
      returns (p: seq<Edge>)
    requires InRange(V, edges) && |d| == V && Tree(edges, d, prev, start) && v < V && d[v] < INF
    ensures IsPath(edges, p, start, v) && |p| < V && Weight(p) <= d[v]
    ensures FollowedBack(prev, Vertices(p, start)) && prev[start] == -1
  {
    assert IsTraced(edges, d, prev, start, v);
    p :| Traces(edges, d, prev, start, p, v);
    hide Traces, Vertices, IsWalk;
    TraceIsWalk(edges, d, prev, start, p, v);
    TraceIsPath(edges, d, prev, start, p, v);
    TraceIsFollowed(edges, d, prev, start, p, v);
    PathIsShort(V, edges, p, start, v);
  }
}
