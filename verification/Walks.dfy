/** Directed walks and their weights.

    A walk is a list of edges that follow one another. It can be cut at its vertices and
    joined to another, and without negative cycles it can be shortened to a path. */
module Walks {
  import opened Counting
  import opened Edges

  /** The distance that stands for "unreachable". */
  const INF: int := 0x7fff_ffff / 2

  /** p leads from a to b along the given edges. */
  ghost predicate IsWalk(edges: seq<Edge>, p: seq<Edge>, a: nat, b: nat) {
    if p == [] then a == b
    else
      var last := p[|p| - 1];
      last in edges && last.v == b && IsWalk(edges, p[..|p| - 1], a, last.u)
  }

  ghost predicate Reaches(edges: seq<Edge>, a: nat, b: nat) {
    exists p :: IsWalk(edges, p, a, b)
  }

  /** d is the weight of a lightest walk from a to b. */
  ghost predicate IsDistance(edges: seq<Edge>, a: nat, b: nat, d: int) {
    && (exists p :: IsWalk(edges, p, a, b) && Weight(p) == d)
    && (forall p :: IsWalk(edges, p, a, b) ==> d <= Weight(p))
  }

  /** No cycle of negative weight can be reached from a. */
  ghost predicate NoNegativeCycle(edges: seq<Edge>, a: nat) {
    forall p, c, q :: IsWalk(edges, p, a, c) && IsWalk(edges, q, c, c) ==> Weight(q) >= 0
  }

  ghost predicate NoNegativeCycles(edges: seq<Edge>) {
    forall c, q :: IsWalk(edges, q, c, c) ==> Weight(q) >= 0
  }

  /** The vertices of a walk from a, in order. */
  function Vertices(p: seq<Edge>, a: nat): (vs: seq<nat>)
    ensures |vs| == |p| + 1 && vs[0] == a
  {
    if p == [] then [a] else Vertices(p[..|p| - 1], a) + [p[|p| - 1].v]
  }

  ghost predicate IsPath(edges: seq<Edge>, p: seq<Edge>, a: nat, b: nat) {
    IsWalk(edges, p, a, b) && Distinct(Vertices(p, a))
  }

  // ---------- Cutting and joining ----------

  lemma {:induction false} WalkConcat(edges: seq<Edge>, p: seq<Edge>, q: seq<Edge>, a: nat, b: nat, c: nat)
    requires IsWalk(edges, p, a, b) && IsWalk(edges, q, b, c)
    ensures IsWalk(edges, p + q, a, c) && Weight(p + q) == Weight(p) + Weight(q)
    decreases |q|
  {
    WeightConcat(p, q);
    if q == [] {
      assert p + q == p;
    } else {
      var q', last := q[..|q| - 1], q[|q| - 1];
      WalkConcat(edges, p, q', a, b, last.u);
      assert (p + q)[..|p + q| - 1] == p + q';
    }
  }

  lemma {:induction false} VerticesPrefix(p: seq<Edge>, a: nat, i: nat)
    requires i <= |p|
    ensures Vertices(p[..i], a) == Vertices(p, a)[..i + 1]
    decreases |p|
  {
    if i == |p| {
      assert p[..i] == p;
      assert Vertices(p, a)[..i + 1] == Vertices(p, a);
    } else {
      var p' := p[..|p| - 1];
      VerticesPrefix(p', a, i);
      assert p'[..i] == p[..i];
      assert Vertices(p, a)[..i + 1] == Vertices(p', a)[..i + 1];
    }
  }

  lemma OneEdgeWalk(edges: seq<Edge>, e: Edge)
    requires e in edges
    ensures IsWalk(edges, [e], e.u, e.v) && Weight([e]) == e.w && Vertices([e], e.u) == [e.u, e.v]
  {
    assert [e][..0] == [];
  }

  /** A walk may be cut at each of its vertices. */
  lemma {:induction false} WalkCut(edges: seq<Edge>, p: seq<Edge>, a: nat, b: nat, i: nat)
    requires IsWalk(edges, p, a, b) && i <= |p|
    ensures IsWalk(edges, p[..i], a, Vertices(p, a)[i]) && IsWalk(edges, p[i..], Vertices(p, a)[i], b)
    ensures Weight(p) == Weight(p[..i]) + Weight(p[i..])
    decreases |p|
  {
    assert p[..i] + p[i..] == p;
    WeightConcat(p[..i], p[i..]);
    if i == |p| {
      assert p[..i] == p && p[i..] == [];
      LastVertex(edges, p, a, b);
    } else {
      var p', last := p[..|p| - 1], p[|p| - 1];
      WalkCut(edges, p', a, last.u, i);
      assert p'[..i] == p[..i] && p[i..][..|p[i..]| - 1] == p'[i..];
    }
  }

  lemma {:induction false} LastVertex(edges: seq<Edge>, p: seq<Edge>, a: nat, b: nat)
    requires IsWalk(edges, p, a, b)
    ensures Vertices(p, a)[|p|] == b
  {
  }

  lemma {:induction false} VerticesSuffix(edges: seq<Edge>, p: seq<Edge>, a: nat, b: nat, t: nat)
    requires IsWalk(edges, p, a, b) && t <= |p|
    ensures Vertices(p[t..], Vertices(p, a)[t]) == Vertices(p, a)[t..]
    decreases |p|
  {
    if t == |p| {
      assert p[t..] == [];
    } else {
      var p' := p[..|p| - 1];
      VerticesSuffix(edges, p', a, p[|p| - 1].u, t);
      assert p[t..][..|p[t..]| - 1] == p'[t..];
    }
  }

  /** Walks stay among the vertices of the graph. */
  lemma {:induction false} WalkInRange(V: nat, edges: seq<Edge>, p: seq<Edge>, a: nat, b: nat)
    requires InRange(V, edges) && IsWalk(edges, p, a, b) && a < V
    ensures b < V && forall x :: x in Vertices(p, a) ==> x < V
    decreases |p|
  {
    if p != [] {
      WalkInRange(V, edges, p[..|p| - 1], a, p[|p| - 1].u);
    }
  }

  /** A path has fewer edges than the graph has vertices. */
  lemma PathIsShort(V: nat, edges: seq<Edge>, p: seq<Edge>, a: nat, b: nat)
    requires InRange(V, edges) && IsPath(edges, p, a, b) && a < V
    ensures |p| < V
  {
    WalkInRange(V, edges, p, a, b);
    DistinctBelow(Vertices(p, a), V);
  }

  lemma PathPrefix(edges: seq<Edge>, p: seq<Edge>, a: nat, b: nat)
    requires IsPath(edges, p, a, b) && p != []
    ensures IsPath(edges, p[..|p| - 1], a, p[|p| - 1].u)
  {
    var vs, vs' := Vertices(p, a), Vertices(p[..|p| - 1], a);
    assert forall i :: 0 <= i < |vs'| ==> vs[i] == vs'[i];
  }

  /** Between two visits of a vertex a walk makes a cycle that can be left out. */
  lemma CutCycle(edges: seq<Edge>, p: seq<Edge>, a: nat, b: nat, i: nat, j: nat)
    requires IsWalk(edges, p, a, b) && i < j <= |p| && Vertices(p, a)[i] == Vertices(p, a)[j]
    ensures var c := Vertices(p, a)[i];
            && IsWalk(edges, p[..i], a, c) && IsWalk(edges, p[..j][i..], c, c)
            && IsWalk(edges, p[..i] + p[j..], a, b)
            && Weight(p) == Weight(p[..i] + p[j..]) + Weight(p[..j][i..])
            && (forall x :: x in Vertices(p[..i] + p[j..], a) ==> x in Vertices(p, a))
  {
    hide IsWalk, Weight;
    var c := Vertices(p, a)[i];
    WalkCut(edges, p, a, b, i);
    WalkCut(edges, p, a, b, j);
    WalkCut(edges, p[..j], a, c, i);
    VerticesPrefix(p, a, j);
    assert p[..j][..i] == p[..i];
    WalkConcat(edges, p[..i], p[j..], a, c, b);
    VerticesConcat(edges, p[..i], p[j..], a, c);
    VerticesPrefix(p, a, i);
    VerticesSuffix(edges, p, a, b, j);
  }

  lemma {:induction false} VerticesConcat(edges: seq<Edge>, p: seq<Edge>, q: seq<Edge>, a: nat, b: nat)
    requires IsWalk(edges, p, a, b)
    ensures Vertices(p + q, a) == Vertices(p, a) + Vertices(q, b)[1..]
    decreases |q|
  {
    if q == [] {
      assert p + q == p;
    } else {
      var q' := q[..|q| - 1];
      assert (p + q)[..|p + q| - 1] == p + q';
      VerticesConcat(edges, p, q', a, b);
      assert Vertices(q, b)[1..] == Vertices(q', b)[1..] + [q[|q| - 1].v];
    }
  }

  /** Without negative cycles every walk can be cut down to a path that is no heavier. */
  lemma {:induction false} Shorten(edges: seq<Edge>, p: seq<Edge>, a: nat, b: nat) returns (s: seq<Edge>)
    requires IsWalk(edges, p, a, b)
    ensures IsPath(edges, s, a, b) && |s| <= |p|
    ensures forall x :: x in Vertices(s, a) ==> x in Vertices(p, a)
    ensures NoNegativeCycle(edges, a) ==> Weight(s) <= Weight(p)
    decreases |p|
  {
    var vs := Vertices(p, a);
    if Distinct(vs) {
      s := p;
    } else {
      var i, j :| 0 <= i < j < |vs| && vs[i] == vs[j];
      CutCycle(edges, p, a, b, i, j);
      s := Shorten(edges, p[..i] + p[j..], a, b);
    }
  }
}
