/** The part of a graph between two vertices: what walks from one to the other can visit.

    A negative cycle outside of it cannot disturb the shortest paths inside, which is how
    distances are shown to be exact in graphs that do have negative cycles. */
module Parts {
  import opened Edges
  import opened Predecessors
  import opened Walks

  /** Some walk from u to v visits x. */
  ghost predicate Between(edges: seq<Edge>, u: nat, v: nat, x: nat) {
    Reaches(edges, u, x) && Reaches(edges, x, v)
  }

  /** No walk from u to v visits a vertex of a negative cycle. */
  ghost predicate Clean(edges: seq<Edge>, u: nat, v: nat) {
    forall c, q :: Between(edges, u, v, c) && IsWalk(edges, q, c, c) ==> Weight(q) >= 0
  }

  ghost predicate OnTheWay(edges: seq<Edge>, u: nat, v: nat, e: Edge) {
    Reaches(edges, u, e.u) && Reaches(edges, e.v, v)
  }

  /** The edges that walks from u to v use. */
  ghost function Part(edges: seq<Edge>, u: nat, v: nat): (part: seq<Edge>)
    ensures forall e :: e in part <==> e in edges && OnTheWay(edges, u, v, e)
  {
    Select(edges, edges, u, v)
  }

  ghost function Select(edges: seq<Edge>, some: seq<Edge>, u: nat, v: nat): (part: seq<Edge>)
    ensures forall e :: e in part <==> e in some && OnTheWay(edges, u, v, e)
  {
    if some == [] then []
    else
      var before, last := some[..|some| - 1], some[|some| - 1];
      assert some == before + [last];
      if OnTheWay(edges, u, v, last) then Select(edges, before, u, v) + [last] else Select(edges, before, u, v)
  }

  lemma ReachesVia(edges: seq<Edge>, a: nat, b: nat, c: nat)
    requires Reaches(edges, a, b) && Reaches(edges, b, c)
    ensures Reaches(edges, a, c)
  {
    var p :| IsWalk(edges, p, a, b);
    var q :| IsWalk(edges, q, b, c);
    WalkConcat(edges, p, q, a, b, c);
  }

  lemma EdgeReaches(edges: seq<Edge>, e: Edge)
    requires e in edges
    ensures Reaches(edges, e.u, e.v)
  {
    OneEdgeWalk(edges, e);
  }

  /** Both ends of an edge of the part lie between u and v. */
  lemma EndsBetween(edges: seq<Edge>, u: nat, v: nat, e: Edge)
    requires e in Part(edges, u, v)
    ensures e in edges && Between(edges, u, v, e.u) && Between(edges, u, v, e.v)
  {
    hide Reaches;
    EdgeReaches(edges, e);
    ReachesVia(edges, u, e.u, e.v);
    ReachesVia(edges, e.u, e.v, v);
  }

  lemma EdgeOfPart(edges: seq<Edge>, u: nat, v: nat, e: Edge)
    requires e in edges && Between(edges, u, v, e.u) && Between(edges, u, v, e.v)
    ensures e in Part(edges, u, v)
  {
  }

  lemma {:induction false} WalkOfPart(edges: seq<Edge>, u: nat, v: nat, p: seq<Edge>, a: nat, b: nat)
    requires IsWalk(Part(edges, u, v), p, a, b)
    ensures IsWalk(edges, p, a, b)
    decreases |p|
  {
    if p != [] {
      WalkOfPart(edges, u, v, p[..|p| - 1], a, p[|p| - 1].u);
    }
  }

  /** Walks between two vertices of the part stay in it. */
  lemma {:induction false} WalkStays(edges: seq<Edge>, u: nat, v: nat, p: seq<Edge>, a: nat, b: nat)
    requires IsWalk(edges, p, a, b) && Reaches(edges, u, a) && Reaches(edges, b, v)
    ensures IsWalk(Part(edges, u, v), p, a, b)
    decreases |p|
  {
    if p != [] {
      var last := p[|p| - 1];
      EdgeReaches(edges, last);
      ReachesVia(edges, last.u, b, v);
      WalkStays(edges, u, v, p[..|p| - 1], a, last.u);
      ReachesVia(edges, u, a, last.u) by { assert IsWalk(edges, p[..|p| - 1], a, last.u); }
    }
  }

  lemma PartIsClean(edges: seq<Edge>, u: nat, v: nat)
    requires Clean(edges, u, v)
    ensures NoNegativeCycles(Part(edges, u, v))
  {
    hide Weight;
    forall c: nat, q | IsWalk(Part(edges, u, v), q, c, c) && q != []
      ensures Weight(q) >= 0
    {
      EndsBetween(edges, u, v, q[|q| - 1]);
      WalkOfPart(edges, u, v, q, c, c);
    }
    NoWeight();
  }

  lemma NoWeight()
    ensures Weight([]) == 0
  {
  }

  lemma Itself(edges: seq<Edge>, a: nat)
    ensures Reaches(edges, a, a)
  {
    assert IsWalk(edges, [], a, a);
  }

  // ---------- Distances from one vertex, restricted to a part ----------

  ghost function PartEntries(edges: seq<Edge>, u: nat, v: nat, d: seq<int>, none: int): (r: seq<int>)
    ensures |r| == |d| && forall x :: 0 <= x < |d| ==> r[x] == if Between(edges, u, v, x) then d[x] else none
  {
    seq(|d|, x requires 0 <= x < |d| => if Between(edges, u, v, x) then d[x] else none)
  }

  /** The predecessors of the part that leads to v form a tree. */
  ghost predicate PartTree(edges: seq<Edge>, d: seq<int>, prev: seq<int>, start: nat, v: nat) {
    Clean(edges, start, v) && Reaches(edges, start, v) ==>
      Tree(Part(edges, start, v), PartEntries(edges, start, v, d, INF), PartEntries(edges, start, v, prev, -1), start)
  }

  ghost predicate PartTrees(V: nat, edges: seq<Edge>, d: seq<int>, prev: seq<int>, start: nat) {
    forall v :: 0 <= v < V ==> PartTree(edges, d, prev, start, v)
  }

  lemma PartNoCycle(edges: seq<Edge>, u: nat, v: nat)
    requires Clean(edges, u, v)
    ensures NoNegativeCycle(Part(edges, u, v), u)
  {
    PartIsClean(edges, u, v);
  }

  lemma EntryInPart(edges: seq<Edge>, u: nat, v: nat, d: seq<int>, none: int, k: nat, x: int)
    requires k < |d|
    ensures PartEntries(edges, u, v, d[k := x], none) ==
            if Between(edges, u, v, k) then PartEntries(edges, u, v, d, none)[k := x]
            else PartEntries(edges, u, v, d, none)
  {
    hide Between;
  }

  /** Relaxing an edge of the part relaxes it there; relaxing any other changes nothing there. */
  lemma RelaxPart(edges: seq<Edge>, d: seq<int>, prev: seq<int>, start: nat, v: nat, e: Edge)
    requires PartTree(edges, d, prev, start, v) && e in edges && Improves(d, e) && |prev| == |d|
    requires Reaches(edges, start, e.u)
    ensures PartTree(edges, d[e.v := d[e.u] + e.w], prev[e.v := e.u], start, v)
  {
    hide Between, Tree, NoNegativeCycle, Clean, Reaches, OnTheWay;
    EntryInPart(edges, start, v, d, INF, e.v, d[e.u] + e.w);
    EntryInPart(edges, start, v, prev, -1, e.v, e.u);
    if e !in Part(edges, start, v) {
      NotBetween(edges, start, v, e);
    } else if Clean(edges, start, v) && Reaches(edges, start, v) {
      EndsBetween(edges, start, v, e);
      PartNoCycle(edges, start, v);
      RelaxTree(Part(edges, start, v), PartEntries(edges, start, v, d, INF), PartEntries(edges, start, v, prev, -1),
                start, e);
    }
  }

  lemma NotBetween(edges: seq<Edge>, u: nat, v: nat, e: Edge)
    requires e in edges && Reaches(edges, u, e.u) && e !in Part(edges, u, v)
    ensures !Between(edges, u, v, e.v)
  {
  }

  lemma TreeOfPart(edges: seq<Edge>, d: seq<int>, prev: seq<int>, start: nat, v: nat)
    requires start < |d| == |prev| && d[start] == 0
    requires forall x :: 0 <= x < |d| ==> (x != start ==> d[x] == INF) && prev[x] == -1
    ensures PartTree(edges, d, prev, start, v)
  {
    if Clean(edges, start, v) && Reaches(edges, start, v) {
      Itself(edges, start);
      OnlyStart(Part(edges, start, v), PartEntries(edges, start, v, d, INF), PartEntries(edges, start, v, prev, -1),
                start);
    }
  }

  /** Following predecessors from a vertex that no negative cycle lies before leads to the start,
      in fewer than V steps, along a path no heavier than its distance. */
  lemma PartLeadsToStart(V: nat, edges: seq<Edge>, d: seq<int>, prev: seq<int>, start: nat, v: nat)
      returns (p: seq<Edge>)
    requires InRange(V, edges) && |d| == |prev| == V && PartTree(edges, d, prev, start, v) && v < V && d[v] < INF
    requires Clean(edges, start, v) && Reaches(edges, start, v)
    ensures IsPath(edges, p, start, v) && |p| < V && Weight(p) <= d[v]
    ensures start < V && FollowedBack(prev, Vertices(p, start)) && prev[start] == -1
  {
    hide Clean, Reaches, NoNegativeCycle, IsWalk, Weight;
    var part := Part(edges, start, v);
    var pd, pp := PartEntries(edges, start, v, d, INF), PartEntries(edges, start, v, prev, -1);
    Itself(edges, start);
    Itself(edges, v);
    assert InRange(V, part);
    p := PrevLeadsToStart(V, part, pd, pp, start, v);
    WalkOfPart(edges, start, v, p, start, v);
    var vs := Vertices(p, start);
    forall i | 0 < i < |vs|
      ensures vs[i] < |prev| && prev[vs[i]] == vs[i - 1]
    {
      assert pp[vs[i]] == vs[i - 1];
    }
  }
}
