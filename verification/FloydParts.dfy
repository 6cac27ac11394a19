/** Floyd-Warshall on part of a graph: negative cycles do not disturb pairs they do not lie between. */
module FloydParts {
  import opened Edges
  import opened FloydInvariant
  import opened Parts
  import opened Walks
  import BellmanFord

  lemma PartFacts(V: nat, edges: seq<Edge>, u: nat, v: nat)
    requires InRange(V, edges) && PathSumsBelowInf(edges)
    ensures InRange(V, Part(edges, u, v)) && PathSumsBelowInf(Part(edges, u, v))
  {
    hide Weight, Vertices, IsWalk, OnTheWay;
    forall a: nat, p, b: nat | IsPath(Part(edges, u, v), p, a, b)
      ensures Weight(p) < INF
    {
      WalkOfPart(edges, u, v, p, a, b);
      assert BellmanFord.PathSumsBelowInf(edges, a);
      assert IsPath(edges, p, a, b);
    }
  }

  /** Exact in the part is exact in the graph. */
  lemma ExactInPart(edges: seq<Edge>, u: nat, v: nat, x: int)
    requires BellmanFord.ExactAt(Part(edges, u, v), u, v, x) && Reaches(edges, u, v)
    ensures BellmanFord.ExactAt(edges, u, v, x)
  {
    hide Weight, IsWalk;
    var part := Part(edges, u, v);
    Itself(edges, u);
    Itself(edges, v);
    forall p | IsWalk(edges, p, u, v) || IsWalk(part, p, u, v)
      ensures IsWalk(edges, p, u, v) && IsWalk(part, p, u, v)
    {
      if IsWalk(edges, p, u, v) {
        WalkStays(edges, u, v, p, u, v);
      } else {
        WalkOfPart(edges, u, v, p, u, v);
      }
    }
    assert Reaches(part, u, v);
  }

  // ---------- The tables, restricted to a part ----------

  ghost predicate Both(edges: seq<Edge>, u: nat, v: nat, i: nat, j: nat) {
    Between(edges, u, v, i) && Between(edges, u, v, j)
  }

  ghost function PartDist(edges: seq<Edge>, u: nat, v: nat, dist: Matrix): (r: Matrix)
    requires Square(|dist|, dist)
    ensures |r| == |dist| && Square(|dist|, r)
    ensures forall i, j :: 0 <= i < |dist| && 0 <= j < |dist| ==>
              r[i][j] == if Both(edges, u, v, i, j) then dist[i][j] else if i == j then 0 else INF
  {
    seq(|dist|, i requires 0 <= i < |dist| =>
      seq(|dist|, j requires 0 <= j < |dist| =>
        if Both(edges, u, v, i, j) then dist[i][j] else if i == j then 0 else INF))
  }

  ghost function PartNext(edges: seq<Edge>, u: nat, v: nat, next: Matrix): (r: Matrix)
    requires Square(|next|, next)
    ensures |r| == |next| && Square(|next|, r)
    ensures forall i, j :: 0 <= i < |next| && 0 <= j < |next| ==>
              r[i][j] == if Both(edges, u, v, i, j) then next[i][j] else -1
  {
    seq(|next|, i requires 0 <= i < |next| =>
      seq(|next|, j requires 0 <= j < |next| => if Both(edges, u, v, i, j) then next[i][j] else -1))
  }

  lemma SameMatrix(V: nat, m: Matrix, n: Matrix)
    requires Square(V, m) && Square(V, n) && forall i, j :: 0 <= i < V && 0 <= j < V ==> m[i][j] == n[i][j]
    ensures m == n
  {
    forall i | 0 <= i < V
      ensures m[i] == n[i]
    {
    }
  }

  lemma FiniteReaches(V: nat, edges: seq<Edge>, dist: Matrix, next: Matrix, k: nat, i: nat, j: nat)
    requires Sound(V, edges, dist, next, k) && i < V && j < V && (dist[i][j] < INF || next[i][j] != -1)
    ensures Reaches(edges, i, j)
  {
    assert Entry(edges, i, j, dist[i][j], next[i][j], k);
    var p := EntryIsWalk(edges, i, j, dist[i][j], next[i][j], k);
  }

  /** A pivot that improves an entry of the part belongs to the part. */
  lemma PivotBetween(V: nat, edges: seq<Edge>, dist: Matrix, next: Matrix, k': nat, u: nat, v: nat, k: nat, i: nat,
          j: nat)
    requires Sound(V, edges, dist, next, k') && k < V && i < V && j < V && Both(edges, u, v, i, j)
    requires dist[i][k] < INF && dist[k][j] < INF
    ensures Between(edges, u, v, k)
  {
    hide Sound, Reaches;
    FiniteReaches(V, edges, dist, next, k', i, k);
    FiniteReaches(V, edges, dist, next, k', k, j);
    ReachesVia(edges, u, i, k);
    ReachesVia(edges, k, j, v);
  }

  lemma SameImproves(V: nat, edges: seq<Edge>, dist: Matrix, next: Matrix, k': nat, u: nat, v: nat, k: nat, i: nat,
          j: nat)
    requires Sound(V, edges, dist, next, k') && k < V && i < V && j < V
    ensures Square(V, PartDist(edges, u, v, dist))
    ensures Improves(PartDist(edges, u, v, dist), k, i, j) <==>
            Both(edges, u, v, i, j) && Improves(dist, k, i, j)
    ensures Both(edges, u, v, i, j) && Improves(dist, k, i, j) ==> Between(edges, u, v, k)
  {
    hide Between;
    AtMostInf(V, edges, dist, next, k', i, k);
    AtMostInf(V, edges, dist, next, k', k, j);
    hide Sound;
    if Both(edges, u, v, i, j) && dist[i][k] < INF && dist[k][j] < INF {
      PivotBetween(V, edges, dist, next, k', u, v, k, i, j);
    }
  }

  lemma AtMostInf(V: nat, edges: seq<Edge>, dist: Matrix, next: Matrix, k: nat, i: nat, j: nat)
    requires Sound(V, edges, dist, next, k) && i < V && j < V
    ensures dist[i][j] <= INF
  {
    assert Entry(edges, i, j, dist[i][j], next[i][j], k);
  }

  lemma SetInPart(edges: seq<Edge>, u: nat, v: nat, dist: Matrix, next: Matrix, i: nat, j: nat, d: int, n: int)
    requires Square(|dist|, dist) && Square(|dist|, next) && i < |dist| && j < |dist| && Both(edges, u, v, i, j)
    ensures Square(|dist|, Set(dist, i, j, d)) && Square(|dist|, Set(next, i, j, n))
    ensures PartDist(edges, u, v, Set(dist, i, j, d)) == Set(PartDist(edges, u, v, dist), i, j, d)
    ensures PartNext(edges, u, v, Set(next, i, j, n)) == Set(PartNext(edges, u, v, next), i, j, n)
  {
    hide Both;
    SameMatrix(|dist|, PartDist(edges, u, v, Set(dist, i, j, d)), Set(PartDist(edges, u, v, dist), i, j, d));
    SameMatrix(|dist|, PartNext(edges, u, v, Set(next, i, j, n)), Set(PartNext(edges, u, v, next), i, j, n));
  }

  lemma SetElsewhere(edges: seq<Edge>, u: nat, v: nat, dist: Matrix, next: Matrix, i: nat, j: nat, d: int, n: int)
    requires Square(|dist|, dist) && Square(|dist|, next) && i < |dist| && j < |dist| && !Both(edges, u, v, i, j)
    ensures Square(|dist|, Set(dist, i, j, d)) && Square(|dist|, Set(next, i, j, n))
    ensures PartDist(edges, u, v, Set(dist, i, j, d)) == PartDist(edges, u, v, dist)
    ensures PartNext(edges, u, v, Set(next, i, j, n)) == PartNext(edges, u, v, next)
  {
    hide Both;
    SameMatrix(|dist|, PartDist(edges, u, v, Set(dist, i, j, d)), PartDist(edges, u, v, dist));
    SameMatrix(|dist|, PartNext(edges, u, v, Set(next, i, j, n)), PartNext(edges, u, v, next));
  }

  /** Trying an entry through a pivot does the same to the part as to the graph. */
  lemma TryInPart(V: nat, edges: seq<Edge>, dist: Matrix, next: Matrix, k': nat, u: nat, v: nat, k: nat, i: nat,
          j: nat)
    requires Sound(V, edges, dist, next, k') && k < V && i < V && j < V
    ensures Square(V, TryDist(dist, k, i, j)) && Square(V, TryNext(dist, next, k, i, j))
    ensures PartDist(edges, u, v, TryDist(dist, k, i, j)) == TryDist(PartDist(edges, u, v, dist), k, i, j)
    ensures PartNext(edges, u, v, TryNext(dist, next, k, i, j)) ==
            TryNext(PartDist(edges, u, v, dist), PartNext(edges, u, v, next), k, i, j)
  {
    SameImproves(V, edges, dist, next, k', u, v, k, i, j);
    assert Square(V, dist) && Square(V, next);
    hide Sound, Between, Set;
    if Improves(dist, k, i, j) {
      var d, n := dist[i][k] + dist[k][j], next[i][k];
      if Both(edges, u, v, i, j) {
        SetInPart(edges, u, v, dist, next, i, j, d, n);
      } else {
        SetElsewhere(edges, u, v, dist, next, i, j, d, n);
      }
    }
  }
}
