/** What the distance and first-step tables of Floyd-Warshall satisfy before phase k.

    Every finite distance is the weight of a walk whose inner vertices are below k and whose
    first step is the one in the table; every path with inner vertices below k is covered by
    a distance at most its weight; and following first steps never runs in a circle, even
    if there are cycles of weight zero. */
module FloydInvariant {
  import opened Counting
  import opened Edges
  import opened Walks
  import BellmanFord

  type Matrix = seq<seq<int>>

  ghost predicate Square(V: nat, m: Matrix) {
    |m| == V && forall i :: 0 <= i < V ==> |m[i]| == V
  }

  function Set(m: Matrix, i: nat, j: nat, x: int): Matrix
    requires i < |m| && j < |m[i]|
  {
    m[i := m[i][j := x]]
  }

  ghost predicate PathSumsBelowInf(edges: seq<Edge>) {
    forall a: nat :: BellmanFord.PathSumsBelowInf(edges, a)
  }

  // ---------- Every entry is a walk ----------

  /** An entry is untouched, or the weight of a walk inside the vertices below k whose first
      step is the entry of `next`. */
  ghost predicate Entry(edges: seq<Edge>, i: nat, j: nat, d: int, n: int, k: nat) {
    || (d == INF && n == -1 && i != j)
    || (d == 0 && n == -1 && i == j)
    || (d < INF && n != -1 && (i == j ==> d < 0)
        && exists p :: StartsWith(edges, p, i, j, n) && Inner(p, i, k) && Weight(p) == d)
  }

  ghost predicate StartsWith(edges: seq<Edge>, p: seq<Edge>, i: nat, j: nat, n: int) {
    IsWalk(edges, p, i, j) && p != [] && p[0].v == n
  }

  /** The vertices strictly inside the walk are below k. */
  ghost predicate Inner(p: seq<Edge>, a: nat, k: nat) {
    forall t :: 0 < t < |p| ==> Vertices(p, a)[t] < k
  }

  ghost predicate Sound(V: nat, edges: seq<Edge>, dist: Matrix, next: Matrix, k: nat) {
    && Square(V, dist) && Square(V, next)
    && forall i, j :: 0 <= i < V && 0 <= j < V ==> Entry(edges, i, j, dist[i][j], next[i][j], k)
  }

  lemma EntryIsWalk(edges: seq<Edge>, i: nat, j: nat, d: int, n: int, k: nat) returns (p: seq<Edge>)
    requires Entry(edges, i, j, d, n, k) && d < INF
    ensures IsWalk(edges, p, i, j) && Weight(p) == d && Inner(p, i, k)
    ensures n != -1 ==> StartsWith(edges, p, i, j, n)
  {
    if n == -1 {
      p := [];
    } else {
      p :| StartsWith(edges, p, i, j, n) && Inner(p, i, k) && Weight(p) == d;
    }
  }

  lemma SoundGrows(V: nat, edges: seq<Edge>, dist: Matrix, next: Matrix, k: nat)
    requires Sound(V, edges, dist, next, k)
    ensures Sound(V, edges, dist, next, k + 1)
  {
    forall i, j | 0 <= i < V && 0 <= j < V
      ensures Entry(edges, i, j, dist[i][j], next[i][j], k + 1)
    {
      assert Entry(edges, i, j, dist[i][j], next[i][j], k);
      if dist[i][j] < INF {
        var p := EntryIsWalk(edges, i, j, dist[i][j], next[i][j], k);
        assert Inner(p, i, k + 1);
      }
    }
  }

  predicate Improves(dist: Matrix, k: nat, i: nat, j: nat)
    requires Square(|dist|, dist) && k < |dist| && i < |dist| && j < |dist|
  {
    dist[i][k] != INF && dist[k][j] != INF && dist[i][k] + dist[k][j] < dist[i][j]
  }

  /** The tables after entry (i, j) has been tried through k. */
  function TryDist(dist: Matrix, k: nat, i: nat, j: nat): (r: Matrix)
    requires Square(|dist|, dist) && k < |dist| && i < |dist| && j < |dist|
  {
    if Improves(dist, k, i, j) then Set(dist, i, j, dist[i][k] + dist[k][j]) else dist
  }

  function TryNext(dist: Matrix, next: Matrix, k: nat, i: nat, j: nat): (r: Matrix)
    requires Square(|dist|, dist) && Square(|dist|, next) && k < |dist| && i < |dist| && j < |dist|
  {
    if Improves(dist, k, i, j) then Set(next, i, j, next[i][k]) else next
  }

  lemma TryEntry(edges: seq<Edge>, i: nat, k: nat, j: nat, d1: int, n1: int, d2: int, n2: int, d: int, n: int)
    requires Entry(edges, i, k, d1, n1, k + 1) && Entry(edges, k, j, d2, n2, k + 1) && Entry(edges, i, j, d, n, k + 1)
    requires d1 < INF && d2 < INF && d1 + d2 < d && (i == k ==> d2 == d)
    ensures Entry(edges, i, j, d1 + d2, n1, k + 1)
  {
    var p := EntryIsWalk(edges, i, k, d1, n1, k + 1);
    var q := EntryIsWalk(edges, k, j, d2, n2, k + 1);
    hide IsWalk, Weight, Vertices;
    WalkConcat(edges, p, q, i, k, j);
    VerticesConcat(edges, p, q, i, k);
    LastVertex(edges, p, i, k);
    InnerConcat(p, q, i, k);
    assert StartsWith(edges, p + q, i, j, n1);
  }

  lemma TrySound(V: nat, edges: seq<Edge>, dist: Matrix, next: Matrix, k: nat, i: nat, j: nat)
    requires Sound(V, edges, dist, next, k + 1) && k < V && i < V && j < V
    ensures Sound(V, edges, TryDist(dist, k, i, j), TryNext(dist, next, k, i, j), k + 1)
  {
    hide Entry;
    if Improves(dist, k, i, j) {
      EntryBelowInf(edges, i, k, dist[i][k], next[i][k], k + 1);
      EntryBelowInf(edges, k, j, dist[k][j], next[k][j], k + 1);
      TryEntry(edges, i, k, j, dist[i][k], next[i][k], dist[k][j], next[k][j], dist[i][j], next[i][j]);
    }
  }

  lemma EntryBelowInf(edges: seq<Edge>, i: nat, j: nat, d: int, n: int, k: nat)
    requires Entry(edges, i, j, d, n, k)
    ensures d <= INF
  {
  }

  lemma InnerConcat(p: seq<Edge>, q: seq<Edge>, i: nat, k: nat)
    requires Inner(p, i, k + 1) && Inner(q, k, k + 1) && Vertices(p, i)[|p|] == k
    requires Vertices(p + q, i) == Vertices(p, i) + Vertices(q, k)[1..]
    ensures Inner(p + q, i, k + 1)
  {
    hide Vertices;
  }

  // ---------- Every path through few vertices is covered ----------

  /** A path, or a cycle that visits no vertex twice except its ends. */
  ghost predicate Simple(p: seq<Edge>, a: nat) {
    var vs := Vertices(p, a);
    forall i, j :: 0 <= i < j < |vs| && vs[i] == vs[j] ==> i == 0 && j == |p|
  }

  ghost predicate CoversEntry(edges: seq<Edge>, a: nat, b: nat, d: int, k: nat) {
    forall p :: IsWalk(edges, p, a, b) && Simple(p, a) && Inner(p, a, k) ==> d <= Weight(p)
  }

  ghost predicate Covers(V: nat, edges: seq<Edge>, dist: Matrix, k: nat) {
    Square(V, dist) && forall a, b :: 0 <= a < V && 0 <= b < V ==> CoversEntry(edges, a, b, dist[a][b], k)
  }

  /** A simple walk through vertices up to k either avoids k, or splits there into two paths. */
  lemma SplitAtPivot(edges: seq<Edge>, p: seq<Edge>, a: nat, b: nat, k: nat) returns (through: bool, p1: seq<Edge>,
          p2: seq<Edge>)
    requires IsWalk(edges, p, a, b) && Simple(p, a) && Inner(p, a, k + 1)
    ensures !through ==> Inner(p, a, k)
    ensures through ==> IsPath(edges, p1, a, k) && IsPath(edges, p2, k, b) && Weight(p) == Weight(p1) + Weight(p2)
    ensures through ==> Simple(p1, a) && Inner(p1, a, k) && Simple(p2, k) && Inner(p2, k, k)
  {
    var vs := Vertices(p, a);
    through := exists t :: 0 < t < |p| && vs[t] == k;
    p1, p2 := [], [];
    if through {
      var t :| 0 < t < |p| && vs[t] == k;
      p1, p2 := p[..t], p[t..];
      hide *;
      WalkCut(edges, p, a, b, t);
      VerticesPrefix(p, a, t);
      VerticesSuffix(edges, p, a, b, t);
      HalvesSimple(p, a, k, t);
      IsPathFrom(edges, p1, a, k);
      IsPathFrom(edges, p2, k, b);
    }
  }

  lemma IsPathFrom(edges: seq<Edge>, p: seq<Edge>, a: nat, b: nat)
    requires IsWalk(edges, p, a, b) && Distinct(Vertices(p, a))
    ensures IsPath(edges, p, a, b)
  {
  }

  lemma HalvesSimple(p: seq<Edge>, a: nat, k: nat, t: nat)
    requires Simple(p, a) && Inner(p, a, k + 1) && 0 < t < |p| && Vertices(p, a)[t] == k
    requires Vertices(p[..t], a) == Vertices(p, a)[..t + 1] && Vertices(p[t..], k) == Vertices(p, a)[t..]
    ensures Distinct(Vertices(p[..t], a)) && Simple(p[..t], a) && Inner(p[..t], a, k)
    ensures Distinct(Vertices(p[t..], k)) && Simple(p[t..], k) && Inner(p[t..], k, k)
  {
    hide Vertices;
  }

  predicate Before(a: nat, b: nat, i: nat, j: nat) {
    a < i || (a == i && b < j)
  }

  /** Coverage while pivot k is being tried: the entries before (i, j) have been. */
  ghost predicate CoversTo(V: nat, edges: seq<Edge>, dist: Matrix, k: nat, i: nat, j: nat) {
    && Square(V, dist)
    && forall a, b :: 0 <= a < V && 0 <= b < V ==>
         CoversEntry(edges, a, b, dist[a][b], if Before(a, b, i, j) then k + 1 else k)
  }

  lemma CoverStep(V: nat, edges: seq<Edge>, dist: Matrix, k: nat, i: nat, j: nat)
    requires CoversTo(V, edges, dist, k, i, j) && PathSumsBelowInf(edges) && k < V && i < V && j < V
    ensures CoversTo(V, edges, TryDist(dist, k, i, j), k, i, j + 1)
  {
    var dist' := TryDist(dist, k, i, j);
    forall p | IsWalk(edges, p, i, j) && Simple(p, i) && Inner(p, i, k + 1)
      ensures dist'[i][j] <= Weight(p)
    {
      var through, p1, p2 := SplitAtPivot(edges, p, i, j, k);
      if through {
        CoveredPath(V, edges, dist, k, i, j, i, k, p1);
        CoveredPath(V, edges, dist, k, i, j, k, j, p2);
      } else {
        assert CoversEntry(edges, i, j, dist[i][j], k);
      }
    }
    assert CoversEntry(edges, i, j, dist'[i][j], k + 1);
    forall a, b | 0 <= a < V && 0 <= b < V && !(a == i && b == j)
      ensures CoversEntry(edges, a, b, dist'[a][b], if Before(a, b, i, j + 1) then k + 1 else k)
    {
      assert CoversEntry(edges, a, b, dist[a][b], if Before(a, b, i, j) then k + 1 else k);
    }
  }

  lemma CoveredPath(V: nat, edges: seq<Edge>, dist: Matrix, k: nat, i: nat, j: nat, a: nat, b: nat, p: seq<Edge>)
    requires CoversTo(V, edges, dist, k, i, j) && PathSumsBelowInf(edges) && a < V && b < V
    requires IsPath(edges, p, a, b) && Simple(p, a) && Inner(p, a, k)
    ensures dist[a][b] <= Weight(p) < INF
  {
    assert BellmanFord.PathSumsBelowInf(edges, a);
    assert CoversEntry(edges, a, b, dist[a][b], if Before(a, b, i, j) then k + 1 else k);
    assert Inner(p, a, k + 1);
  }

  lemma CoverBegins(V: nat, edges: seq<Edge>, dist: Matrix, k: nat)
    requires Covers(V, edges, dist, k)
    ensures CoversTo(V, edges, dist, k, 0, 0)
  {
  }

  lemma CoverRow(V: nat, edges: seq<Edge>, dist: Matrix, k: nat, i: nat)
    requires CoversTo(V, edges, dist, k, i, V)
    ensures CoversTo(V, edges, dist, k, i + 1, 0)
  {
    forall a, b | 0 <= a < V && 0 <= b < V
      ensures CoversEntry(edges, a, b, dist[a][b], if Before(a, b, i + 1, 0) then k + 1 else k)
    {
      assert CoversEntry(edges, a, b, dist[a][b], if Before(a, b, i, V) then k + 1 else k);
    }
  }

  lemma CoverEnds(V: nat, edges: seq<Edge>, dist: Matrix, k: nat)
    requires CoversTo(V, edges, dist, k, V, 0)
    ensures Covers(V, edges, dist, k + 1)
  {
    forall a, b | 0 <= a < V && 0 <= b < V
      ensures CoversEntry(edges, a, b, dist[a][b], k + 1)
    {
      assert Before(a, b, V, 0);
    }
  }

  // ---------- What full coverage means ----------

  /** A negative cycle contains a negative cycle without repeated vertices. */
  lemma {:induction false} SimpleNegativeCycle(edges: seq<Edge>, q: seq<Edge>, c: nat) returns (r: seq<Edge>, a: nat)
    requires IsWalk(edges, q, c, c) && Weight(q) < 0
    ensures IsWalk(edges, r, a, a) && Weight(r) < 0 && Simple(r, a)
    decreases |q|
  {
    var vs := Vertices(q, c);
    if Simple(q, c) {
      r, a := q, c;
    } else {
      var i, j :| 0 <= i < j < |vs| && vs[i] == vs[j] && !(i == 0 && j == |q|);
      CutCycle(edges, q, c, c, i, j);
      if Weight(q[..j][i..]) < 0 {
        r, a := SimpleNegativeCycle(edges, q[..j][i..], vs[i]);
      } else {
        r, a := SimpleNegativeCycle(edges, q[..i] + q[j..], c);
      }
    }
  }

  lemma InnerAll(p: seq<Edge>, a: nat, V: nat)
    requires forall x :: x in Vertices(p, a) ==> x < V
    ensures Inner(p, a, V)
  {
    assert forall t :: 0 < t < |p| ==> Vertices(p, a)[t] in Vertices(p, a);
  }

  ghost predicate NegativeDiagonal(dist: Matrix) {
    exists i :: 0 <= i < |dist| && i < |dist[i]| && dist[i][i] < 0
  }

  /** The diagonal shows negative cycles: a negative entry exists exactly if one does. */
  lemma DiagonalShowsCycles(V: nat, edges: seq<Edge>, dist: Matrix, next: Matrix)
    requires InRange(V, edges) && Sound(V, edges, dist, next, V) && Covers(V, edges, dist, V)
    ensures NegativeDiagonal(dist) <==> !NoNegativeCycles(edges)
  {
    if NegativeDiagonal(dist) {
      var i: nat :| 0 <= i < |dist| && i < |dist[i]| && dist[i][i] < 0;
      assert Entry(edges, i, i, dist[i][i], next[i][i], V);
      var p := EntryIsWalk(edges, i, i, dist[i][i], next[i][i], V);
    }
    if !NoNegativeCycles(edges) {
      var c: nat, q :| IsWalk(edges, q, c, c) && Weight(q) < 0;
      var r, a := SimpleNegativeCycle(edges, q, c);
      assert a < V by { CycleInRange(V, edges, r, a); }
      WalkInRange(V, edges, r, a, a);
      assert CoversEntry(edges, a, a, dist[a][a], V);
      InnerAll(r, a, V);
      assert dist[a][a] < 0;
    }
  }

  lemma CycleInRange(V: nat, edges: seq<Edge>, r: seq<Edge>, a: nat)
    requires InRange(V, edges) && IsWalk(edges, r, a, a) && Weight(r) < 0
    ensures a < V
  {
  }

  ghost predicate AllExact(V: nat, edges: seq<Edge>, dist: Matrix) {
    && Square(V, dist)
    && forall a, b :: 0 <= a < V && 0 <= b < V ==> BellmanFord.ExactAt(edges, a, b, dist[a][b])
  }

  lemma CoveredIsExact(V: nat, edges: seq<Edge>, dist: Matrix, next: Matrix)
    requires InRange(V, edges) && PathSumsBelowInf(edges) && NoNegativeCycles(edges)
    requires Sound(V, edges, dist, next, V) && Covers(V, edges, dist, V)
    ensures AllExact(V, edges, dist)
  {
    forall a, b | 0 <= a < V && 0 <= b < V
      ensures BellmanFord.ExactAt(edges, a, b, dist[a][b])
    {
      ExactEntry(V, edges, dist, next, a, b);
    }
  }

  lemma ExactEntry(V: nat, edges: seq<Edge>, dist: Matrix, next: Matrix, a: nat, b: nat)
    requires InRange(V, edges) && PathSumsBelowInf(edges) && NoNegativeCycles(edges)
    requires Sound(V, edges, dist, next, V) && Covers(V, edges, dist, V) && a < V && b < V
    ensures BellmanFord.ExactAt(edges, a, b, dist[a][b])
  {
    var d := dist[a][b];
    assert Entry(edges, a, b, d, next[a][b], V);
    if d < INF {
      var p := EntryIsWalk(edges, a, b, d, next[a][b], V);
    }
    assert NoNegativeCycle(edges, a);
    forall p | IsWalk(edges, p, a, b)
      ensures d <= Weight(p) && d < INF
    {
      var s := Shorten(edges, p, a, b);
      WalkInRange(V, edges, s, a, b);
      assert CoversEntry(edges, a, b, d, V);
      InnerAll(s, a, V);
      assert Simple(s, a);
      assert BellmanFord.PathSumsBelowInf(edges, a);
    }
  }

  // ---------- First steps ----------

  /** Every first step is an edge that leads no further from the target than the entry says. */
  ghost predicate StepsOk(V: nat, edges: seq<Edge>, dist: Matrix, next: Matrix) {
    && Square(V, dist) && Square(V, next)
    && forall x, j :: 0 <= x < V && 0 <= j < V && next[x][j] != -1 ==>
         0 <= next[x][j] < V && exists e :: e in edges && StepsBy(dist, next, e, x, j)
  }

  ghost predicate StepsBy(dist: Matrix, next: Matrix, e: Edge, x: nat, j: nat) {
    && x < |next| && j < |next[x]| && x < |dist| && j < |dist[x]|
    && e.u == x && e.v == next[x][j] && e.v < |dist| && j < |dist[e.v]|
    && e.w + dist[e.v][j] <= dist[x][j]
  }

  /** Following first steps towards j from xs[0] comes back to xs[0]. */
  ghost predicate NextCycle(V: nat, next: Matrix, j: nat, xs: seq<nat>) {
    && Square(V, next) && j < V && |xs| >= 2 && xs[0] == xs[|xs| - 1]
    && (forall t :: 0 <= t < |xs| ==> xs[t] < V)
    && (forall t :: 0 <= t < |xs| - 1 ==> next[xs[t]][j] == xs[t + 1])
  }

  ghost predicate Acyclic(V: nat, next: Matrix) {
    forall j, xs :: !NextCycle(V, next, j, xs)
  }

  /** All entries tried through k, as if at once. */
  ghost predicate Phase(V: nat, dist: Matrix, next: Matrix, dist': Matrix, next': Matrix, k: nat) {
    PhaseTo(V, dist, next, dist', next', k, V, 0)
  }

  ghost predicate PhaseTo(V: nat, dist: Matrix, next: Matrix, dist': Matrix, next': Matrix, k: nat, i: nat, j: nat) {
    && Square(V, dist) && Square(V, next) && Square(V, dist') && Square(V, next') && k < V
    && forall a, b :: 0 <= a < V && 0 <= b < V ==> PhaseEntry(dist, next, dist', next', k, a, b, Before(a, b, i, j))
  }

  ghost predicate PhaseEntry(dist: Matrix, next: Matrix, dist': Matrix, next': Matrix, k: nat, a: nat, b: nat,
          done: bool)
    requires Square(|dist|, dist) && Square(|dist|, next) && Square(|dist|, dist') && Square(|dist|, next')
    requires k < |dist| && a < |dist| && b < |dist|
  {
    if done && Improves(dist, k, a, b) then
      dist'[a][b] == dist[a][k] + dist[k][b] && next'[a][b] == next[a][k]
    else dist'[a][b] == dist[a][b] && next'[a][b] == next[a][b]
  }

  /** Row and column k stay put while k is the pivot, so trying the entries one by one in
      place is the same as trying them all at once. */
  lemma PhaseStep(V: nat, dist: Matrix, next: Matrix, dist': Matrix, next': Matrix, k: nat, i: nat, j: nat)
    requires PhaseTo(V, dist, next, dist', next', k, i, j) && i < V && j < V && dist[k][k] >= 0
    ensures PhaseTo(V, dist, next, TryDist(dist', k, i, j), TryNext(dist', next', k, i, j), k, i, j + 1)
  {
    assert PhaseEntry(dist, next, dist', next', k, i, k, Before(i, k, i, j));
    assert PhaseEntry(dist, next, dist', next', k, k, j, Before(k, j, i, j));
    assert PhaseEntry(dist, next, dist', next', k, i, j, Before(i, j, i, j));
    var d, n := TryDist(dist', k, i, j), TryNext(dist', next', k, i, j);
    var after := j + 1;
    forall a: nat, b: nat | a < V && b < V
      ensures PhaseEntry(dist, next, d, n, k, a, b, Before(a, b, i, after))
    {
      assert PhaseEntry(dist, next, dist', next', k, a, b, Before(a, b, i, j));
    }
  }

  lemma PhaseBegins(V: nat, dist: Matrix, next: Matrix, k: nat)
    requires Square(V, dist) && Square(V, next) && k < V
    ensures PhaseTo(V, dist, next, dist, next, k, 0, 0)
  {
  }

  lemma PhaseRow(V: nat, dist: Matrix, next: Matrix, dist': Matrix, next': Matrix, k: nat, i: nat)
    requires PhaseTo(V, dist, next, dist', next', k, i, V)
    ensures PhaseTo(V, dist, next, dist', next', k, i + 1, 0)
  {
    var after := i + 1;
    forall a: nat, b: nat | a < V && b < V
      ensures PhaseEntry(dist, next, dist', next', k, a, b, Before(a, b, after, 0))
    {
      assert PhaseEntry(dist, next, dist', next', k, a, b, Before(a, b, i, V));
    }
  }

  lemma PhaseAt(V: nat, dist: Matrix, next: Matrix, dist': Matrix, next': Matrix, k: nat, a: nat, b: nat)
    requires Phase(V, dist, next, dist', next', k) && a < V && b < V
    ensures PhaseEntry(dist, next, dist', next', k, a, b, true)
  {
    assert PhaseEntry(dist, next, dist', next', k, a, b, Before(a, b, V, 0));
  }

  /** The vertex of a first step still reaches the target. */
  lemma FirstStepReaches(V: nat, edges: seq<Edge>, dist: Matrix, next: Matrix, k: nat, x: nat, j: nat)
    requires InRange(V, edges) && PathSumsBelowInf(edges) && x < V && j < V
    requires Sound(V, edges, dist, next, k) && Covers(V, edges, dist, k) && next[x][j] != -1
    ensures 0 <= next[x][j] < V && dist[next[x][j]][j] < INF
  {
    assert Entry(edges, x, j, dist[x][j], next[x][j], k);
    var n := next[x][j];
    var p := EntryIsWalk(edges, x, j, dist[x][j], n, k);
    WalkCut(edges, p, x, j, 1);
    VerticesPrefix(p, x, 1);
    assert Vertices(p[..1], x)[1] == n by { assert p[..1] == [p[0]]; }
    WalkInRange(V, edges, p, x, j);
    assert Vertices(p, x)[1] in Vertices(p, x);
    VerticesSuffix(edges, p, x, j, 1);
    var s := Shorten(edges, p[1..], n, j);
    InnerOfShortened(edges, p, s, x, n, j, k);
    assert BellmanFord.PathSumsBelowInf(edges, n);
    assert CoversEntry(edges, n, j, dist[n][j], k);
    assert Simple(s, n);
  }

  lemma InnerOfShortened(edges: seq<Edge>, p: seq<Edge>, s: seq<Edge>, x: nat, n: nat, j: nat, k: nat)
    requires p != [] && Inner(p, x, k) && IsPath(edges, s, n, j) && Vertices(p, x)[|p|] == j
    requires forall y :: y in Vertices(s, n) ==> y in Vertices(p, x)[1..]
    ensures Inner(s, n, k)
  {
    LastVertex(edges, s, n, j);
    hide Vertices, IsWalk;
    forall t | 0 < t < |s|
      ensures Vertices(s, n)[t] < k
    {
      var y := Vertices(s, n)[t];
      assert y in Vertices(s, n) && y != Vertices(s, n)[|s|];
      var i :| 0 <= i < |p| && Vertices(p, x)[1..][i] == y;
      assert Vertices(p, x)[i + 1] == y;
    }
  }

  /** The edge that justifies the old first step still justifies the new one. */
  lemma PhaseStepsBy(V: nat, edges: seq<Edge>, dist: Matrix, next: Matrix, dist': Matrix, next': Matrix, k: nat,
                     x: nat, j: nat, e: Edge)
    requires Phase(V, dist, next, dist', next', k) && x < V && j < V && e.v < V
    requires if Improves(dist, k, x, j) then StepsBy(dist, next, e, x, k) && dist[e.v][k] < INF
             else StepsBy(dist, next, e, x, j)
    ensures StepsBy(dist', next', e, x, j)
  {
    PhaseAt(V, dist, next, dist', next', k, x, j);
    PhaseAt(V, dist, next, dist', next', k, e.v, j);
  }

  lemma PhaseSteps(V: nat, edges: seq<Edge>, dist: Matrix, next: Matrix, dist': Matrix, next': Matrix, k: nat)
    requires StepsOk(V, edges, dist, next) && Phase(V, dist, next, dist', next', k) && Sound(V, edges, dist, next, k)
    requires InRange(V, edges) && PathSumsBelowInf(edges) && Covers(V, edges, dist, k) && dist[k][k] >= 0
    ensures StepsOk(V, edges, dist', next')
  {
    forall x: nat, j: nat | x < V && j < V && next'[x][j] != -1
      ensures 0 <= next'[x][j] < V && exists e :: e in edges && StepsBy(dist', next', e, x, j)
    {
      PhaseStepsAt(V, edges, dist, next, dist', next', k, x, j);
    }
  }

  lemma PhaseStepsAt(V: nat, edges: seq<Edge>, dist: Matrix, next: Matrix, dist': Matrix, next': Matrix, k: nat,
          x: nat, j: nat)
    requires StepsOk(V, edges, dist, next) && Phase(V, dist, next, dist', next', k) && Sound(V, edges, dist, next, k)
    requires InRange(V, edges) && PathSumsBelowInf(edges) && Covers(V, edges, dist, k) && dist[k][k] >= 0 && x < V &&
            j < V && next'[x][j] != -1
    ensures 0 <= next'[x][j] < V && exists e :: e in edges && StepsBy(dist', next', e, x, j)
  {
    hide Entry;
    PhaseAt(V, dist, next, dist', next', k, x, j);
    var via := if Improves(dist, k, x, j) then k else j;
    assert next[x][via] == next'[x][j];
    FirstStepReaches(V, edges, dist, next, k, x, via);
    var e :| e in edges && StepsBy(dist, next, e, x, via);
    PhaseStepsBy(V, edges, dist, next, dist', next', k, x, j, e);
  }

  // ---------- No cycle of first steps ----------

  /** Along a chain of first steps some edge loses strictly more than it weighs. */
  ghost predicate Slack(edges: seq<Edge>, dist: Matrix, next: Matrix, e: Edge, x: nat, j: nat) {
    e in edges && StepsBy(dist, next, e, x, j) && e.w + dist[e.v][j] < dist[x][j]
  }

  ghost predicate Chain(V: nat, next: Matrix, j: nat, xs: seq<nat>) {
    && Square(V, next) && j < V && xs != []
    && (forall t :: 0 <= t < |xs| ==> xs[t] < V)
    && (forall t :: 0 <= t < |xs| - 1 ==> next[xs[t]][j] == xs[t + 1])
  }

  ghost predicate SlackAt(edges: seq<Edge>, dist: Matrix, next: Matrix, x: nat, j: nat) {
    exists e :: Slack(edges, dist, next, e, x, j)
  }

  ghost predicate HasSlack(edges: seq<Edge>, dist: Matrix, next: Matrix, j: nat, xs: seq<nat>) {
    exists t :: 0 <= t < |xs| - 1 && SlackAt(edges, dist, next, xs[t], j)
  }

  /** The walk p along xs is at most as heavy as the drop of the entries from its start to
      its end, and lighter if there is slack on the way. */
  ghost predicate Follows(V: nat, edges: seq<Edge>, dist: Matrix, next: Matrix, j: nat, xs: seq<nat>, p: seq<Edge>)
    requires Square(V, dist) && Chain(V, next, j, xs)
  {
    var a, b := xs[0], xs[|xs| - 1];
    && IsWalk(edges, p, a, b) && Vertices(p, a) == xs
    && Weight(p) + dist[b][j] <= dist[a][j]
    && (HasSlack(edges, dist, next, j, xs) ==> Weight(p) + dist[b][j] < dist[a][j])
  }

  lemma {:induction false} ChainIsWalk(V: nat, edges: seq<Edge>, dist: Matrix, next: Matrix, j: nat, xs: seq<nat>)
      returns (p: seq<Edge>)
    requires StepsOk(V, edges, dist, next) && Chain(V, next, j, xs)
    ensures Follows(V, edges, dist, next, j, xs, p)
    decreases |xs|
  {
    var m := |xs| - 1;
    if m == 0 {
      p := [];
    } else {
      hide Follows, HasSlack;
      var p' := ChainIsWalk(V, edges, dist, next, j, xs[..m]);
      assert next[xs[m - 1]][j] == xs[m];
      var e := BestStep(V, edges, dist, next, xs[m - 1], j);
      p := p' + [e];
      FollowFurther(V, edges, dist, next, j, xs, p', e);
    }
  }

  lemma BestStep(V: nat, edges: seq<Edge>, dist: Matrix, next: Matrix, x: nat, j: nat) returns (e: Edge)
    requires StepsOk(V, edges, dist, next) && x < V && j < V && next[x][j] != -1
    ensures e in edges && StepsBy(dist, next, e, x, j)
    ensures SlackAt(edges, dist, next, x, j) ==> Slack(edges, dist, next, e, x, j)
  {
    if SlackAt(edges, dist, next, x, j) {
      e :| Slack(edges, dist, next, e, x, j);
    } else {
      e :| e in edges && StepsBy(dist, next, e, x, j);
    }
  }

  lemma FollowFurther(V: nat, edges: seq<Edge>, dist: Matrix, next: Matrix, j: nat, xs: seq<nat>, p: seq<Edge>, e: Edge)
    requires Square(V, dist) && Chain(V, next, j, xs) && |xs| > 1
    requires Chain(V, next, j, xs[..|xs| - 1]) && Follows(V, edges, dist, next, j, xs[..|xs| - 1], p)
    requires e in edges && StepsBy(dist, next, e, xs[|xs| - 2], j)
    requires SlackAt(edges, dist, next, xs[|xs| - 2], j) ==> Slack(edges, dist, next, e, xs[|xs| - 2], j)
    ensures Follows(V, edges, dist, next, j, xs, p + [e])
  {
    var m := |xs| - 1;
    assert (p + [e])[..|p|] == p;
    assert next[xs[m - 1]][j] == xs[m];
    assert xs == xs[..m] + [xs[m]];
    if HasSlack(edges, dist, next, j, xs) {
      var t :| 0 <= t < m && SlackAt(edges, dist, next, xs[t], j);
      if t < m - 1 {
        assert SlackAt(edges, dist, next, xs[..m][t], j);
      }
    }
  }

  /** A cycle of first steps with slack would be a negative cycle of the graph. */
  lemma NoSlackCycle(V: nat, edges: seq<Edge>, dist: Matrix, next: Matrix, j: nat, xs: seq<nat>, t: nat)
    requires StepsOk(V, edges, dist, next) && NextCycle(V, next, j, xs)
    requires t < |xs| - 1 && SlackAt(edges, dist, next, xs[t], j)
    ensures !NoNegativeCycles(edges)
  {
    var p := ChainIsWalk(V, edges, dist, next, j, xs);
  }

  lemma {:induction false} NoStartOfRun(flags: seq<bool>, s: nat)
    requires s < |flags| && !flags[s]
    requires forall t :: 0 <= t < |flags| - 1 && !flags[t] ==> !flags[t + 1]
    ensures forall t :: s <= t < |flags| ==> !flags[t]
    decreases |flags| - s
  {
    if s + 1 < |flags| {
      NoStartOfRun(flags, s + 1);
    }
  }

  lemma PhaseAcyclic(V: nat, edges: seq<Edge>, dist: Matrix, next: Matrix, dist': Matrix, next': Matrix, k: nat)
    requires Acyclic(V, next) && StepsOk(V, edges, dist, next) && StepsOk(V, edges, dist', next')
    requires Phase(V, dist, next, dist', next', k) && NoNegativeCycles(edges)
    ensures Acyclic(V, next')
  {
    forall j, xs
      ensures !NextCycle(V, next', j, xs)
    {
      if NextCycle(V, next', j, xs) {
        PhaseNoCycle(V, edges, dist, next, dist', next', k, j, xs);
      }
    }
  }

  /** A cycle after the phase was one before, for the old target or for the pivot, unless it
      mixes old and new entries, and then it has slack. */
  lemma PhaseNoCycle(V: nat, edges: seq<Edge>, dist: Matrix, next: Matrix, dist': Matrix, next': Matrix, k: nat,
          j: nat, xs: seq<nat>)
    requires Acyclic(V, next) && StepsOk(V, edges, dist, next) && StepsOk(V, edges, dist', next')
    requires Phase(V, dist, next, dist', next', k) && NextCycle(V, next', j, xs)
    ensures !NoNegativeCycles(edges)
  {
    hide Acyclic, StepsOk, SlackAt, PhaseEntry;
    var m := |xs| - 1;
    var flags := seq(|xs|, t requires 0 <= t < |xs| => Improves(dist, k, xs[t], j));
    if t :| 0 <= t < m && !flags[t] && flags[t + 1] {
      MixedStep(V, edges, dist, next, dist', next', k, j, xs[t], xs[t + 1]);
      NoSlackCycle(V, edges, dist', next', j, xs, t);
    } else if s :| 0 <= s < |flags| && !flags[s] {
      NoStartOfRun(flags, s);
      assert flags[m] == flags[0];
      NoStartOfRun(flags, 0);
      assert forall t :: 0 <= t < |xs| ==> !flags[t] && flags[t] == Improves(dist, k, xs[t], j);
      WasCycle(V, dist, next, dist', next', k, j, xs, false);
    } else {
      assert forall t :: 0 <= t < |xs| ==> flags[t] && flags[t] == Improves(dist, k, xs[t], j);
      WasCycle(V, dist, next, dist', next', k, j, xs, true);
    }
  }

  lemma WasCycle(V: nat, dist: Matrix, next: Matrix, dist': Matrix, next': Matrix, k: nat, j: nat, xs: seq<nat>,
          improved: bool)
    requires Phase(V, dist, next, dist', next', k) && NextCycle(V, next', j, xs)
    requires forall x :: x in xs ==> Improves(dist, k, x, j) == improved
    ensures !Acyclic(V, next)
  {
    forall t | 0 <= t < |xs| - 1
      ensures next[xs[t]][if improved then k else j] == xs[t + 1]
    {
      PhaseAt(V, dist, next, dist', next', k, xs[t], j);
      assert xs[t] in xs;
    }
    assert NextCycle(V, next, if improved then k else j, xs);
  }

  lemma MixedStep(V: nat, edges: seq<Edge>, dist: Matrix, next: Matrix, dist': Matrix, next': Matrix, k: nat, j: nat,
          x: nat, y: nat)
    requires StepsOk(V, edges, dist, next) && Phase(V, dist, next, dist', next', k)
    requires x < V && y < V && j < V && next'[x][j] == y && !Improves(dist, k, x, j) && Improves(dist, k, y, j)
    ensures SlackAt(edges, dist', next', x, j)
  {
    PhaseAt(V, dist, next, dist', next', k, x, j);
    PhaseAt(V, dist, next, dist', next', k, y, j);
    var e :| e in edges && StepsBy(dist, next, e, x, j);
    assert Slack(edges, dist', next', e, x, j);
  }
}
