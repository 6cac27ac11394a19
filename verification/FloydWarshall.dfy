/** Floyd-Warshall: distances and paths of all pairs that no negative cycle lies between. */
module FloydWarshall {
  import opened Counting
  import opened Edges
  import opened FloydInvariant
  import opened FloydParts
  import opened Parts
  import opened Walks
  import BellmanFord

  // ---------- The algorithm ----------

  /** The tables after the entries before (i, j) have been tried through k, in order. */
  function TriedTo(dist: Matrix, next: Matrix, k: nat, i: nat, j: nat): (r: (Matrix, Matrix))
    requires Square(|dist|, dist) && Square(|dist|, next) && k < |dist| && i <= |dist| && j <= |dist|
    requires j > 0 ==> i < |dist|
    ensures |r.0| == |dist| && Square(|dist|, r.0) && Square(|dist|, r.1)
    decreases i, j
  {
    if j > 0 then
      var (d, n) := TriedTo(dist, next, k, i, j - 1);
      (TryDist(d, k, i, j - 1), TryNext(d, n, k, i, j - 1))
    else if i > 0 then TriedTo(dist, next, k, i - 1, |dist|)
    else (dist, next)
  }

  /** The tables after the first k pivots. */
  function Phases(dist: Matrix, next: Matrix, k: nat): (r: (Matrix, Matrix))
    requires Square(|dist|, dist) && Square(|dist|, next) && k <= |dist|
    ensures |r.0| == |dist| && Square(|dist|, r.0) && Square(|dist|, r.1)
  {
    if k == 0 then (dist, next)
    else
      var (d, n) := Phases(dist, next, k - 1);
      TriedTo(d, n, k - 1, |dist|, 0)
  }

  /** The tables are what the phases make of the lightest edges: also between vertices that a
      negative cycle lies between. */
  ghost predicate Computed(V: nat, edges: seq<Edge>, dist: Matrix, next: Matrix, k: nat) {
    exists d, n :: Loaded(V, edges, d, n, |edges|) && k <= V && (dist, next) == Phases(d, n, k)
  }

  lemma ComputedNext(V: nat, edges: seq<Edge>, dist: Matrix, next: Matrix, k: nat)
    requires Computed(V, edges, dist, next, k) && Square(V, dist) && Square(V, next) && k < V
    ensures var (d, n) := TriedTo(dist, next, k, V, 0); Computed(V, edges, d, n, k + 1)
  {
    var d, n :| Loaded(V, edges, d, n, |edges|) && (dist, next) == Phases(d, n, k);
    assert Phases(d, n, k + 1) == TriedTo(dist, next, k, V, 0);
  }

  lemma TriedStart(V: nat, dist: Matrix, next: Matrix, k: nat)
    requires Square(V, dist) && Square(V, next) && k < V
    ensures TriedTo(dist, next, k, 0, 0) == (dist, next)
  {
  }

  lemma TriedRow(V: nat, dist: Matrix, next: Matrix, k: nat, i: nat)
    requires Square(V, dist) && Square(V, next) && k < V && i < V
    ensures TriedTo(dist, next, k, i + 1, 0) == TriedTo(dist, next, k, i, V)
  {
  }

  lemma TriedNext(V: nat, dist: Matrix, next: Matrix, k: nat, i: nat, j: nat)
    requires Square(V, dist) && Square(V, next) && k < V && i < V && j < V
    ensures var (d, n) := TriedTo(dist, next, k, i, j);
            TriedTo(dist, next, k, i, j + 1) == (TryDist(d, k, i, j), TryNext(d, n, k, i, j))
  {
  }

  /** What holds between two pivots. */
  ghost predicate Ready(V: nat, edges: seq<Edge>, dist: Matrix, next: Matrix, k: nat) {
    && Sound(V, edges, dist, next, k) && Covers(V, edges, dist, k)
    && (NoNegativeCycles(edges) ==> StepsOk(V, edges, dist, next) && Acyclic(V, next))
  }

  lemma PhaseReady(V: nat, edges: seq<Edge>, dist: Matrix, next: Matrix, dist': Matrix, next': Matrix, k: nat)
    requires InRange(V, edges) && PathSumsBelowInf(edges) && Ready(V, edges, dist, next, k) && k < V
    requires Sound(V, edges, dist', next', k + 1) && Covers(V, edges, dist', k + 1)
    requires dist[k][k] >= 0 ==> Phase(V, dist, next, dist', next', k)
    ensures Ready(V, edges, dist', next', k + 1)
  {
    if NoNegativeCycles(edges) {
      DiagonalEntry(V, edges, dist, next, k, k);
      PhaseSteps(V, edges, dist, next, dist', next', k);
      PhaseAcyclic(V, edges, dist, next, dist', next', k);
    }
  }

  lemma DiagonalEntry(V: nat, edges: seq<Edge>, dist: Matrix, next: Matrix, k: nat, i: nat)
    requires Sound(V, edges, dist, next, k) && NoNegativeCycles(edges) && i < V
    ensures dist[i][i] >= 0
  {
    assert Entry(edges, i, i, dist[i][i], next[i][i], k);
    if dist[i][i] < INF {
      var p := EntryIsWalk(edges, i, i, dist[i][i], next[i][i], k);
    }
  }

  /** The same for the part of the graph between any two vertices with no negative cycle
      between them. */
  ghost predicate PartReady(V: nat, edges: seq<Edge>, dist: Matrix, next: Matrix, k: nat, u: nat, v: nat) {
    && Square(V, dist) && Square(V, next)
    && (Clean(edges, u, v) ==>
          Ready(V, Part(edges, u, v), PartDist(edges, u, v, dist), PartNext(edges, u, v, next), k))
  }

  ghost predicate AllReady(V: nat, edges: seq<Edge>, dist: Matrix, next: Matrix, k: nat) {
    && Ready(V, edges, dist, next, k)
    && forall u, v :: 0 <= u < V && 0 <= v < V ==> PartReady(V, edges, dist, next, k, u, v)
  }

  /** Distances are exact for all pairs that no negative cycle lies between. */
  ghost predicate CleanExact(V: nat, edges: seq<Edge>, dist: Matrix) {
    && Square(V, dist)
    && forall u, v :: 0 <= u < V && 0 <= v < V && Clean(edges, u, v) ==> BellmanFord.ExactAt(edges, u, v, dist[u][v])
  }

  method FloydWarshall(V: nat, edges: seq<Edge>) returns (dist: Matrix, next: Matrix)
    requires InRange(V, edges) && PathSumsBelowInf(edges)
    ensures Square(V, dist) && Square(V, next)
    ensures NegativeDiagonal(dist) <==> !NoNegativeCycles(edges)
    ensures CleanExact(V, edges, dist) && AllReady(V, edges, dist, next, V) && Computed(V, edges, dist, next, V)
    ensures NoNegativeCycles(edges) ==> AllExact(V, edges, dist)
  {
    hide AllReady, Ready, Sound, Covers, CoversTo, PhaseTo, StepsOk, Acyclic, AllExact, NegativeDiagonal,
      NoNegativeCycles, PathSumsBelowInf, CleanExact, Computed, TriedTo;
    dist, next := LoadEdges(V, edges);
    for k := 0 to V
      invariant Square(V, dist) && Square(V, next) && AllReady(V, edges, dist, next, k)
      invariant Computed(V, edges, dist, next, k)
    {
      ComputedNext(V, edges, dist, next, k);
      dist, next := Pivot(V, edges, dist, next, k);
    }
    ReadyMeans(V, edges, dist, next, V);
    DiagonalShowsCycles(V, edges, dist, next);
    PartsAreExact(V, edges, dist, next);
    if NoNegativeCycles(edges) {
      CoveredIsExact(V, edges, dist, next);
    }
  }

  lemma ReadyMeans(V: nat, edges: seq<Edge>, dist: Matrix, next: Matrix, k: nat)
    requires AllReady(V, edges, dist, next, k)
    ensures Sound(V, edges, dist, next, k) && Covers(V, edges, dist, k) && Square(V, dist) && Square(V, next)
    ensures forall u, v :: 0 <= u < V && 0 <= v < V ==> PartReady(V, edges, dist, next, k, u, v)
  {
  }

  lemma PartsAreExact(V: nat, edges: seq<Edge>, dist: Matrix, next: Matrix)
    requires InRange(V, edges) && PathSumsBelowInf(edges) && AllReady(V, edges, dist, next, V)
    ensures CleanExact(V, edges, dist)
  {
    hide AllReady, Ready, Clean, BellmanFord.ExactAt, PathSumsBelowInf, Sound, Covers, PartReady;
    ReadyMeans(V, edges, dist, next, V);
    forall u, v | 0 <= u < V && 0 <= v < V && Clean(edges, u, v)
      ensures BellmanFord.ExactAt(edges, u, v, dist[u][v])
    {
      PairIsExact(V, edges, dist, next, u, v);
    }
  }

  lemma PairIsExact(V: nat, edges: seq<Edge>, dist: Matrix, next: Matrix, u: nat, v: nat)
    requires InRange(V, edges) && PathSumsBelowInf(edges) && Sound(V, edges, dist, next, V) && u < V && v < V
    requires PartReady(V, edges, dist, next, V, u, v) && Clean(edges, u, v)
    ensures BellmanFord.ExactAt(edges, u, v, dist[u][v])
  {
    hide Clean, PathSumsBelowInf, NoNegativeCycles, Reaches, Sound, Covers, StepsOk, Acyclic;
    var d := dist[u][v];
    if Reaches(edges, u, v) {
      var part, pd, pn := Part(edges, u, v), PartDist(edges, u, v, dist), PartNext(edges, u, v, next);
      PartFacts(V, edges, u, v);
      PartIsClean(edges, u, v);
      CoveredIsExact(V, part, pd, pn);
      assert BellmanFord.ExactAt(part, u, v, pd[u][v]);
      Itself(edges, u);
      Itself(edges, v);
      assert pd[u][v] == d;
      ExactInPart(edges, u, v, d);
    } else {
      AtMostInf(V, edges, dist, next, V, u, v);
      if d < INF {
        FiniteReaches(V, edges, dist, next, V, u, v);
      }
    }
  }

  /** What holds while pivot k is being tried, with the entries before (i, j) done. */
  ghost predicate InPhase(V: nat, edges: seq<Edge>, dist0: Matrix, next0: Matrix, dist: Matrix, next: Matrix, k: nat,
          i: nat, j: nat)
  {
    && Square(V, dist0) && k < V
    && Sound(V, edges, dist, next, k + 1) && CoversTo(V, edges, dist, k, i, j)
    && (dist0[k][k] >= 0 ==> PhaseTo(V, dist0, next0, dist, next, k, i, j))
  }

  lemma BeginPhase(V: nat, edges: seq<Edge>, dist: Matrix, next: Matrix, k: nat)
    requires Ready(V, edges, dist, next, k) && k < V
    ensures InPhase(V, edges, dist, next, dist, next, k, 0, 0)
  {
    SoundGrows(V, edges, dist, next, k);
    CoverBegins(V, edges, dist, k);
    PhaseBegins(V, dist, next, k);
  }

  lemma TryKeeps(V: nat, edges: seq<Edge>, dist0: Matrix, next0: Matrix, dist: Matrix, next: Matrix, k: nat, i: nat,
          j: nat)
    requires InPhase(V, edges, dist0, next0, dist, next, k, i, j) && PathSumsBelowInf(edges) && i < V && j < V
    requires Square(V, dist) && Square(V, next)
    ensures InPhase(V, edges, dist0, next0, TryDist(dist, k, i, j), TryNext(dist, next, k, i, j), k, i, j + 1)
  {
    hide Sound, CoversTo, PhaseTo, PathSumsBelowInf;
    TrySound(V, edges, dist, next, k, i, j);
    CoverStep(V, edges, dist, k, i, j);
    if dist0[k][k] >= 0 {
      PhaseStep(V, dist0, next0, dist, next, k, i, j);
    }
  }

  lemma RowKeeps(V: nat, edges: seq<Edge>, dist0: Matrix, next0: Matrix, dist: Matrix, next: Matrix, k: nat, i: nat)
    requires InPhase(V, edges, dist0, next0, dist, next, k, i, V)
    ensures InPhase(V, edges, dist0, next0, dist, next, k, i + 1, 0)
  {
    hide Sound, CoversTo, PhaseTo;
    CoverRow(V, edges, dist, k, i);
    if dist0[k][k] >= 0 {
      PhaseRow(V, dist0, next0, dist, next, k, i);
    }
  }

  lemma EndPhase(V: nat, edges: seq<Edge>, dist0: Matrix, next0: Matrix, dist: Matrix, next: Matrix, k: nat)
    requires InRange(V, edges) && PathSumsBelowInf(edges) && Ready(V, edges, dist0, next0, k)
    requires InPhase(V, edges, dist0, next0, dist, next, k, V, 0)
    ensures Ready(V, edges, dist, next, k + 1)
  {
    hide Sound, CoversTo, PhaseTo, Covers, StepsOk, Acyclic;
    CoverEnds(V, edges, dist, k);
    PhaseReady(V, edges, dist0, next0, dist, next, k);
  }

  ghost predicate PartInPhase(V: nat, edges: seq<Edge>, dist0: Matrix, next0: Matrix, dist: Matrix, next: Matrix,
          k: nat, i: nat, j: nat, u: nat, v: nat)
  {
    && Square(V, dist0) && Square(V, next0) && Square(V, dist) && Square(V, next)
    && (Clean(edges, u, v) ==>
          InPhase(V, Part(edges, u, v), PartDist(edges, u, v, dist0), PartNext(edges, u, v, next0),
                  PartDist(edges, u, v, dist), PartNext(edges, u, v, next), k, i, j))
  }

  ghost predicate AllInPhase(V: nat, edges: seq<Edge>, dist0: Matrix, next0: Matrix, dist: Matrix, next: Matrix,
          k: nat, i: nat, j: nat)
  {
    && InPhase(V, edges, dist0, next0, dist, next, k, i, j)
    && forall u, v :: 0 <= u < V && 0 <= v < V ==> PartInPhase(V, edges, dist0, next0, dist, next, k, i, j, u, v)
  }

  lemma AllBegin(V: nat, edges: seq<Edge>, dist: Matrix, next: Matrix, k: nat)
    requires AllReady(V, edges, dist, next, k) && k < V
    ensures AllInPhase(V, edges, dist, next, dist, next, k, 0, 0)
  {
    hide Ready, InPhase, Clean;
    BeginPhase(V, edges, dist, next, k);
    forall u, v | 0 <= u < V && 0 <= v < V
      ensures PartInPhase(V, edges, dist, next, dist, next, k, 0, 0, u, v)
    {
      assert PartReady(V, edges, dist, next, k, u, v);
      if Clean(edges, u, v) {
        BeginPhase(V, Part(edges, u, v), PartDist(edges, u, v, dist), PartNext(edges, u, v, next), k);
      }
    }
  }

  lemma PartTry(V: nat, edges: seq<Edge>, dist0: Matrix, next0: Matrix, dist: Matrix, next: Matrix, k: nat, i: nat,
          j: nat, u: nat, v: nat)
    requires PartInPhase(V, edges, dist0, next0, dist, next, k, i, j, u, v) && i < V && j < V && k < V
    requires InRange(V, edges) && PathSumsBelowInf(edges) && Sound(V, edges, dist, next, k + 1)
    ensures PartInPhase(V, edges, dist0, next0, TryDist(dist, k, i, j), TryNext(dist, next, k, i, j), k, i, j + 1, u, v)
  {
    hide InPhase, Clean, PathSumsBelowInf, Sound, TryDist, TryNext, InRange;
    TryInPart(V, edges, dist, next, k + 1, u, v, k, i, j);
    if Clean(edges, u, v) {
      PartFacts(V, edges, u, v);
      TryKeeps(V, Part(edges, u, v), PartDist(edges, u, v, dist0), PartNext(edges, u, v, next0),
               PartDist(edges, u, v, dist), PartNext(edges, u, v, next), k, i, j);
    }
  }

  lemma AllTry(V: nat, edges: seq<Edge>, dist0: Matrix, next0: Matrix, dist: Matrix, next: Matrix, k: nat, i: nat,
          j: nat)
    requires AllInPhase(V, edges, dist0, next0, dist, next, k, i, j) && i < V && j < V
    requires InRange(V, edges) && PathSumsBelowInf(edges) && Square(V, dist) && Square(V, next) && k < V
    ensures AllInPhase(V, edges, dist0, next0, TryDist(dist, k, i, j), TryNext(dist, next, k, i, j), k, i, j + 1)
  {
    hide PartInPhase, PathSumsBelowInf, Sound, CoversTo, PhaseTo, TryDist, TryNext;
    TryKeeps(V, edges, dist0, next0, dist, next, k, i, j);
    assert Sound(V, edges, dist, next, k + 1);
    hide InPhase;
    var after := j + 1;
    forall u, v | 0 <= u < V && 0 <= v < V
      ensures PartInPhase(V, edges, dist0, next0, TryDist(dist, k, i, j), TryNext(dist, next, k, i, j), k, i, after,
                          u, v)
    {
      PartTry(V, edges, dist0, next0, dist, next, k, i, j, u, v);
    }
  }

  lemma AllRow(V: nat, edges: seq<Edge>, dist0: Matrix, next0: Matrix, dist: Matrix, next: Matrix, k: nat, i: nat)
    requires AllInPhase(V, edges, dist0, next0, dist, next, k, i, V)
    ensures AllInPhase(V, edges, dist0, next0, dist, next, k, i + 1, 0)
  {
    hide InPhase, Clean;
    RowKeeps(V, edges, dist0, next0, dist, next, k, i);
    var after := i + 1;
    forall u, v | 0 <= u < V && 0 <= v < V
      ensures PartInPhase(V, edges, dist0, next0, dist, next, k, after, 0, u, v)
    {
      assert PartInPhase(V, edges, dist0, next0, dist, next, k, i, V, u, v);
      if Clean(edges, u, v) {
        RowKeeps(V, Part(edges, u, v), PartDist(edges, u, v, dist0), PartNext(edges, u, v, next0),
                 PartDist(edges, u, v, dist), PartNext(edges, u, v, next), k, i);
      }
    }
  }

  lemma AllEnd(V: nat, edges: seq<Edge>, dist0: Matrix, next0: Matrix, dist: Matrix, next: Matrix, k: nat)
    requires InRange(V, edges) && PathSumsBelowInf(edges) && AllReady(V, edges, dist0, next0, k)
    requires AllInPhase(V, edges, dist0, next0, dist, next, k, V, 0)
    ensures AllReady(V, edges, dist, next, k + 1)
  {
    hide InPhase, Ready, Clean, PathSumsBelowInf, InRange;
    EndPhase(V, edges, dist0, next0, dist, next, k);
    var after := k + 1;
    forall u, v | 0 <= u < V && 0 <= v < V
      ensures PartReady(V, edges, dist, next, after, u, v)
    {
      assert PartReady(V, edges, dist0, next0, k, u, v);
      assert PartInPhase(V, edges, dist0, next0, dist, next, k, V, 0, u, v);
      if Clean(edges, u, v) {
        PartFacts(V, edges, u, v);
        EndPhase(V, Part(edges, u, v), PartDist(edges, u, v, dist0), PartNext(edges, u, v, next0),
                 PartDist(edges, u, v, dist), PartNext(edges, u, v, next), k);
      }
    }
  }

  /** The two inner loops for pivot k. */
  method Pivot(V: nat, edges: seq<Edge>, dist0: Matrix, next0: Matrix, k: nat) returns (dist: Matrix, next: Matrix)
    requires InRange(V, edges) && PathSumsBelowInf(edges) && Square(V, dist0) && Square(V, next0)
    requires AllReady(V, edges, dist0, next0, k) && k < V
    ensures Square(V, dist) && Square(V, next) && AllReady(V, edges, dist, next, k + 1)
    ensures (dist, next) == TriedTo(dist0, next0, k, V, 0)
  {
    hide AllReady, AllInPhase, PathSumsBelowInf, TriedTo;
    dist, next := dist0, next0;
    TriedStart(V, dist, next, k);
    AllBegin(V, edges, dist, next, k);
    for i := 0 to V
      invariant Square(V, dist) && Square(V, next) && AllInPhase(V, edges, dist0, next0, dist, next, k, i, 0)
      invariant (dist, next) == TriedTo(dist0, next0, k, i, 0)
    {
      for j := 0 to V
        invariant Square(V, dist) && Square(V, next) && AllInPhase(V, edges, dist0, next0, dist, next, k, i, j)
        invariant (dist, next) == TriedTo(dist0, next0, k, i, j)
      {
        TriedNext(V, dist0, next0, k, i, j);
        AllTry(V, edges, dist0, next0, dist, next, k, i, j);
        ghost var d, n := TryDist(dist, k, i, j), TryNext(dist, next, k, i, j);
        if dist[i][k] != INF && dist[k][j] != INF && dist[i][k] + dist[k][j] < dist[i][j] {
          next := Set(next, i, j, next[i][k]);
          dist := Set(dist, i, j, dist[i][k] + dist[k][j]);
        }
        assert dist == d && next == n;
      }
      AllRow(V, edges, dist0, next0, dist, next, k, i);
      TriedRow(V, dist0, next0, k, i);
    }
    AllEnd(V, edges, dist0, next0, dist, next, k);
  }

  /** Zeros on the diagonal, then the lightest edge between each two vertices. */
  method LoadEdges(V: nat, edges: seq<Edge>) returns (dist: Matrix, next: Matrix)
    requires InRange(V, edges) && PathSumsBelowInf(edges)
    ensures Square(V, dist) && Square(V, next) && AllReady(V, edges, dist, next, 0)
    ensures Computed(V, edges, dist, next, 0)
  {
    hide PathSumsBelowInf, AllReady, TriedTo;
    dist := seq(V, i requires 0 <= i < V => seq(V, j => INF));
    next := seq(V, i requires 0 <= i < V => seq(V, j => -1));
    for i := 0 to V
      invariant Square(V, dist)
      invariant forall a, b :: 0 <= a < V && 0 <= b < V ==> dist[a][b] == if a == b && a < i then 0 else INF
    {
      dist := Set(dist, i, i, 0);
    }
    for k := 0 to |edges|
      invariant Loaded(V, edges, dist, next, k)
    {
      var e := edges[k];
      ghost var d, n := dist, next;
      if e.w < dist[e.u][e.v] {
        dist := Set(dist, e.u, e.v, e.w);
        next := Set(next, e.u, e.v, e.v);
      }
      LoadStep(V, edges, d, n, k);
    }
    AllLoaded(V, edges, dist, next);
    assert (dist, next) == Phases(dist, next, 0);
  }

  /** The tables after the first k edges: the lightest of them, or nothing yet. */
  ghost predicate Loaded(V: nat, edges: seq<Edge>, dist: Matrix, next: Matrix, k: nat) {
    && Square(V, dist) && Square(V, next) && k <= |edges|
    && (forall a, b :: 0 <= a < V && 0 <= b < V ==> LoadedEntry(edges, a, b, dist[a][b], next[a][b]))
    && (forall e :: e in edges[..k] ==> e.u < V && e.v < V && dist[e.u][e.v] <= e.w)
  }

  ghost predicate LoadedEntry(edges: seq<Edge>, a: nat, b: nat, d: int, n: int) {
    || (d == INF && n == -1 && a != b)
    || (d == 0 && n == -1 && a == b)
    || (d < INF && n == b && (a == b ==> d < 0) && Edge(a, b, d) in edges)
  }

  lemma LoadStep(V: nat, edges: seq<Edge>, dist: Matrix, next: Matrix, k: nat)
    requires InRange(V, edges) && Loaded(V, edges, dist, next, k) && k < |edges|
    ensures var e := edges[k];
            e.u < V && e.v < V &&
            if e.w < dist[e.u][e.v] then Loaded(V, edges, Set(dist, e.u, e.v, e.w), Set(next, e.u, e.v, e.v), k + 1)
            else Loaded(V, edges, dist, next, k + 1)
  {
    var e := edges[k];
    assert edges[..k + 1] == edges[..k] + [e];
    assert LoadedEntry(edges, e.u, e.v, dist[e.u][e.v], next[e.u][e.v]);
    assert e == Edge(e.u, e.v, e.w);
  }

  lemma LoadedReady(V: nat, edges: seq<Edge>, dist: Matrix, next: Matrix)
    requires InRange(V, edges) && Loaded(V, edges, dist, next, |edges|)
    ensures Ready(V, edges, dist, next, 0)
  {
    LoadedSound(V, edges, dist, next);
    LoadedCovers(V, edges, dist, next);
    if NoNegativeCycles(edges) {
      LoadedSteps(V, edges, dist, next);
    }
  }

  /** What has been loaded is, between two vertices, what loading that part would give. */
  lemma LoadedPart(V: nat, edges: seq<Edge>, dist: Matrix, next: Matrix, u: nat, v: nat)
    requires InRange(V, edges) && Loaded(V, edges, dist, next, |edges|)
    ensures Square(V, dist) && Square(V, next)
    ensures var part := Part(edges, u, v);
            Loaded(V, part, PartDist(edges, u, v, dist), PartNext(edges, u, v, next), |part|)
  {
    hide Between, OnTheWay;
    var part, pd, pn := Part(edges, u, v), PartDist(edges, u, v, dist), PartNext(edges, u, v, next);
    assert part[..|part|] == part && edges[..|edges|] == edges;
    forall a: nat, b: nat | a < V && b < V
      ensures LoadedEntry(part, a, b, pd[a][b], pn[a][b])
    {
      assert LoadedEntry(edges, a, b, dist[a][b], next[a][b]);
      if Both(edges, u, v, a, b) && Edge(a, b, dist[a][b]) in edges {
        EdgeOfPart(edges, u, v, Edge(a, b, dist[a][b]));
      }
    }
    forall e | e in part[..|part|]
      ensures e.u < V && e.v < V && pd[e.u][e.v] <= e.w
    {
      EndsBetween(edges, u, v, e);
      assert e in edges[..|edges|];
    }
  }

  lemma AllLoaded(V: nat, edges: seq<Edge>, dist: Matrix, next: Matrix)
    requires InRange(V, edges) && PathSumsBelowInf(edges) && Loaded(V, edges, dist, next, |edges|)
    ensures AllReady(V, edges, dist, next, 0)
  {
    hide Ready, Clean, PathSumsBelowInf, InRange, Loaded;
    LoadedReady(V, edges, dist, next);
    forall u, v | 0 <= u < V && 0 <= v < V
      ensures PartReady(V, edges, dist, next, 0, u, v)
    {
      LoadedPart(V, edges, dist, next, u, v);
      PartFacts(V, edges, u, v);
      LoadedReady(V, Part(edges, u, v), PartDist(edges, u, v, dist), PartNext(edges, u, v, next));
    }
  }

  lemma LoadedSound(V: nat, edges: seq<Edge>, dist: Matrix, next: Matrix)
    requires Loaded(V, edges, dist, next, |edges|)
    ensures Sound(V, edges, dist, next, 0)
  {
    forall a, b | 0 <= a < V && 0 <= b < V
      ensures Entry(edges, a, b, dist[a][b], next[a][b], 0)
    {
      assert LoadedEntry(edges, a, b, dist[a][b], next[a][b]);
      var e := Edge(a, b, dist[a][b]);
      if e in edges {
        OneEdgeWalk(edges, e);
        assert next[a][b] == b ==> StartsWith(edges, [e], a, b, next[a][b]) && Inner([e], a, 0);
      }
    }
  }

  lemma InnerIsPositive(p: seq<Edge>, a: nat, k: nat)
    requires Inner(p, a, k) && |p| > 1
    ensures k > 0
  {
    assert Vertices(p, a)[1] < k;
  }

  lemma LoadedCovers(V: nat, edges: seq<Edge>, dist: Matrix, next: Matrix)
    requires InRange(V, edges) && Loaded(V, edges, dist, next, |edges|)
    ensures Covers(V, edges, dist, 0)
  {
    assert edges[..|edges|] == edges;
    forall a, b | 0 <= a < V && 0 <= b < V
      ensures CoversEntry(edges, a, b, dist[a][b], 0)
    {
      assert LoadedEntry(edges, a, b, dist[a][b], next[a][b]);
      forall p: seq<Edge> | IsWalk(edges, p, a, b) && Simple(p, a) && Inner(p, a, 0)
        ensures dist[a][b] <= Weight(p)
      {
        if |p| > 1 {
          InnerIsPositive(p, a, 0);
        }
        if |p| == 1 {
          OneEdgeWalk(edges, p[0]);
          assert p == [p[0]] && p[..0] == [];
          var e := p[0];
          assert IsWalk(edges, p[..|p| - 1], a, e.u);
          assert p[0] in edges[..|edges|];
        }
      }
    }
  }

  lemma FirstTwoSteps(V: nat, next: Matrix, j: nat, xs: seq<nat>)
    requires NextCycle(V, next, j, xs)
    ensures next[xs[0]][j] == xs[1] && (|xs| > 2 ==> next[xs[1]][j] == xs[2])
  {
  }

  lemma LoadedSteps(V: nat, edges: seq<Edge>, dist: Matrix, next: Matrix)
    requires InRange(V, edges) && Loaded(V, edges, dist, next, |edges|) && NoNegativeCycles(edges)
    requires Sound(V, edges, dist, next, 0)
    ensures StepsOk(V, edges, dist, next) && Acyclic(V, next)
  {
    forall x: nat, j: nat | x < V && j < V && next[x][j] != -1
      ensures x != j && next[x][j] == j && exists e :: e in edges && StepsBy(dist, next, e, x, j)
    {
      assert LoadedEntry(edges, x, j, dist[x][j], next[x][j]) && LoadedEntry(edges, j, j, dist[j][j], next[j][j]);
      DiagonalEntry(V, edges, dist, next, 0, x);
      assert StepsBy(dist, next, Edge(x, j, dist[x][j]), x, j);
    }
    forall j: nat, xs
      ensures !NextCycle(V, next, j, xs)
    {
      if NextCycle(V, next, j, xs) {
        FirstTwoSteps(V, next, j, xs);
      }
    }
  }

  // ---------- Path reconstruction ----------

  /** The vertices of a lightest walk from u to v, or nothing. */
  ghost predicate IsLightest(edges: seq<Edge>, u: nat, v: nat, d: int, path: seq<nat>) {
    exists p :: IsWalk(edges, p, u, v) && Vertices(p, u) == path && Weight(p) == d
  }

  /** The path leads from start to v along the table. */
  ghost predicate AlongNext(V: nat, next: Matrix, start: nat, v: nat, path: seq<nat>) {
    Chain(V, next, v, path) && path[0] == start && path[|path| - 1] == v
  }

  /** When no negative cycle lies between the two vertices, even if there are cycles of weight
      zero and negative ones elsewhere, following the table ends and yields a lightest path. */
  method FwPath(V: nat, ghost edges: seq<Edge>, ghost dist: Matrix, next: Matrix, start: nat,
          v: nat) returns (path: seq<nat>)
    requires InRange(V, edges) && PathSumsBelowInf(edges) && Square(V, dist) && Square(V, next)
    requires AllReady(V, edges, dist, next, V) && start < V && v < V && Clean(edges, start, v)
    ensures path == [] <==> start == v || !Reaches(edges, start, v)
    ensures path != [] ==> Distinct(path) && IsLightest(edges, start, v, dist[start][v], path)
    ensures path != [] ==> AlongNext(V, next, start, v, path)
  {
    hide AllReady, Clean, PathSumsBelowInf, InRange, Between, IsLightest, Reaches;
    FirstIsDefined(V, edges, dist, next, start, v);
    if next[start][v] == -1 {
      return [];
    }
    path := [start];
    var u := start;
    while u != v
      invariant u < V && path != [] && path[0] == start && path[|path| - 1] == u && Distinct(path)
      invariant Chain(V, PartNext(edges, start, v, next), v, path) && Chain(V, next, v, path)
      invariant Between(edges, start, v, u) && Between(edges, start, v, v)
      decreases V - |path|
    {
      StepInPart(V, edges, dist, next, start, v, u, path);
      u := next[u][v];
      path := path + [u];
      ChainIsShort(V, next, v, path);
    }
    PathInPart(V, edges, dist, next, start, v, path);
  }

  lemma FirstIsDefined(V: nat, edges: seq<Edge>, dist: Matrix, next: Matrix, start: nat, v: nat)
    requires InRange(V, edges) && PathSumsBelowInf(edges) && Square(V, dist) && Square(V, next)
    requires AllReady(V, edges, dist, next, V) && start < V && v < V && Clean(edges, start, v)
    ensures next[start][v] == -1 <==> start == v || !Reaches(edges, start, v)
    ensures next[start][v] != -1 ==> Between(edges, start, v, start) && Between(edges, start, v, v)
  {
    hide Reaches, NoNegativeCycles, PathSumsBelowInf, Clean, Ready, Sound;
    ReadyMeans(V, edges, dist, next, V);
    Itself(edges, start);
    Itself(edges, v);
    if Reaches(edges, start, v) {
      var part, pd, pn := Part(edges, start, v), PartDist(edges, start, v, dist), PartNext(edges, start, v, next);
      assert PartReady(V, edges, dist, next, V, start, v);
      PartFacts(V, edges, start, v);
      PartIsClean(edges, start, v);
      ReachesInPart(edges, start, v, start);
      NextDefined(V, part, pd, pn, start, v);
    } else if next[start][v] != -1 {
      FiniteReaches(V, edges, dist, next, V, start, v);
    }
  }

  lemma ReachesInPart(edges: seq<Edge>, start: nat, v: nat, x: nat)
    requires Between(edges, start, v, x)
    ensures Reaches(Part(edges, start, v), x, v)
  {
    hide IsWalk;
    var p :| IsWalk(edges, p, x, v);
    Itself(edges, v);
    WalkStays(edges, start, v, p, x, v);
  }

  /** The next step stays in the part and reaches a new vertex. */
  lemma StepInPart(V: nat, edges: seq<Edge>, dist: Matrix, next: Matrix, start: nat, v: nat, u: nat, path: seq<nat>)
    requires InRange(V, edges) && PathSumsBelowInf(edges) && Square(V, dist) && Square(V, next)
    requires AllReady(V, edges, dist, next, V) && start < V && v < V && Clean(edges, start, v) && u < V && u != v
    requires Between(edges, start, v, u) && Between(edges, start, v, v)
    requires path != [] && path[|path| - 1] == u && Distinct(path)
    requires Chain(V, PartNext(edges, start, v, next), v, path) && Chain(V, next, v, path)
    ensures 0 <= next[u][v] < V && Between(edges, start, v, next[u][v])
    ensures var path' := path + [next[u][v]];
            Distinct(path') && Chain(V, PartNext(edges, start, v, next), v, path') && Chain(V, next, v, path')
  {
    hide Reaches, NoNegativeCycles, PathSumsBelowInf, Clean, Sound, Covers, Acyclic, StepsOk, OnTheWay;
    var part, pd, pn := Part(edges, start, v), PartDist(edges, start, v, dist), PartNext(edges, start, v, next);
    assert PartReady(V, edges, dist, next, V, start, v) by { ReadyMeans(V, edges, dist, next, V); }
    hide AllReady;
    PartFacts(V, edges, start, v);
    PartIsClean(edges, start, v);
    ReachesInPart(edges, start, v, u);
    NextDefined(V, part, pd, pn, u, v);
    assert pn[u][v] == next[u][v];
    var e := StepEdge(V, part, pd, pn, u, v);
    EndsBetween(edges, start, v, e);
    NewVertex(V, pn, v, path);
    ChainOn(V, next, v, path);
  }

  lemma ChainOn(V: nat, next: Matrix, j: nat, path: seq<nat>)
    requires Chain(V, next, j, path) && 0 <= next[path[|path| - 1]][j] < V
    ensures Chain(V, next, j, path + [next[path[|path| - 1]][j]])
  {
  }

  lemma StepEdge(V: nat, edges: seq<Edge>, dist: Matrix, next: Matrix, u: nat, v: nat) returns (e: Edge)
    requires StepsOk(V, edges, dist, next) && u < V && v < V && next[u][v] != -1
    ensures e in edges && e.u == u && e.v == next[u][v]
  {
    e :| e in edges && StepsBy(dist, next, e, u, v);
  }

  lemma PathInPart(V: nat, edges: seq<Edge>, dist: Matrix, next: Matrix, start: nat, v: nat, path: seq<nat>)
    requires InRange(V, edges) && PathSumsBelowInf(edges) && Square(V, dist) && Square(V, next)
    requires AllReady(V, edges, dist, next, V) && start < V && v < V && Clean(edges, start, v)
    requires AlongNext(V, PartNext(edges, start, v, next), start, v, path) && Between(edges, start, v, v)
    ensures IsLightest(edges, start, v, dist[start][v], path)
  {
    hide Reaches, NoNegativeCycles, PathSumsBelowInf, Clean, Sound, Covers, Acyclic, StepsOk, Weight, Chain;
    var part, pd, pn := Part(edges, start, v), PartDist(edges, start, v, dist), PartNext(edges, start, v, next);
    assert PartReady(V, edges, dist, next, V, start, v) by { ReadyMeans(V, edges, dist, next, V); }
    hide AllReady;
    PartFacts(V, edges, start, v);
    PartIsClean(edges, start, v);
    CoveredIsExact(V, part, pd, pn);
    ChainIsLightest(V, part, pd, pn, start, v, path);
    Itself(edges, start);
    assert pd[start][v] == dist[start][v];
    var p :| IsWalk(part, p, start, v) && Vertices(p, start) == path && Weight(p) == dist[start][v];
    WalkOfPart(edges, start, v, p, start, v);
  }

  lemma NextDefined(V: nat, edges: seq<Edge>, dist: Matrix, next: Matrix, u: nat, v: nat)
    requires InRange(V, edges) && PathSumsBelowInf(edges) && NoNegativeCycles(edges)
    requires Ready(V, edges, dist, next, V) && u < V && v < V
    ensures next[u][v] == -1 <==> u == v || !Reaches(edges, u, v)
    ensures next[u][v] != -1 ==> 0 <= next[u][v] < V && Reaches(edges, next[u][v], v)
  {
    CoveredIsExact(V, edges, dist, next);
    assert BellmanFord.ExactAt(edges, u, v, dist[u][v]);
    assert Entry(edges, u, v, dist[u][v], next[u][v], V);
    DiagonalEntry(V, edges, dist, next, V, u);
    if u == v {
      assert IsWalk(edges, [], u, u) && Weight([]) == 0;
      BellmanFord.EmptyWalk(edges, u);
      assert dist[u][u] <= 0;
    }
    if next[u][v] != -1 {
      FirstStepReaches(V, edges, dist, next, V, u, v);
      assert BellmanFord.ExactAt(edges, next[u][v], v, dist[next[u][v]][v]);
    }
  }

  lemma ChainIsShort(V: nat, next: Matrix, j: nat, path: seq<nat>)
    requires Chain(V, next, j, path) && Distinct(path)
    ensures |path| <= V
  {
    DistinctBelow(path, V);
  }

  /** The next vertex is new, or the chain would close a cycle. */
  lemma NewVertex(V: nat, next: Matrix, j: nat, path: seq<nat>)
    requires Chain(V, next, j, path) && Distinct(path) && Acyclic(V, next)
    requires 0 <= next[path[|path| - 1]][j] < V
    ensures var path' := path + [next[path[|path| - 1]][j]]; Chain(V, next, j, path') && Distinct(path')
  {
    var y := next[path[|path| - 1]][j];
    forall i | 0 <= i < |path|
      ensures path[i] != y
    {
      if path[i] == y {
        ClosesCycle(V, next, j, path, i);
      }
    }
  }

  lemma ClosesCycle(V: nat, next: Matrix, j: nat, path: seq<nat>, i: nat)
    requires Chain(V, next, j, path) && i < |path| && next[path[|path| - 1]][j] == path[i]
    ensures NextCycle(V, next, j, (path + [path[i]])[i..])
  {
  }

  lemma ChainIsLightest(V: nat, edges: seq<Edge>, dist: Matrix, next: Matrix, start: nat, v: nat, path: seq<nat>)
    requires Ready(V, edges, dist, next, V) && NoNegativeCycles(edges) && AllExact(V, edges, dist)
    requires Chain(V, next, v, path) && path[0] == start && path[|path| - 1] == v
    ensures IsLightest(edges, start, v, dist[start][v], path)
  {
    var p := ChainIsWalk(V, edges, dist, next, v, path);
    DiagonalEntry(V, edges, dist, next, V, v);
    assert BellmanFord.ExactAt(edges, start, v, dist[start][v]);
  }
}
