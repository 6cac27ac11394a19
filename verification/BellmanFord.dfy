/** Bellman-Ford: single-source distances with negative edges, and the exact detection of
    reachable negative cycles. */
module BellmanFord {
  import opened Edges
  import opened Parts
  import opened Predecessors
  import opened Walks

  /** The sums of weights along paths from `start` stay below the value that stands for
      "unreachable". */
  ghost predicate PathSumsBelowInf(edges: seq<Edge>, start: nat) {
    forall p, v: nat :: IsPath(edges, p, start, v) ==> Weight(p) < INF
  }

  function Relax(d: seq<int>, e: Edge): (d': seq<int>)
    requires e.u < |d| && e.v < |d|
    ensures |d'| == |d| && forall v :: 0 <= v < |d| ==> d'[v] <= d[v]
  {
    if Relaxes(d, e) then d[e.v := d[e.u] + e.w] else d
  }

  predicate Relaxes(d: seq<int>, e: Edge)
    requires e.u < |d| && e.v < |d|
  {
    d[e.u] != INF && d[e.u] + e.w < d[e.v]
  }

  // ---------- Rounds of relaxation ----------

  /** Distances and predecessors after relaxing the first k edges in order. */
  function RoundTo(edges: seq<Edge>, d: seq<int>, prev: seq<int>, k: nat): (r: (seq<int>, seq<int>))
    requires InRange(|d|, edges) && |prev| == |d| && k <= |edges|
    ensures |r.0| == |r.1| == |d|
  {
    if k == 0 then (d, prev)
    else
      var (d', prev') := RoundTo(edges, d, prev, k - 1);
      var e := edges[k - 1];
      (Relax(d', e), if Relaxes(d', e) then prev'[e.v := e.u] else prev')
  }

  /** ... and after n rounds over all edges. */
  function Rounds(edges: seq<Edge>, d: seq<int>, prev: seq<int>, n: nat): (r: (seq<int>, seq<int>))
    requires InRange(|d|, edges) && |prev| == |d|
    ensures |r.0| == |r.1| == |d|
  {
    if n == 0 then (d, prev)
    else
      var (d', prev') := Rounds(edges, d, prev, n - 1);
      RoundTo(edges, d', prev', |edges|)
  }

  /** After a round that changes nothing, all others change nothing. */
  lemma {:induction false} QuietForever(edges: seq<Edge>, d: seq<int>, prev: seq<int>, i: nat, n: nat)
    requires InRange(|d|, edges) && |prev| == |d| && i <= n
    requires Rounds(edges, d, prev, i + 1) == Rounds(edges, d, prev, i)
    ensures Rounds(edges, d, prev, n) == Rounds(edges, d, prev, i)
    decreases n
  {
    if i < n {
      QuietForever(edges, d, prev, i, n - 1);
    }
  }

  /** The tables at the start. */
  function Unreached(V: nat): seq<int> { seq(V, _ => INF) }

  function NoPredecessors(V: nat): seq<int> { seq(V, _ => -1) }

  // ---------- What relaxation keeps ----------

  /** Every finite entry is the weight of a walk. */
  ghost predicate Sound(edges: seq<Edge>, start: nat, d: seq<int>) {
    forall v :: 0 <= v < |d| ==> SoundAt(edges, start, v, d[v])
  }

  ghost predicate SoundAt(edges: seq<Edge>, start: nat, v: nat, x: int) {
    x <= INF && (x < INF ==> exists p :: IsWalk(edges, p, start, v) && Weight(p) == x)
  }

  lemma RelaxSound(V: nat, edges: seq<Edge>, start: nat, d: seq<int>, e: Edge)
    requires InRange(V, edges) && |d| == V && Sound(edges, start, d) && e in edges
    ensures Sound(edges, start, Relax(d, e))
  {
    if Relaxes(d, e) {
      assert SoundAt(edges, start, e.u, d[e.u]) && SoundAt(edges, start, e.v, d[e.v]);
      var p :| IsWalk(edges, p, start, e.u) && Weight(p) == d[e.u];
      var q := p + [e];
      assert q[..|q| - 1] == p;
      assert IsWalk(edges, q, start, e.v) && Weight(q) == d[e.u] + e.w;
    }
  }

  /** The entries are at most the weight of every path of at most i edges. */
  ghost predicate Covers(edges: seq<Edge>, start: nat, d: seq<int>, i: nat) {
    forall p, v: nat :: IsPath(edges, p, start, v) && |p| <= i ==> v < |d| && d[v] <= Weight(p)
  }

  /** ... and of every path of one more edge whose last edge is among `edges[..k]`. */
  ghost predicate CoversThrough(edges: seq<Edge>, start: nat, d: seq<int>, i: nat, k: nat)
    requires k <= |edges|
  {
    forall p, v: nat :: IsPath(edges, p, start, v) && 0 < |p| <= i + 1 && p[|p| - 1] in edges[..k] ==>
      v < |d| && d[v] <= Weight(p)
  }

  lemma RelaxCovers(V: nat, edges: seq<Edge>, start: nat, d: seq<int>, i: nat, k: nat)
    requires InRange(V, edges) && |d| == V && k < |edges| && PathSumsBelowInf(edges, start)
    requires Covers(edges, start, d, i) && CoversThrough(edges, start, d, i, k)
    ensures Covers(edges, start, Relax(d, edges[k]), i)
    ensures CoversThrough(edges, start, Relax(d, edges[k]), i, k + 1)
  {
    var e, d' := edges[k], Relax(d, edges[k]);
    forall p, v: nat | IsPath(edges, p, start, v) && 0 < |p| <= i + 1 && p[|p| - 1] in edges[..k + 1]
      ensures v < |d'| && d'[v] <= Weight(p)
    {
      var last := p[|p| - 1];
      if last in edges[..k] {
        assert d[v] <= Weight(p);
      } else {
        assert last == e;
        PathPrefix(edges, p, start, v);
        assert d[e.u] <= Weight(p[..|p| - 1]);
      }
    }
  }

  lemma CoversNext(edges: seq<Edge>, start: nat, d: seq<int>, i: nat)
    requires Covers(edges, start, d, i) && CoversThrough(edges, start, d, i, |edges|)
    ensures Covers(edges, start, d, i + 1)
  {
    assert edges[..|edges|] == edges;
  }

  /** prev[v] ends a walk to v that is no heavier than dist[v]. */
  ghost predicate PrevOk(edges: seq<Edge>, d: seq<int>, prev: seq<int>) {
    && |prev| == |d|
    && forall v :: 0 <= v < |prev| && prev[v] != -1 ==> exists e :: e in edges && Precedes(d, prev, e, v)
  }

  ghost predicate Precedes(d: seq<int>, prev: seq<int>, e: Edge, v: nat) {
    && v < |prev| && e.v == v && e.u == prev[v] && e.u < |d| && v < |d|
    && d[e.u] != INF && d[e.u] + e.w <= d[v]
  }

  lemma RelaxPrev(V: nat, edges: seq<Edge>, start: nat, d: seq<int>, prev: seq<int>, e: Edge)
    requires InRange(V, edges) && |d| == V && PrevOk(edges, d, prev) && e in edges && Sound(edges, start, d)
    ensures PrevOk(edges, Relax(d, e), if Relaxes(d, e) then prev[e.v := e.u] else prev)
  {
    if Relaxes(d, e) {
      var d', prev' := Relax(d, e), prev[e.v := e.u];
      assert SoundAt(edges, start, e.v, d[e.v]);
      forall v | 0 <= v < |prev'| && prev'[v] != -1
        ensures exists f :: f in edges && Precedes(d', prev', f, v)
      {
        if v == e.v {
          assert Precedes(d', prev', e, v);
        } else {
          var f :| f in edges && Precedes(d, prev, f, v);
          assert Precedes(d', prev', f, v);
        }
      }
    }
  }

  lemma RelaxKeepsTrees(V: nat, edges: seq<Edge>, start: nat, d: seq<int>, prev: seq<int>, e: Edge)
    requires InRange(V, edges) && |d| == V == |prev| && e in edges && Sound(edges, start, d)
    requires PartTrees(V, edges, d, prev, start)
    ensures PartTrees(V, edges, Relax(d, e), if Relaxes(d, e) then prev[e.v := e.u] else prev, start)
  {
    hide PartTree, IsWalk, Weight;
    assert SoundAt(edges, start, e.u, d[e.u]) && SoundAt(edges, start, e.v, d[e.v]);
    if Relaxes(d, e) {
      var d', prev' := Relax(d, e), prev[e.v := e.u];
      forall v | 0 <= v < V
        ensures PartTree(edges, d', prev', start, v)
      {
        RelaxPart(edges, d, prev, start, v, e);
      }
    }
  }

  // ---------- Consequences of a fixpoint ----------

  ghost predicate Tight(edges: seq<Edge>, d: seq<int>) {
    forall e :: e in edges ==> e.u < |d| && e.v < |d| && !Relaxes(d, e)
  }

  lemma {:induction false} TightOnPaths(edges: seq<Edge>, start: nat, d: seq<int>, p: seq<Edge>, v: nat)
    requires Tight(edges, d) && PathSumsBelowInf(edges, start) && start < |d| && d[start] <= 0
    requires IsPath(edges, p, start, v)
    ensures v < |d| && d[v] <= Weight(p) < INF
    decreases |p|
  {
    if p != [] {
      PathPrefix(edges, p, start, v);
      TightOnPaths(edges, start, d, p[..|p| - 1], p[|p| - 1].u);
    }
  }

  lemma TightReaches(edges: seq<Edge>, start: nat, d: seq<int>, p: seq<Edge>, v: nat)
    requires Tight(edges, d) && PathSumsBelowInf(edges, start) && start < |d| && d[start] <= 0
    requires IsWalk(edges, p, start, v)
    ensures v < |d| && d[v] < INF
  {
    var s := Shorten(edges, p, start, v);
    TightOnPaths(edges, start, d, s, v);
  }

  /** At a fixpoint no walk from a reached vertex beats the difference of the entries. */
  lemma {:induction false} TightOnWalks(edges: seq<Edge>, start: nat, d: seq<int>, p: seq<Edge>, c: nat, q: seq<Edge>,
          v: nat)
    requires Tight(edges, d) && PathSumsBelowInf(edges, start) && start < |d| && d[start] <= 0
    requires IsWalk(edges, p, start, c) && IsWalk(edges, q, c, v)
    ensures v < |d| && c < |d| && d[v] <= d[c] + Weight(q)
    decreases |q|
  {
    TightReaches(edges, start, d, p, c);
    if q != [] {
      var q', last := q[..|q| - 1], q[|q| - 1];
      TightOnWalks(edges, start, d, p, c, q', last.u);
      WalkConcat(edges, p, q', start, c, last.u);
      TightReaches(edges, start, d, p + q', last.u);
    }
  }

  /** The result when nothing can be relaxed any more. */
  ghost predicate Exact(edges: seq<Edge>, start: nat, d: seq<int>) {
    && NoNegativeCycle(edges, start)
    && forall v :: 0 <= v < |d| ==> ExactAt(edges, start, v, d[v])
  }

  ghost predicate ExactAt(edges: seq<Edge>, start: nat, v: nat, x: int) {
    if Reaches(edges, start, v) then x < INF && IsDistance(edges, start, v, x) else x == INF
  }

  lemma TightIsExact(edges: seq<Edge>, start: nat, d: seq<int>)
    requires Tight(edges, d) && PathSumsBelowInf(edges, start) && Sound(edges, start, d)
    requires start < |d| && d[start] <= 0
    ensures Exact(edges, start, d)
  {
    hide IsWalk, Weight;
    forall p, c, q | IsWalk(edges, p, start, c) && IsWalk(edges, q, c, c)
      ensures Weight(q) >= 0
    {
      TightOnWalks(edges, start, d, p, c, q, c);
    }
    forall v | 0 <= v < |d|
      ensures ExactAt(edges, start, v, d[v])
    {
      assert SoundAt(edges, start, v, d[v]);
      EmptyWalk(edges, start);
      forall p | IsWalk(edges, p, start, v)
        ensures d[v] <= Weight(p) && d[v] < INF
      {
        TightOnWalks(edges, start, d, [], start, p, v);
        TightReaches(edges, start, d, p, v);
      }
    }
  }

  lemma TightCovers(edges: seq<Edge>, start: nat, d: seq<int>, i: nat)
    requires Tight(edges, d) && PathSumsBelowInf(edges, start) && start < |d| && d[start] <= 0
    ensures Covers(edges, start, d, i)
  {
    hide IsPath, Weight, Tight;
    forall p, v: nat | IsPath(edges, p, start, v)
      ensures v < |d| && d[v] <= Weight(p)
    {
      TightOnPaths(edges, start, d, p, v);
    }
  }

  /** Distances are exact for every vertex that no negative cycle lies before, and INF exactly
      for those that cannot be reached. */
  ghost predicate CleanExact(edges: seq<Edge>, start: nat, d: seq<int>) {
    forall v :: 0 <= v < |d| && Clean(edges, start, v) ==> ExactAt(edges, start, v, d[v])
  }

  /** Negative cycles elsewhere do not matter: covering all paths is enough. */
  lemma CoveredIsExact(V: nat, edges: seq<Edge>, start: nat, d: seq<int>)
    requires InRange(V, edges) && |d| == V && start < V && PathSumsBelowInf(edges, start)
    requires Sound(edges, start, d) && Covers(edges, start, d, V - 1)
    ensures CleanExact(edges, start, d)
  {
    hide IsWalk, Weight, Clean, PathSumsBelowInf;
    forall v | 0 <= v < |d| && Clean(edges, start, v)
      ensures ExactAt(edges, start, v, d[v])
    {
      assert SoundAt(edges, start, v, d[v]);
      forall p | IsWalk(edges, p, start, v)
        ensures d[v] <= Weight(p) && d[v] < INF
      {
        CoveredWalk(V, edges, start, d, p, v);
      }
    }
  }

  lemma CoveredWalk(V: nat, edges: seq<Edge>, start: nat, d: seq<int>, p: seq<Edge>, v: nat)
    requires InRange(V, edges) && |d| == V && start < V && PathSumsBelowInf(edges, start)
    requires Covers(edges, start, d, V - 1) && Clean(edges, start, v) && IsWalk(edges, p, start, v)
    ensures v < V && d[v] <= Weight(p) && d[v] < INF
  {
    hide IsWalk, Weight, Clean, Reaches, OnTheWay, NoNegativeCycle;
    var part := Part(edges, start, v);
    Itself(edges, start);
    Itself(edges, v);
    WalkStays(edges, start, v, p, start, v);
    PartNoCycle(edges, start, v);
    var s := Shorten(part, p, start, v);
    WalkOfPart(edges, start, v, s, start, v);
    assert IsPath(edges, s, start, v);
    PathIsShort(V, edges, s, start, v);
  }

  lemma EmptyWalk(edges: seq<Edge>, a: nat)
    ensures IsWalk(edges, [], a, a) && Weight([]) == 0
  {
  }

  /** If an edge still relaxes after all paths are covered, a negative cycle is reachable. */
  lemma RelaxableMeansCycle(V: nat, edges: seq<Edge>, start: nat, d: seq<int>)
    requires InRange(V, edges) && |d| == V && start < V && Sound(edges, start, d) && Covers(edges, start, d, V - 1)
    requires !Tight(edges, d)
    ensures !NoNegativeCycle(edges, start)
  {
    var e :| e in edges && Relaxes(d, e);
    assert SoundAt(edges, start, e.u, d[e.u]) && SoundAt(edges, start, e.v, d[e.v]);
    var p :| IsWalk(edges, p, start, e.u) && Weight(p) == d[e.u];
    var q := p + [e];
    assert q[..|q| - 1] == p;
    assert IsWalk(edges, q, start, e.v) && Weight(q) == d[e.u] + e.w;
    var s := Shorten(edges, q, start, e.v);
    PathIsShort(V, edges, s, start, e.v);
    assert d[e.v] <= Weight(s);
  }

  // ---------- The algorithm ----------

  method BellmanFord(V: nat, edges: seq<Edge>, start: nat) returns (dist: array<int>, prev: array<int>, negative: bool)
    requires start < V && InRange(V, edges) && PathSumsBelowInf(edges, start)
    ensures fresh(dist) && fresh(prev) && dist.Length == V && prev.Length == V
    ensures negative <==> !NoNegativeCycle(edges, start)
    ensures CleanExact(edges, start, dist[..]) && PartTrees(V, edges, dist[..], prev[..], start)
    ensures Sound(edges, start, dist[..]) && Covers(edges, start, dist[..], V - 1)
    ensures PrevOk(edges, dist[..], prev[..])
    ensures (dist[..], prev[..]) == Rounds(edges, Unreached(V)[start := 0], NoPredecessors(V), V - 1)
    ensures !negative ==> Exact(edges, start, dist[..])
  {
    hide IsWalk, Weight, Sound, Covers, CoversThrough, PrevOk, Tight, PathSumsBelowInf, NoNegativeCycle, Exact,
      PartTrees, CleanExact, Rounds, RoundTo;
    dist := new int[V](_ => INF);
    prev := new int[V](_ => -1);
    dist[start] := 0;
    Begin(edges, start, dist[..], prev[..]);
    ghost var d0, prev0 := Unreached(V)[start := 0], NoPredecessors(V);
    assert dist[..] == d0 && prev[..] == prev0;
    NoRounds(edges, d0, prev0);
    ghost var done := false;
    for i := 0 to V - 1
      invariant Sound(edges, start, dist[..]) && PrevOk(edges, dist[..], prev[..]) && dist[start] <= 0
      invariant PartTrees(V, edges, dist[..], prev[..], start)
      invariant !done && Covers(edges, start, dist[..], i) && (dist[..], prev[..]) == Rounds(edges, d0, prev0, i)
    {
      ghost var d, pr := dist[..], prev[..];
      var updated := RelaxAll(V, edges, start, dist, prev, i);
      OneMoreRound(edges, d0, prev0, i);
      if !updated {
        QuietForever(edges, d0, prev0, i, V - 1);
        done := true;
        break;
      }
    }
    negative := HasRelaxable(V, edges, dist);
    if negative {
      RelaxableMeansCycle(V, edges, start, dist[..]);
    } else {
      TightCovers(edges, start, dist[..], V - 1);
      TightIsExact(edges, start, dist[..]);
      ExactHasNoCycle(edges, start, dist[..]);
    }
    CoveredIsExact(V, edges, start, dist[..]);
  }

  /** One round over all edges. */
  method RelaxAll(V: nat, edges: seq<Edge>, start: nat, dist: array<int>, prev: array<int>,
          ghost i: nat) returns (updated: bool)
    requires start < V && InRange(V, edges) && PathSumsBelowInf(edges, start)
    requires dist != prev && dist.Length == V && prev.Length == V && dist[start] <= 0
    requires Sound(edges, start, dist[..]) && PrevOk(edges, dist[..], prev[..]) && Covers(edges, start, dist[..], i)
    requires PartTrees(V, edges, dist[..], prev[..], start)
    modifies dist, prev
    ensures Sound(edges, start, dist[..]) && PrevOk(edges, dist[..], prev[..]) && dist[start] <= 0
    ensures PartTrees(V, edges, dist[..], prev[..], start)
    ensures Covers(edges, start, dist[..], i + 1)
    ensures !updated ==> Tight(edges, dist[..])
    ensures (dist[..], prev[..]) == RoundTo(edges, old(dist[..]), old(prev[..]), |edges|)
    ensures !updated ==> dist[..] == old(dist[..]) && prev[..] == old(prev[..])
  {
    hide IsWalk, Weight, Sound, Covers, CoversThrough, PrevOk, Tight, PathSumsBelowInf, PartTrees, RoundTo;
    ghost var d0, prev0 := dist[..], prev[..];
    RoundBegins(edges, d0, prev0);
    updated := false;
    CoversNone(edges, start, dist[..], i);
    TightNone(edges, dist[..]);
    for k := 0 to |edges|
      invariant Sound(edges, start, dist[..]) && PrevOk(edges, dist[..], prev[..]) && dist[start] <= 0
      invariant PartTrees(V, edges, dist[..], prev[..], start)
      invariant Covers(edges, start, dist[..], i) && CoversThrough(edges, start, dist[..], i, k)
      invariant !updated ==> Tight(edges[..k], dist[..]) && dist[..] == d0 && prev[..] == prev0
      invariant (dist[..], prev[..]) == RoundTo(edges, d0, prev0, k)
    {
      var e := edges[k];
      ghost var d, pr := dist[..], prev[..];
      EdgeInRange(V, edges, e);
      RelaxSound(V, edges, start, d, e);
      RelaxCovers(V, edges, start, d, i, k);
      RelaxPrev(V, edges, start, d, pr, e);
      RelaxKeepsTrees(V, edges, start, d, pr, e);
      NextInRound(edges, d0, prev0, k);
      if dist[e.u] != INF && dist[e.u] + e.w < dist[e.v] {
        dist[e.v] := dist[e.u] + e.w;
        prev[e.v] := e.u;
        updated := true;
      } else if !updated {
        TightNext(edges, d, k);
      }
      assert dist[..] == Relax(d, e);
      assert prev[..] == if Relaxes(d, e) then pr[e.v := e.u] else pr;
    }
    assert edges[..|edges|] == edges;
    CoversNext(edges, start, dist[..], i);
  }

  /** The last round, which only looks whether an edge could still be relaxed. */
  method HasRelaxable(V: nat, edges: seq<Edge>, dist: array<int>) returns (found: bool)
    requires InRange(V, edges) && dist.Length == V
    ensures found <==> !Tight(edges, dist[..])
  {
    for k := 0 to |edges|
      invariant Tight(edges[..k], dist[..])
    {
      var e := edges[k];
      if dist[e.u] != INF && dist[e.u] + e.w < dist[e.v] {
        assert Relaxes(dist[..], e);
        return true;
      }
      TightNext(edges, dist[..], k);
    }
    assert edges[..|edges|] == edges;
    return false;
  }

  lemma Begin(edges: seq<Edge>, start: nat, d: seq<int>, prev: seq<int>)
    requires start < |d| == |prev| && d[start] == 0
    requires forall v :: 0 <= v < |d| ==> (v != start ==> d[v] == INF) && prev[v] == -1
    ensures Sound(edges, start, d) && Covers(edges, start, d, 0) && PrevOk(edges, d, prev)
    ensures PartTrees(|d|, edges, d, prev, start)
  {
    BeginTrees(edges, start, d, prev);
    assert IsWalk(edges, [], start, start) && Weight([]) == 0;
  }

  lemma BeginTrees(edges: seq<Edge>, start: nat, d: seq<int>, prev: seq<int>)
    requires start < |d| == |prev| && d[start] == 0
    requires forall v :: 0 <= v < |d| ==> (v != start ==> d[v] == INF) && prev[v] == -1
    ensures PartTrees(|d|, edges, d, prev, start)
  {
    hide PartTree;
    forall v | 0 <= v < |d|
      ensures PartTree(edges, d, prev, start, v)
    {
      TreeOfPart(edges, d, prev, start, v);
    }
  }

  lemma NoRounds(edges: seq<Edge>, d: seq<int>, prev: seq<int>)
    requires InRange(|d|, edges) && |prev| == |d|
    ensures Rounds(edges, d, prev, 0) == (d, prev)
  {
  }

  lemma OneMoreRound(edges: seq<Edge>, d: seq<int>, prev: seq<int>, i: nat)
    requires InRange(|d|, edges) && |prev| == |d|
    ensures var r := Rounds(edges, d, prev, i); Rounds(edges, d, prev, i + 1) == RoundTo(edges, r.0, r.1, |edges|)
  {
  }

  lemma RoundBegins(edges: seq<Edge>, d: seq<int>, prev: seq<int>)
    requires InRange(|d|, edges) && |prev| == |d|
    ensures RoundTo(edges, d, prev, 0) == (d, prev)
  {
  }

  lemma NextInRound(edges: seq<Edge>, d: seq<int>, prev: seq<int>, k: nat)
    requires InRange(|d|, edges) && |prev| == |d| && k < |edges|
    ensures RoundTo(edges, d, prev, 0) == (d, prev)
    ensures var (r, q), e := RoundTo(edges, d, prev, k), edges[k];
            && e.u < |r| && e.v < |r|
            && RoundTo(edges, d, prev, k + 1) == (Relax(r, e), if Relaxes(r, e) then q[e.v := e.u] else q)
  {
  }

  lemma CoversNone(edges: seq<Edge>, start: nat, d: seq<int>, i: nat)
    ensures CoversThrough(edges, start, d, i, 0)
  {
  }

  lemma EdgeInRange(V: nat, edges: seq<Edge>, e: Edge)
    requires InRange(V, edges) && e in edges
    ensures e.u < V && e.v < V
  {
  }

  lemma TightNone(edges: seq<Edge>, d: seq<int>)
    ensures Tight(edges[..0], d)
  {
  }

  lemma TightNext(edges: seq<Edge>, d: seq<int>, k: nat)
    requires k < |edges| && edges[k].u < |d| && edges[k].v < |d| && Tight(edges[..k], d) && !Relaxes(d, edges[k])
    ensures Tight(edges[..k + 1], d)
  {
    assert edges[..k + 1] == edges[..k] + [edges[k]];
  }

  lemma ExactHasNoCycle(edges: seq<Edge>, start: nat, d: seq<int>)
    requires Exact(edges, start, d)
    ensures NoNegativeCycle(edges, start)
  {
  }

  /** Without a negative cycle the predecessors are those of lightest walks: each closes a
      walk of exactly the right weight. */
  lemma PrevIsTight(V: nat, edges: seq<Edge>, start: nat, d: seq<int>, prev: seq<int>, v: nat)
    requires InRange(V, edges) && |d| == V && Exact(edges, start, d) && PrevOk(edges, d, prev)
    requires v < V && prev[v] != -1
    ensures exists e :: e in edges && e.v == v && e.u == prev[v] && d[v] == d[e.u] + e.w
  {
    var e :| e in edges && Precedes(d, prev, e, v);
    assert ExactAt(edges, start, e.u, d[e.u]) && ExactAt(edges, start, v, d[v]);
    var p :| IsWalk(edges, p, start, e.u) && Weight(p) == d[e.u];
    var q := p + [e];
    assert q[..|q| - 1] == p;
    assert IsWalk(edges, q, start, v) && Weight(q) == d[e.u] + e.w;
  }

  /** Following predecessors from any vertex that can be reached, and that no negative cycle
      lies before, leads to the start in at most V - 1 steps, along a lightest walk, even if
      there are cycles of weight zero, and negative ones elsewhere. */
  lemma PrevIsShortestTree(V: nat, edges: seq<Edge>, start: nat, d: seq<int>, prev: seq<int>, v: nat)
    requires InRange(V, edges) && |d| == |prev| == V && CleanExact(edges, start, d)
    requires PartTrees(V, edges, d, prev, start)
    requires v < V && Reaches(edges, start, v) && Clean(edges, start, v)
    ensures exists p :: && IsPath(edges, p, start, v) && |p| < V && Weight(p) == d[v]
                        && FollowedBack(prev, Vertices(p, start)) && start < V && prev[start] == -1
  {
    hide IsWalk, Weight, PartTree, Clean;
    assert ExactAt(edges, start, v, d[v]);
    assert PartTree(edges, d, prev, start, v);
    var p := PartLeadsToStart(V, edges, d, prev, start, v);
    assert d[v] <= Weight(p);
  }
}
