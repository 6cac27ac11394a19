/** Dijkstra's algorithm with lazy deletion, on weights of either sign. */
module Dijkstra {
  import opened Counting
  import opened DijkstraInvariant
  import opened Edges
  import opened Graphs
  import opened Predecessors
  import opened PriorityQueues
  import opened Walks
  import BellmanFord

  // ---------- The result ----------

  /** The least weight of all low walks, or INF if there is none. */
  ghost predicate LowDistance(edges: seq<Edge>, start: nat, v: nat, x: int) {
    && LowAt(edges, start, v, x)
    && forall p :: LowWalk(edges, p, start, v) ==> x < INF && x <= Weight(p)
  }

  ghost predicate Distances(g: Graph, start: nat, dist: seq<int>) {
    |dist| == |g| && start < |g| && forall v :: 0 <= v < |g| ==> LowDistance(Arcs(g), start, v, dist[v])
  }

  /** Distances up to INF: a smaller entry is exact, INF means no walk weighs less. */
  ghost predicate Capped(edges: seq<Edge>, start: nat, v: nat, x: int) {
    if x < INF then IsDistance(edges, start, v, x)
    else x == INF && forall p :: IsWalk(edges, p, start, v) ==> Weight(p) >= INF
  }

  /** There is a bound below which no low walk from the start gets. */
  ghost predicate BoundedBelow(edges: seq<Edge>, start: nat, b: nat) {
    forall p, v: nat :: LowWalk(edges, p, start, v) ==> Weight(p) + b >= 0
  }

  ghost predicate HasBound(edges: seq<Edge>, start: nat) {
    exists b: nat :: BoundedBelow(edges, start, b)
  }

  // ---------- What an empty queue means ----------

  /** Once the queue is empty no low walk is lighter than the entry of its end. */
  lemma {:induction false} WalksAreLonger(g: Graph, start: nat, dist: seq<int>, p: seq<Edge>, v: nat)
    requires Sound(g, start, dist) && WellFormed(g) && Settled(g, dist, multiset{})
    requires LowWalk(Arcs(g), p, start, v)
    ensures v < |g| && dist[v] < INF && dist[v] <= Weight(p)
    decreases |p|
  {
    hide Sound, Arcs;
    assert dist[start] <= 0 && start < |g| by { StartIsNear(g, start, dist); }
    if p != [] {
      var last := p[|p| - 1];
      assert IsArc(g, last);
      WalksAreLonger(g, start, dist, p[..|p| - 1], last.u);
      var j :| 0 <= j < |g[last.u]| && g[last.u][j] == (last.v, last.w);
      assert ArcsRelaxed(g, dist, last.u, |g[last.u]|);
    }
  }

  lemma StartIsNear(g: Graph, start: nat, dist: seq<int>)
    requires Sound(g, start, dist)
    ensures start < |g| == |dist| && dist[start] <= 0
  {
  }

  lemma Finished(g: Graph, start: nat, dist: seq<int>)
    requires Sound(g, start, dist) && WellFormed(g) && Settled(g, dist, multiset{})
    ensures Distances(g, start, dist)
  {
    hide LowWalk, LowAt, Settled;
    forall v | 0 <= v < |g|
      ensures LowDistance(Arcs(g), start, v, dist[v])
    {
      forall p | LowWalk(Arcs(g), p, start, v)
        ensures dist[v] < INF && dist[v] <= Weight(p)
      {
        WalksAreLonger(g, start, dist, p, v);
      }
    }
  }

  lemma FinishedOnce(g: Graph, dist: seq<int>, order: seq<nat>)
    requires |dist| == |g| && QueueOk(g, dist, order, multiset{}) && OrderOk(g, dist, order)
    requires forall v :: 0 <= v < |g| ==> dist[v] <= INF
    ensures Distinct(order) && forall v :: 0 <= v < |g| ==> (v in order <==> dist[v] < INF)
  {
  }

  lemma OnceIsBounded(g: Graph, dist: seq<int>, order: seq<nat>, pq: multiset<Item>, turns: nat)
    requires Once(g, dist, order, pq, turns)
    ensures turns + |pq| <= 1 + |Arcs(g)|
  {
    DegreesBelow(g, order, |g|);
    assert g[..|g|] == g;
  }

  // ---------- What the distances mean ----------

  lemma DistanceRange(g: Graph, start: nat, dist: seq<int>)
    requires Distances(g, start, dist)
    ensures forall v :: 0 <= v < |g| ==> dist[v] <= INF
    ensures dist[start] <= 0
  {
    assert LowWalk(Arcs(g), [], start, start) && Weight([]) == 0;
    assert LowDistance(Arcs(g), start, start, dist[start]);
    forall v | 0 <= v < |g|
      ensures dist[v] <= INF
    {
      assert LowDistance(Arcs(g), start, v, dist[v]);
    }
  }

  lemma DistancesAreTight(g: Graph, start: nat, dist: seq<int>, e: Edge)
    requires Distances(g, start, dist) && WellFormed(g) && e in Arcs(g)
    ensures e.u < |g| && e.v < |g| && !BellmanFord.Relaxes(dist, e)
  {
    hide LowWalk, Weight, Arcs;
    DistanceRange(g, start, dist);
    if BellmanFord.Relaxes(dist, e) {
      assert LowDistance(Arcs(g), start, e.u, dist[e.u]) && LowDistance(Arcs(g), start, e.v, dist[e.v]);
      var p :| LowWalk(Arcs(g), p, start, e.u) && Weight(p) == dist[e.u];
      LowStep(Arcs(g), p, start, e);
      assert false;
    }
  }

  /** When the sums along paths stay below INF, the distances are exact for weights of either
      sign, and no negative cycle can be reached. */
  lemma DistancesAreExact(g: Graph, start: nat, dist: seq<int>)
    requires Distances(g, start, dist) && WellFormed(g) && BellmanFord.PathSumsBelowInf(Arcs(g), start)
    ensures BellmanFord.Exact(Arcs(g), start, dist)
  {
    hide Weight, BellmanFord.PathSumsBelowInf, BellmanFord.Exact, BellmanFord.Relaxes;
    DistanceRange(g, start, dist);
    forall e | e in Arcs(g)
      ensures e.u < |g| && e.v < |g| && !BellmanFord.Relaxes(dist, e)
    {
      DistancesAreTight(g, start, dist, e);
    }
    forall v | 0 <= v < |dist|
      ensures BellmanFord.SoundAt(Arcs(g), start, v, dist[v])
    {
      assert LowDistance(Arcs(g), start, v, dist[v]);
    }
    BellmanFord.TightIsExact(Arcs(g), start, dist);
  }

  /** Without negative weights every walk lighter than INF is low. */
  lemma {:induction false} LightIsLow(g: Graph, p: seq<Edge>, a: nat, b: nat)
    requires IsWalk(Arcs(g), p, a, b) && NonNegative(g)
    ensures Weight(p) >= 0 && (Weight(p) < INF ==> IsLow(p))
    decreases |p|
  {
    if p != [] {
      assert IsArc(g, p[|p| - 1]);
      LightIsLow(g, p[..|p| - 1], a, p[|p| - 1].u);
    }
  }

  /** Without negative weights the distances are exact up to INF, whatever the sums. */
  lemma DistancesAreCapped(g: Graph, start: nat, dist: seq<int>)
    requires Distances(g, start, dist) && NonNegative(g)
    ensures forall v :: 0 <= v < |g| ==> Capped(Arcs(g), start, v, dist[v])
  {
    hide Weight, IsWalk, IsLow, Arcs, NonNegative;
    forall v | 0 <= v < |g|
      ensures Capped(Arcs(g), start, v, dist[v])
    {
      assert LowDistance(Arcs(g), start, v, dist[v]);
      forall p | IsWalk(Arcs(g), p, start, v)
        ensures dist[v] <= Weight(p) || (dist[v] == INF && Weight(p) >= INF)
        ensures dist[v] == INF ==> Weight(p) >= INF
      {
        LightIsLow(g, p, start, v);
      }
    }
  }

  // ---------- When the search ends ----------

  /** Whenever it ends there is a bound: with walks of ever smaller weight it goes on forever. */
  lemma EndsOnlyIfBounded(g: Graph, start: nat, dist: seq<int>)
    requires Distances(g, start, dist) && WellFormed(g)
    ensures HasBound(Arcs(g), start)
  {
    hide Weight, IsWalk, IsLow;
    var x := Least(dist);
    var b: nat := if x < 0 then -x else 0;
    forall p, v: nat | LowWalk(Arcs(g), p, start, v)
      ensures Weight(p) + b >= 0
    {
      WalkInRange(|g|, Arcs(g), p, start, v);
      assert LowDistance(Arcs(g), start, v, dist[v]);
    }
    assert BoundedBelow(Arcs(g), start, b);
  }

  lemma TurnsAreBounded(g: Graph, start: nat, dist: seq<int>, pq: multiset<Item>, turns: nat, b: nat)
    requires Sound(g, start, dist) && Paid(dist, pq, turns) && BoundedBelow(Arcs(g), start, b)
    ensures turns + |pq| <= 1 + |g| * (INF + b)
  {
    var low: int := b;
    SoundIsBounded(g, start, dist, b);
    TotalBounds(dist, -low, INF);
    hide *;
    Distributes(|g|, INF, low);
    assert |dist| == |g| && turns + |pq| <= 1 + |dist| * INF - Total(dist);
  }

  lemma Distributes(n: int, a: int, b: int)
    ensures n * (a + b) == n * a - n * -b
  {
  }

  lemma SoundIsBounded(g: Graph, start: nat, dist: seq<int>, b: nat)
    requires Sound(g, start, dist) && BoundedBelow(Arcs(g), start, b)
    ensures forall v :: 0 <= v < |dist| ==> 0 - b <= dist[v] <= INF
  {
    hide LowWalk, Weight;
    forall v | 0 <= v < |dist|
      ensures 0 <= dist[v] + b && dist[v] <= INF
    {
      assert LowAt(Arcs(g), start, v, dist[v]);
    }
  }

  /** How far a single edge can lead down. */
  function Steepest(edges: seq<Edge>): (s: nat)
    ensures forall e :: e in edges ==> e.w + s >= 0
  {
    if edges == [] then 0
    else
      var s, e := Steepest(edges[..|edges| - 1]), edges[|edges| - 1];
      assert edges == edges[..|edges| - 1] + [e];
      if e.w + s < 0 then -e.w else s
  }

  /** How far a path can lead down. */
  function Depth(g: Graph): nat {
    |g| * Steepest(Arcs(g))
  }

  lemma {:induction false} WalkDescends(edges: seq<Edge>, p: seq<Edge>, a: nat, b: nat)
    requires IsWalk(edges, p, a, b)
    ensures Weight(p) + |p| * Steepest(edges) >= 0
    decreases |p|
  {
    if p != [] {
      var n, s := |p| - 1, Steepest(edges);
      WalkDescends(edges, p[..n], a, p[n].u);
      assert (n + 1) * s == n * s + s;
    }
  }

  lemma PathDescends(g: Graph, p: seq<Edge>, a: nat, b: nat)
    requires WellFormed(g) && a < |g| && IsPath(Arcs(g), p, a, b)
    ensures Weight(p) + Depth(g) >= 0
  {
    hide Weight, Vertices, IsWalk, Steepest;
    assert InRange(|g|, Arcs(g));
    PathIsShort(|g|, Arcs(g), p, a, b);
    WalkDescends(Arcs(g), p, a, b);
    Scaled(|p|, |g|, Steepest(Arcs(g)));
  }

  lemma Scaled(m: nat, n: nat, s: nat)
    requires m <= n
    ensures m * s <= n * s
  {
  }

  lemma NoCycleIsBounded(g: Graph, start: nat)
    requires WellFormed(g) && start < |g| && NoNegativeCycle(Arcs(g), start)
    ensures BoundedBelow(Arcs(g), start, Depth(g))
  {
    hide Weight, IsWalk, IsPath, IsLow, NoNegativeCycle, Depth, WellFormed;
    forall p, v: nat | LowWalk(Arcs(g), p, start, v)
      ensures Weight(p) + Depth(g) >= 0
    {
      var s := Shorten(Arcs(g), p, start, v);
      PathDescends(g, s, start, v);
    }
  }

  // ---------- The predecessors ----------

  lemma {:induction false} TraceIsLow(edges: seq<Edge>, d: seq<int>, prev: seq<int>, start: nat, p: seq<Edge>, v: nat)
    requires Traces(edges, d, prev, start, p, v) && d[v] < INF && start < |d| && d[start] == 0
    ensures LowWalk(edges, p, start, v) && Weight(p) <= d[v]
    decreases |p|
  {
    if p != [] {
      TraceIsLow(edges, d, prev, start, p[..|p| - 1], p[|p| - 1].u);
    }
  }

  lemma {:induction false} LowPrefix(p: seq<Edge>, i: nat)
    requires IsLow(p) && i <= |p|
    ensures IsLow(p[..i])
    decreases |p|
  {
    if i == |p| {
      assert p[..i] == p;
    } else {
      LowPrefix(p[..|p| - 1], i);
      assert p[..|p| - 1][..i] == p[..i];
    }
  }

  /** What can be added to a walk can be added to a lighter one. */
  lemma {:induction false} LowShift(a: seq<Edge>, r: seq<Edge>, s: seq<Edge>)
    requires IsLow(a + s) && IsLow(r) && Weight(r) <= Weight(a)
    ensures IsLow(r + s)
    decreases |s|
  {
    if s == [] {
      assert r + s == r;
    } else {
      var s' := s[..|s| - 1];
      assert (a + s)[..|a + s| - 1] == a + s' && (r + s)[..|r + s| - 1] == r + s';
      LowShift(a, r, s');
      WeightConcat(a, s);
      WeightConcat(r, s);
    }
  }

  /** A cycle of negative weight that a low walk can go round once, it can go round n times. */
  lemma {:induction false} RoundAndRound(edges: seq<Edge>, a: seq<Edge>, c: seq<Edge>, start: nat, v: nat, n: nat)
      returns (r: seq<Edge>)
    requires LowWalk(edges, a, start, v) && IsWalk(edges, c, v, v) && IsLow(a + c) && Weight(c) < 0
    ensures LowWalk(edges, r, start, v) && Weight(r) <= Weight(a) - n
  {
    if n == 0 {
      r := a;
    } else {
      hide IsWalk, Weight, IsLow;
      var s := RoundAndRound(edges, a, c, start, v, n - 1);
      LowShift(a, s, c);
      WalkConcat(edges, s, c, start, v, v);
      r := s + c;
    }
  }

  /** When the walks are bounded below, an edge never improves on an ancestor of its start. */
  lemma NoneBelow(edges: seq<Edge>, d: seq<int>, prev: seq<int>, start: nat, p: seq<Edge>, e: Edge, b: nat)
    requires Traces(edges, d, prev, start, p, e.u) && e in edges && Improves(d, e)
    requires start < |d| && d[start] == 0 && BoundedBelow(edges, start, b)
    ensures e.v !in Vertices(p, start)
  {
    hide Traces, Vertices, IsWalk, Weight, IsLow;
    if e.v in Vertices(p, start) {
      var i :| 0 <= i <= |p| && Vertices(p, start)[i] == e.v;
      var a, c := p[..i], p[i..] + [e];
      TraceIsLow(edges, d, prev, start, p, e.u);
      TraceFrom(edges, d, prev, start, p, e.u, i);
      WalkCut(edges, p, start, e.u, i);
      LowPrefix(p, i);
      OneEdgeWalk(edges, e);
      WalkConcat(edges, p[i..], [e], e.v, e.u, e.v);
      LowStep(edges, p, start, e);
      assert a + c == p + [e];
      assert Weight(a) + b >= 0;
      var r := RoundAndRound(edges, a, c, start, e.v, Weight(a) + b + 1);
      assert false;
    }
  }

  lemma RelaxBoundedTree(edges: seq<Edge>, d: seq<int>, prev: seq<int>, start: nat, e: Edge)
    requires Tree(edges, d, prev, start) && e in edges && Improves(d, e) && HasBound(edges, start)
    ensures Tree(edges, d[e.v := d[e.u] + e.w], prev[e.v := e.u], start)
  {
    hide Traces, BoundedBelow;
    var b: nat :| BoundedBelow(edges, start, b);
    assert IsTraced(edges, d, prev, start, e.u);
    var p :| Traces(edges, d, prev, start, p, e.u);
    NoneBelow(edges, d, prev, start, p, e, b);
    HangTree(edges, d, prev, start, p, e);
  }

  // ---------- The search, turn by turn ----------

  /** Distances, predecessors and queue. */
  datatype Tables = Tables(dist: seq<int>, prev: seq<int>, pq: multiset<Item>)

  ghost predicate Sized(g: Graph, s: Tables) { |s.dist| == |s.prev| == |g| }

  /** The tables after the first k arcs out of u. */
  ghost function Scanned(g: Graph, s: Tables, u: nat, k: nat): (r: Tables)
    requires Sized(g, s) && u < |g| && k <= |g[u]|
    ensures Sized(g, r)
  {
    if k == 0 then s
    else
      var r := Scanned(g, s, u, k - 1);
      var (v, w) := g[u][k - 1];
      if v < |g| && r.dist[u] + w < r.dist[v] then
        Tables(r.dist[v := r.dist[u] + w], r.prev[v := u], r.pq + multiset{Item(r.dist[u] + w, v)})
      else r
  }

  lemma FirstExists(pq: multiset<Item>)
    requires |pq| > 0
    ensures exists t :: t in pq && forall s :: s in pq ==> Leq(t, s)
  {
    LeqIsTotal();
    var t := LeastExists(pq, Leq);
  }

  ghost function FirstOf(pq: multiset<Item>): (t: Item)
    requires |pq| > 0
    ensures t in pq && forall s :: s in pq ==> Leq(t, s)
  {
    FirstExists(pq);
    var t :| t in pq && forall s :: s in pq ==> Leq(t, s);
    t
  }

  /** One turn of the loop. */
  ghost function Turn(g: Graph, s: Tables): (r: Tables)
    requires Sized(g, s)
    ensures Sized(g, r)
  {
    if |s.pq| == 0 then s
    else
      var t := FirstOf(s.pq);
      var rest := s.(pq := s.pq - multiset{t});
      if t.v >= |g| || t.d > s.dist[t.v] then rest else Scanned(g, rest, t.v, |g[t.v]|)
  }

  ghost function Turns(g: Graph, start: nat, n: nat): (r: Tables)
    requires start < |g|
    ensures Sized(g, r)
  {
    if n == 0 then Tables(seq(|g|, v => if v == start then 0 else INF), seq(|g|, _ => -1), multiset{Item(0, start)})
    else Turn(g, Turns(g, start, n - 1))
  }

  lemma TurnPops(g: Graph, s: Tables, t: Item)
    requires Sized(g, s) && t in s.pq && t.v < |g| && forall x :: x in s.pq ==> Leq(t, x)
    ensures var rest := s.(pq := s.pq - multiset{t});
            Turn(g, s) == if t.d > s.dist[t.v] then rest else Scanned(g, rest, t.v, |g[t.v]|)
  {
    assert |s.pq| > 0;
    assert FirstOf(s.pq) == t by { assert Leq(t, FirstOf(s.pq)) && Leq(FirstOf(s.pq), t); }
  }

  lemma FirstTurn(g: Graph, start: nat, dist: seq<int>, prev: seq<int>)
    requires start < |g| == |dist| == |prev|
    requires forall v :: 0 <= v < |g| ==> dist[v] == (if v == start then 0 else INF) && prev[v] == -1
    ensures Turns(g, start, 0) == Tables(dist, prev, multiset{Item(0, start)})
  {
  }

  lemma NextTurn(g: Graph, start: nat, n: nat)
    requires start < |g|
    ensures Turns(g, start, n + 1) == Turn(g, Turns(g, start, n))
  {
  }

  lemma ScanBegins(g: Graph, s: Tables, u: nat)
    requires Sized(g, s) && u < |g|
    ensures Scanned(g, s, u, 0) == s
  {
  }

  lemma ScanNext(g: Graph, s: Tables, u: nat, k: nat)
    requires Sized(g, s) && u < |g| && k < |g[u]| && g[u][k].0 < |g|
    ensures var r, (v, w) := Scanned(g, s, u, k), g[u][k];
            && Sized(g, r)
            && Scanned(g, s, u, k + 1) ==
               if r.dist[u] + w < r.dist[v] then
                 Tables(r.dist[v := r.dist[u] + w], r.prev[v := u], r.pq + multiset{Item(r.dist[u] + w, v)})
               else r
  {
  }

  // ---------- The algorithm ----------

  ghost predicate Inv(g: Graph, start: nat, dist: seq<int>, prev: seq<int>, pq: multiset<Item>, turns: nat) {
    && Sound(g, start, dist) && Entries(g, dist, pq) && Paid(dist, pq, turns) && |prev| == |g|
    && (HasBound(Arcs(g), start) ==> Tree(Arcs(g), dist, prev, start))
  }

  /** The loop need not end; here `fuel` bounds the number of its turns, and `done` says that
      it has ended. `order` lists the vertices in the order in which they were expanded. */
  method Dijkstra(g: Graph, start: nat, fuel: nat)
      returns (dist: array<int>, prev: array<int>, done: bool, ghost order: seq<nat>)
    requires start < |g| && WellFormed(g)
    ensures fresh(dist) && fresh(prev) && dist.Length == |g| == prev.Length
    ensures done ==> Distances(g, start, dist[..]) && Tree(Arcs(g), dist[..], prev[..], start)
    ensures done ==> HasBound(Arcs(g), start)
    ensures exists n: nat :: n <= fuel && Turns(g, start, n).dist == dist[..] && Turns(g, start, n).prev == prev[..]
              && (done ==> |Turns(g, start, n).pq| == 0)
    ensures forall b: nat :: BoundedBelow(Arcs(g), start, b) && fuel > |g| * (INF + b) ==> done
    ensures BellmanFord.PathSumsBelowInf(Arcs(g), start) && fuel > |g| * (INF + Depth(g)) ==>
              (done <==> NoNegativeCycle(Arcs(g), start))
    ensures done && NonNegative(g) ==>
              Distinct(order) && forall v :: 0 <= v < |g| ==> (v in order <==> dist[v] < INF)
    ensures NonNegative(g) && fuel > |Arcs(g)| ==> done
  {
    hide *;
    dist := new int[|g|](_ => INF);
    prev := new int[|g|](_ => -1);
    dist[start] := 0;
    var pq := multiset{Item(0, start)};
    order := [];
    var turns: nat := 0;
    Begin(g, start, dist[..], prev[..]);
    FirstTurn(g, start, dist[..], prev[..]);
    while |pq| > 0 && turns < fuel
      invariant Inv(g, start, dist[..], prev[..], pq, turns) && Settled(g, dist[..], pq) && turns <= fuel
      invariant NonNegative(g) ==> Once(g, dist[..], order, pq, turns)
      invariant Turns(g, start, turns) == Tables(dist[..], prev[..], pq)
      decreases fuel - turns
    {
      LeqIsTotal();
      var t, rest := PopLeast(pq, Leq);
      var u := t.v;
      NextTurn(g, start, turns);
      turns := turns + 1;
      EntryInRange(g, start, dist[..], prev[..], pq, turns - 1, t);
      SizedNow(g, dist[..], prev[..], pq);
      TurnPops(g, Tables(dist[..], prev[..], pq), t);
      if t.d > dist[u] {
        Skip(g, start, dist[..], prev[..], order, pq, turns, t);
        pq := rest;
        continue;
      }
      Expand(g, start, dist[..], prev[..], order, pq, turns, t);
      order := order + [u];
      pq := RelaxArcs(g, start, u, dist, prev, order, rest, turns);
    }
    done := |pq| == 0;
    assert Turns(g, start, turns).dist == dist[..] && Turns(g, start, turns).prev == prev[..];
    Ended(g, start, dist[..], prev[..], order, pq, turns, fuel);
  }

  /** The inner loop: relax all arcs out of u. */
  method RelaxArcs(g: Graph, start: nat, u: nat, dist: array<int>, prev: array<int>, ghost order: seq<nat>,
          before: multiset<Item>, ghost turns: nat)
      returns (pq: multiset<Item>)
    requires u < |g| && WellFormed(g) && dist != prev && dist.Length == |g| == prev.Length && dist[u] < INF
    requires Inv(g, start, dist[..], prev[..], before, turns) && SettledBut(g, dist[..], before, u, 0)
    requires NonNegative(g) ==> Expanding(g, dist[..], order, before, turns, u, 0)
    modifies dist, prev
    ensures Inv(g, start, dist[..], prev[..], pq, turns) && Settled(g, dist[..], pq)
    ensures NonNegative(g) ==> Once(g, dist[..], order, pq, turns)
    ensures |old(dist[..])| == |old(prev[..])| == |g|
    ensures Sized(g, Tables(old(dist[..]), old(prev[..]), before))
    ensures Tables(dist[..], prev[..], pq) ==
            Scanned(g, Tables(old(dist[..]), old(prev[..]), before), u, |g[u]|)
  {
    hide *;
    pq := before;
    ghost var s := Tables(dist[..], prev[..], pq);
    SizedNow(g, dist[..], prev[..], pq);
    ScanBegins(g, s, u);
    for k := 0 to |g[u]|
      invariant Inv(g, start, dist[..], prev[..], pq, turns) && SettledBut(g, dist[..], pq, u, k) && dist[u] < INF
      invariant NonNegative(g) ==> Expanding(g, dist[..], order, pq, turns, u, k)
      invariant Tables(dist[..], prev[..], pq) == Scanned(g, s, u, k)
    {
      var (v, w) := g[u][k];
      ghost var d, pr := dist[..], prev[..];
      RelaxArc(g, start, u, d, pr, order, pq, k, turns);
      ScanNext(g, s, u, k);
      var newDist := dist[u] + w;
      if newDist < dist[v] {
        dist[v] := newDist;
        prev[v] := u;
        pq := pq + multiset{Item(newDist, v)};
        assert dist[..] == d[v := newDist] && prev[..] == pr[v := u];
      }
    }
    AllArcsDone(g, dist[..], pq, u);
    if NonNegative(g) { Expanded(g, dist[..], order, pq, turns, u); }
  }

  lemma RelaxArc(g: Graph, start: nat, u: nat, dist: seq<int>, prev: seq<int>, order: seq<nat>, pq: multiset<Item>,
          k: nat, turns: nat)
    requires Inv(g, start, dist, prev, pq, turns) && SettledBut(g, dist, pq, u, k) && WellFormed(g)
    requires u < |g| && k < |g[u]| && |dist| == |g| && dist[u] < INF
    requires NonNegative(g) ==> Expanding(g, dist, order, pq, turns, u, k)
    ensures g[u][k].0 < |g| == |prev|
    ensures var (v, w) := g[u][k];
            if dist[u] + w < dist[v] then
              var dist', prev', pq' := dist[v := dist[u] + w], prev[v := u], pq + multiset{Item(dist[u] + w, v)};
              && Inv(g, start, dist', prev', pq', turns) && SettledBut(g, dist', pq', u, k + 1)
              && (NonNegative(g) ==> Expanding(g, dist', order, pq', turns, u, k + 1))
            else
              SettledBut(g, dist, pq, u, k + 1) && (NonNegative(g) ==> Expanding(g, dist, order, pq, turns, u, k + 1))
  {
    hide Sound, SettledBut, Entries, Paid, Tree, HasBound, Expanding;
    var e := ArcAt(g, u, k);
    EntryIsArc(g, u, k);
    if Shorter(dist, e) {
      RelaxSound(g, start, dist, e);
      RelaxSettled(g, dist, pq, u, k, e);
      RelaxEntries(g, dist, pq, e);
      RelaxPaid(dist, pq, turns, e, Item(dist[u] + e.w, e.v));
      if HasBound(Arcs(g), start) {
        RelaxBoundedTree(Arcs(g), dist, prev, start, e);
      }
      if NonNegative(g) {
        RelaxOnce(g, dist, order, pq, turns, e, k);
      }
    } else {
      NotShorter(g, dist, pq, u, k);
      if NonNegative(g) {
        NextArc(g, dist, order, pq, turns, u, k);
      }
    }
  }

  lemma Begin(g: Graph, start: nat, dist: seq<int>, prev: seq<int>)
    requires start < |g| == |dist| == |prev|
    requires forall v :: 0 <= v < |g| ==> dist[v] == (if v == start then 0 else INF) && prev[v] == -1
    ensures Inv(g, start, dist, prev, multiset{Item(0, start)}, 0)
    ensures Settled(g, dist, multiset{Item(0, start)}) && Once(g, dist, [], multiset{Item(0, start)}, 0)
  {
    hide Sound, Paid, Tree, HasBound, Once;
    SoundAtStart(g, start, dist);
    PaidAtStart(dist, Item(0, start));
    OnlyStart(Arcs(g), dist, prev, start);
    OnceAtStart(g, start, dist);
  }

  lemma SizedNow(g: Graph, dist: seq<int>, prev: seq<int>, pq: multiset<Item>)
    requires |dist| == |prev| == |g|
    ensures Sized(g, Tables(dist, prev, pq))
  {
  }

  lemma EntryInRange(g: Graph, start: nat, dist: seq<int>, prev: seq<int>, pq: multiset<Item>, turns: nat, t: Item)
    requires Inv(g, start, dist, prev, pq, turns) && t in pq
    ensures t.v < |g|
  {
  }

  lemma Skip(g: Graph, start: nat, dist: seq<int>, prev: seq<int>, order: seq<nat>, pq: multiset<Item>, turns: nat,
          t: Item)
    requires turns > 0 && Inv(g, start, dist, prev, pq, turns - 1) && Settled(g, dist, pq)
    requires NonNegative(g) ==> Once(g, dist, order, pq, turns - 1)
    requires t in pq && t.v < |g| == |dist| && t.d > dist[t.v]
    ensures Inv(g, start, dist, prev, pq - multiset{t}, turns) && Settled(g, dist, pq - multiset{t})
    ensures NonNegative(g) ==> Once(g, dist, order, pq - multiset{t}, turns)
  {
    hide Sound, Settled, Entries, Tree, HasBound, NonNegative, Once;
    SkipStale(g, dist, pq, t);
    if NonNegative(g) {
      SkipOnce(g, dist, order, pq, turns - 1, t);
    }
  }

  lemma Expand(g: Graph, start: nat, dist: seq<int>, prev: seq<int>, order: seq<nat>, pq: multiset<Item>, turns: nat,
          t: Item)
    requires turns > 0 && Inv(g, start, dist, prev, pq, turns - 1) && Settled(g, dist, pq)
    requires NonNegative(g) ==> Once(g, dist, order, pq, turns - 1)
    requires t in pq && (forall s :: s in pq ==> Leq(t, s)) && t.v < |g| == |dist| && t.d <= dist[t.v]
    ensures dist[t.v] < INF
    ensures Inv(g, start, dist, prev, pq - multiset{t}, turns) && SettledBut(g, dist, pq - multiset{t}, t.v, 0)
    ensures NonNegative(g) ==> Expanding(g, dist, order + [t.v], pq - multiset{t}, turns, t.v, 0)
  {
    hide Sound, Settled, SettledBut, Entries, Tree, HasBound, NonNegative, Once, Expanding;
    PopNearest(g, dist, pq, t);
    if NonNegative(g) {
      ExpandOnce(g, dist, order, pq, turns - 1, t);
    }
  }

  lemma Ended(g: Graph, start: nat, dist: seq<int>, prev: seq<int>, order: seq<nat>, pq: multiset<Item>, turns: nat,
          fuel: nat)
    requires WellFormed(g) && Inv(g, start, dist, prev, pq, turns) && Settled(g, dist, pq)
    requires NonNegative(g) ==> Once(g, dist, order, pq, turns)
    requires |pq| == 0 || turns >= fuel
    ensures |dist| == |g|
    ensures |pq| == 0 ==> Distances(g, start, dist) && Tree(Arcs(g), dist, prev, start) && HasBound(Arcs(g), start)
    ensures forall b: nat :: BoundedBelow(Arcs(g), start, b) && fuel > |g| * (INF + b) ==> |pq| == 0
    ensures BellmanFord.PathSumsBelowInf(Arcs(g), start) && fuel > |g| * (INF + Depth(g)) ==>
              (|pq| == 0 <==> NoNegativeCycle(Arcs(g), start))
    ensures |pq| == 0 && NonNegative(g) ==>
              Distinct(order) && forall v :: 0 <= v < |g| ==> (v in order <==> dist[v] < INF)
    ensures NonNegative(g) && fuel > |Arcs(g)| ==> |pq| == 0
  {
    hide Sound, Settled, Entries, Tree, NoNegativeCycle, NonNegative, Distances, BoundedBelow, HasBound,
      Paid, QueueOk, OrderOk, Degrees, Depth, BellmanFord.PathSumsBelowInf, WellFormed;
    StartIsNear(g, start, dist);
    forall b: nat | BoundedBelow(Arcs(g), start, b) && fuel > |g| * (INF + b)
      ensures |pq| == 0
    {
      TurnsAreBounded(g, start, dist, pq, turns, b);
    }
    if NoNegativeCycle(Arcs(g), start) {
      NoCycleIsBounded(g, start);
    }
    if NonNegative(g) {
      OnceIsBounded(g, dist, order, pq, turns);
    }
    if |pq| == 0 {
      assert pq == multiset{};
      Finished(g, start, dist);
      EndsOnlyIfBounded(g, start, dist);
      if BellmanFord.PathSumsBelowInf(Arcs(g), start) {
        DistancesAreExact(g, start, dist);
        BellmanFord.ExactHasNoCycle(Arcs(g), start, dist);
      }
      DistanceRange(g, start, dist);
      if NonNegative(g) {
        FinishedOnce(g, dist, order);
      }
    }
  }

  // ---------- Path reconstruction ----------

  /** The vertices of a walk from start to v of the weight d. */
  ghost predicate IsLightest(g: Graph, start: nat, v: nat, d: int, path: seq<nat>) {
    exists p :: IsWalk(Arcs(g), p, start, v) && Vertices(p, start) == path && Weight(p) == d
  }

  /** The vertices that a path to the target will have. */
  lemma PathAhead(g: Graph, start: nat, dist: seq<int>, prev: seq<int>, target: nat) returns (vs: seq<nat>)
    requires Distances(g, start, dist) && Tree(Arcs(g), dist, prev, start) && target < |g|
    ensures vs != [] && vs[|vs| - 1] == target && FollowedBack(prev, vs)
    ensures vs[0] < |prev| && prev[vs[0]] == -1
    ensures dist[target] < INF ==> IsLightest(g, start, target, dist[target], vs)
    ensures dist[target] == INF ==> vs == [target]
    ensures dist[target] <= INF
  {
    hide IsWalk, Weight, Traces, IsLow;
    assert LowDistance(Arcs(g), start, target, dist[target]);
    if dist[target] < INF {
      assert IsTraced(Arcs(g), dist, prev, start, target);
      var p :| Traces(Arcs(g), dist, prev, start, p, target);
      TraceIsLow(Arcs(g), dist, prev, start, p, target);
      TraceIsFollowed(Arcs(g), dist, prev, start, p, target);
      vs := Vertices(p, start);
    } else {
      vs := [target];
    }
  }

  /** Follow predecessors from the target back to the start. */
  method GetPath(ghost g: Graph, ghost start: nat, ghost dist: seq<int>, prev: seq<int>, target: nat)
      returns (path: seq<nat>)
    requires Distances(g, start, dist) && Tree(Arcs(g), dist, prev, start) && target < |g|
    ensures dist[target] < INF ==> IsLightest(g, start, target, dist[target], path)
    ensures dist[target] == INF ==> path == [target]
    ensures FollowedBack(prev, path) && path != [] && path[|path| - 1] == target
    ensures path[0] < |prev| && prev[path[0]] == -1
  {
    hide Distances, Tree, IsLightest, Reversed, ReversedIs, FollowedBack;
    ghost var vs := PathAhead(g, start, dist, prev, target);
    ghost var i: nat := |vs|;
    var back: seq<nat> := [];
    var v: int := target;
    NothingReversed(vs);
    while v != -1
      invariant i <= |vs| && ReversedIs(back, vs, i) && v == if i == 0 then -1 else vs[i - 1]
      decreases i
    {
      StepBack(prev, vs, i, back);
      back := back + [v];
      v := prev[v];
      i := i - 1;
    }
    path := Reversed(back);
    AllReversed(back, vs);
  }

  ghost predicate ReversedIs(back: seq<nat>, vs: seq<nat>, i: nat) {
    i <= |vs| && Reversed(back) == vs[i..]
  }

  lemma NothingReversed(vs: seq<nat>)
    ensures ReversedIs([], vs, |vs|)
  {
  }

  lemma AllReversed(back: seq<nat>, vs: seq<nat>)
    requires ReversedIs(back, vs, 0)
    ensures Reversed(back) == vs
  {
  }

  lemma StepBack(prev: seq<int>, vs: seq<nat>, i: nat, back: seq<nat>)
    requires 0 < i <= |vs| && FollowedBack(prev, vs) && vs[0] < |prev| && prev[vs[0]] == -1 && ReversedIs(back, vs, i)
    ensures vs[i - 1] < |prev| && prev[vs[i - 1]] == if i == 1 then -1 else vs[i - 2]
    ensures ReversedIs(back + [vs[i - 1]], vs, i - 1)
  {
    ReversedMore(back, vs[i - 1]);
  }

  lemma ReversedMore(back: seq<nat>, v: nat)
    ensures Reversed(back + [v]) == [v] + Reversed(back)
  {
    assert (back + [v])[..|back|] == back;
  }

  // ---------- The demonstration with a negative edge ----------

  const DEMO: Graph := [[(1, 5), (2, 2)], [], [(1, -4)]]

  function DemoLeast(v: nat): int {
    if v == 1 then -2 else if v == 2 then 2 else 0
  }

  lemma {:induction false} DemoWalks(p: seq<Edge>, v: nat)
    requires IsWalk(Arcs(DEMO), p, 0, v)
    ensures v < 3 && Weight(p) >= DemoLeast(v)
    decreases |p|
  {
    if p != [] {
      var last := p[|p| - 1];
      assert IsArc(DEMO, last);
      DemoWalks(p[..|p| - 1], last.u);
    }
  }

  lemma DemoWalk()
    ensures exists p :: LowWalk(Arcs(DEMO), p, 0, 1) && Weight(p) == -2
  {
    hide Arcs;
    var e, f := Edge(0, 2, 2), Edge(2, 1, -4);
    assert IsArc(DEMO, e) && IsArc(DEMO, f) by {
      EntryIsArc(DEMO, 0, 1);
      EntryIsArc(DEMO, 2, 0);
    }
    assert LowWalk(Arcs(DEMO), [], 0, 0) && Weight([]) == 0;
    LowStep(Arcs(DEMO), [], 0, e);
    LowStep(Arcs(DEMO), [] + [e], 0, f);
  }

  /** The program announces a wrong distance here; what it finds is the right one. */
  method DemonstrateNegativeEdge() returns (d: int)
    ensures d == -2 && IsDistance(Arcs(DEMO), 0, 1, d)
  {
    hide Arcs, IsDistance, Distances, BoundedBelow, WellFormed, HasBound, Tree, NoNegativeCycle, NonNegative;
    DemoIsFine();
    var dist, prev, done, order := Dijkstra(DEMO, 0, 3 * (INF + 2) + 1);
    d := dist[1];
    DemoDistance(dist[..]);
  }

  lemma DemoIsFine()
    ensures |DEMO| == 3 && WellFormed(DEMO) && BoundedBelow(Arcs(DEMO), 0, 2)
  {
    hide Arcs, Weight, IsWalk, IsLow;
    forall p, v: nat | LowWalk(Arcs(DEMO), p, 0, v)
      ensures Weight(p) + 2 >= 0
    {
      DemoWalks(p, v);
    }
  }

  lemma DemoDistance(dist: seq<int>)
    requires Distances(DEMO, 0, dist)
    ensures |dist| == 3 && dist[1] == -2 && IsDistance(Arcs(DEMO), 0, 1, -2)
  {
    hide Arcs, Weight, IsWalk, IsLow;
    DemoWalk();
    assert LowDistance(Arcs(DEMO), 0, 1, dist[1]);
    forall p | IsWalk(Arcs(DEMO), p, 0, 1)
      ensures Weight(p) >= -2
    {
      DemoWalks(p, 1);
    }
  }
}
