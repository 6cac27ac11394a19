/** What Dijkstra's loop keeps.

    For weights of any sign: distances are weights of walks that stay below INF, every finite
    vertex waits in the queue under its distance or has relaxed its arcs, and each turn is
    paid for by a smaller distance. Without negative weights, moreover, no entry is nearer
    than a vertex that was expanded, so every vertex is expanded once and every turn is paid
    for by an arc. */
module DijkstraInvariant {
  import opened Counting
  import opened Edges
  import opened Graphs
  import opened PriorityQueues
  import opened Walks

  /** A queue entry; the queue is ordered by distance, then by vertex. */
  datatype Item = Item(d: int, v: nat)

  predicate Leq(a: Item, b: Item) {
    a.d < b.d || (a.d == b.d && a.v <= b.v)
  }

  lemma LeqIsTotal()
    ensures IsTotalOrder(Leq)
  {
  }

  ghost predicate NonNegative(g: Graph) {
    forall e :: IsArc(g, e) ==> e.w >= 0
  }

  /** Arc k of a vertex. */
  function ArcAt(g: Graph, u: nat, k: nat): Edge
    requires u < |g| && k < |g[u]|
  {
    Edge(u, g[u][k].0, g[u][k].1)
  }

  predicate Shorter(dist: seq<int>, e: Edge)
    requires e.u < |dist| && e.v < |dist|
  {
    dist[e.u] + e.w < dist[e.v]
  }

  // ---------- Distances ----------

  /** The walk and all its beginnings weigh less than INF. */
  ghost predicate IsLow(p: seq<Edge>) {
    p == [] || (Weight(p) < INF && IsLow(p[..|p| - 1]))
  }

  ghost predicate LowWalk(edges: seq<Edge>, p: seq<Edge>, a: nat, b: nat) {
    IsWalk(edges, p, a, b) && IsLow(p)
  }

  lemma LowStep(edges: seq<Edge>, p: seq<Edge>, a: nat, e: Edge)
    requires LowWalk(edges, p, a, e.u) && e in edges && Weight(p) + e.w < INF
    ensures LowWalk(edges, p + [e], a, e.v) && Weight(p + [e]) == Weight(p) + e.w
  {
    assert (p + [e])[..|p + [e]| - 1] == p;
  }

  ghost predicate LowAt(edges: seq<Edge>, start: nat, v: nat, x: int) {
    x <= INF && (x < INF ==> exists p :: LowWalk(edges, p, start, v) && Weight(p) == x)
  }

  /** dist[v] is INF, or the weight of a low walk to v. */
  ghost predicate Sound(g: Graph, start: nat, dist: seq<int>) {
    && |dist| == |g| && start < |g| && dist[start] <= 0
    && forall v :: 0 <= v < |g| ==> LowAt(Arcs(g), start, v, dist[v])
  }

  lemma SoundAtStart(g: Graph, start: nat, dist: seq<int>)
    requires start < |g| == |dist| && forall v :: 0 <= v < |g| ==> dist[v] == if v == start then 0 else INF
    ensures Sound(g, start, dist)
  {
    assert LowWalk(Arcs(g), [], start, start) && Weight([]) == 0;
  }

  lemma RelaxSound(g: Graph, start: nat, dist: seq<int>, e: Edge)
    requires Sound(g, start, dist) && IsArc(g, e) && e.v < |g| && Shorter(dist, e) && dist[e.u] < INF
    ensures Sound(g, start, dist[e.v := dist[e.u] + e.w]) && dist[e.v] <= INF
  {
    var edges, x := Arcs(g), dist[e.u] + e.w;
    assert LowAt(edges, start, e.u, dist[e.u]) && LowAt(edges, start, e.v, dist[e.v]);
    hide LowWalk, Weight, IsArc;
    var p :| LowWalk(edges, p, start, e.u) && Weight(p) == dist[e.u];
    LowStep(edges, p, start, e);
    assert LowAt(edges, start, e.v, x);
  }

  // ---------- Finite vertices wait or have relaxed their arcs ----------

  /** The first k arcs of v lead nowhere nearer. */
  ghost predicate ArcsRelaxed(g: Graph, dist: seq<int>, v: nat, k: nat) {
    v < |g| == |dist| && forall j :: 0 <= j < k && j < |g[v]| ==>
      g[v][j].0 < |g| && dist[g[v][j].0] <= dist[v] + g[v][j].1
  }

  /** The vertex u has come to its k-th arc. */
  ghost predicate SettledBut(g: Graph, dist: seq<int>, pq: multiset<Item>, u: nat, k: nat) {
    |dist| == |g| && forall v :: 0 <= v < |g| && dist[v] < INF ==>
      Item(dist[v], v) in pq || ArcsRelaxed(g, dist, v, if v == u then k else |g[v]|)
  }

  ghost predicate Settled(g: Graph, dist: seq<int>, pq: multiset<Item>) {
    |dist| == |g| && forall v :: 0 <= v < |g| && dist[v] < INF ==>
      Item(dist[v], v) in pq || ArcsRelaxed(g, dist, v, |g[v]|)
  }

  /** Entries are never nearer than their vertices. */
  ghost predicate Entries(g: Graph, dist: seq<int>, pq: multiset<Item>) {
    |dist| == |g| && forall t :: t in pq ==> t.v < |g| && dist[t.v] <= t.d < INF
  }

  lemma SkipStale(g: Graph, dist: seq<int>, pq: multiset<Item>, t: Item)
    requires Settled(g, dist, pq) && Entries(g, dist, pq) && t in pq && t.v < |g| && t.d > dist[t.v]
    ensures Settled(g, dist, pq - multiset{t}) && Entries(g, dist, pq - multiset{t})
  {
  }

  lemma PopNearest(g: Graph, dist: seq<int>, pq: multiset<Item>, t: Item)
    requires Settled(g, dist, pq) && Entries(g, dist, pq) && t in pq && t.v < |g| && t.d <= dist[t.v]
    ensures SettledBut(g, dist, pq - multiset{t}, t.v, 0) && Entries(g, dist, pq - multiset{t})
    ensures dist[t.v] == t.d < INF
  {
    forall v | 0 <= v < |g| && dist[v] < INF && v != t.v && Item(dist[v], v) in pq
      ensures Item(dist[v], v) in pq - multiset{t}
    {
    }
  }

  lemma AllArcsDone(g: Graph, dist: seq<int>, pq: multiset<Item>, u: nat)
    requires u < |g| && SettledBut(g, dist, pq, u, |g[u]|)
    ensures Settled(g, dist, pq)
  {
  }

  lemma NotShorter(g: Graph, dist: seq<int>, pq: multiset<Item>, u: nat, k: nat)
    requires SettledBut(g, dist, pq, u, k) && u < |g| && k < |g[u]|
    requires ArcAt(g, u, k).v < |g| && !Shorter(dist, ArcAt(g, u, k))
    ensures SettledBut(g, dist, pq, u, k + 1)
  {
  }

  /** A shorter way to e.v puts e.v into the queue and keeps all that was relaxed. */
  lemma RelaxSettled(g: Graph, dist: seq<int>, pq: multiset<Item>, u: nat, k: nat, e: Edge)
    requires SettledBut(g, dist, pq, u, k) && u < |g| && k < |g[u]|
    requires e == ArcAt(g, u, k) && e.v < |g| && Shorter(dist, e)
    ensures SettledBut(g, dist[e.v := dist[e.u] + e.w], pq + multiset{Item(dist[e.u] + e.w, e.v)}, u, k + 1)
  {
    var dist', t := dist[e.v := dist[e.u] + e.w], Item(dist[e.u] + e.w, e.v);
    forall v | 0 <= v < |g| && dist'[v] < INF
      ensures Item(dist'[v], v) in pq + multiset{t} || ArcsRelaxed(g, dist', v, if v == u then k + 1 else |g[v]|)
    {
      if v != e.v && Item(dist[v], v) !in pq {
        assert ArcsRelaxed(g, dist, v, if v == u then k else |g[v]|);
      }
    }
  }

  lemma RelaxEntries(g: Graph, dist: seq<int>, pq: multiset<Item>, e: Edge)
    requires Entries(g, dist, pq) && e.u < |g| && e.v < |g| && Shorter(dist, e) && dist[e.v] <= INF
    ensures Entries(g, dist[e.v := dist[e.u] + e.w], pq + multiset{Item(dist[e.u] + e.w, e.v)})
  {
  }

  // ---------- Turns are paid for ----------

  function Total(dist: seq<int>): int {
    if dist == [] then 0 else Total(dist[..|dist| - 1]) + dist[|dist| - 1]
  }

  lemma {:induction false} TotalAt(dist: seq<int>, v: nat, x: int)
    requires v < |dist|
    ensures Total(dist[v := x]) == Total(dist) - dist[v] + x
    decreases |dist|
  {
    var n := |dist| - 1;
    if v < n {
      TotalAt(dist[..n], v, x);
      assert dist[v := x][..n] == dist[..n][v := x];
    } else {
      assert dist[v := x][..n] == dist[..n];
    }
  }

  lemma {:induction false} TotalBounds(dist: seq<int>, low: int, high: int)
    requires forall v :: 0 <= v < |dist| ==> low <= dist[v] <= high
    ensures |dist| * low <= Total(dist) <= |dist| * high
    decreases |dist|
  {
    if dist != [] {
      var n := |dist| - 1;
      TotalBounds(dist[..n], low, high);
      assert (n + 1) * low == n * low + low && (n + 1) * high == n * high + high;
    }
  }

  /** Turns taken and entries waiting are at most one more than the distances have shrunk. */
  ghost predicate Paid(dist: seq<int>, pq: multiset<Item>, turns: nat) {
    turns + |pq| <= 1 + |dist| * INF - Total(dist)
  }

  lemma PaidAtStart(dist: seq<int>, t: Item)
    requires forall v :: 0 <= v < |dist| ==> dist[v] <= INF
    ensures Paid(dist, multiset{t}, 0)
  {
    var least := Least(dist);
    TotalBounds(dist, least, INF);
  }

  function Least(dist: seq<int>): (x: int)
    ensures forall v :: 0 <= v < |dist| ==> x <= dist[v]
  {
    if dist == [] then 0
    else
      var x := Least(dist[..|dist| - 1]);
      if dist[|dist| - 1] < x then dist[|dist| - 1] else x
  }

  lemma RelaxPaid(dist: seq<int>, pq: multiset<Item>, turns: nat, e: Edge, t: Item)
    requires Paid(dist, pq, turns) && e.u < |dist| && e.v < |dist| && Shorter(dist, e)
    ensures Paid(dist[e.v := dist[e.u] + e.w], pq + multiset{t}, turns)
  {
    TotalAt(dist, e.v, dist[e.u] + e.w);
    assert |pq + multiset{t}| == |pq| + 1;
    assert |dist[e.v := dist[e.u] + e.w]| * INF == |dist| * INF;
  }

  // ---------- Without negative weights: every vertex is expanded once ----------

  /** Finite vertices wait in the queue under their distance until they are expanded; every
      other entry of the queue is stale. */
  ghost predicate QueueOk(g: Graph, dist: seq<int>, order: seq<nat>, pq: multiset<Item>)
    requires |dist| == |g|
  {
    && (forall v :: 0 <= v < |g| && dist[v] < INF && v !in order ==> Item(dist[v], v) in pq)
    && (forall t :: t in pq ==> t.v < |g| && dist[t.v] <= t.d < INF && pq[t] == 1)
    && (forall t :: t in pq && t.v in order ==> dist[t.v] < t.d)
    && (forall x, t :: x in order && t in pq ==> x < |g| && dist[x] <= t.d)
  }

  /** Vertices are expanded once, at a finite distance, the farthest one last. */
  ghost predicate OrderOk(g: Graph, dist: seq<int>, order: seq<nat>)
    requires |dist| == |g|
  {
    && Distinct(order)
    && (forall x :: x in order ==> x < |g| && dist[x] < INF)
    && (order != [] ==> order[|order| - 1] < |g| && forall x :: x in order ==> dist[x] <= dist[order[|order| - 1]])
  }

  /** How many arcs leave the vertices. */
  function Degrees(g: Graph, order: seq<nat>): nat {
    if order == [] then 0
    else
      var v := order[|order| - 1];
      Degrees(g, order[..|order| - 1]) + if v < |g| then |g[v]| else 0
  }

  lemma {:induction false} DegreesWithout(g: Graph, order: seq<nat>, k: nat)
    requires k < |order| && order[k] < |g|
    ensures Degrees(g, order) == Degrees(g, Without(order, k)) + |g[order[k]]|
    decreases |order|
  {
    var n := |order| - 1;
    if k < n {
      DegreesWithout(g, order[..n], k);
      assert Without(order, k)[..|Without(order, k)| - 1] == Without(order[..n], k);
    } else {
      assert Without(order, k) == order[..n];
    }
  }

  lemma WithoutLargest(order: seq<nat>, k: nat)
    requires k < |order| && Distinct(order) && forall x :: x in order ==> x <= order[k]
    ensures Distinct(Without(order, k)) && forall x :: x in Without(order, k) ==> x < order[k]
  {
    var rest := Without(order, k);
    forall i | 0 <= i < |rest|
      ensures rest[i] == order[if i < k then i else i + 1] && rest[i] < order[k]
    {
      assert order[if i < k then i else i + 1] in order;
    }
  }

  /** Distinct vertices have no more arcs than the graph. */
  lemma {:induction false} DegreesBelow(g: Graph, order: seq<nat>, n: nat)
    requires Distinct(order) && n <= |g| && forall x :: x in order ==> x < n
    ensures Degrees(g, order) <= |Arcs(g[..n])|
    decreases n
  {
    if n == 0 {
      DistinctBelow(order, n);
    } else {
      assert g[..n][..n - 1] == g[..n - 1];
      if n - 1 in order {
        var k :| 0 <= k < |order| && order[k] == n - 1;
        DegreesWithout(g, order, k);
        WithoutLargest(order, k);
        DegreesBelow(g, Without(order, k), n - 1);
      } else {
        DegreesBelow(g, order, n - 1);
      }
    }
  }

  /** Turns taken and entries waiting are at most one more than the arcs looked at, which are
      all arcs of the vertices expanded ... */
  ghost predicate Once(g: Graph, dist: seq<int>, order: seq<nat>, pq: multiset<Item>, turns: nat) {
    |dist| == |g| && QueueOk(g, dist, order, pq) && OrderOk(g, dist, order) && turns + |pq| <= 1 + Degrees(g, order)
  }

  /** ... but only k arcs of the last one, u. */
  ghost predicate Expanding(g: Graph, dist: seq<int>, order: seq<nat>, pq: multiset<Item>, turns: nat, u: nat, k: nat) {
    && |dist| == |g| && QueueOk(g, dist, order, pq) && OrderOk(g, dist, order)
    && order != [] && order[|order| - 1] == u
    && turns + |pq| <= 1 + Degrees(g, order[..|order| - 1]) + k
  }

  lemma OnceAtStart(g: Graph, start: nat, dist: seq<int>)
    requires start < |g| == |dist| && forall v :: 0 <= v < |g| ==> dist[v] == if v == start then 0 else INF
    ensures Once(g, dist, [], multiset{Item(0, start)}, 0)
  {
  }

  lemma SkipOnce(g: Graph, dist: seq<int>, order: seq<nat>, pq: multiset<Item>, turns: nat, t: Item)
    requires Once(g, dist, order, pq, turns) && t in pq && t.v < |g| && t.d > dist[t.v]
    ensures Once(g, dist, order, pq - multiset{t}, turns + 1)
  {
  }

  /** Popping an entry that is not stale. */
  ghost predicate Pops(g: Graph, dist: seq<int>, pq: multiset<Item>, t: Item)
    requires |dist| == |g|
  {
    t in pq && (forall s :: s in pq ==> Leq(t, s)) && t.v < |g| && t.d <= dist[t.v]
  }

  /** A least entry that is not stale belongs to a vertex not expanded yet. */
  lemma ExpandOnce(g: Graph, dist: seq<int>, order: seq<nat>, pq: multiset<Item>, turns: nat, t: Item)
    requires Once(g, dist, order, pq, turns) && Pops(g, dist, pq, t)
    ensures Expanding(g, dist, order + [t.v], pq - multiset{t}, turns + 1, t.v, 0)
  {
    hide QueueOk, OrderOk, Pops;
    ExpandQueue(g, dist, order, pq, t);
    ExpandOrder(g, dist, order, pq, t);
    assert (order + [t.v])[..|order|] == order;
  }

  lemma PopsFresh(g: Graph, dist: seq<int>, order: seq<nat>, pq: multiset<Item>, t: Item)
    requires |dist| == |g| && QueueOk(g, dist, order, pq) && Pops(g, dist, pq, t)
    ensures t in pq && t.v < |g| && t.v !in order && dist[t.v] == t.d < INF && (pq - multiset{t})[t] == 0
  {
  }

  /** What is left in the queue after t has been popped and its vertex expanded. */
  lemma EntryLeft(g: Graph, dist: seq<int>, order: seq<nat>, pq: multiset<Item>, t: Item, s: Item)
    requires |dist| == |g| && QueueOk(g, dist, order, pq) && Pops(g, dist, pq, t) && s in pq - multiset{t}
    ensures s.v < |g| && dist[s.v] <= s.d < INF && (pq - multiset{t})[s] == 1
    ensures s.v in order + [t.v] ==> dist[s.v] < s.d
    ensures forall x :: x in order + [t.v] ==> x < |g| && dist[x] <= s.d
  {
    PopsFresh(g, dist, order, pq, t);
    assert s in pq && s != t && Leq(t, s);
  }

  lemma ExpandQueue(g: Graph, dist: seq<int>, order: seq<nat>, pq: multiset<Item>, t: Item)
    requires |dist| == |g| && QueueOk(g, dist, order, pq) && Pops(g, dist, pq, t)
    ensures t in pq && t.v < |g| && t.v !in order && dist[t.v] == t.d < INF
    ensures QueueOk(g, dist, order + [t.v], pq - multiset{t})
  {
    PopsFresh(g, dist, order, pq, t);
    hide Pops, Leq;
    var order', pq' := order + [t.v], pq - multiset{t};
    forall v | 0 <= v < |g| && dist[v] < INF && v !in order'
      ensures Item(dist[v], v) in pq'
    {
      assert v !in order && v != t.v;
    }
    EntriesLeft(g, dist, order, pq, t);
  }

  lemma EntriesLeft(g: Graph, dist: seq<int>, order: seq<nat>, pq: multiset<Item>, t: Item)
    requires |dist| == |g| && QueueOk(g, dist, order, pq) && Pops(g, dist, pq, t)
    ensures forall s :: s in pq - multiset{t} ==>
              && s.v < |g| && dist[s.v] <= s.d < INF && (pq - multiset{t})[s] == 1
              && (s.v in order + [t.v] ==> dist[s.v] < s.d)
              && forall x :: x in order + [t.v] ==> x < |g| && dist[x] <= s.d
  {
    hide QueueOk, Pops;
    forall s | s in pq - multiset{t}
      ensures s.v < |g| && dist[s.v] <= s.d < INF && (pq - multiset{t})[s] == 1
      ensures s.v in order + [t.v] ==> dist[s.v] < s.d
      ensures forall x :: x in order + [t.v] ==> x < |g| && dist[x] <= s.d
    {
      EntryLeft(g, dist, order, pq, t, s);
    }
  }

  lemma ExpandOrder(g: Graph, dist: seq<int>, order: seq<nat>, pq: multiset<Item>, t: Item)
    requires |dist| == |g| && QueueOk(g, dist, order, pq) && OrderOk(g, dist, order) && Pops(g, dist, pq, t)
    requires t.v !in order && dist[t.v] == t.d < INF
    ensures OrderOk(g, dist, order + [t.v])
  {
    assert forall x :: x in order ==> x < |g| && dist[x] <= t.d;
  }

  /** Relaxing its arcs leaves the expanded vertices alone. */
  lemma RelaxOnce(g: Graph, dist: seq<int>, order: seq<nat>, pq: multiset<Item>, turns: nat, e: Edge, k: nat)
    requires Expanding(g, dist, order, pq, turns, e.u, k) && e.u < |g| && e.v < |g| && e.w >= 0
    requires Shorter(dist, e) && dist[e.v] <= INF
    ensures Expanding(g, dist[e.v := dist[e.u] + e.w], order, pq + multiset{Item(dist[e.u] + e.w, e.v)}, turns,
              e.u, k + 1)
  {
    hide QueueOk;
    assert e.v !in order;
    RelaxQueue(g, dist, order, pq, e);
    assert e.u in order;
  }

  lemma NextArc(g: Graph, dist: seq<int>, order: seq<nat>, pq: multiset<Item>, turns: nat, u: nat, k: nat)
    requires Expanding(g, dist, order, pq, turns, u, k)
    ensures Expanding(g, dist, order, pq, turns, u, k + 1)
  {
  }

  lemma Expanded(g: Graph, dist: seq<int>, order: seq<nat>, pq: multiset<Item>, turns: nat, u: nat)
    requires u < |g| && Expanding(g, dist, order, pq, turns, u, |g[u]|)
    ensures Once(g, dist, order, pq, turns)
  {
  }

  /** An entry of the queue after the vertex e.v has come closer. */
  lemma RelaxEntry(g: Graph, dist: seq<int>, order: seq<nat>, pq: multiset<Item>, e: Edge, s: Item)
    requires |dist| == |g| && QueueOk(g, dist, order, pq) && e.u < |g| && e.v < |g| && e.w >= 0
    requires Shorter(dist, e) && dist[e.v] <= INF && (forall x :: x in order ==> x < |g| && dist[x] <= dist[e.u])
    requires e.v !in order && (s in pq || s == Item(dist[e.u] + e.w, e.v))
    ensures var dist' := dist[e.v := dist[e.u] + e.w];
            && s.v < |g| && dist'[s.v] <= s.d < INF && (s.v in order ==> dist'[s.v] < s.d)
            && forall x :: x in order ==> x < |g| && dist'[x] <= s.d
  {
  }

  /** The new entry is not in the queue yet: an old one for e.v is farther away. */
  lemma NewEntry(g: Graph, dist: seq<int>, order: seq<nat>, pq: multiset<Item>, e: Edge)
    requires |dist| == |g| && QueueOk(g, dist, order, pq) && e.u < |g| && e.v < |g| && Shorter(dist, e)
    ensures var t := Item(dist[e.u] + e.w, e.v);
            t !in pq && forall s :: s in pq + multiset{t} ==> (pq + multiset{t})[s] == 1 && (s in pq || s == t)
  {
  }

  lemma RelaxQueue(g: Graph, dist: seq<int>, order: seq<nat>, pq: multiset<Item>, e: Edge)
    requires |dist| == |g| && QueueOk(g, dist, order, pq) && e.u < |g| && e.v < |g| && e.w >= 0
    requires Shorter(dist, e) && dist[e.v] <= INF && (forall x :: x in order ==> x < |g| && dist[x] <= dist[e.u])
    requires e.v !in order
    ensures QueueOk(g, dist[e.v := dist[e.u] + e.w], order, pq + multiset{Item(dist[e.u] + e.w, e.v)})
  {
    NewEntry(g, dist, order, pq, e);
    var dist', t := dist[e.v := dist[e.u] + e.w], Item(dist[e.u] + e.w, e.v);
    forall v | 0 <= v < |g| && dist'[v] < INF && v !in order
      ensures Item(dist'[v], v) in pq + multiset{t}
    {
    }
    EntriesRelaxed(g, dist, order, pq, e);
  }

  lemma EntriesRelaxed(g: Graph, dist: seq<int>, order: seq<nat>, pq: multiset<Item>, e: Edge)
    requires |dist| == |g| && QueueOk(g, dist, order, pq) && e.u < |g| && e.v < |g| && e.w >= 0
    requires Shorter(dist, e) && dist[e.v] <= INF && (forall x :: x in order ==> x < |g| && dist[x] <= dist[e.u])
    requires e.v !in order
    ensures var dist' := dist[e.v := dist[e.u] + e.w];
            forall s :: s in pq || s == Item(dist[e.u] + e.w, e.v) ==>
              && s.v < |g| && dist'[s.v] <= s.d < INF && (s.v in order ==> dist'[s.v] < s.d)
              && forall x :: x in order ==> x < |g| && dist'[x] <= s.d
  {
    hide QueueOk;
    var dist' := dist[e.v := dist[e.u] + e.w];
    forall s | s in pq || s == Item(dist[e.u] + e.w, e.v)
      ensures s.v < |g| && dist'[s.v] <= s.d < INF && (s.v in order ==> dist'[s.v] < s.d)
      ensures forall x :: x in order ==> x < |g| && dist'[x] <= s.d
    {
      RelaxEntry(g, dist, order, pq, e, s);
    }
  }
}
