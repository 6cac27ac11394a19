/** Prim's algorithm with a lazily cleaned priority queue. */
module Prim {
  import opened Counting
  import opened Edges
  import opened Graphs
  import opened Partition
  import opened PriorityQueues
  import opened SpanningForest

  datatype Triple = Triple(w: int, to: nat, origin: nat)

  /** The lexicographic order in which the queue hands out its entries. */
  predicate Leq(a: Triple, b: Triple) {
    a.w < b.w || (a.w == b.w && (a.to < b.to || (a.to == b.to && a.origin <= b.origin)))
  }

  lemma LeqIsTotal()
    ensures IsTotalOrder(Leq)
  {
  }

  // ---------- What the growing tree satisfies ----------

  /** mst[i] hangs order[i + 1] under a vertex that was already there. */
  ghost predicate Grows(g: Graph, order: seq<nat>, mst: seq<Edge>) {
    && |order| == |mst| + 1 && order[0] == 0 && Distinct(order)
    && (forall x :: x in order ==> x < |g|)
    && (forall i :: 0 <= i < |mst| ==>
          IsArc(g, mst[i]) && mst[i].v == order[i + 1] && mst[i].u in order[..i + 1])
  }

  /** The cut property: mst[i] was a lightest arc out of the vertices reached before it, and the
      first of the lightest in the order of the queue. */
  ghost predicate Lightest(g: Graph, order: seq<nat>, mst: seq<Edge>) {
    |order| == |mst| + 1 &&
    forall i :: 0 <= i < |mst| ==> LightestOut(g, order[..i + 1], mst[i])
  }

  ghost predicate LightestOut(g: Graph, inside: seq<nat>, best: Edge) {
    forall e :: IsArc(g, e) && e.u in inside && e.v !in inside ==>
      Leq(Triple(best.w, best.v, best.u), Triple(e.w, e.v, e.u))
  }

  /** So the search has no choice: any two of its runs agree as far as both go. */
  lemma {:induction false} SameTree(g: Graph, order: seq<nat>, mst: seq<Edge>, order': seq<nat>, mst': seq<Edge>,
                                     k: nat)
    requires Grows(g, order, mst) && Lightest(g, order, mst) && Grows(g, order', mst') && Lightest(g, order', mst')
    requires k <= |mst| && k <= |mst'|
    ensures order[..k + 1] == order'[..k + 1] && mst[..k] == mst'[..k]
    decreases k
  {
    if k > 0 {
      SameTree(g, order, mst, order', mst', k - 1);
      var inside, e, e' := order[..k], mst[k - 1], mst'[k - 1];
      assert order[..k - 1 + 1] == inside && order'[..k - 1 + 1] == inside;
      assert LightestOut(g, inside, e) && LightestOut(g, inside, e');
      assert e.v == order[k] && e'.v == order'[k] && e.v !in inside && e'.v !in inside;
      assert mst[..k] == mst[..k - 1] + [e] && mst'[..k] == mst'[..k - 1] + [e'];
      assert order[..k + 1] == inside + [e.v] && order'[..k + 1] == inside + [e'.v];
    }
  }

  lemma GrowsPrefix(g: Graph, order: seq<nat>, mst: seq<Edge>, k: nat)
    requires Grows(g, order, mst) && k <= |mst|
    ensures Grows(g, order[..k + 1], mst[..k])
  {
    var order', mst' := order[..k + 1], mst[..k];
    forall i | 0 <= i < |mst'|
      ensures IsArc(g, mst'[i]) && mst'[i].v == order'[i + 1] && mst'[i].u in order'[..i + 1]
    {
      assert order'[..i + 1] == order[..i + 1];
    }
    assert forall x :: x in order' ==> x in order;
    assert Distinct(order');
    assert |order'| == |mst'| + 1;
    assert order'[0] == 0;
  }

  /** Edges that avoid a vertex connect it to nothing. */
  lemma Isolated(V: nat, edges: seq<Edge>, e: Edge)
    requires InRange(V, edges) && e.u < V && e.v < V && e.u != e.v
    requires forall f :: f in edges ==> f.u != e.v && f.v != e.v
    ensures !Joins(V, edges, e)
  {
    hide LabelsOf;
    var mark: Labels := seq(V, i => if i == e.v then 1 else 0);
    LabelsAreFinest(V, edges, mark);
  }

  lemma {:induction false} GrowsForest(g: Graph, order: seq<nat>, mst: seq<Edge>)
    requires Grows(g, order, mst)
    ensures Forest(|g|, mst)
    ensures forall e :: e in mst ==> e.u in order && e.v in order
    decreases |mst|
  {
    if mst != [] {
      hide LabelsOf, Rank;
      var k := |mst| - 1;
      var before, last := mst[..k], mst[k];
      GrowsPrefix(g, order, mst, k);
      GrowsForest(g, order[..k + 1], before);
      assert last.v == order[k + 1] && last.v !in order[..k + 1];
      assert last.u in order && last.v in order;
      Isolated(|g|, before, last);
      ForestExtends(|g|, before, last);
      assert mst == before + [last];
    }
  }

  lemma GrowsRange(g: Graph, order: seq<nat>, mst: seq<Edge>, w: int)
    requires Grows(g, order, mst)
    ensures InRange(|g|, mst) && InRange(|g|, AtMost(mst, w))
  {
    GrowsForest(g, order, mst);
    InAtMost(mst, w);
  }

  /** Vertices reached between order[i] and order[j] by edges of weight at most w are
      connected to order[i] by edges of weight at most w. */
  lemma {:induction false} WindowJoined(g: Graph, order: seq<nat>, mst: seq<Edge>, w: int, i: nat, j: nat)
    requires Grows(g, order, mst) && Lightest(g, order, mst) && i <= j < |order|
    requires forall k :: i <= k < j ==> mst[k].w <= w
    ensures InRange(|g|, AtMost(mst, w)) && order[i] < |g| && order[j] < |g|
    ensures LabelsOf(|g|, AtMost(mst, w))[order[i]] == LabelsOf(|g|, AtMost(mst, w))[order[j]]
    decreases j
  {
    GrowsRange(g, order, mst, w);
    assert order[i] in order && order[j] in order;
    if i < j {
      var e := mst[j - 1];
      InAtMost(mst, w);
      EdgesStayInside(|g|, AtMost(mst, w));
      assert e in AtMost(mst, w) && Joins(|g|, AtMost(mst, w), e);
      var p :| 0 <= p < j && order[p] == e.u;
      if p >= i {
        WindowJoined(g, order, mst, w, i, p);
      } else {
        forall k | p <= k < i
          ensures mst[k].w <= w
        {
          ArcCrosses(g, order, mst, e, p, j, k);
        }
        WindowJoined(g, order, mst, w, p, i);
      }
    }
  }

  /** An arc from order[p] to order[j] was a candidate at every step in between. */
  lemma ArcCrosses(g: Graph, order: seq<nat>, mst: seq<Edge>, e: Edge, p: nat, j: nat, k: nat)
    requires Grows(g, order, mst) && Lightest(g, order, mst) && IsArc(g, e)
    requires p <= k < j < |order| && order[p] == e.u && order[j] == e.v
    ensures mst[k].w <= e.w
  {
    assert LightestOut(g, order[..k + 1], mst[k]);
    assert order[..k + 1][p] == e.u;
  }

  lemma ArcSpanned(g: Graph, order: seq<nat>, mst: seq<Edge>, e: Edge)
    requires Grows(g, order, mst) && Lightest(g, order, mst) && Undirected(g)
    requires IsArc(g, e) && e.u in order && e.v in order
    ensures InRange(|g|, mst) && JoinsBelow(|g|, mst, e)
  {
    GrowsRange(g, order, mst, e.w);
    var a :| 0 <= a < |order| && order[a] == e.u;
    var b :| 0 <= b < |order| && order[b] == e.v;
    if a <= b {
      forall k | a <= k < b
        ensures mst[k].w <= e.w
      {
        ArcCrosses(g, order, mst, e, a, b, k);
      }
      WindowJoined(g, order, mst, e.w, a, b);
    } else {
      forall k | b <= k < a
        ensures mst[k].w <= e.w
      {
        ArcCrosses(g, order, mst, Edge(e.v, e.u, e.w), b, a, k);
      }
      WindowJoined(g, order, mst, e.w, b, a);
    }
  }

  /** Every vertex was reached, or no arc leads from the reached ones to another. */
  ghost predicate Finished(g: Graph, order: seq<nat>) {
    |order| == |g| || forall e :: IsArc(g, e) && e.u in order ==> e.v in order
  }

  lemma {:induction false} ReachesAll(g: Graph, order: seq<nat>, walk: seq<nat>)
    requires Undirected(g) && (forall e :: IsArc(g, e) && e.u in order ==> e.v in order)
    requires IsWalk(Arcs(g), walk) && walk[0] in order
    ensures walk[|walk| - 1] in order
    decreases |walk|
  {
    if |walk| > 1 {
      assert Adjacent(Arcs(g), walk[0], walk[1]);
      forall i | 0 <= i < |walk[1..]| - 1
        ensures Adjacent(Arcs(g), walk[1..][i], walk[1..][i + 1])
      {
        assert Adjacent(Arcs(g), walk[i + 1], walk[i + 2]);
      }
      var e :| e in Arcs(g) && ((e.u == walk[0] && e.v == walk[1]) || (e.u == walk[1] && e.v == walk[0]));
      assert IsArc(g, e) && IsArc(g, Edge(e.v, e.u, e.w));
      ReachesAll(g, order, walk[1..]);
    }
  }

  // ---------- The component of vertex 0 ----------

  /** Those of the edges that lie in the component of a. */
  ghost function Around(edges: seq<Edge>, all: seq<Edge>, a: nat): seq<Edge> {
    if edges == [] then []
    else
      var before, last := Around(edges[..|edges| - 1], all, a), edges[|edges| - 1];
      if Connected(all, a, last.u) then before + [last] else before
  }

  /** The arcs of the component of vertex 0. */
  ghost function Component(g: Graph): seq<Edge> {
    Around(Arcs(g), Arcs(g), 0)
  }

  lemma {:induction false} InAround(edges: seq<Edge>, all: seq<Edge>, a: nat)
    ensures forall e :: e in Around(edges, all, a) <==> e in edges && Connected(all, a, e.u)
    decreases |edges|
  {
    hide Connected;
    if edges != [] {
      InAround(edges[..|edges| - 1], all, a);
      assert edges == edges[..|edges| - 1] + [edges[|edges| - 1]];
    }
  }

  lemma {:induction false} ReachedIsConnected(g: Graph, order: seq<nat>, mst: seq<Edge>, i: nat)
    requires Grows(g, order, mst) && i < |order|
    ensures Connected(Arcs(g), 0, order[i])
    decreases i
  {
    if i == 0 {
      assert IsWalk(Arcs(g), [0]) && [0][0] == 0;
    } else {
      var e := mst[i - 1];
      var p :| 0 <= p < i && order[p] == e.u;
      ReachedIsConnected(g, order, mst, p);
      assert Adjacent(Arcs(g), e.u, e.v);
      ConnectedAcross(Arcs(g), 0, e.u, e.v);
    }
  }

  /** What has been reached when the search ends is the component of vertex 0. */
  lemma ReachedIsComponent(g: Graph, order: seq<nat>, mst: seq<Edge>, x: nat)
    requires Undirected(g) && Grows(g, order, mst) && Finished(g, order) && x < |g|
    ensures x in order <==> Connected(Arcs(g), 0, x)
  {
    if x in order {
      var i :| 0 <= i < |order| && order[i] == x;
      ReachedIsConnected(g, order, mst, i);
    } else if Connected(Arcs(g), 0, x) {
      DistinctBelow(order, |g|);
      var walk :| IsWalk(Arcs(g), walk) && walk[0] == 0 && walk[|walk| - 1] == x;
      assert order[0] in order;
      ReachesAll(g, order, walk);
    }
  }

  /** An arc lies in the component exactly if both its ends were reached. */
  lemma ComponentArc(g: Graph, order: seq<nat>, mst: seq<Edge>, e: Edge)
    requires Undirected(g) && Grows(g, order, mst) && Finished(g, order)
    ensures e in Component(g) <==> IsArc(g, e) && e.u in order && e.v in order
  {
    hide Connected, Grows, Finished;
    InAround(Arcs(g), Arcs(g), 0);
    if IsArc(g, e) {
      ReachedIsComponent(g, order, mst, e.u);
      ReachedIsComponent(g, order, mst, e.v);
      if Connected(Arcs(g), 0, e.u) {
        assert Adjacent(Arcs(g), e.u, e.v);
        ConnectedAcross(Arcs(g), 0, e.u, e.v);
      }
    }
  }

  /** The tree spans the component, and every weight threshold of it. */
  lemma ComponentSpanned(g: Graph, order: seq<nat>, mst: seq<Edge>)
    requires Undirected(g) && Grows(g, order, mst) && Lightest(g, order, mst) && Finished(g, order)
    ensures SpanningForestOf(|g|, Component(g), mst) && SpansThresholds(|g|, Component(g), mst)
  {
    hide Finished, Component, Rank, LabelsOf, JoinsBelow, Joins;
    GrowsForest(g, order, mst);
    TreeArcs(g, order, mst);
    forall e | e in Component(g)
      ensures e.u < |g| && e.v < |g| && JoinsBelow(|g|, mst, e) && Joins(|g|, mst, e)
    {
      ComponentArc(g, order, mst, e);
      assert e.u in order && e.v in order;
      ArcSpanned(g, order, mst, e);
      JoinsBelowIsJoin(|g|, mst, e);
    }
    forall e | e in mst
      ensures e in Component(g)
    {
      ComponentArc(g, order, mst, e);
    }
  }

  lemma TreeArcs(g: Graph, order: seq<nat>, mst: seq<Edge>)
    requires Grows(g, order, mst)
    ensures forall e :: e in mst ==> IsArc(g, e)
  {
  }

  /** It is a least spanning tree of the component. */
  lemma ComponentResult(g: Graph, order: seq<nat>, mst: seq<Edge>)
    requires Undirected(g) && Grows(g, order, mst) && Lightest(g, order, mst) && Finished(g, order)
    ensures SpanningForestOf(|g|, Component(g), mst)
    ensures forall other :: SpanningForestOf(|g|, Component(g), other) ==> Weight(mst) <= Weight(other)
  {
    hide *;
    ComponentSpanned(g, order, mst);
    forall other | SpanningForestOf(|g|, Component(g), other)
      ensures Weight(mst) <= Weight(other)
    {
      MinimumBySpanningThresholds(|g|, Component(g), mst, other);
    }
  }

  /** On a connected graph the component is the whole graph. */
  lemma WholeComponent(g: Graph, e: Edge)
    requires g != [] && ConnectedGraph(|g|, Arcs(g))
    ensures e in Component(g) <==> e in Arcs(g)
  {
    InAround(Arcs(g), Arcs(g), 0);
    if e in Arcs(g) {
      assert e.u < |g|;
    }
  }

  lemma SameForests(V: nat, a: seq<Edge>, b: seq<Edge>, forest: seq<Edge>)
    requires SpanningForestOf(V, a, forest) && forall e :: e in a <==> e in b
    ensures SpanningForestOf(V, b, forest)
  {
    hide Forest, Joins;
    forall e | e in forest
      ensures Offers(b, e)
    {
      assert Offers(a, e);
    }
  }

  /** On a connected graph the tree is spanning and minimal. */
  lemma ConnectedResult(g: Graph, order: seq<nat>, mst: seq<Edge>)
    requires g != [] && Undirected(g) && Grows(g, order, mst) && Lightest(g, order, mst) && Finished(g, order)
    requires ConnectedGraph(|g|, Arcs(g))
    ensures SpanningTreeOf(|g|, Arcs(g), mst)
    ensures forall other :: SpanningForestOf(|g|, Arcs(g), other) ==> Weight(mst) <= Weight(other)
  {
    ArcsInRange(g);
    hide *;
    ComponentResult(g, order, mst);
    forall e { WholeComponent(g, e); }
    SameForests(|g|, Component(g), Arcs(g), mst);
    TreesAreSpanningForests(|g|, Arcs(g), mst);
    forall other | SpanningForestOf(|g|, Arcs(g), other)
      ensures Weight(mst) <= Weight(other)
    {
      SameForests(|g|, Arcs(g), Component(g), other);
    }
  }

  lemma ArcsInRange(g: Graph)
    requires Undirected(g)
    ensures InRange(|g|, Arcs(g))
  {
  }

  lemma JoinsBelowIsJoin(V: nat, forest: seq<Edge>, e: Edge)
    requires InRange(V, forest) && JoinsBelow(V, forest, e)
    ensures Joins(V, forest, e)
  {
    InAtMost(forest, e.w);
    JoinsMonotone(V, AtMost(forest, e.w), forest, e);
  }

  // ---------- The algorithm ----------

  /** The queue's entries are arcs out of the tree, and every arc that leaves the tree is
      among them. */
  ghost predicate QueueOk(g: Graph, order: seq<nat>, pq: multiset<Triple>) {
    && (forall t :: t in pq ==> t.origin in order && IsArc(g, Edge(t.origin, t.to, t.w)))
    && (forall e :: IsArc(g, e) && e.u in order && e.v !in order ==> Triple(e.w, e.v, e.u) in pq)
  }

  /** Taking the least entry that leaves the tree keeps the cut property. */
  lemma Extend(g: Graph, order: seq<nat>, mst: seq<Edge>, pq: multiset<Triple>, t: Triple)
    requires Undirected(g) && Grows(g, order, mst) && Lightest(g, order, mst) && QueueOk(g, order, pq)
    requires t in pq && (forall s :: s in pq ==> Leq(t, s)) && t.to !in order
    ensures Grows(g, order + [t.to], mst + [Edge(t.origin, t.to, t.w)])
    ensures Lightest(g, order + [t.to], mst + [Edge(t.origin, t.to, t.w)])
  {
    var order', mst' := order + [t.to], mst + [Edge(t.origin, t.to, t.w)];
    assert order[..|mst| + 1] == order;
    forall e | IsArc(g, e) && e.u in order && e.v !in order
      ensures Leq(t, Triple(e.w, e.v, e.u))
    {
      assert Leq(t, Triple(e.w, e.v, e.u));
    }
    assert LightestOut(g, order, Edge(t.origin, t.to, t.w));
    forall i | 0 <= i < |mst'|
      ensures IsArc(g, mst'[i]) && mst'[i].v == order'[i + 1] && mst'[i].u in order'[..i + 1]
      ensures LightestOut(g, order'[..i + 1], mst'[i])
    {
      assert order'[..i + 1] == order[..i + 1];
    }
  }

  /** The first k arcs of v that lead to unmarked vertices, with their multiplicities. */
  function Leaving(g: Graph, v: nat, marks: seq<bool>, k: nat): multiset<Triple>
    requires v < |g| == |marks| && k <= |g[v]|
  {
    if k == 0 then multiset{}
    else
      var (to, w) := g[v][k - 1];
      Leaving(g, v, marks, k - 1) + if to < |marks| && marks[to] then multiset{} else multiset{Triple(w, to, v)}
  }

  lemma {:induction false} InLeaving(g: Graph, v: nat, marks: seq<bool>, k: nat, t: Triple)
    requires v < |g| == |marks| && k <= |g[v]|
    ensures t in Leaving(g, v, marks, k) <==>
            t.origin == v && (t.to, t.w) in g[v][..k] && !(t.to < |marks| && marks[t.to])
    decreases k
  {
    if k > 0 {
      InLeaving(g, v, marks, k - 1, t);
      assert g[v][..k] == g[v][..k - 1] + [g[v][k - 1]];
      assert (t.to, t.w) in g[v][..k] <==> (t.to, t.w) in g[v][..k - 1] || (t.to, t.w) == g[v][k - 1];
      assert t == Triple(t.w, t.to, t.origin);
    }
  }

  function Unmarked(n: nat): (marks: seq<bool>)
    ensures |marks| == n && forall i :: 0 <= i < n ==> !marks[i]
  {
    seq(n, _ => false)
  }

  /** Queue every arc out of v. */
  method PushAll(g: Graph, v: nat) returns (pq: multiset<Triple>)
    requires v < |g|
    ensures pq == Leaving(g, v, Unmarked(|g|), |g[v]|)
  {
    pq := multiset{};
    for k := 0 to |g[v]|
      invariant pq == Leaving(g, v, Unmarked(|g|), k)
    {
      pq := pq + multiset{Triple(g[v][k].1, g[v][k].0, v)};
    }
  }

  /** Queue every arc from v to a vertex outside the tree. */
  method PushOutside(g: Graph, v: nat, inMst: array<bool>, before: multiset<Triple>) returns (pq: multiset<Triple>)
    requires v < |g| == inMst.Length && Undirected(g)
    ensures pq == before + Leaving(g, v, inMst[..], |g[v]|)
  {
    ArcsStay(g, v);
    pq := before;
    for k := 0 to |g[v]|
      invariant pq == before + Leaving(g, v, inMst[..], k)
    {
      if !inMst[g[v][k].0] {
        pq := pq + multiset{Triple(g[v][k].1, g[v][k].0, v)};
      }
    }
  }

  ghost predicate Marks(marks: seq<bool>, order: seq<nat>) {
    forall x :: 0 <= x < |marks| ==> (marks[x] <==> x in order)
  }

  lemma ArcsStay(g: Graph, v: nat)
    requires Undirected(g) && v < |g|
    ensures forall i :: 0 <= i < |g[v]| ==> g[v][i].0 < |g|
  {
    forall i | 0 <= i < |g[v]|
      ensures g[v][i].0 < |g|
    {
      assert IsArc(g, Edge(v, g[v][i].0, g[v][i].1));
    }
  }

  lemma QueueEntry(g: Graph, order: seq<nat>, pq: multiset<Triple>, t: Triple)
    requires Undirected(g) && QueueOk(g, order, pq) && t in pq
    ensures t.to < |g|
    ensures t.to in order ==> QueueOk(g, order, pq - multiset{t})
  {
    assert IsArc(g, Edge(t.origin, t.to, t.w));
  }

  lemma QueueStarts(g: Graph, pq: multiset<Triple>)
    requires g != [] && pq == Leaving(g, 0, Unmarked(|g|), |g[0]|)
    ensures Grows(g, [0], []) && Lightest(g, [0], []) && QueueOk(g, [0], pq)
  {
    assert g[0][..|g[0]|] == g[0];
    forall t: Triple
      ensures t in pq <==> t.origin == 0 && IsArc(g, Edge(t.origin, t.to, t.w))
    {
      InLeaving(g, 0, Unmarked(|g|), |g[0]|, t);
    }
  }

  /** The arcs out of the new vertex complete the queue. */
  lemma QueueExtends(g: Graph, order: seq<nat>, popped: multiset<Triple>, t: Triple, marks: seq<bool>,
          pq: multiset<Triple>)
    requires Undirected(g) && QueueOk(g, order, popped) && t in popped && t.to < |g| == |marks|
    requires Marks(marks, order + [t.to])
    requires pq == popped - multiset{t} + Leaving(g, t.to, marks, |g[t.to]|)
    ensures QueueOk(g, order + [t.to], pq)
  {
    hide Leaving;
    var order' := order + [t.to];
    assert g[t.to][..|g[t.to]|] == g[t.to];
    forall s | s in pq
      ensures s.origin in order' && IsArc(g, Edge(s.origin, s.to, s.w))
    {
      InLeaving(g, t.to, marks, |g[t.to]|, s);
    }
    forall e | IsArc(g, e) && e.u in order' && e.v !in order'
      ensures Triple(e.w, e.v, e.u) in pq
    {
      if e.u in order {
        assert Triple(e.w, e.v, e.u) in popped - multiset{t};
      } else {
        InLeaving(g, t.to, marks, |g[t.to]|, Triple(e.w, e.v, e.u));
      }
    }
  }

  method Prim(g: Graph) returns (mst: seq<Edge>, ghost order: seq<nat>)
    requires g != [] && Undirected(g)
    ensures SpanningForestOf(|g|, Component(g), mst)
    ensures forall other :: SpanningForestOf(|g|, Component(g), other) ==> Weight(mst) <= Weight(other)
    ensures ConnectedGraph(|g|, Arcs(g)) ==>
              && SpanningTreeOf(|g|, Arcs(g), mst)
              && forall other :: SpanningForestOf(|g|, Arcs(g), other) ==> Weight(mst) <= Weight(other)
    ensures |mst| + 1 == |g| <==> ConnectedGraph(|g|, Arcs(g))
    ensures Grows(g, order, mst) && Lightest(g, order, mst) && Finished(g, order)
  {
    hide Grows, Lightest, QueueOk, Leaving, Undirected, Component, ConnectedGraph, SpanningTreeOf, SpanningForestOf;
    hide IsTotalOrder, Leq, Finished, IsArc;
    var V := |g|;
    var inMst := new bool[V](_ => false);
    inMst[0] := true;
    var pq := PushAll(g, 0);
    mst := [];
    order := [0];
    QueueStarts(g, pq);
    while |pq| > 0 && |mst| < V - 1
      invariant inMst.Length == V && fresh(inMst)
      invariant Grows(g, order, mst) && Lightest(g, order, mst) && QueueOk(g, order, pq)
      invariant Marks(inMst[..], order)
      decreases V - |mst|, |pq|
    {
      LeqIsTotal();
      var t, rest := PopLeast(pq, Leq);
      var v := t.to;
      QueueEntry(g, order, pq, t);
      ghost var popped := pq;
      pq := rest;
      if inMst[v] {
        continue;
      }
      Extend(g, order, mst, popped, t);
      inMst[v] := true;
      mst := mst + [Edge(t.origin, v, t.w)];
      pq := PushOutside(g, v, inMst, pq);
      QueueExtends(g, order, popped, t, inMst[..], pq);
      order := order + [v];
    }
    PrimResult(g, order, mst, pq);
  }

  lemma PrimResult(g: Graph, order: seq<nat>, mst: seq<Edge>, pq: multiset<Triple>)
    requires g != [] && Undirected(g) && Grows(g, order, mst) && Lightest(g, order, mst) && QueueOk(g, order, pq)
    requires |pq| == 0 || |mst| >= |g| - 1
    ensures SpanningForestOf(|g|, Component(g), mst)
    ensures forall other :: SpanningForestOf(|g|, Component(g), other) ==> Weight(mst) <= Weight(other)
    ensures ConnectedGraph(|g|, Arcs(g)) ==>
              && SpanningTreeOf(|g|, Arcs(g), mst)
              && forall other :: SpanningForestOf(|g|, Arcs(g), other) ==> Weight(mst) <= Weight(other)
    ensures |mst| + 1 == |g| <==> ConnectedGraph(|g|, Arcs(g))
    ensures Finished(g, order)
  {
    hide *;
    SearchEnds(g, order, mst, pq);
    ComponentResult(g, order, mst);
    if ConnectedGraph(|g|, Arcs(g)) {
      ConnectedResult(g, order, mst);
      TreeSize(|g|, Arcs(g), mst);
    }
    if |mst| + 1 == |g| {
      GrowsForest(g, order, mst);
      TreeArcs(g, order, mst);
      ArcsInRange(g);
      FullTreeConnects(|g|, mst, Arcs(g));
    }
  }

  lemma SearchEnds(g: Graph, order: seq<nat>, mst: seq<Edge>, pq: multiset<Triple>)
    requires Grows(g, order, mst) && QueueOk(g, order, pq) && (|pq| == 0 || |mst| >= |g| - 1)
    ensures Finished(g, order)
  {
    DistinctBelow(order, |g|);
  }

  lemma TreeSize(V: nat, graph: seq<Edge>, tree: seq<Edge>)
    requires SpanningTreeOf(V, graph, tree)
    ensures |tree| + 1 == V
  {
  }

  /** A forest with one edge less than there are vertices connects them all. */
  lemma FullTreeConnects(V: nat, mst: seq<Edge>, edges: seq<Edge>)
    requires V > 0 && InRange(V, edges) && Forest(V, mst) && |mst| + 1 == V
    requires forall e :: e in mst ==> e in edges
    ensures ConnectedGraph(V, edges)
  {
    assert InRange(V, mst);
    hide LabelsOf, Rank, InRange;
    RankCountsBlocks(V, mst);
    OneBlock(V, LabelsOf(V, mst));
    EdgesStayInside(V, edges);
    Refines(V, mst, edges);
    forall a, b | 0 <= a < V && 0 <= b < V
      ensures Connected(edges, a, b)
    {
      LabelsAreConnectivity(V, edges, a, b);
    }
  }
}
