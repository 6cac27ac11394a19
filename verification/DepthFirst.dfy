/** Depth-first search: the explicit stack visits in the order of the recursion. */
module DepthFirst {
  import opened Counting
  import opened Edges
  import opened Graphs
  import Partition
  import opened Walks

  /** The neighbours of u in list order. */
  function Neighbours(g: Graph, u: nat): (ns: seq<nat>)
    requires u < |g|
    ensures |ns| == |g[u]| && forall i :: 0 <= i < |ns| ==> ns[i] == g[u][i].0
  {
    seq(|g[u]|, i requires 0 <= i < |g[u]| => g[u][i].0)
  }

  ghost predicate InGraph(g: Graph, vs: seq<nat>) {
    forall i :: 0 <= i < |vs| ==> vs[i] < |g|
  }

  lemma NeighboursInGraph(g: Graph, u: nat)
    requires WellFormed(g) && u < |g|
    ensures InGraph(g, Neighbours(g, u))
  {
    forall i | 0 <= i < |g[u]|
      ensures Neighbours(g, u)[i] < |g|
    {
      EntryIsArc(g, u, i);
    }
  }

  /** The vertices of the graph outside `visited`. */
  function Unvisited(g: Graph, visited: set<nat>): set<nat> {
    Below(|g|) - visited
  }

  lemma Shrinks(g: Graph, visited: set<nat>, more: set<nat>)
    ensures |Unvisited(g, visited + more)| <= |Unvisited(g, visited)|
    ensures (exists u :: u in more && u !in visited && u < |g|) ==>
              |Unvisited(g, visited + more)| < |Unvisited(g, visited)|
  {
    var a, b := Unvisited(g, visited), Unvisited(g, visited + more);
    assert a == b + (a - b);
    if u :| u in more && u !in visited && u < |g| {
      assert u in a - b;
    }
  }

  // ---------- The recursive order ----------

  /** The vertices visited by a recursive search from u, in order. */
  ghost function Visit(g: Graph, u: nat, visited: set<nat>): (order: seq<nat>)
    requires WellFormed(g) && u < |g| && u !in visited
    ensures order != [] && order[0] == u
    decreases |Unvisited(g, visited)|, 0
  {
    Shrinks(g, visited, {u});
    NeighboursInGraph(g, u);
    [u] + VisitAll(g, Neighbours(g, u), visited + {u})
  }

  /** ... and by the loop over the vertices vs. */
  ghost function VisitAll(g: Graph, vs: seq<nat>, visited: set<nat>): (order: seq<nat>)
    requires WellFormed(g) && InGraph(g, vs)
    decreases |Unvisited(g, visited)|, |vs| + 1
  {
    if vs == [] then []
    else if vs[0] in visited then VisitAll(g, vs[1..], visited)
    else
      var order := Visit(g, vs[0], visited);
      Shrinks(g, visited, Members(order));
      order + VisitAll(g, vs[1..], visited + Members(order))
  }

  // ---------- The stack order ----------

  /** The vertices visited by working off a stack, its top first. */
  ghost function WorkOff(g: Graph, stack: seq<nat>, visited: set<nat>): (order: seq<nat>)
    requires WellFormed(g) && InGraph(g, stack)
    decreases |Unvisited(g, visited)|, |stack|
  {
    if stack == [] then []
    else if stack[0] in visited then WorkOff(g, stack[1..], visited)
    else
      Shrinks(g, visited, {stack[0]});
      NeighboursInGraph(g, stack[0]);
      [stack[0]] + WorkOff(g, Neighbours(g, stack[0]) + stack[1..], visited + {stack[0]})
  }

  lemma MembersConcat(a: seq<nat>, b: seq<nat>, visited: set<nat>)
    ensures visited + Members(a) + Members(b) == visited + Members(a + b)
  {
  }

  /** One unvisited vertex on top. */
  lemma WorkOffTop(g: Graph, u: nat, rest: seq<nat>, visited: set<nat>)
    requires WellFormed(g) && u < |g| && InGraph(g, rest) && u !in visited
    ensures InGraph(g, Neighbours(g, u))
    ensures WorkOff(g, [u] + rest, visited) == [u] + WorkOff(g, Neighbours(g, u) + rest, visited + {u})
  {
    NeighboursInGraph(g, u);
    assert ([u] + rest)[1..] == rest;
  }

  lemma VisitAllTop(g: Graph, u: nat, vs: seq<nat>, visited: set<nat>)
    requires WellFormed(g) && u < |g| && InGraph(g, vs)
    ensures u in visited ==> VisitAll(g, [u] + vs, visited) == VisitAll(g, vs, visited)
    ensures u !in visited ==>
              VisitAll(g, [u] + vs, visited) ==
              Visit(g, u, visited) + VisitAll(g, vs, visited + Members(Visit(g, u, visited)))
  {
    assert ([u] + vs)[1..] == vs;
  }

  lemma VisitIs(g: Graph, u: nat, visited: set<nat>)
    requires WellFormed(g) && u < |g| && u !in visited
    ensures InGraph(g, Neighbours(g, u))
    ensures Visit(g, u, visited) == [u] + VisitAll(g, Neighbours(g, u), visited + {u})
    ensures visited + Members(Visit(g, u, visited)) ==
            visited + {u} + Members(VisitAll(g, Neighbours(g, u), visited + {u}))
  {
    NeighboursInGraph(g, u);
    MembersConcat([u], VisitAll(g, Neighbours(g, u), visited + {u}), visited);
    assert Members([u]) == {u};
  }

  /** The induction step of WorkOffSplits for an unvisited top. */
  lemma TopSplits(g: Graph, u: nat, vs: seq<nat>, rest: seq<nat>, visited: set<nat>, below: seq<nat>, later: seq<nat>)
    requires WellFormed(g) && u < |g| && InGraph(g, vs) && InGraph(g, rest) && u !in visited
    requires InGraph(g, Neighbours(g, u)) && below == VisitAll(g, Neighbours(g, u), visited + {u})
    requires later == VisitAll(g, vs, visited + Members(Visit(g, u, visited)))
    requires WorkOff(g, Neighbours(g, u) + (vs + rest), visited + {u}) ==
             below + WorkOff(g, vs + rest, visited + {u} + Members(below))
    requires WorkOff(g, vs + rest, visited + Members(Visit(g, u, visited))) ==
             later + WorkOff(g, rest, visited + Members(Visit(g, u, visited)) + Members(later))
    ensures WorkOff(g, [u] + (vs + rest), visited) ==
            VisitAll(g, [u] + vs, visited) + WorkOff(g, rest, visited + Members(VisitAll(g, [u] + vs, visited)))
  {
    hide WorkOff, VisitAll, Visit;
    VisitIs(g, u, visited);
    WorkOffTop(g, u, vs + rest, visited);
    VisitAllTop(g, u, vs, visited);
    MembersConcat(Visit(g, u, visited), later, visited);
  }

  /** Working off the upper part of a stack is a recursive search through it. */
  lemma {:induction false} WorkOffSplits(g: Graph, vs: seq<nat>, rest: seq<nat>, visited: set<nat>)
    requires WellFormed(g) && InGraph(g, vs) && InGraph(g, rest)
    ensures WorkOff(g, vs + rest, visited) ==
            VisitAll(g, vs, visited) + WorkOff(g, rest, visited + Members(VisitAll(g, vs, visited)))
    decreases |Unvisited(g, visited)|, |vs|
  {
    hide WorkOff, VisitAll, Visit, Unvisited;
    if vs == [] {
      assert vs + rest == rest;
      VisitNothing(g, vs, visited);
      assert visited + Members([]) == visited;
    } else if vs[0] in visited {
      assert vs == [vs[0]] + vs[1..] && vs + rest == [vs[0]] + (vs[1..] + rest);
      WorkOffStale(g, vs[0], vs[1..] + rest, visited);
      VisitAllTop(g, vs[0], vs[1..], visited);
      WorkOffSplits(g, vs[1..], rest, visited);
    } else {
      var u, vs' := vs[0], vs[1..];
      VisitIs(g, u, visited);
      var ns, order := Neighbours(g, u), Visit(g, u, visited);
      Shrinks(g, visited, {u});
      Shrinks(g, visited, Members(order));
      WorkOffSplits(g, ns, vs' + rest, visited + {u});
      WorkOffSplits(g, vs', rest, visited + Members(order));
      TopSplits(g, u, vs', rest, visited, VisitAll(g, ns, visited + {u}), VisitAll(g, vs', visited + Members(order)));
      assert vs == [u] + vs' && vs + rest == [u] + (vs' + rest);
    }
  }

  // ---------- Leaving out visited entries ----------

  function Fresh(stack: seq<nat>, visited: set<nat>): (r: seq<nat>) {
    if stack == [] then []
    else if stack[0] in visited then Fresh(stack[1..], visited)
    else [stack[0]] + Fresh(stack[1..], visited)
  }

  lemma {:induction false} FreshConcat(a: seq<nat>, b: seq<nat>, visited: set<nat>)
    ensures Fresh(a + b, visited) == Fresh(a, visited) + Fresh(b, visited)
    decreases |a|
  {
    if a == [] {
      assert a + b == b;
    } else {
      assert (a + b)[1..] == a[1..] + b;
      FreshConcat(a[1..], b, visited);
    }
  }

  lemma {:induction false} FreshTwice(a: seq<nat>, visited: set<nat>, more: set<nat>)
    ensures Fresh(Fresh(a, visited), visited + more) == Fresh(a, visited + more)
    ensures Fresh(Fresh(a, visited), visited) == Fresh(a, visited)
    ensures forall v :: v in Fresh(a, visited) ==> v in a
    decreases |a|
  {
    if a != [] {
      FreshTwice(a[1..], visited, more);
      if a[0] !in visited {
        assert Fresh(a, visited)[1..] == Fresh(a[1..], visited);
      }
    }
  }

  /** Stacks that differ only in entries visited already are worked off alike. */
  lemma {:induction false} FreshDecides(g: Graph, a: seq<nat>, b: seq<nat>, visited: set<nat>)
    requires WellFormed(g) && InGraph(g, a) && InGraph(g, b) && Fresh(a, visited) == Fresh(b, visited)
    ensures WorkOff(g, a, visited) == WorkOff(g, b, visited)
    decreases |Unvisited(g, visited)|, |a| + |b|
  {
    if a != [] && a[0] in visited {
      FreshDecides(g, a[1..], b, visited);
    } else if b != [] && b[0] in visited {
      FreshDecides(g, a, b[1..], visited);
    } else if a != [] && b != [] {
      var u := a[0];
      assert Fresh(a, visited)[0] == u && Fresh(b, visited)[0] == b[0];
      assert Fresh(a, visited)[1..] == Fresh(a[1..], visited) && Fresh(b, visited)[1..] == Fresh(b[1..], visited);
      NeighboursInGraph(g, u);
      Shrinks(g, visited, {u});
      var ns := Neighbours(g, u);
      FreshTwice(a[1..], visited, {u});
      FreshTwice(b[1..], visited, {u});
      FreshConcat(ns, a[1..], visited + {u});
      FreshConcat(ns, b[1..], visited + {u});
      FreshDecides(g, ns + a[1..], ns + b[1..], visited + {u});
    }
  }

  // ---------- The programs ----------

  ghost predicate Marks(visited: seq<bool>, s: set<nat>) {
    forall v :: 0 <= v < |visited| ==> (visited[v] <==> v in s)
  }

  method DfsRecursive(g: Graph, u: nat, visited: array<bool>, order: seq<nat>,
          ghost before: set<nat>) returns (order': seq<nat>)
    requires WellFormed(g) && u < |g| == visited.Length && Marks(visited[..], before) && u !in before
    modifies visited
    ensures order' == order + Visit(g, u, before)
    ensures Marks(visited[..], before + Members(Visit(g, u, before)))
    decreases |Unvisited(g, before)|
  {
    hide VisitAll, Visit, Unvisited, WellFormed;
    VisitIs(g, u, before);
    Shrinks(g, before, {u});
    ghost var ns := Neighbours(g, u);
    visited[u] := true;
    order' := order + [u];
    ghost var now, done := before + {u}, [];
    for k := 0 to |g[u]|
      invariant Marks(visited[..], now) && now == before + {u} + Members(done)
      invariant order' == order + [u] + done
      invariant VisitAll(g, ns, before + {u}) == done + VisitAll(g, ns[k..], now)
    {
      var v := g[u][k].0;
      assert ns[k..] == [v] + ns[k + 1..];
      VisitAllTop(g, v, ns[k + 1..], now);
      if !visited[v] {
        Shrinks(g, before + {u}, Members(done));
        ghost var sub := Visit(g, v, now);
        order' := DfsRecursive(g, v, visited, order', now);
        MembersConcat(done, sub, before + {u});
        now, done := now + Members(sub), done + sub;
      }
    }
    VisitNothing(g, ns[|g[u]|..], now);
    assert order + [u] + done == order + ([u] + done);
  }

  lemma VisitNothing(g: Graph, vs: seq<nat>, visited: set<nat>)
    requires WellFormed(g) && vs == []
    ensures VisitAll(g, vs, visited) == [] && WorkOff(g, vs, visited) == []
  {
  }

  /** A stack that holds only the start is a recursive search from it. */
  lemma WorkOffOne(g: Graph, u: nat)
    requires WellFormed(g) && u < |g|
    ensures WorkOff(g, [u], {}) == Visit(g, u, {})
  {
    VisitIs(g, u, {});
    WorkOffSplits(g, [u], [], {});
    assert [u] + [] == [u];
    VisitAllTop(g, u, [], {});
  }

  method DfsIterative(g: Graph, start: nat) returns (order: seq<nat>)
    requires WellFormed(g) && start < |g|
    ensures order == Visit(g, start, {})
  {
    hide VisitAll, Visit, WorkOff, Unvisited, WellFormed, Fresh;
    var visited := new bool[|g|](_ => false);
    order := [];
    var stk := [start];
    ghost var seen: set<nat> := {};
    WorkOffOne(g, start);
    while stk != []
      invariant visited.Length == |g| && fresh(visited) && Marks(visited[..], seen) && InGraph(g, stk)
      invariant Visit(g, start, {}) == order + WorkOff(g, stk, seen)
      decreases |Unvisited(g, seen)|, |stk|
    {
      var u := stk[0];
      ghost var rest := stk[1..];
      assert stk == [u] + rest;
      stk := stk[1..];
      if visited[u] {
        WorkOffStale(g, u, rest, seen);
        continue;
      }
      WorkOffTop(g, u, rest, seen);
      Shrinks(g, seen, {u});
      visited[u] := true;
      order := order + [u];
      seen := seen + {u};
      stk := PushFresh(g, u, visited, stk, seen);
      FreshOnTop(g, Neighbours(g, u), rest, seen);
    }
    VisitNothing(g, stk, seen);
  }

  lemma WorkOffStale(g: Graph, u: nat, rest: seq<nat>, visited: set<nat>)
    requires WellFormed(g) && u < |g| && InGraph(g, rest) && u in visited
    ensures WorkOff(g, [u] + rest, visited) == WorkOff(g, rest, visited)
  {
    assert ([u] + rest)[1..] == rest;
  }

  lemma FreshOnTop(g: Graph, ns: seq<nat>, rest: seq<nat>, visited: set<nat>)
    requires WellFormed(g) && InGraph(g, ns) && InGraph(g, rest)
    ensures InGraph(g, Fresh(ns, visited) + rest)
    ensures WorkOff(g, Fresh(ns, visited) + rest, visited) == WorkOff(g, ns + rest, visited)
  {
    hide WorkOff, Unvisited;
    FreshTwice(ns, visited, {});
    assert forall i :: 0 <= i < |Fresh(ns, visited)| ==> Fresh(ns, visited)[i] in ns;
    FreshConcat(Fresh(ns, visited), rest, visited);
    FreshConcat(ns, rest, visited);
    FreshDecides(g, Fresh(ns, visited) + rest, ns + rest, visited);
  }

  /** The reverse loop: push the neighbours not visited yet, the first one last. */
  method PushFresh(g: Graph, u: nat, visited: array<bool>, rest: seq<nat>, ghost seen: set<nat>) returns (stk: seq<nat>)
    requires WellFormed(g) && u < |g| == visited.Length && Marks(visited[..], seen)
    ensures stk == Fresh(Neighbours(g, u), seen) + rest
  {
    NeighboursInGraph(g, u);
    ghost var ns := Neighbours(g, u);
    stk := rest;
    var k := |g[u]|;
    while k > 0
      invariant 0 <= k <= |g[u]|
      invariant stk == Fresh(ns[k..], seen) + rest
    {
      k := k - 1;
      assert ns[k..] == [g[u][k].0] + ns[k + 1..];
      if !visited[g[u][k].0] {
        stk := [g[u][k].0] + stk;
      }
    }
    assert ns[0..] == ns;
  }

  // ---------- What a search visits ----------

  /** The order repeats nothing, avoids what was visited, and leads nowhere new. */
  ghost predicate Explores(g: Graph, order: seq<nat>, visited: set<nat>) {
    && Distinct(order) && InGraph(g, order)
    && (forall x :: x in order ==> x !in visited)
    && (forall e :: IsArc(g, e) && e.u in order ==> e.v in visited || e.v in order)
  }

  lemma {:induction false} VisitExplores(g: Graph, u: nat, visited: set<nat>)
    requires WellFormed(g) && u < |g| && u !in visited
    ensures Explores(g, Visit(g, u, visited), visited)
    decreases |Unvisited(g, visited)|, 0
  {
    hide Visit, VisitAll, Unvisited;
    VisitIs(g, u, visited);
    Shrinks(g, visited, {u});
    var ns := Neighbours(g, u);
    VisitAllExplores(g, ns, visited + {u});
    forall e | IsArc(g, e) && e.u == u
      ensures e.v in ns
    {
      var i :| 0 <= i < |g[u]| && g[u][i] == (e.v, e.w);
      assert ns[i] == e.v;
    }
  }

  lemma ExploresMore(g: Graph, a: seq<nat>, b: seq<nat>, visited: set<nat>)
    requires Explores(g, a, visited) && Explores(g, b, visited + Members(a))
    ensures Explores(g, a + b, visited)
  {
    forall i, j | 0 <= i < |a| <= j < |a + b|
      ensures (a + b)[i] != (a + b)[j]
    {
      assert b[j - |a|] in b && a[i] in Members(a);
    }
  }

  lemma {:induction false} VisitAllExplores(g: Graph, vs: seq<nat>, visited: set<nat>)
    requires WellFormed(g) && InGraph(g, vs)
    ensures Explores(g, VisitAll(g, vs, visited), visited)
    ensures forall v :: v in vs ==> v in visited || v in VisitAll(g, vs, visited)
    decreases |Unvisited(g, visited)|, |vs| + 1
  {
    hide Visit, VisitAll, Unvisited;
    if vs == [] {
      VisitNothing(g, vs, visited);
    } else {
      var u, vs' := vs[0], vs[1..];
      assert vs == [u] + vs';
      VisitAllTop(g, u, vs', visited);
      if u in visited {
        VisitAllExplores(g, vs', visited);
      } else {
        var order := Visit(g, u, visited);
        VisitExplores(g, u, visited);
        Shrinks(g, visited, Members(order));
        VisitAllExplores(g, vs', visited + Members(order));
        ExploresMore(g, order, VisitAll(g, vs', visited + Members(order)), visited);
        VisitIs(g, u, visited);
      }
    }
  }

  /** Everything visited can be reached. */
  lemma {:induction false} VisitReaches(g: Graph, root: nat, u: nat, visited: set<nat>)
    requires WellFormed(g) && u < |g| && u !in visited && Reaches(Arcs(g), root, u)
    ensures forall x :: x in Visit(g, u, visited) ==> Reaches(Arcs(g), root, x)
    decreases |Unvisited(g, visited)|, 0
  {
    hide Visit, VisitAll, Unvisited, Reaches;
    VisitIs(g, u, visited);
    Shrinks(g, visited, {u});
    forall i | 0 <= i < |g[u]|
      ensures Reaches(Arcs(g), root, Neighbours(g, u)[i])
    {
      EntryIsArc(g, u, i);
      ReachFurther(Arcs(g), root, Edge(u, g[u][i].0, g[u][i].1));
    }
    VisitAllReaches(g, root, Neighbours(g, u), visited + {u});
  }

  lemma ReachFurther(edges: seq<Edge>, a: nat, e: Edge)
    requires Reaches(edges, a, e.u) && e in edges
    ensures Reaches(edges, a, e.v)
  {
    var p :| IsWalk(edges, p, a, e.u);
    assert (p + [e])[..|p|] == p;
    assert IsWalk(edges, p + [e], a, e.v);
  }

  lemma {:induction false} VisitAllReaches(g: Graph, root: nat, vs: seq<nat>, visited: set<nat>)
    requires WellFormed(g) && InGraph(g, vs) && forall i :: 0 <= i < |vs| ==> Reaches(Arcs(g), root, vs[i])
    ensures forall x :: x in VisitAll(g, vs, visited) ==> Reaches(Arcs(g), root, x)
    decreases |Unvisited(g, visited)|, |vs| + 1
  {
    hide Visit, VisitAll, Unvisited, Reaches;
    if vs == [] {
      VisitNothing(g, vs, visited);
    } else {
      var u, vs' := vs[0], vs[1..];
      assert vs == [u] + vs';
      VisitAllTop(g, u, vs', visited);
      if u in visited {
        VisitAllReaches(g, root, vs', visited);
      } else {
        var order := Visit(g, u, visited);
        VisitReaches(g, root, u, visited);
        Shrinks(g, visited, Members(order));
        VisitAllReaches(g, root, vs', visited + Members(order));
      }
    }
  }

  lemma {:induction false} ClosedUnderWalks(g: Graph, s: set<nat>, p: seq<Edge>, a: nat, b: nat)
    requires (forall e :: IsArc(g, e) && e.u in s ==> e.v in s) && IsWalk(Arcs(g), p, a, b) && a in s
    ensures b in s
    decreases |p|
  {
    if p != [] {
      ClosedUnderWalks(g, s, p[..|p| - 1], a, p[|p| - 1].u);
    }
  }

  /** A search from `start` visits exactly the reachable vertices, each once. */
  lemma VisitIsReachability(g: Graph, start: nat)
    requires WellFormed(g) && start < |g|
    ensures Distinct(Visit(g, start, {}))
    ensures forall v :: v in Visit(g, start, {}) <==> Reaches(Arcs(g), start, v)
  {
    assert IsWalk(Arcs(g), [], start, start);
    VisitExplores(g, start, {});
    VisitReaches(g, start, start, {});
    var order := Visit(g, start, {});
    hide Visit;
    forall v | Reaches(Arcs(g), start, v)
      ensures v in order
    {
      var p :| IsWalk(Arcs(g), p, start, v);
      ClosedUnderWalks(g, Members(order), p, start, v);
    }
  }

  // ---------- Connected components ----------

  /** The blocks that have a vertex in s. */
  ghost function LabelsIn(labels: Partition.Labels, s: set<nat>): set<nat> {
    set x | x in s && x < |labels| :: labels[x]
  }

  /** s is a union of blocks. */
  ghost predicate WholeBlocks(labels: Partition.Labels, s: set<nat>) {
    forall x, y :: x in s && 0 <= y < |labels| && x < |labels| && labels[x] == labels[y] ==> y in s
  }

  lemma ReachesInBlock(g: Graph, a: nat, b: nat)
    requires Undirected(g) && a < |g| && Reaches(Arcs(g), a, b)
    ensures InRange(|g|, Arcs(g)) && b < |g|
    ensures Partition.LabelsOf(|g|, Arcs(g))[a] == Partition.LabelsOf(|g|, Arcs(g))[b]
  {
    var labels := Partition.LabelsOf(|g|, Arcs(g));
    Partition.EdgesStayInside(|g|, Arcs(g));
    var s := set x | 0 <= x < |g| && labels[x] == labels[a];
    forall e | IsArc(g, e) && e.u in s
      ensures e.v in s
    {
      assert Partition.Joins(|g|, Arcs(g), e);
    }
    var p :| IsWalk(Arcs(g), p, a, b);
    ClosedUnderWalks(g, s, p, a, b);
  }

  lemma VisitInBlock(g: Graph, u: nat, visited: set<nat>, y: nat)
    requires Undirected(g) && InRange(|g|, Arcs(g)) && WellFormed(g) && u < |g| && u !in visited
    requires y in Visit(g, u, visited)
    ensures y < |g| && Partition.LabelsOf(|g|, Arcs(g))[y] == Partition.LabelsOf(|g|, Arcs(g))[u]
  {
    hide Visit, Partition.LabelsOf, Undirected, WellFormed, InRange;
    assert IsWalk(Arcs(g), [], u, u);
    VisitReaches(g, u, u, visited);
    ReachesInBlock(g, u, y);
  }

  /** What was visited is closed under arcs in both directions, so it holds the whole block. */
  lemma BlockInVisit(g: Graph, u: nat, visited: set<nat>, order: seq<nat>, y: nat)
    requires Undirected(g) && InRange(|g|, Arcs(g)) && u < |g| && u !in visited && u in order && y < |g|
    requires WholeBlocks(Partition.LabelsOf(|g|, Arcs(g)), visited) && Explores(g, order, visited)
    requires forall x :: x in order ==>
               x < |g| && Partition.LabelsOf(|g|, Arcs(g))[x] == Partition.LabelsOf(|g|, Arcs(g))[u]
    requires Partition.LabelsOf(|g|, Arcs(g))[y] == Partition.LabelsOf(|g|, Arcs(g))[u]
    ensures y in order
  {
    hide Partition.LabelsOf, WholeBlocks, Explores, Undirected, InRange, IsArc;
    var found: Partition.Labels := seq(|g|, x requires 0 <= x < |g| => if x in order then 1 else 0);
    forall e | e in Arcs(g)
      ensures e.u < |g| && e.v < |g| && found[e.u] == found[e.v]
    {
      EdgeStaysVisited(g, u, visited, order, e);
    }
    Partition.LabelsAreFinest(|g|, Arcs(g), found);
    assert found[u] == 1 && found[y] == found[u];
  }

  lemma EdgeStaysVisited(g: Graph, u: nat, visited: set<nat>, order: seq<nat>, e: Edge)
    requires Undirected(g) && InRange(|g|, Arcs(g)) && u < |g| && u !in visited && e in Arcs(g)
    requires WholeBlocks(Partition.LabelsOf(|g|, Arcs(g)), visited) && Explores(g, order, visited)
    requires forall x :: x in order ==>
               x < |g| && Partition.LabelsOf(|g|, Arcs(g))[x] == Partition.LabelsOf(|g|, Arcs(g))[u]
    ensures e.u < |g| && e.v < |g| && (e.u in order <==> e.v in order)
  {
    hide Partition.LabelsOf, WholeBlocks, Explores;
    assert IsArc(g, e) && IsArc(g, Edge(e.v, e.u, e.w));
    ArcStaysVisited(g, u, visited, order, e);
    ArcStaysVisited(g, u, visited, order, Edge(e.v, e.u, e.w));
  }

  /** A search from a vertex outside whole blocks visits exactly its block. */
  lemma VisitIsBlock(g: Graph, u: nat, visited: set<nat>)
    requires Undirected(g) && InRange(|g|, Arcs(g)) && WellFormed(g) && u < |g| && u !in visited
    requires WholeBlocks(Partition.LabelsOf(|g|, Arcs(g)), visited)
    ensures var labels := Partition.LabelsOf(|g|, Arcs(g));
            forall y :: y in Visit(g, u, visited) <==> 0 <= y < |g| && labels[y] == labels[u]
  {
    hide Visit, VisitAll, Partition.LabelsOf, WholeBlocks, Explores;
    var labels, order := Partition.LabelsOf(|g|, Arcs(g)), Visit(g, u, visited);
    VisitExplores(g, u, visited);
    forall y | y in order
      ensures y < |g| && labels[y] == labels[u]
    {
      VisitInBlock(g, u, visited, y);
    }
    VisitIs(g, u, visited);
    assert u in order;
    forall y: nat | y < |g| && labels[y] == labels[u]
      ensures y in order
    {
      BlockInVisit(g, u, visited, order, y);
    }
  }

  lemma ArcStaysVisited(g: Graph, u: nat, visited: set<nat>, order: seq<nat>, e: Edge)
    requires Undirected(g) && InRange(|g|, Arcs(g)) && u < |g| && u !in visited && IsArc(g, e)
    requires WholeBlocks(Partition.LabelsOf(|g|, Arcs(g)), visited) && Explores(g, order, visited)
    requires forall y :: y in order ==>
               y < |g| && Partition.LabelsOf(|g|, Arcs(g))[y] == Partition.LabelsOf(|g|, Arcs(g))[u]
    ensures e.u in order ==> e.v in order
  {
    hide Partition.LabelsOf;
    Partition.EdgesStayInside(|g|, Arcs(g));
    assert Partition.Joins(|g|, Arcs(g), e);
  }

  /** The number of connected components of an undirected graph. */
  method CountComponents(g: Graph) returns (components: nat)
    requires WellFormed(g) && Undirected(g)
    ensures InRange(|g|, Arcs(g))
    ensures components == |Partition.Blocks(Partition.LabelsOf(|g|, Arcs(g)))|
  {
    hide Visit, Partition.LabelsOf;
    ghost var labels := Partition.LabelsOf(|g|, Arcs(g));
    var visited := new bool[|g|](_ => false);
    components := 0;
    ghost var seen: set<nat> := {};
    for i := 0 to |g|
      invariant Marks(visited[..], seen)
      invariant (forall x :: x in seen ==> x < |g|) && (forall x :: 0 <= x < i ==> x in seen)
      invariant WholeBlocks(labels, seen) && components == |LabelsIn(labels, seen)|
    {
      if !visited[i] {
        ghost var order := Visit(g, i, seen);
        VisitIsBlock(g, i, seen);
        var _ := DfsRecursive(g, i, visited, [], seen);
        BlockAdded(labels, seen, i, Members(order));
        seen := seen + Members(order);
        components := components + 1;
      }
    }
    assert LabelsIn(labels, seen) == Partition.Blocks(labels);
  }

  lemma BlockAdded(labels: Partition.Labels, seen: set<nat>, i: nat, block: set<nat>)
    requires WholeBlocks(labels, seen) && i < |labels| && i !in seen
    requires forall y :: y in block <==> 0 <= y < |labels| && labels[y] == labels[i]
    ensures WholeBlocks(labels, seen + block) && |LabelsIn(labels, seen + block)| == |LabelsIn(labels, seen)| + 1
    ensures i in block
  {
    assert LabelsIn(labels, seen + block) == LabelsIn(labels, seen) + {labels[i]} by {
      assert i in block;
    }
    assert labels[i] !in LabelsIn(labels, seen);
  }
}
