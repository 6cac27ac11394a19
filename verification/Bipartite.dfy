/** Two-colouring by breadth-first search over every component. */
module Bipartite {
  import opened Edges
  import opened Graphs

  /** c gives the ends of every edge different colours. */
  ghost predicate Proper(g: Graph, c: seq<bool>) {
    |c| == |g| && forall e :: IsArc(g, e) ==> e.u < |c| && e.v < |c| && c[e.u] != c[e.v]
  }

  ghost predicate TwoColourable(g: Graph) {
    exists c :: Proper(g, c)
  }

  /** -1: not visited; 0 or 1: coloured, in the component searched from root[x]. */
  datatype State = State(color: seq<int>, root: seq<nat>, done: set<nat>)

  /** Every proper colouring agrees with the colours given so far, up to a flip of a whole
      component. */
  ghost predicate Forced(g: Graph, color: seq<int>, root: seq<nat>) {
    && |color| == |root| == |g|
    && (forall x :: 0 <= x < |g| ==> -1 <= color[x] <= 1 && root[x] < |g|)
    && (forall c, x :: Proper(g, c) && 0 <= x < |g| && color[x] != -1 ==> (c[x] == c[root[x]] <==> color[x] == 0))
  }

  ghost predicate ArcOk(s: State, e: Edge) {
    && e.u < |s.color| == |s.root| && e.v < |s.color|
    && s.color[e.v] != -1 && s.color[e.u] != s.color[e.v] && s.root[e.u] == s.root[e.v]
  }

  /** The arcs of finished vertices have been checked; a coloured vertex is finished, or
      belongs to the component being searched and waits in `pending`. */
  ghost predicate Inv(g: Graph, s: State, start: nat, pending: seq<nat>) {
    && Forced(g, s.color, s.root)
    && (forall e :: IsArc(g, e) && e.u in s.done ==> ArcOk(s, e))
    && (forall x :: x in s.done ==> x < |g| && s.color[x] != -1)
    && (forall x :: 0 <= x < |g| && s.color[x] != -1 ==> x in s.done || x in pending)
    && (forall x :: x in pending ==> x < |g| && s.color[x] != -1 && s.root[x] == start)
    && (pending != [] ==> start < |g| && s.color[start] != -1)
  }

  function Uncoloured(color: seq<int>): set<nat> {
    set x | 0 <= x < |color| && color[x] == -1
  }

  lemma BeginComponent(g: Graph, s: State, old_start: nat, start: nat)
    requires Inv(g, s, old_start, []) && start < |g| && s.color[start] == -1
    ensures Inv(g, s.(color := s.color[start := 0], root := s.root[start := start]), start, [start])
  {
    var s' := s.(color := s.color[start := 0], root := s.root[start := start]);
    forall e | IsArc(g, e) && e.u in s.done
      ensures ArcOk(s', e)
    {
      assert ArcOk(s, e);
    }
  }

  /** The first k arcs of u have been checked. */
  ghost predicate Checked(g: Graph, s: State, u: nat, k: nat)
    requires u < |g|
  {
    forall i :: 0 <= i < k && i < |g[u]| ==> ArcOk(s, Edge(u, g[u][i].0, g[u][i].1))
  }

  lemma Colour(g: Graph, s: State, start: nat, pending: seq<nat>, u: nat, k: nat)
    requires WellFormed(g) && Inv(g, s, start, pending) && u in pending && u < |g| && k < |g[u]| && Checked(g, s, u, k)
    requires g[u][k].0 < |g| && s.color[g[u][k].0] == -1
    ensures var v := g[u][k].0; var s' := s.(color := s.color[v := 1 - s.color[u]], root := s.root[v := start]);
            Inv(g, s', start, pending + [v]) && Checked(g, s', u, k + 1)
  {
    var v := g[u][k].0;
    var s' := s.(color := s.color[v := 1 - s.color[u]], root := s.root[v := start]);
    EntryIsArc(g, u, k);
    ColourForced(g, s, start, u, Edge(u, v, g[u][k].1));
    forall e | IsArc(g, e) && e.u in s.done
      ensures ArcOk(s', e)
    {
      assert ArcOk(s, e);
    }
    forall i | 0 <= i <= k
      ensures ArcOk(s', Edge(u, g[u][i].0, g[u][i].1))
    {
      assert i < k ==> ArcOk(s, Edge(u, g[u][i].0, g[u][i].1));
    }
  }

  lemma ColourForced(g: Graph, s: State, start: nat, u: nat, e: Edge)
    requires Forced(g, s.color, s.root) && IsArc(g, e) && e.u == u < |g| && e.v < |g|
    requires s.color[u] != -1 && s.root[u] == start && s.color[e.v] == -1 && start < |g|
    requires e.v != start
    ensures Forced(g, s.color[e.v := 1 - s.color[u]], s.root[e.v := start])
  {
  }

  /** An edge inside one colour rules out every proper colouring. */
  lemma Conflict(g: Graph, s: State, start: nat, pending: seq<nat>, e: Edge)
    requires Undirected(g) && Inv(g, s, start, pending) && IsArc(g, e) && e.u in pending && e.v < |g|
    requires s.color[e.v] == s.color[e.u]
    ensures !TwoColourable(g)
  {
    var back := Edge(e.v, e.u, e.w);
    assert IsArc(g, back);
    assert e.v in s.done ==> ArcOk(s, back);
    assert s.root[e.v] == s.root[e.u];
    forall c
      ensures !Proper(g, c)
    {
      if Proper(g, c) {
        ForcedAt(g, s, c, e.u);
        ForcedAt(g, s, c, e.v);
        ProperAt(g, c, e);
      }
    }
  }

  lemma ForcedAt(g: Graph, s: State, c: seq<bool>, x: nat)
    requires Forced(g, s.color, s.root) && Proper(g, c) && x < |g| && s.color[x] != -1
    ensures |c| == |g| && (c[x] == c[s.root[x]] <==> s.color[x] == 0)
  {
  }

  lemma ProperAt(g: Graph, c: seq<bool>, e: Edge)
    requires Proper(g, c) && IsArc(g, e)
    ensures e.u < |c| && e.v < |c| && c[e.u] != c[e.v]
  {
  }

  lemma Agree(g: Graph, s: State, start: nat, pending: seq<nat>, u: nat, k: nat)
    requires Undirected(g) && Inv(g, s, start, pending) && u in pending && u < |g| && k < |g[u]| && Checked(g, s, u, k)
    requires g[u][k].0 < |g| && s.color[g[u][k].0] != -1 && s.color[g[u][k].0] != s.color[u]
    ensures Checked(g, s, u, k + 1)
  {
    var e := Edge(u, g[u][k].0, g[u][k].1);
    EntryIsArc(g, u, k);
    var back := Edge(e.v, e.u, e.w);
    assert IsArc(g, back);
    assert e.v in s.done ==> ArcOk(s, back);
    assert ArcOk(s, e);
  }

  lemma Finish(g: Graph, s: State, start: nat, rest: seq<nat>, u: nat)
    requires Inv(g, s, start, [u] + rest) && u < |g| && Checked(g, s, u, |g[u]|)
    ensures Inv(g, s.(done := s.done + {u}), start, rest)
  {
    hide Forced, ArcOk;
    ForcedSizes(g, s.color, s.root);
    var s' := s.(done := s.done + {u});
    assert u in [u] + rest;
    forall x | x in rest
      ensures x in [u] + rest
    {
    }
    forall x: nat | x < |g| && s.color[x] != -1
      ensures x in s'.done || x in rest
    {
      assert x in s.done || x in [u] + rest;
    }
    forall e | IsArc(g, e) && e.u in s'.done
      ensures ArcOk(s', e)
    {
      FinishedArc(g, s, u, e);
    }
    hide IsArc;
  }

  lemma ForcedSizes(g: Graph, color: seq<int>, root: seq<nat>)
    requires Forced(g, color, root)
    ensures |color| == |root| == |g|
  {
  }

  lemma FinishedArc(g: Graph, s: State, u: nat, e: Edge)
    requires u < |g| && Checked(g, s, u, |g[u]|) && IsArc(g, e)
    requires e.u == u || ArcOk(s, e)
    ensures ArcOk(s.(done := s.done + {u}), e)
  {
    if e.u == u {
      var i :| 0 <= i < |g[u]| && g[u][i] == (e.v, e.w);
      assert ArcOk(s, Edge(u, g[u][i].0, g[u][i].1));
    }
  }

  method IsBipartite(g: Graph) returns (b: bool)
    requires WellFormed(g) && Undirected(g)
    ensures b <==> TwoColourable(g)
  {
    hide Forced, ArcOk, Proper, IsArc, WellFormed, Undirected, TwoColourable, Inv, Uncoloured;
    var color := new int[|g|](_ => -1);
    ghost var root: seq<nat>, done: set<nat> := seq(|g|, i => 0), {};
    ghost var current: nat := 0;
    Begin(g, color[..], root);
    for start := 0 to |g|
      invariant |root| == |g| && Inv(g, State(color[..], root, done), current, [])
      invariant forall x :: 0 <= x < start ==> color[x] != -1
    {
      if color[start] != -1 {
        continue;
      }
      BeginComponent(g, State(color[..], root, done), current, start);
      ghost var c := color[..];
      color[start] := 0;
      assert color[..] == c[start := 0];
      root, current := root[start := start], start;
      var q: seq<nat> := [start];
      while q != []
        invariant |root| == |g| && Inv(g, State(color[..], root, done), start, q)
        invariant forall x :: 0 <= x <= start ==> color[x] != -1
        decreases |Uncoloured(color[..])|, |q|
      {
        var u := q[0];
        assert q == [u] + q[1..] && u in q;
        PendingInRange(g, State(color[..], root, done), start, q);
        ghost var before := color[..];
        var ok;
        ok, q, root := CheckArcs(g, u, start, color, q[1..], root, done);
        if !ok {
          return false;
        }
        FewerUncoloured(before, color[..]);
        Finish(g, State(color[..], root, done), start, q, u);
        done := done + {u};
      }
    }
    AllColoured(g, State(color[..], root, done), current);
    return true;
  }

  /** Colour or check the neighbours of u; the vertices coloured join the queue. */
  method CheckArcs(g: Graph, u: nat, ghost start: nat, color: array<int>, rest: seq<nat>, ghost root: seq<nat>,
          ghost done: set<nat>)
      returns (ok: bool, q: seq<nat>, ghost root': seq<nat>)
    requires WellFormed(g) && Undirected(g) && u < |g| == color.Length == |root|
    requires Inv(g, State(color[..], root, done), start, [u] + rest)
    modifies color
    ensures !ok ==> !TwoColourable(g)
    ensures ok ==> |root'| == |g| && Inv(g, State(color[..], root', done), start, [u] + q)
    ensures ok ==> Checked(g, State(color[..], root', done), u, |g[u]|)
    ensures forall x :: 0 <= x < |g| && old(color[x]) != -1 ==> color[x] != -1
    ensures q == rest || exists x :: 0 <= x < |g| && old(color[x]) == -1 && color[x] != -1
  {
    hide Forced, ArcOk, Proper, IsArc, WellFormed, Undirected, TwoColourable, Inv;
    q, root', ok := rest, root, true;
    for k := 0 to |g[u]|
      invariant ok && |root'| == |g| && Inv(g, State(color[..], root', done), start, [u] + q)
      invariant Checked(g, State(color[..], root', done), u, k)
      invariant forall x :: 0 <= x < |g| && old(color[x]) != -1 ==> color[x] != -1
      invariant q == rest || exists x :: 0 <= x < |g| && old(color[x]) == -1 && color[x] != -1
    {
      var v, w := g[u][k].0, g[u][k].1;
      ghost var s := State(color[..], root', done);
      EntryIsArc(g, u, k);
      ArcInRange(g, Edge(u, v, w));
      PendingInRange(g, s, start, [u] + q);
      if color[v] == -1 {
        Colour(g, s, start, [u] + q, u, k);
        color[v] := 1 - color[u];
        assert color[..] == s.color[v := 1 - s.color[u]];
        assert [u] + q + [v] == [u] + (q + [v]);
        root' := root'[v := start];
        q := q + [v];
      } else if color[v] == color[u] {
        Conflict(g, s, start, [u] + q, Edge(u, v, w));
        ok := false;
        return;
      } else {
        Agree(g, s, start, [u] + q, u, k);
      }
    }
  }

  lemma ArcInRange(g: Graph, e: Edge)
    requires WellFormed(g) && IsArc(g, e)
    ensures e.v < |g|
  {
  }

  lemma PendingInRange(g: Graph, s: State, start: nat, pending: seq<nat>)
    requires Inv(g, s, start, pending)
    ensures |s.color| == |g|
    ensures forall x :: x in pending ==> x < |g| && s.color[x] != -1
    ensures pending != [] ==> start < |g|
    ensures forall x :: 0 <= x < |g| && s.color[x] != -1 ==> 0 <= s.color[x] <= 1
  {
  }

  lemma FewerUncoloured(before: seq<int>, after: seq<int>)
    requires |before| == |after| && forall x :: 0 <= x < |before| && before[x] != -1 ==> after[x] != -1
    ensures |Uncoloured(after)| <= |Uncoloured(before)|
    ensures (exists x :: 0 <= x < |before| && before[x] == -1 && after[x] != -1) ==>
              |Uncoloured(after)| < |Uncoloured(before)|
  {
    var a, b := Uncoloured(before), Uncoloured(after);
    assert a == b + (a - b);
    if x :| 0 <= x < |before| && before[x] == -1 && after[x] != -1 {
      assert x in a - b;
    }
  }

  lemma AllColoured(g: Graph, s: State, start: nat)
    requires WellFormed(g) && Inv(g, s, start, []) && forall x :: 0 <= x < |g| ==> s.color[x] != -1
    ensures TwoColourable(g)
  {
    var c := seq(|g|, x requires 0 <= x < |g| => s.color[x] == 0);
    forall e | IsArc(g, e)
      ensures e.v < |g| && c[e.u] != c[e.v]
    {
      assert ArcOk(s, e);
    }
    assert Proper(g, c);
  }

  lemma Begin(g: Graph, color: seq<int>, root: seq<nat>)
    requires |color| == |root| == |g| && forall x :: 0 <= x < |g| ==> color[x] == -1 && root[x] == 0
    ensures Inv(g, State(color, root, {}), 0, [])
  {
  }
}
