/** A dependency resolver: packages, dependencies, and an installation order by Kahn's
    algorithm. Duplicate and self dependencies are allowed. */
module Dependencies {
  import opened Counting
  import opened FirstCome

  datatype Result = Order(names: seq<string>) | CyclicDependency

  // ---------- The dependency graph ----------

  /** deps[a] lists what a depends on. */
  type Deps = seq<seq<nat>>

  ghost predicate InRangeDeps(deps: Deps) {
    forall a, j :: 0 <= a < |deps| && 0 <= j < |deps[a]| ==> deps[a][j] < |deps|
  }

  /** xs follows dependencies from each package to the next. */
  ghost predicate DependsChain(deps: Deps, xs: seq<nat>) {
    && (forall t :: 0 <= t < |xs| ==> xs[t] < |deps|)
    && (forall t :: 0 <= t < |xs| - 1 ==> xs[t + 1] in deps[xs[t]])
  }

  ghost predicate HasCycle(deps: Deps) {
    exists xs :: |xs| >= 2 && xs[0] == xs[|xs| - 1] && DependsChain(deps, xs)
  }

  /** Everything order[i] depends on stands before it. */
  ghost predicate Ordered(deps: Deps, order: seq<nat>) {
    forall i, d :: 0 <= i < |order| && order[i] < |deps| && d in deps[order[i]] ==> d in order[..i]
  }

  // ---------- Counting dependencies ----------

  /** How often b occurs in xs. */
  function Occurrences(xs: seq<nat>, b: nat): nat {
    if xs == [] then 0 else (if xs[0] == b then 1 else 0) + Occurrences(xs[1..], b)
  }

  /** How many entries of xs are outside s. */
  function Missing(xs: seq<nat>, s: set<nat>): nat {
    if xs == [] then 0 else (if xs[0] in s then 0 else 1) + Missing(xs[1..], s)
  }

  lemma {:induction false} MissingAfter(xs: seq<nat>, s: set<nat>, b: nat)
    requires b !in s
    ensures Missing(xs, s) == Missing(xs, s + {b}) + Occurrences(xs, b)
  {
    if xs != [] {
      MissingAfter(xs[1..], s, b);
    }
  }

  lemma {:induction false} MissingNone(xs: seq<nat>, s: set<nat>)
    ensures Missing(xs, s) == 0 <==> forall x :: x in xs ==> x in s
    ensures Missing(xs, {}) == |xs|
  {
    if xs != [] {
      MissingNone(xs[1..], s);
    }
  }

  lemma {:induction false} OccursIn(xs: seq<nat>, b: nat)
    ensures Occurrences(xs, b) > 0 <==> b in xs
  {
    if xs != [] {
      OccursIn(xs[1..], b);
    }
  }

  lemma {:induction false} OccurrencesAppend(xs: seq<nat>, x: nat, b: nat)
    ensures Occurrences(xs + [x], b) == Occurrences(xs, b) + if x == b then 1 else 0
  {
    if xs != [] {
      assert (xs + [x])[1..] == xs[1..] + [x];
      OccurrencesAppend(xs[1..], x, b);
    }
  }

  // ---------- Cycles ----------

  /** Where the first occurrence of x stands. */
  ghost function Position(order: seq<nat>, x: nat): (i: nat)
    requires x in order
    ensures i < |order| && order[i] == x && x !in order[..i]
  {
    if order[0] == x then 0
    else
      var i := Position(order[1..], x);
      assert order[..i + 1] == [order[0]] + order[1..][..i];
      i + 1
  }

  /** Along dependencies positions go down, so an ordered list of all packages rules out
      cycles. */
  lemma {:induction false} ChainDescends(deps: Deps, order: seq<nat>, xs: seq<nat>)
    requires Ordered(deps, order) && DependsChain(deps, xs) && xs != []
    requires forall x: nat :: x < |deps| ==> x in order
    ensures Position(order, xs[|xs| - 1]) + |xs| - 1 <= Position(order, xs[0])
    decreases |xs|
  {
    if |xs| > 1 {
      var i := Position(order, xs[0]);
      assert xs[1] in deps[order[i]];
      assert xs[1] in order[..i];
      var j := Position(order, xs[1]);
      assert j < i;
      ChainDescends(deps, order, xs[1..]);
    }
  }

  lemma OrderedIsAcyclic(deps: Deps, order: seq<nat>)
    requires Ordered(deps, order) && forall x: nat :: x < |deps| ==> x in order
    ensures !HasCycle(deps)
  {
    forall xs | |xs| >= 2 && DependsChain(deps, xs)
      ensures xs[0] != xs[|xs| - 1]
    {
      ChainDescends(deps, order, xs);
    }
  }

  ghost predicate HasDependencyIn(deps: Deps, a: nat, s: set<nat>) {
    a < |deps| && exists d :: d in deps[a] && d in s
  }

  /** Each package of s depends on another of s (or on itself). */
  ghost predicate Stuck(deps: Deps, s: set<nat>) {
    forall a :: a in s ==> HasDependencyIn(deps, a, s)
  }

  lemma ChainSnoc(deps: Deps, xs: seq<nat>, d: nat)
    requires DependsChain(deps, xs) && xs != [] && d < |deps| && d in deps[xs[|xs| - 1]]
    ensures DependsChain(deps, xs + [d])
  {
  }

  /** Packages that are stuck have chains of any length. */
  lemma {:induction false} LongChain(deps: Deps, s: set<nat>, x: nat, n: nat) returns (xs: seq<nat>)
    requires x in s && Stuck(deps, s)
    ensures |xs| == n + 1 && DependsChain(deps, xs) && xs[n] in s
    decreases n
  {
    assert HasDependencyIn(deps, x, s);
    if n == 0 {
      xs := [x];
    } else {
      var ys := LongChain(deps, s, x, n - 1);
      assert HasDependencyIn(deps, ys[n - 1], s);
      var d :| d in deps[ys[n - 1]] && d in s;
      assert HasDependencyIn(deps, d, s);
      hide DependsChain;
      ChainSnoc(deps, ys, d);
      xs := ys + [d];
    }
  }

  lemma RepeatIsCycle(deps: Deps, xs: seq<nat>, i: nat, j: nat)
    requires DependsChain(deps, xs) && i < j < |xs| && xs[i] == xs[j]
    ensures HasCycle(deps)
  {
    var cycle := xs[i..j + 1];
    forall t | 0 <= t < |cycle| - 1
      ensures cycle[t + 1] in deps[cycle[t]]
    {
      assert xs[i + t + 1] in deps[xs[i + t]];
    }
    assert DependsChain(deps, cycle) && cycle[0] == cycle[|cycle| - 1];
  }

  lemma ChainBelow(deps: Deps, xs: seq<nat>)
    requires DependsChain(deps, xs)
    ensures forall x :: x in xs ==> x < |deps|
  {
  }

  lemma StuckIsCyclic(deps: Deps, s: set<nat>, x: nat)
    requires x in s && Stuck(deps, s)
    ensures HasCycle(deps)
  {
    var xs := LongChain(deps, s, x, |deps|);
    ChainBelow(deps, xs);
    hide DependsChain, Stuck;
    if Distinct(xs) {
      DistinctBelow(xs, |deps|);
    } else {
      var i, j :| 0 <= i < j < |xs| && xs[i] == xs[j];
      RepeatIsCycle(deps, xs, i, j);
    }
  }

  // ---------- Kahn's algorithm ----------

  /** rev[b] lists, with repetitions, the packages that depend on b. */
  ghost predicate Reverses(deps: Deps, rev: seq<seq<nat>>) {
    && |rev| == |deps|
    && (forall b, a :: 0 <= b < |deps| && 0 <= a < |deps| ==> Occurrences(rev[b], a) == Occurrences(deps[a], b))
    && (forall b, j :: 0 <= b < |rev| && 0 <= j < |rev[b]| ==> rev[b][j] < |deps|)
  }

  /** The in-degree of a counts its missing dependencies, and those on the package being
      installed that the loop has not come to yet. */
  ghost predicate Counts(deps: Deps, indegree: seq<int>, installed: set<nat>, ahead: seq<nat>) {
    && |indegree| == |deps|
    && forall a :: 0 <= a < |deps| ==> indegree[a] == Missing(deps[a], installed) + Occurrences(ahead, a)
  }

  /** The packages without missing dependencies are those installed or queued. */
  ghost predicate QueueOk(deps: Deps, indegree: seq<int>, order: seq<nat>, q: seq<nat>) {
    && |indegree| == |deps| && Distinct(order + q)
    && (forall x :: x in order + q ==> x < |deps|)
    && (forall a :: 0 <= a < |deps| ==> (indegree[a] == 0 <==> a in order + q))
  }

  /** Installing the front of the queue. */
  lemma Install(deps: Deps, rev: seq<seq<nat>>, indegree: seq<int>, order: seq<nat>, pkg: nat, q: seq<nat>)
    requires Reverses(deps, rev) && Counts(deps, indegree, Members(order), []) && Ordered(deps, order)
    requires QueueOk(deps, indegree, order, [pkg] + q)
    ensures pkg < |deps| && Counts(deps, indegree, Members(order + [pkg]), rev[pkg]) && Ordered(deps, order + [pkg])
    ensures QueueOk(deps, indegree, order + [pkg], q)
  {
    assert order + ([pkg] + q) == order + [pkg] + q;
    assert (order + [pkg] + q)[|order|] == pkg;
    assert pkg in order + ([pkg] + q);
    FrontIsNew(order, pkg, q);
    assert Members(order + [pkg]) == Members(order) + {pkg};
    forall a | 0 <= a < |deps|
      ensures indegree[a] == Missing(deps[a], Members(order + [pkg])) + Occurrences(rev[pkg], a)
    {
      MissingAfter(deps[a], Members(order), pkg);
    }
    MissingNone(deps[pkg], Members(order));
    InstallOrdered(deps, order, pkg);
  }

  lemma FrontIsNew(order: seq<nat>, pkg: nat, q: seq<nat>)
    requires Distinct(order + ([pkg] + q))
    ensures pkg !in order
  {
    var all := order + ([pkg] + q);
    assert all[|order|] == pkg;
    assert forall i :: 0 <= i < |order| ==> all[i] == order[i];
  }

  lemma InstallOrdered(deps: Deps, order: seq<nat>, pkg: nat)
    requires Ordered(deps, order) && pkg < |deps| && forall d :: d in deps[pkg] ==> d in order
    ensures Ordered(deps, order + [pkg])
  {
    var order' := order + [pkg];
    forall i, d | 0 <= i < |order'| && order'[i] < |deps| && d in deps[order'[i]]
      ensures d in order'[..i]
    {
      assert order'[..i] == order[..i];
      assert i == |order| ==> order[..i] == order;
    }
  }

  /** One entry of rev[pkg]: a dependent loses a missing dependency, and queues up when it
      was the last. */
  lemma Release(deps: Deps, indegree: seq<int>, order: seq<nat>, q: seq<nat>, ahead: seq<nat>)
    requires ahead != [] && ahead[0] < |deps|
    requires Counts(deps, indegree, Members(order), ahead) && QueueOk(deps, indegree, order, q)
    ensures |indegree| == |deps| && indegree[ahead[0]] > 0
    ensures var d := ahead[0]; var indegree' := indegree[d := indegree[d] - 1];
            && Counts(deps, indegree', Members(order), ahead[1..])
            && QueueOk(deps, indegree', order, if indegree'[d] == 0 then q + [d] else q)
  {
    var d := ahead[0];
    assert Occurrences(ahead, d) > 0;
    assert d !in order + q;
    assert order + (q + [d]) == (order + q) + [d];
  }

  /** Whatever is left over when the queue runs dry is stuck. */
  lemma Leftover(deps: Deps, indegree: seq<int>, order: seq<nat>)
    requires InRangeDeps(deps) && Counts(deps, indegree, Members(order), []) && QueueOk(deps, indegree, order, [])
    requires Ordered(deps, order)
    ensures |order| == |deps| <==> !HasCycle(deps)
    ensures Distinct(order) && (forall x :: x in order ==> x < |deps|)
    ensures |order| == |deps| ==> forall x: nat :: x < |deps| ==> x in order
  {
    assert order + [] == order;
    DistinctBelow(order, |deps|);
    var s := Below(|deps|) - Members(order);
    if |order| == |deps| {
      OrderedIsAcyclic(deps, order);
    } else {
      LeftoverStuck(deps, indegree, order);
      var x := Unplaced(order, |deps|);
      StuckIsCyclic(deps, s, x);
    }
  }

  lemma LeftoverStuck(deps: Deps, indegree: seq<int>, order: seq<nat>)
    requires InRangeDeps(deps) && Counts(deps, indegree, Members(order), []) && QueueOk(deps, indegree, order, [])
    ensures Stuck(deps, Below(|deps|) - Members(order))
  {
    assert order + [] == order;
    var s := Below(|deps|) - Members(order);
    forall a | a in s
      ensures HasDependencyIn(deps, a, s)
    {
      MissingNone(deps[a], Members(order));
      var d :| d in deps[a] && d !in Members(order);
      assert d < |deps|;
    }
  }

  lemma Unplaced(order: seq<nat>, n: nat) returns (x: nat)
    requires Distinct(order) && |order| < n
    ensures x in Below(n) - Members(order)
  {
    if Below(n) <= Members(order) {
      SubsetSize(Below(n), Members(order));
      DistinctSize(order);
    }
    x :| x in Below(n) && x !in Members(order);
  }

  // ---------- Turns ----------

  /** rev[b] lists dependents by ascending number. */
  ghost predicate RevAscends(rev: seq<seq<nat>>, a: nat) {
    forall b :: 0 <= b < |rev| ==> Ascending(rev[b]) && forall x :: x in rev[b] ==> x <= a
  }

  lemma RevAppend(rev: seq<seq<nat>>, b: nat, a: nat)
    requires RevAscends(rev, a) && b < |rev|
    ensures RevAscends(rev[b := rev[b] + [a]], a)
  {
    var back := rev[b] + [a];
    forall i | 0 <= i < |rev[b]|
      ensures back[i] <= a
    {
      assert rev[b][i] in rev[b];
    }
  }

  /** A dependent that has just lost its last missing dependency was not ready before. */
  lemma JustReady(deps: Deps, rev: seq<seq<nat>>, pkg: nat, indegree: seq<int>, order: seq<nat>, ahead: seq<nat>)
    requires Reverses(deps, rev) && pkg < |deps| && Counts(deps, indegree, Members(order), ahead)
    requires order != [] && order[|order| - 1] == pkg && Distinct(order)
    requires ahead != [] && ahead[0] in rev[pkg] && ahead[0] < |deps| && indegree[ahead[0]] == 1
    ensures ReadyAt(deps, order, ahead[0]) == |order| && ahead[0] !in ahead[1..]
  {
    var d := ahead[0];
    OccursIn(rev[pkg], d);
    OccursIn(deps[d], pkg);
    OccursIn(ahead[1..], d);
    MissingNone(deps[d], Members(order));
    ReadyNow(deps, order, d);
  }

  /** The next dependent, whether it joins the queue or not. */
  lemma NextInTurn(deps: Deps, rev: seq<seq<nat>>, pkg: nat, indegree: seq<int>, order: seq<nat>, q: seq<nat>,
                   ahead: seq<nat>)
    requires Reverses(deps, rev) && pkg < |deps| && Counts(deps, indegree, Members(order), ahead)
    requires order != [] && order[|order| - 1] == pkg && Distinct(order)
    requires ahead != [] && ahead[0] in rev[pkg] && ahead[0] < |deps| && Ascending(ahead)
    requires InTurn(deps, order, q) && Waiting(deps, order, q, ahead)
    ensures |indegree| == |deps| && Ascending(ahead[1..])
    ensures var q' := if indegree[ahead[0]] == 1 then q + [ahead[0]] else q;
            InTurn(deps, order, q') && Waiting(deps, order, q', ahead[1..])
  {
    hide InTurn, Waiting, Reverses;
    if indegree[ahead[0]] == 1 {
      JustReady(deps, rev, pkg, indegree, order, ahead);
      JoinInTurn(deps, order, q, ahead);
    } else {
      WaitingShrinks(deps, order, q, ahead);
    }
  }

  lemma DistinctOrder(deps: Deps, indegree: seq<int>, order: seq<nat>, q: seq<nat>)
    requires QueueOk(deps, indegree, order, q)
    ensures Distinct(order)
  {
    var all := order + q;
    assert forall i :: 0 <= i < |order| ==> all[i] == order[i];
  }

  // ---------- The resolver ----------

  function WithName(names: seq<string>, name: string): seq<string> {
    if name in names then names else names + [name]
  }

  lemma PaddedTwice(deps: Deps, m: nat, n: nat)
    requires |deps| <= m <= n
    ensures Padded(Padded(deps, m), n) == Padded(deps, n)
  {
  }

  /** Lists of dependencies for new packages too. */
  function Padded(deps: Deps, n: nat): (r: Deps)
    requires |deps| <= n
    ensures |r| == n && forall i :: 0 <= i < n ==> r[i] == if i < |deps| then deps[i] else []
  {
    deps + seq(n - |deps|, _ => [])
  }

  class DependencyResolver {
    var names: seq<string>
    var nameToId: map<string, nat>
    var deps: Deps
    var count: nat

    ghost predicate Valid()
      reads this
    {
      && |names| == |deps| == count && InRangeDeps(deps)
      && (forall i :: 0 <= i < count ==> names[i] in nameToId && nameToId[names[i]] == i)
      && (forall n :: n in nameToId ==> nameToId[n] < count && names[nameToId[n]] == n)
    }

    /** A depends on B, by name. */
    ghost predicate DependsOn(a: string, b: string)
      requires Valid()
      reads this
    {
      a in nameToId && b in nameToId && nameToId[b] in deps[nameToId[a]]
    }

    constructor ()
      ensures Valid() && names == [] && deps == []
    {
      names, nameToId, deps, count := [], map[], [], 0;
    }

    /** Registers a package unless it is known; its dependencies are kept either way. */
    method AddPackage(name: string) returns (id: nat)
      requires Valid()
      modifies this
      ensures Valid() && name in nameToId && id == nameToId[name]
      ensures if name in old(names) then names == old(names) && deps == old(deps)
              else names == old(names) + [name] && deps == old(deps) + [[]]
      ensures names == WithName(old(names), name) && deps == Padded(old(deps), |names|)
      ensures forall n :: n in nameToId <==> n in old(nameToId) || n == name
      ensures forall n :: n in old(nameToId) ==> nameToId[n] == old(nameToId[n])
      ensures forall x, y :: DependsOn(x, y) <==> old(DependsOn(x, y))
    {
      if name in nameToId {
        assert names[nameToId[name]] == name;
        return nameToId[name];
      }
      id := count;
      count := count + 1;
      names := names + [name];
      nameToId := nameToId[name := id];
      deps := deps + [[]];
    }

    method AddDependency(a: string, b: string)
      requires Valid()
      modifies this
      ensures Valid()
      ensures forall n :: n in nameToId <==> n in old(nameToId) || n == a || n == b
      ensures forall x, y :: DependsOn(x, y) <==> old(DependsOn(x, y)) || (x == a && y == b)
      ensures names == WithName(WithName(old(names), a), b) && |old(deps)| <= |names| && a in nameToId && b in nameToId
      ensures var all, i := Padded(old(deps), |names|), nameToId[a]; deps == all[i := all[i] + [nameToId[b]]]
    {
      var i := AddPackage(a);
      var j := AddPackage(b);
      hide WithName, Padded;
      PaddedTwice(old(deps), |old(WithName(names, a))|, |names|);
      deps := deps[i := deps[i] + [j]];
    }

    /** All packages, each once and after everything it depends on; or the exception,
        exactly when the dependencies are cyclic. */
    method InstallOrder() returns (r: Result, ghost ids: seq<nat>)
      requires Valid()
      ensures r.CyclicDependency? <==> HasCycle(deps)
      ensures r.Order? ==> |r.names| == |names| && (forall n :: n in r.names <==> n in names)
      ensures r.Order? ==> forall i, j :: 0 <= i < j < |r.names| ==> r.names[i] != r.names[j]
      ensures r.Order? ==> forall i, b :: 0 <= i < |r.names| && DependsOn(r.names[i], b) ==> b in r.names[..i]
      ensures InRangeIds(ids, count) && InTurn(deps, ids, []) && (r.Order? ==> r.names == NamesOf(names, ids))
    {
      hide Counts, QueueOk, Ordered, Reverses, HasCycle, InTurn, Waiting, RevAscends;
      var indegree, rev := ReverseDeps(deps);
      var q := ReadyPackages(deps, rev, indegree);
      ghost var done: seq<nat> := [];
      var order: seq<string> := [];
      NothingInstalled(deps);
      while q != []
        invariant Counts(deps, indegree[..], Members(done), []) && QueueOk(deps, indegree[..], done, q)
        invariant Ordered(deps, done) && InRangeIds(done, count) && order == NamesOf(names, done)
        invariant InTurn(deps, done, q)
        decreases count - |done|
      {
        var pkg := q[0];
        assert q == [pkg] + q[1..];
        q := q[1..];
        Install(deps, rev, indegree[..], done, pkg, q);
        InstallInTurn(deps, done, pkg, q, rev[pkg]);
        NamesAppend(names, done, pkg);
        order := order + [names[pkg]];
        done := done + [pkg];
        QueueRoom(deps, indegree[..], done, q);
        q := ReleaseDependents(deps, rev, pkg, indegree, done, q);
      }
      Leftover(deps, indegree[..], done);
      ids := done;
      if |order| != count {
        return CyclicDependency, ids;
      }
      assert Valid();
      r := Order(order);
      NamedOrder(done, order);
    }

    /** The order by number, read as an order by name. */
    lemma NamedOrder(ids: seq<nat>, order: seq<string>)
      requires Valid() && InRangeIds(ids, count) && order == NamesOf(names, ids)
      requires Distinct(ids) && Ordered(deps, ids) && forall x: nat :: x < count ==> x in ids
      ensures forall n :: n in order <==> n in names
      ensures forall i, j :: 0 <= i < j < |order| ==> order[i] != order[j]
      ensures forall i, b :: 0 <= i < |order| && DependsOn(order[i], b) ==> b in order[..i]
    {
      forall n | n in names
        ensures n in order
      {
        var k :| 0 <= k < count && names[k] == n;
        assert k in ids;
        var i :| 0 <= i < |ids| && ids[i] == k;
        assert order[i] == n;
      }
      forall i, b | 0 <= i < |order| && DependsOn(order[i], b)
        ensures b in order[..i]
      {
        assert nameToId[b] in deps[ids[i]];
        assert nameToId[b] in ids[..i];
        var j :| 0 <= j < i && ids[j] == nameToId[b];
        assert order[..i][j] == names[nameToId[b]];
      }
    }
  }

  ghost predicate InRangeIds(ids: seq<nat>, n: nat) {
    forall i :: 0 <= i < |ids| ==> ids[i] < n
  }

  function NamesOf(names: seq<string>, ids: seq<nat>): (r: seq<string>)
    requires forall i :: 0 <= i < |ids| ==> ids[i] < |names|
    ensures |r| == |ids| && forall i :: 0 <= i < |ids| ==> r[i] == names[ids[i]]
  {
    if ids == [] then [] else NamesOf(names, ids[..|ids| - 1]) + [names[ids[|ids| - 1]]]
  }

  lemma NothingInstalled(deps: Deps)
    ensures Members([]) == {} && Ordered(deps, [])
  {
  }

  lemma NamesAppend(names: seq<string>, ids: seq<nat>, x: nat)
    requires InRangeIds(ids, |names|) && x < |names|
    ensures InRangeIds(ids + [x], |names|) && NamesOf(names, ids + [x]) == NamesOf(names, ids) + [names[x]]
  {
    assert (ids + [x])[..|ids|] == ids;
  }

  lemma QueueRoom(deps: Deps, indegree: seq<int>, order: seq<nat>, q: seq<nat>)
    requires QueueOk(deps, indegree, order, q)
    ensures |order| <= |deps|
  {
    DistinctBelow(order + q, |deps|);
  }

  /** In-degrees and reversed edges. */
  method ReverseDeps(deps: Deps) returns (indegree: array<int>, rev: seq<seq<nat>>)
    requires InRangeDeps(deps)
    ensures fresh(indegree) && Reverses(deps, rev) && Counts(deps, indegree[..], {}, [])
    ensures RevAscends(rev, |deps|)
  {
    indegree := new int[|deps|](_ => 0);
    rev := seq(|deps|, _ => []);
    for a := 0 to |deps|
      invariant ReversedTo(deps, rev, a, 0) && RevAscends(rev, a)
      invariant forall x :: 0 <= x < |deps| ==> indegree[x] == if x < a then |deps[x]| else 0
    {
      for j := 0 to |deps[a]|
        invariant ReversedTo(deps, rev, a, j) && RevAscends(rev, a)
        invariant forall x :: 0 <= x < |deps| ==> indegree[x] == if x < a then |deps[x]| else if x == a then j else 0
      {
        var b := deps[a][j];
        ReverseOne(deps, rev, a, j);
        RevAppend(rev, b, a);
        rev := rev[b := rev[b] + [a]];
        indegree[a] := indegree[a] + 1;
      }
      ReverseRow(deps, rev, a);
    }
    ReverseAll(deps, rev);
    forall x | 0 <= x < |deps|
      ensures indegree[..][x] == Missing(deps[x], {}) + Occurrences([], x)
    {
      MissingNone(deps[x], {});
    }
  }

  /** The entries of deps before (a, j) have been reversed. */
  ghost predicate ReversedTo(deps: Deps, rev: seq<seq<nat>>, a: nat, j: nat) {
    && |rev| == |deps| && (a < |deps| ==> j <= |deps[a]|)
    && (forall b, x :: 0 <= b < |deps| && 0 <= x < |deps| ==> ReversedEntry(deps, rev[b], b, x, a, j))
    && (forall b, i :: 0 <= b < |rev| && 0 <= i < |rev[b]| ==> rev[b][i] < |deps|)
  }

  ghost predicate ReversedEntry(deps: Deps, back: seq<nat>, b: nat, x: nat, a: nat, j: nat)
    requires x < |deps| && (a < |deps| ==> j <= |deps[a]|)
  {
    Occurrences(back, x) ==
    if x < a then Occurrences(deps[x], b) else if x == a then Occurrences(deps[x][..j], b) else 0
  }

  lemma ReverseOne(deps: Deps, rev: seq<seq<nat>>, a: nat, j: nat)
    requires InRangeDeps(deps) && ReversedTo(deps, rev, a, j) && a < |deps| && j < |deps[a]|
    ensures ReversedTo(deps, rev[deps[a][j] := rev[deps[a][j]] + [a]], a, j + 1)
  {
    var c := deps[a][j];
    var rev' := rev[c := rev[c] + [a]];
    var j' := j + 1;
    forall b: nat, x: nat | b < |deps| && x < |deps|
      ensures ReversedEntry(deps, rev'[b], b, x, a, j')
    {
      assert ReversedEntry(deps, rev[b], b, x, a, j);
      assert deps[a][..j'] == deps[a][..j] + [c];
      OccurrencesAppend(deps[a][..j], c, b);
      OccurrencesAppend(rev[c], a, x);
    }
  }

  lemma ReverseRow(deps: Deps, rev: seq<seq<nat>>, a: nat)
    requires a < |deps| && ReversedTo(deps, rev, a, |deps[a]|)
    ensures ReversedTo(deps, rev, a + 1, 0)
  {
    var a' := a + 1;
    forall b: nat, x: nat | b < |deps| && x < |deps|
      ensures ReversedEntry(deps, rev[b], b, x, a', 0)
    {
      assert ReversedEntry(deps, rev[b], b, x, a, |deps[a]|);
      assert deps[a][..|deps[a]|] == deps[a];
      assert deps[x][..0] == [];
    }
  }

  lemma ReverseAll(deps: Deps, rev: seq<seq<nat>>)
    requires ReversedTo(deps, rev, |deps|, 0)
    ensures Reverses(deps, rev)
  {
    forall b, a | 0 <= b < |deps| && 0 <= a < |deps|
      ensures Occurrences(rev[b], a) == Occurrences(deps[a], b)
    {
      assert ReversedEntry(deps, rev[b], b, a, |deps|, 0);
    }
  }

  /** The packages that depend on nothing. */
  method ReadyPackages(deps: Deps, ghost rev: seq<seq<nat>>, indegree: array<int>) returns (q: seq<nat>)
    requires indegree.Length == |deps| && Counts(deps, indegree[..], {}, [])
    ensures QueueOk(deps, indegree[..], [], q) && InTurn(deps, [], q)
  {
    q := [];
    for i := 0 to |deps|
      invariant Ascends(q) && forall x :: x in q ==> x < i
      invariant Distinct(q) && forall a :: 0 <= a < i ==> (indegree[a] == 0 <==> a in q)
    {
      assert forall k :: 0 <= k < |q| ==> q[k] in q;
      if indegree[i] == 0 {
        q := q + [i];
      }
    }
    assert [] + q == q;
    forall x | x in q
      ensures AllIn(deps, x, [])
    {
      MissingNone(deps[x], {});
    }
    FirstInTurn(deps, q);
  }

  /** The inner loop: pkg is installed, so its dependents miss one dependency less. */
  method ReleaseDependents(deps: Deps, rev: seq<seq<nat>>, pkg: nat, indegree: array<int>, ghost order: seq<nat>,
          rest: seq<nat>)
      returns (q: seq<nat>)
    requires Reverses(deps, rev) && pkg < |deps| && indegree.Length == |deps|
    requires Counts(deps, indegree[..], Members(order), rev[pkg]) && QueueOk(deps, indegree[..], order, rest)
    requires order != [] && order[|order| - 1] == pkg && RevAscends(rev, |deps|)
    requires InTurn(deps, order, rest) && Waiting(deps, order, rest, rev[pkg])
    modifies indegree
    ensures Counts(deps, indegree[..], Members(order), []) && QueueOk(deps, indegree[..], order, q)
    ensures InTurn(deps, order, q)
  {
    assert Ascending(rev[pkg]);
    hide Counts, QueueOk, Members, InTurn, Waiting, RevAscends;
    DistinctOrder(deps, indegree[..], order, rest);
    q := rest;
    assert rev[pkg][0..] == rev[pkg];
    for k := 0 to |rev[pkg]|
      invariant Counts(deps, indegree[..], Members(order), rev[pkg][k..]) && QueueOk(deps, indegree[..], order, q)
      invariant InTurn(deps, order, q) && Waiting(deps, order, q, rev[pkg][k..]) && Ascending(rev[pkg][k..])
    {
      var dependent := rev[pkg][k];
      ghost var ahead, d := rev[pkg][k..], indegree[..];
      assert ahead[0] == dependent && ahead[1..] == rev[pkg][k + 1..];
      Release(deps, d, order, q, ahead);
      NextInTurn(deps, rev, pkg, d, order, q, ahead);
      indegree[dependent] := indegree[dependent] - 1;
      assert indegree[..] == d[dependent := d[dependent] - 1];
      if indegree[dependent] == 0 {
        q := q + [dependent];
      }
    }
    assert rev[pkg][|rev[pkg]|..] == [];
  }
}
