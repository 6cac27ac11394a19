/** First come, first served: when packages become ready, and in which order they are installed. */
module FirstCome {
  /** Everything a depends on is in the list. */
  ghost predicate AllIn(deps: seq<seq<nat>>, a: nat, order: seq<nat>) {
    a < |deps| && forall d :: d in deps[a] ==> d in order
  }

  /** How many packages were installed when a became ready; more than all if it is not. */
  ghost function ReadyAt(deps: seq<seq<nat>>, order: seq<nat>, a: nat): (k: nat)
    ensures k <= |order| + 1 && (k <= |order| ==> AllIn(deps, a, order[..k]))
    ensures forall j :: 0 <= j < k && j <= |order| ==> !AllIn(deps, a, order[..j])
  {
    if order == [] then if AllIn(deps, a, []) then 0 else 1
    else
      var n := |order| - 1;
      var k := ReadyAt(deps, order[..n], a);
      assert forall j :: 0 <= j <= n ==> order[..n][..j] == order[..j];
      assert order[..n + 1] == order;
      if k <= n then k else if AllIn(deps, a, order) then n + 1 else n + 2
  }

  /** a was ready before b, or at the same time and has the smaller number. */
  ghost predicate Precedes(deps: seq<seq<nat>>, order: seq<nat>, a: nat, b: nat) {
    var i, j := ReadyAt(deps, order, a), ReadyAt(deps, order, b);
    i < j || (i == j && a < b)
  }

  /** Installed and queued packages stand in the order in which they became ready. */
  ghost predicate InTurn(deps: seq<seq<nat>>, order: seq<nat>, q: seq<nat>) {
    var all := order + q;
    && (forall x :: x in all ==> ReadyAt(deps, order, x) <= |order|)
    && (forall i, j :: 0 <= i < j < |all| ==> Precedes(deps, order, all[i], all[j]))
  }

  /** The packages that may still join the queue come after those that have. */
  ghost predicate Waiting(deps: seq<seq<nat>>, order: seq<nat>, q: seq<nat>, ahead: seq<nat>) {
    forall x, y :: x in order + q && y in ahead ==> ReadyAt(deps, order, x) < |order| || x < y
  }

  ghost predicate Ascending(xs: seq<nat>) {
    forall i, j :: 0 <= i < j < |xs| ==> xs[i] <= xs[j]
  }

  ghost predicate Ascends(xs: seq<nat>) {
    forall i, j :: 0 <= i < j < |xs| ==> xs[i] < xs[j]
  }

  lemma ReadyStays(deps: seq<seq<nat>>, order: seq<nat>, pkg: nat, a: nat)
    ensures ReadyAt(deps, order, a) <= |order| ==> ReadyAt(deps, order + [pkg], a) == ReadyAt(deps, order, a)
  {
    assert (order + [pkg])[..|order|] == order;
  }

  /** Packages without dependencies come first, by number. */
  lemma FirstInTurn(deps: seq<seq<nat>>, q: seq<nat>)
    requires Ascends(q) && forall x :: x in q ==> AllIn(deps, x, [])
    ensures InTurn(deps, [], q)
  {
    hide ReadyAt;
    assert [] + q == q;
    forall x | x in q
      ensures ReadyAt(deps, [], x) == 0
    {
      ReadyFirst(deps, x);
    }
  }

  lemma ReadyFirst(deps: seq<seq<nat>>, a: nat)
    requires AllIn(deps, a, [])
    ensures ReadyAt(deps, [], a) == 0
  {
  }

  /** Installing the front of the queue. */
  lemma InstallInTurn(deps: seq<seq<nat>>, order: seq<nat>, pkg: nat, q: seq<nat>, ahead: seq<nat>)
    requires InTurn(deps, order, [pkg] + q)
    ensures InTurn(deps, order + [pkg], q) && Waiting(deps, order + [pkg], q, ahead)
  {
    hide ReadyAt;
    var all := order + [pkg] + q;
    assert all == order + ([pkg] + q);
    forall x | x in all
      ensures ReadyAt(deps, order + [pkg], x) == ReadyAt(deps, order, x) <= |order|
    {
      ReadyStays(deps, order, pkg, x);
    }
    forall i, j | 0 <= i < j < |all|
      ensures Precedes(deps, order + [pkg], all[i], all[j])
    {
      assert all[i] in all && all[j] in all;
      assert Precedes(deps, order, all[i], all[j]);
    }
  }

  /** A package that depends on the last one installed is ready now and not before. */
  lemma ReadyNow(deps: seq<seq<nat>>, order: seq<nat>, a: nat)
    requires order != [] && AllIn(deps, a, order)
    requires order[|order| - 1] in deps[a] && order[|order| - 1] !in order[..|order| - 1]
    ensures ReadyAt(deps, order, a) == |order|
  {
    var n := |order| - 1;
    assert order[..n + 1] == order;
    forall k | 0 <= k <= n
      ensures order[n] !in order[..k]
    {
      assert order[..n][..k] == order[..k];
    }
  }

  /** The next dependent joins the queue. */
  lemma JoinInTurn(deps: seq<seq<nat>>, order: seq<nat>, q: seq<nat>, ahead: seq<nat>)
    requires InTurn(deps, order, q) && ahead != [] && Waiting(deps, order, q, ahead) && Ascending(ahead)
    requires ReadyAt(deps, order, ahead[0]) == |order| && ahead[0] !in ahead[1..]
    ensures InTurn(deps, order, q + [ahead[0]]) && Waiting(deps, order, q + [ahead[0]], ahead[1..])
  {
    hide ReadyAt;
    var d := ahead[0];
    var all, all' := order + q, order + (q + [d]);
    assert all' == all + [d];
    forall i, j | 0 <= i < j < |all'|
      ensures Precedes(deps, order, all'[i], all'[j])
    {
      if j < |all| {
        assert Precedes(deps, order, all[i], all[j]);
      } else {
        assert all[i] in all && d in ahead;
      }
    }
    forall y | y in ahead[1..]
      ensures d < y && y in ahead
    {
      var i :| 0 <= i < |ahead[1..]| && ahead[1..][i] == y;
      assert ahead[i + 1] == y;
    }
  }

  lemma WaitingShrinks(deps: seq<seq<nat>>, order: seq<nat>, q: seq<nat>, ahead: seq<nat>)
    requires ahead != [] && Waiting(deps, order, q, ahead)
    ensures Waiting(deps, order, q, ahead[1..])
  {
    hide ReadyAt;
    forall y | y in ahead[1..]
      ensures y in ahead
    {
    }
  }

  /** Whether a is ready depends on nothing behind the place where it is. */
  lemma ReadyInPrefix(deps: seq<seq<nat>>, order: seq<nat>, k: nat, a: nat)
    requires k <= |order| && AllIn(deps, a, order[..k])
    ensures ReadyAt(deps, order, a) == ReadyAt(deps, order[..k], a) <= k
  {
    var r := ReadyAt(deps, order[..k], a);
    assert order[..k][..k] == order[..k];
    forall j | 0 <= j <= k
      ensures order[..k][..j] == order[..j]
    {
    }
  }

  /** Two orders first differ somewhere, and each has the other's entry further on. */
  lemma {:induction false} FirstDifference(a: seq<nat>, b: seq<nat>) returns (k: nat)
    requires |a| == |b| && a != b
    ensures k < |a| && a[..k] == b[..k] && a[k] != b[k]
    decreases |a|
  {
    var n := |a| - 1;
    assert a == a[..n] + [a[n]] && b == b[..n] + [b[n]];
    if a[..n] == b[..n] {
      k := n;
    } else {
      k := FirstDifference(a[..n], b[..n]);
      assert a[..n][..k] == a[..k] && b[..n][..k] == b[..k];
    }
  }

  lemma FurtherOn(deps: seq<seq<nat>>, a: seq<nat>, b: seq<nat>, k: nat) returns (i: nat)
    requires InTurn(deps, a, []) && k < |a| == |b| && a[..k] == b[..k] && a[k] != b[k] && a[k] in b
    ensures k < i < |b| && b[i] == a[k]
  {
    assert a + [] == a;
    forall m | 0 <= m < k
      ensures a[m] == b[m]
    {
      assert a[..k][m] == b[..k][m];
    }
    i :| 0 <= i < |b| && b[i] == a[k];
  }

  /** There is only one such order of all packages. */
  lemma TurnIsUnique(deps: seq<seq<nat>>, a: seq<nat>, b: seq<nat>)
    requires InTurn(deps, a, []) && InTurn(deps, b, []) && |a| == |b| && forall x :: x in a <==> x in b
    requires forall i :: 0 <= i < |a| ==> AllIn(deps, a[i], a[..i]) && AllIn(deps, b[i], b[..i])
    ensures a == b
  {
    assert a + [] == a && b + [] == b;
    if a != b {
      var k := FirstDifference(a, b);
      var i := FurtherOn(deps, a, b, k);
      var j := FurtherOn(deps, b, a, k);
      ReadyInPrefix(deps, a, k, a[k]);
      ReadyInPrefix(deps, b, k, a[k]);
      ReadyInPrefix(deps, a, k, b[k]);
      ReadyInPrefix(deps, b, k, b[k]);
    }
  }
}
