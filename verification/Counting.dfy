/** Lists without repetition, how many entries they can have, and lists less an entry.

    The pigeonhole principle below is what ends the path, order and cycle arguments of the
    graph algorithms. */
module Counting {
  ghost predicate Distinct(xs: seq<nat>) {
    forall i, j :: 0 <= i < j < |xs| ==> xs[i] != xs[j]
  }

  function Below(n: nat): (s: set<nat>)
    ensures |s| == n && forall x: nat :: x in s <==> x < n
  {
    if n == 0 then {} else Below(n - 1) + {n - 1}
  }

  function Members(xs: seq<nat>): set<nat> {
    set x | x in xs
  }

  lemma {:induction false} DistinctSize(xs: seq<nat>)
    requires Distinct(xs)
    ensures |Members(xs)| == |xs|
    decreases |xs|
  {
    if xs != [] {
      var before, last := xs[..|xs| - 1], xs[|xs| - 1];
      DistinctSize(before);
      assert Members(xs) == Members(before) + {last};
    }
  }

  /** Pigeonhole: there are at most n distinct numbers below n, and n of them are all. */
  lemma DistinctBelow(xs: seq<nat>, n: nat)
    requires Distinct(xs) && (forall x :: x in xs ==> x < n)
    ensures |xs| <= n
    ensures |xs| == n ==> forall x: nat :: x < n ==> x in xs
  {
    var found := Members(xs);
    DistinctSize(xs);
    var all := Below(n);
    assert found <= all;
    assert all == found + (all - found);
    if |xs| == n {
      assert all - found == {};
      forall x: nat | x < n
        ensures x in xs
      {
        assert x in all && x !in all - found;
      }
    }
  }

  /** std::reverse */
  function Reversed(xs: seq<nat>): (r: seq<nat>)
    ensures |r| == |xs| && forall i :: 0 <= i < |xs| ==> r[i] == xs[|xs| - 1 - i]
  {
    if xs == [] then [] else [xs[|xs| - 1]] + Reversed(xs[..|xs| - 1])
  }

  lemma SubsetSize(a: set<nat>, b: set<nat>)
    requires a <= b
    ensures |a| <= |b|
  {
    assert b == a + (b - a);
  }

  lemma MembersSize(xs: seq<nat>)
    ensures |Members(xs)| <= |xs|
  {
    if xs != [] {
      var init, last := xs[..|xs| - 1], xs[|xs| - 1];
      MembersSize(init);
      assert Members(xs) == Members(init) + {last};
    }
  }

  /** All of xs but the entry at k. */
  function Without<T>(xs: seq<T>, k: nat): (r: seq<T>)
    requires k < |xs|
    ensures |r| == |xs| - 1
  {
    xs[..k] + xs[k + 1..]
  }
}
