/** Rearranging part of an array, and what rearranging keeps.

    Sorting in place is a series of such rearrangements: none loses an element, and none
    touches what lies outside its range. */
module Rearranging {
  import opened Counting

  /** t is s with the elements of [lo, hi) in some other order and all else in place. */
  ghost predicate Rearranged(s: seq<int>, t: seq<int>, lo: nat, hi: nat) {
    && |s| == |t| && lo <= hi <= |s|
    && s[..lo] == t[..lo] && s[hi..] == t[hi..]
    && multiset(s[lo..hi]) == multiset(t[lo..hi])
  }

  ghost predicate Sorted(s: seq<int>, lo: nat, hi: nat) {
    hi <= |s| && forall i, j :: lo <= i < j < hi ==> s[i] <= s[j]
  }

  /** Everything in [a, b) is at most everything in [c, d). */
  ghost predicate Ordered(s: seq<int>, a: nat, b: nat, c: nat, d: nat) {
    b <= |s| && d <= |s| && forall i, j :: a <= i < b && c <= j < d ==> s[i] <= s[j]
  }

  function Swapped(s: seq<int>, i: nat, j: nat): (t: seq<int>)
    requires i < |s| && j < |s|
    ensures |t| == |s|
  {
    s[i := s[j]][j := s[i]]
  }

  method Swap(v: array<int>, i: nat, j: nat)
    requires i < v.Length && j < v.Length
    modifies v
    ensures v[..] == Swapped(old(v[..]), i, j)
  {
    v[i], v[j] := v[j], v[i];
  }

  lemma SwapRearranges(s: seq<int>, i: nat, j: nat, lo: nat, hi: nat)
    requires lo <= i < hi <= |s| && lo <= j < hi
    ensures Rearranged(s, Swapped(s, i, j), lo, hi)
  {
    var t := Swapped(s, i, j);
    var m := s[lo..hi];
    assert t[lo..hi] == m[i - lo := s[j]][j - lo := s[i]];
    assert t[..lo] == s[..lo] && t[hi..] == s[hi..];
  }

  lemma Untouched(s: seq<int>, lo: nat, hi: nat)
    requires lo <= hi <= |s|
    ensures Rearranged(s, s, lo, hi)
  {
  }

  lemma Widen(s: seq<int>, t: seq<int>, lo: nat, hi: nat, a: nat, b: nat)
    requires Rearranged(s, t, lo, hi) && a <= lo && hi <= b <= |s|
    ensures Rearranged(s, t, a, b)
  {
    assert s[a..b] == s[..lo][a..] + s[lo..hi] + s[hi..][..b - hi];
    assert t[a..b] == t[..lo][a..] + t[lo..hi] + t[hi..][..b - hi];
    assert s[..a] == s[..lo][..a] && t[..a] == t[..lo][..a];
    assert s[b..] == s[hi..][b - hi..] && t[b..] == t[hi..][b - hi..];
  }

  lemma Compose(s: seq<int>, t: seq<int>, u: seq<int>, lo: nat, hi: nat)
    requires Rearranged(s, t, lo, hi) && Rearranged(t, u, lo, hi)
    ensures Rearranged(s, u, lo, hi)
  {
  }

  /** Rearranging [lo, hi) moves elements only inside it. */
  lemma Origin(s: seq<int>, t: seq<int>, lo: nat, hi: nat, k: nat) returns (j: nat)
    requires Rearranged(s, t, lo, hi) && k < |s|
    ensures j < |s| && s[j] == t[k]
    ensures if lo <= k < hi then lo <= j < hi else j == k
  {
    j := k;
    if lo <= k < hi {
      assert t[k] in multiset(t[lo..hi]) by {
        assert t[lo..hi][k - lo] == t[k];
      }
      assert t[k] in s[lo..hi];
      var i :| 0 <= i < hi - lo && s[lo..hi][i] == t[k];
      j := lo + i;
    } else if k < lo {
      assert t[k] == t[..lo][k] && s[k] == s[..lo][k];
    } else {
      assert t[k] == t[hi..][k - hi] && s[k] == s[hi..][k - hi];
    }
  }

  /** A rearrangement inside one side, or outside both, keeps two ranges ordered. */
  lemma KeepsOrdered(s: seq<int>, t: seq<int>, lo: nat, hi: nat, a: nat, b: nat, c: nat, d: nat)
    requires Rearranged(s, t, lo, hi) && Ordered(s, a, b, c, d)
    requires (a <= lo && hi <= b) || hi <= a || b <= lo
    requires (c <= lo && hi <= d) || hi <= c || d <= lo
    ensures Ordered(t, a, b, c, d)
  {
    forall i, j | a <= i < b && c <= j < d
      ensures t[i] <= t[j]
    {
      var i' := Origin(s, t, lo, hi, i);
      var j' := Origin(s, t, lo, hi, j);
      hide Rearranged;
    }
  }

  lemma KeepsSorted(s: seq<int>, t: seq<int>, lo: nat, hi: nat, a: nat, b: nat)
    requires Rearranged(s, t, lo, hi) && Sorted(s, a, b) && (hi <= a || b <= lo)
    ensures Sorted(t, a, b)
  {
    forall i, j | a <= i < j < b
      ensures t[i] <= t[j]
    {
      var i' := Origin(s, t, lo, hi, i);
      var j' := Origin(s, t, lo, hi, j);
    }
  }

  // ---------- Counting greater elements ----------

  function Greater(xs: seq<int>, key: int): (n: nat)
    ensures n <= |xs|
  {
    if xs == [] then 0 else Greater(xs[..|xs| - 1], key) + (if xs[|xs| - 1] > key then 1 else 0)
  }

  lemma {:induction false} GreaterConcat(xs: seq<int>, ys: seq<int>, key: int)
    ensures Greater(xs + ys, key) == Greater(xs, key) + Greater(ys, key)
    decreases |ys|
  {
    if ys == [] {
      assert xs + ys == xs;
    } else {
      var front := ys[..|ys| - 1];
      assert (xs + ys)[..|xs + ys| - 1] == xs + front;
      GreaterConcat(xs, front, key);
    }
  }

  lemma TakeOut(ys: seq<int>, k: nat, key: int)
    requires k < |ys|
    ensures multiset(ys) == multiset(Without(ys, k)) + multiset{ys[k]}
    ensures Greater(ys, key) == Greater(Without(ys, k), key) + (if ys[k] > key then 1 else 0)
  {
    var before, after := ys[..k], ys[k + 1..];
    assert ys == before + ([ys[k]] + after);
    GreaterConcat(before, after, key);
    GreaterConcat(before, [ys[k]] + after, key);
    GreaterConcat([ys[k]], after, key);
    assert Greater([ys[k]], key) == if ys[k] > key then 1 else 0;
  }

  lemma {:induction false} GreaterSamePermuted(xs: seq<int>, ys: seq<int>, key: int)
    requires multiset(xs) == multiset(ys)
    ensures Greater(xs, key) == Greater(ys, key)
    decreases |xs|
  {
    if xs == [] {
      assert |multiset(ys)| == 0;
    } else {
      var last := |xs| - 1;
      TakeOut(xs, last, key);
      assert xs[last] in multiset(ys);
      var k :| 0 <= k < |ys| && ys[k] == xs[last];
      TakeOut(ys, k, key);
      hide Greater;
      SameRest(xs, ys, last, k);
      GreaterSamePermuted(Without(xs, last), Without(ys, k), key);
    }
  }

  lemma SameRest(xs: seq<int>, ys: seq<int>, i: nat, k: nat)
    requires i < |xs| && k < |ys| && xs[i] == ys[k] && multiset(xs) == multiset(ys)
    ensures multiset(Without(xs, i)) == multiset(Without(ys, k))
  {
    TakeOut(xs, i, 0);
    TakeOut(ys, k, 0);
    assert multiset(Without(xs, i)) == multiset(xs) - multiset{xs[i]};
    assert multiset(Without(ys, k)) == multiset(ys) - multiset{ys[k]};
  }

  lemma {:induction false} GreaterNone(xs: seq<int>, key: int)
    requires forall k :: 0 <= k < |xs| ==> xs[k] <= key
    ensures Greater(xs, key) == 0
    decreases |xs|
  {
    if xs != [] {
      GreaterNone(xs[..|xs| - 1], key);
    }
  }

  lemma {:induction false} GreaterAll(xs: seq<int>, key: int)
    requires forall k :: 0 <= k < |xs| ==> xs[k] > key
    ensures Greater(xs, key) == |xs|
    decreases |xs|
  {
    if xs != [] {
      GreaterAll(xs[..|xs| - 1], key);
    }
  }
}
