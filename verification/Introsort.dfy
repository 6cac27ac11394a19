/** Introsort: quicksort with median of three, heap sort beyond the depth limit, and one
    final insertion pass over the nearly sorted array. */
module Introsort {
  import opened HeapSort
  import opened Rearranging

  // ---------- Insertion sort ----------

  /** s with the element at i moved down to p. */
  function Inserted(s: seq<int>, p: nat, i: nat): (t: seq<int>)
    requires p <= i < |s|
    ensures |t| == |s|
  {
    s[..p] + [s[i]] + s[p..i] + s[i + 1..]
  }

  lemma InsertedRearranges(s: seq<int>, lo: nat, p: nat, i: nat, hi: nat)
    requires lo <= p <= i < hi <= |s|
    ensures Rearranged(s, Inserted(s, p, i), lo, hi)
  {
    var t := Inserted(s, p, i);
    assert t[..p] == s[..p] && t[i + 1..] == s[i + 1..];
    assert s[p..i + 1] == s[p..i] + [s[i]];
    assert t[p..i + 1] == [s[i]] + s[p..i];
    Widen(s, t, p, i + 1, lo, hi);
  }

  lemma InsertedSorted(s: seq<int>, lo: nat, p: nat, i: nat)
    requires lo <= p <= i < |s| && Sorted(s, lo, i)
    requires forall k :: lo <= k < p ==> s[k] <= s[i]
    requires forall k :: p <= k < i ==> s[i] < s[k]
    ensures Sorted(Inserted(s, p, i), lo, i + 1)
  {
  }

  /** The elements of a sorted range that are greater than the key are its last ones. */
  lemma GreaterInSorted(s: seq<int>, lo: nat, p: nat, i: nat, key: int)
    requires lo <= p <= i <= |s|
    requires forall k :: lo <= k < p ==> s[k] <= key
    requires forall k :: p <= k < i ==> key < s[k]
    ensures Greater(s[lo..i], key) == i - p
  {
    assert s[lo..i] == s[lo..p] + s[p..i];
    GreaterConcat(s[lo..p], s[p..i], key);
    GreaterNone(s[lo..p], key);
    GreaterAll(s[p..i], key);
  }

  /** How far insertion sort moves the element at i: one place per greater element before it. */
  function Displacement(s: seq<int>, lo: nat, i: nat): nat
    requires lo <= i < |s|
  {
    Greater(s[lo..i], s[i])
  }

  /** One insertion: the element at i moves below the greater ones of the sorted prefix. */
  method Insert(v: array<int>, left: nat, i: nat) returns (p: nat)
    requires left < i < v.Length && Sorted(v[..], left, i)
    modifies v
    ensures left <= p <= i && v[..] == Inserted(old(v[..]), p, i)
    ensures Sorted(v[..], left, i + 1)
    ensures i - p == Displacement(old(v[..]), left, i)
  {
    ghost var s := v[..];
    var key := v[i];
    var j := i - 1;
    while j >= left && v[j] > key
      invariant left - 1 <= j < i
      invariant forall k :: 0 <= k <= j || i < k < v.Length ==> v[k] == s[k]
      invariant forall k :: j + 1 < k <= i ==> v[k] == s[k - 1]
      invariant forall k :: j < k < i ==> s[k] > key
    {
      v[j + 1] := v[j];
      j := j - 1;
    }
    v[j + 1] := key;
    p := j + 1;
    assert forall k :: left <= k < p ==> s[k] <= key;
    assert v[..] == Inserted(s, p, i);
    InsertedSorted(s, left, p, i);
    GreaterInSorted(s, left, p, i, key);
  }

  method InsertionSortRange(v: array<int>, left: nat, right: int) returns (ghost moves: seq<nat>)
    requires left - 1 <= right < v.Length
    modifies v
    ensures Rearranged(old(v[..]), v[..], left, right + 1)
    ensures Sorted(v[..], left, right + 1)
    ensures |moves| == if left < right then right - left else 0
    ensures forall i :: left < i <= right ==> moves[i - left - 1] == Displacement(old(v[..]), left, i)
  {
    hide Rearranged, Sorted, Inserted, Displacement;
    ghost var s := v[..];
    moves := [];
    AlreadySorted(s, left, if left < right then left + 1 else right + 1);
    var i := left + 1;
    while i <= right
      invariant left < i && (i <= right + 1 || i == left + 1)
      invariant |moves| == i - left - 1
      invariant SoFar(s, v[..], left, if i <= right then i else right + 1)
      invariant forall k :: left < k < i && k <= right ==> moves[k - left - 1] == Displacement(s, left, k)
    {
      ghost var t := v[..];
      var p := Insert(v, left, i);
      SameDisplacement(s, t, left, i);
      moves := moves + [i - p];
      InsertedSoFar(s, t, left, p, i);
      i := i + 1;
    }
  }

  /** The prefix up to hi has been sorted. */
  ghost predicate SoFar(s: seq<int>, t: seq<int>, lo: nat, hi: nat) {
    Rearranged(s, t, lo, hi) && Sorted(t, lo, hi)
  }

  lemma AlreadySorted(s: seq<int>, lo: nat, hi: nat)
    requires lo <= hi <= |s| && hi <= lo + 1
    ensures SoFar(s, s, lo, hi)
  {
  }

  lemma InsertedSoFar(s: seq<int>, t: seq<int>, lo: nat, p: nat, i: nat)
    requires SoFar(s, t, lo, i) && lo <= p <= i < |s|
    requires Sorted(Inserted(t, p, i), lo, i + 1)
    ensures SoFar(s, Inserted(t, p, i), lo, i + 1)
  {
    InsertedRearranges(t, lo, p, i, i + 1);
    Widen(s, t, lo, i, lo, i + 1);
    Compose(s, t, Inserted(t, p, i), lo, i + 1);
  }

  lemma SameDisplacement(s: seq<int>, t: seq<int>, lo: nat, i: nat)
    requires lo <= i < |s| && Rearranged(s, t, lo, i)
    ensures Displacement(s, lo, i) == Displacement(t, lo, i)
  {
    assert s[i] == s[i..][0] && t[i] == t[i..][0];
    GreaterSamePermuted(s[lo..i], t[lo..i], s[i]);
  }

  // ---------- Partition ----------

  /** Swaps within [left, right], remembering that the whole is still a rearrangement. */
  method SwapWithin(v: array<int>, i: nat, j: nat, left: nat, right: nat, ghost s: seq<int>)
    requires left <= i <= right < v.Length && left <= j <= right
    requires Rearranged(s, v[..], left, right + 1)
    modifies v
    ensures v[i] == old(v[j]) && v[j] == old(v[i])
    ensures forall k :: 0 <= k < v.Length && k != i && k != j ==> v[k] == old(v[k])
    ensures Rearranged(s, v[..], left, right + 1)
  {
    SwapRearranges(v[..], i, j, left, right + 1);
    Compose(s, v[..], Swapped(v[..], i, j), left, right + 1);
    hide Rearranged;
    Swap(v, i, j);
  }

  /** Puts the median of three at right - 1, with sentinels for both scans at the ends. */
  method MedianOfThree(v: array<int>, left: nat, right: nat)
    requires left + 2 <= right < v.Length
    modifies v
    ensures Rearranged(old(v[..]), v[..], left, right + 1)
    ensures v[left] <= v[right - 1] <= v[right]
  {
    hide Rearranged;
    ghost var s := v[..];
    Untouched(s, left, right + 1);
    var mid := left + (right - left) / 2;
    if v[left] > v[mid] { SwapWithin(v, left, mid, left, right, s); }
    if v[left] > v[right] { SwapWithin(v, left, right, left, right, s); }
    if v[mid] > v[right] { SwapWithin(v, mid, right, left, right, s); }
    SwapWithin(v, mid, right - 1, left, right, s);
  }

  /** `probes` records every index the two unguarded scans compare with the pivot. */
  method Partition(v: array<int>, left: nat, right: nat) returns (p: nat, ghost probes: set<int>)
    requires left + 2 <= right < v.Length
    modifies v
    ensures left < p < right
    ensures Rearranged(old(v[..]), v[..], left, right + 1)
    ensures forall k :: left <= k < p ==> v[k] <= v[p]
    ensures forall k :: p < k <= right ==> v[p] <= v[k]
    ensures forall k :: k in probes ==> left <= k <= right
  {
    hide Rearranged;
    ghost var s := v[..];
    MedianOfThree(v, left, right);
    var pivot := v[right - 1];
    var i, j := left, right - 1;
    probes := {};
    while true
      invariant left <= i < j <= right - 1
      invariant v[right - 1] == pivot && v[left] <= pivot
      invariant (forall k :: left <= k <= i ==> v[k] <= pivot) && (forall k :: j <= k <= right ==> v[k] >= pivot)
      invariant Rearranged(s, v[..], left, right + 1)
      invariant forall k :: k in probes ==> left <= k <= right
      decreases j - i
    {
      i := i + 1;
      probes := probes + {i};
      while v[i] < pivot
        invariant left < i <= right - 1
        invariant forall k :: left <= k < i ==> v[k] <= pivot
        invariant forall k :: k in probes ==> left <= k <= right
        decreases right - i
      {
        i := i + 1;
        probes := probes + {i};
      }
      j := j - 1;
      probes := probes + {j};
      while v[j] > pivot
        invariant left <= j < right - 1
        invariant forall k :: j < k <= right ==> v[k] >= pivot
        invariant forall k :: k in probes ==> left <= k <= right
        decreases j
      {
        j := j - 1;
        probes := probes + {j};
      }
      if i >= j { break; }
      SwapWithin(v, i, j, left, right, s);
    }
    SwapWithin(v, i, right - 1, left, right, s);
    p := i;
  }

  // ---------- Introsort ----------

  const THRESHOLD := 16

  ghost predicate Block(s: seq<int>, lo: nat, hi: nat) {
    hi - lo <= THRESHOLD + 1 || Sorted(s, lo, hi)
  }

  /** Consecutive blocks between the cuts: no element is greater than one of a later block,
      and every block is sorted already or at most 17 long. */
  ghost predicate Blocks(s: seq<int>, cuts: seq<nat>) {
    && cuts != []
    && (|cuts| == 1 ==> cuts[0] <= |s|)
    && (|cuts| > 1 ==>
          && cuts[0] <= cuts[1] && Block(s, cuts[0], cuts[1])
          && Ordered(s, cuts[0], cuts[1], cuts[1], cuts[|cuts| - 1])
          && Blocks(s, cuts[1..]))
  }

  lemma {:induction false} BlocksInside(s: seq<int>, cuts: seq<nat>)
    requires Blocks(s, cuts)
    ensures cuts[0] <= cuts[|cuts| - 1] <= |s|
  {
    if |cuts| > 1 {
      BlocksInside(s, cuts[1..]);
    }
  }

  lemma {:induction false} KeepsBlocks(s: seq<int>, t: seq<int>, lo: nat, hi: nat, cuts: seq<nat>)
    requires Blocks(s, cuts) && Rearranged(s, t, lo, hi) && hi <= cuts[0]
    ensures Blocks(t, cuts)
  {
    if |cuts| > 1 {
      KeepsBlocks(s, t, lo, hi, cuts[1..]);
      if Sorted(s, cuts[0], cuts[1]) {
        KeepsSorted(s, t, lo, hi, cuts[0], cuts[1]);
      }
      KeepsOrdered(s, t, lo, hi, cuts[0], cuts[1], cuts[1], cuts[|cuts| - 1]);
    }
  }

  function Joined(front: seq<nat>, back: seq<nat>): seq<nat>
    requires front != []
  {
    front[..|front| - 1] + back
  }

  lemma {:induction false} JoinBlocks(s: seq<int>, front: seq<nat>, back: seq<nat>)
    requires Blocks(s, front) && Blocks(s, back) && front[|front| - 1] == back[0]
    requires Ordered(s, front[0], back[0], back[0], back[|back| - 1])
    ensures Blocks(s, Joined(front, back))
    ensures Joined(front, back)[0] == front[0]
    decreases |front|
  {
    if |front| == 1 {
      assert Joined(front, back) == back;
    } else {
      BlocksInside(s, front[1..]);
      BlocksInside(s, back);
      JoinBlocks(s, front[1..], back);
      var all := Joined(front, back);
      assert all[1..] == Joined(front[1..], back);
      OrderedJoin(s, front[0], front[1], back[0], back[|back| - 1]);
    }
  }

  lemma OrderedJoin(s: seq<int>, a: nat, b: nat, c: nat, d: nat)
    requires a <= b <= c <= d && Ordered(s, a, b, b, c) && Ordered(s, a, c, c, d)
    ensures Ordered(s, a, b, b, d)
  {
  }

  /** In an array cut into such blocks insertion sort moves no element by more than 16. */
  lemma {:induction false} BlocksBoundInsertion(s: seq<int>, cuts: seq<nat>, i: nat)
    requires Blocks(s, cuts) && cuts[0] <= i < cuts[|cuts| - 1] <= |s|
    ensures Displacement(s, cuts[0], i) <= THRESHOLD
  {
    var lo, hi := cuts[0], cuts[1];
    if i < hi {
      if Sorted(s, lo, hi) {
        GreaterNone(s[lo..i], s[i]);
      }
    } else {
      BlocksBoundInsertion(s, cuts[1..], i);
      assert s[lo..i] == s[lo..hi] + s[hi..i];
      GreaterConcat(s[lo..hi], s[hi..i], s[i]);
      GreaterNone(s[lo..hi], s[i]);
    }
  }

  /** What the quicksort loop has reached: [hi, top) is in blocks above what is left to do. */
  ghost predicate Parted(s: seq<int>, t: seq<int>, left: nat, hi: nat, top: nat, cuts: seq<nat>) {
    && Blocks(t, cuts) && cuts[0] == hi && cuts[|cuts| - 1] == top
    && left <= hi && Ordered(t, left, hi, hi, top) && Rearranged(s, t, left, top)
  }

  lemma NothingParted(s: seq<int>, left: nat, top: nat)
    requires left <= top <= |s|
    ensures Parted(s, s, left, top, top, [top])
  {
  }

  lemma LastBlock(s: seq<int>, t: seq<int>, left: nat, hi: nat, top: nat, cuts: seq<nat>)
    requires Parted(s, t, left, hi, top, cuts) && Block(t, left, hi)
    ensures Parted(s, t, left, left, top, [left] + cuts)
  {
    assert ([left] + cuts)[1..] == cuts;
  }

  lemma RearrangeRest(s: seq<int>, t: seq<int>, u: seq<int>, left: nat, hi: nat, top: nat, cuts: seq<nat>)
    requires Parted(s, t, left, hi, top, cuts) && Rearranged(t, u, left, hi)
    ensures Parted(s, u, left, hi, top, cuts)
  {
    hide Rearranged, Ordered;
    BlocksInside(t, cuts);
    RearrangedSize(t, u, left, hi);
    RearrangedSize(s, t, left, top);
    KeepsBlocks(t, u, left, hi, cuts);
    KeepsOrdered(t, u, left, hi, left, hi, hi, top);
    Widen(t, u, left, hi, left, top);
    Compose(s, t, u, left, top);
  }

  lemma RearrangedSize(s: seq<int>, t: seq<int>, lo: nat, hi: nat)
    requires Rearranged(s, t, lo, hi)
    ensures |s| == |t| && lo <= hi <= |s|
  {
  }

  /** The pivot is at p, all smaller elements are on its left and the right side is in blocks. */
  lemma SplitOff(s: seq<int>, t: seq<int>, left: nat, p: nat, hi: nat, top: nat, inner: seq<nat>, cuts: seq<nat>)
    requires Parted(s, t, left, hi, top, cuts) && left <= p < hi
    requires Ordered(t, left, p + 1, p, hi)
    requires Blocks(t, inner) && inner[0] == p + 1 && inner[|inner| - 1] == hi
    ensures Parted(s, t, left, p, top, [p] + Joined(inner, cuts))
  {
    hide Rearranged;
    RearrangedSize(s, t, left, top);
    BlocksInside(t, cuts);
    JoinBlocks(t, inner, cuts);
    var all := Joined(inner, cuts);
    assert ([p] + all)[1..] == all;
    assert all[|all| - 1] == top;
    hide Blocks;
    OrderedJoin(t, left, p, hi, top);
    assert Ordered(t, p, p + 1, p + 1, top);
  }

  /** Recursion inside [p + 1, hi) keeps what the partition has established. */
  lemma KeepsPivot(t: seq<int>, u: seq<int>, left: nat, p: nat, hi: nat)
    requires left <= p < hi <= |t| && Ordered(t, left, p + 1, p, hi) && Rearranged(t, u, p + 1, hi)
    ensures Ordered(u, left, p + 1, p, hi) && Rearranged(t, u, left, hi)
  {
    Widen(t, u, p + 1, hi, left, hi);
    KeepsOrdered(t, u, p + 1, hi, left, p + 1, p, hi);
  }

  method IntrosortImpl(v: array<int>, left: nat, right: int, depthLimit: nat) returns (ghost cuts: seq<nat>)
    requires left - 1 <= right < v.Length
    modifies v
    ensures Rearranged(old(v[..]), v[..], left, right + 1)
    ensures Blocks(v[..], cuts) && cuts != [] && cuts[0] == left && cuts[|cuts| - 1] == right + 1
    decreases depthLimit
  {
    hide Rearranged, Sorted, Ordered, Block, Blocks, Parted, Joined;
    ghost var s, top := v[..], right + 1;
    var last, limit := right, depthLimit;
    NothingParted(s, left, top);
    cuts := [top];
    while last - left > THRESHOLD
      invariant left <= last + 1 <= top && 0 <= limit <= depthLimit && Parted(s, v[..], left, last + 1, top, cuts)
      decreases last - left
    {
      ghost var t := v[..];
      if limit == 0 {
        HeapSortRange(v, left, last);
        RearrangeRest(s, t, v[..], left, last + 1, top, cuts);
        break;
      }
      limit := limit - 1;
      var p, probes := Partition(v, left, last);
      ghost var u := v[..];
      RearrangeRest(s, t, u, left, last + 1, top, cuts);
      ghost var inner := IntrosortImpl(v, p + 1, last, limit);
      PivotOrdered(u, left, p, last + 1);
      KeepsPivot(u, v[..], left, p, last + 1);
      RearrangeRest(s, u, v[..], left, last + 1, top, cuts);
      SplitOff(s, v[..], left, p, last + 1, top, inner, cuts);
      cuts := [p] + Joined(inner, cuts);
      last := p - 1;
    }
    FinalBlock(v[..], left, last + 1);
    LastBlock(s, v[..], left, last + 1, top, cuts);
    cuts := [left] + cuts;
    PartedMeans(s, v[..], left, left, top, cuts);
  }

  lemma PivotOrdered(t: seq<int>, left: nat, p: nat, hi: nat)
    requires left <= p < hi <= |t|
    requires forall k :: left <= k < p ==> t[k] <= t[p]
    requires forall k :: p < k < hi ==> t[p] <= t[k]
    ensures Ordered(t, left, p + 1, p, hi)
  {
  }

  lemma FinalBlock(t: seq<int>, left: nat, hi: nat)
    requires hi - left <= THRESHOLD + 1 || Sorted(t, left, hi)
    ensures Block(t, left, hi)
  {
  }

  lemma PartedMeans(s: seq<int>, t: seq<int>, left: nat, hi: nat, top: nat, cuts: seq<nat>)
    requires Parted(s, t, left, hi, top, cuts)
    ensures Blocks(t, cuts) && cuts != [] && cuts[0] == hi && cuts[|cuts| - 1] == top
    ensures Rearranged(s, t, left, top)
  {
  }

  /** The depth limit is arbitrary: the source computes it from the size. */
  method Introsort(v: array<int>, depthLimit: nat) returns (ghost moves: seq<nat>)
    modifies v
    ensures Sorted(v[..], 0, v.Length)
    ensures multiset(v[..]) == multiset(old(v[..]))
    ensures |moves| == if v.Length > 0 then v.Length - 1 else 0
    ensures forall k :: 0 <= k < |moves| ==> moves[k] <= THRESHOLD
  {
    moves := [];
    if v.Length <= 1 { return; }
    ghost var s := v[..];
    var n := v.Length;
    ghost var cuts := IntrosortImpl(v, 0, n - 1, depthLimit);
    ghost var t := v[..];
    moves := InsertionSortRange(v, 0, n - 1);
    ShortMoves(t, cuts, moves);
    Compose(s, t, v[..], 0, n);
    WholeRange(s, v[..]);
  }

  lemma ShortMoves(t: seq<int>, cuts: seq<nat>, moves: seq<nat>)
    requires Blocks(t, cuts) && cuts[0] == 0 && cuts[|cuts| - 1] == |t| == |moves| + 1
    requires forall i :: 0 < i < |t| ==> moves[i - 1] == Displacement(t, 0, i)
    ensures forall k :: 0 <= k < |moves| ==> moves[k] <= THRESHOLD
  {
    forall k | 0 <= k < |moves|
      ensures moves[k] <= THRESHOLD
    {
      var i := k + 1;
      assert moves[i - 1] == Displacement(t, 0, i);
      BlocksBoundInsertion(t, cuts, i);
    }
  }

  lemma WholeRange(s: seq<int>, t: seq<int>)
    requires Rearranged(s, t, 0, |s|)
    ensures multiset(t) == multiset(s)
  {
    assert s[0..|s|] == s && t[0..|t|] == t;
  }
}
