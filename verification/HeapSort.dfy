/** Heap sort of a range.

    The heap is stored from `left` on. Sifting an entry down restores the heap below it,
    so that the greatest element is at the root; extracting the roots one after the other
    leaves them in order behind the shrinking heap. */
module HeapSort {
  import opened Rearranging

  function Parent(k: nat): nat
    requires k > 0
  {
    (k - 1) / 2
  }

  /** The heap is stored from `left` on: entry k is at most its parent. */
  ghost predicate BelowParent(s: seq<int>, left: nat, k: nat) {
    k > 0 && left + k < |s| && s[left + Parent(k)] >= s[left + k]
  }

  /** Entries below n whose parent is at i or later are at most their parents. */
  ghost predicate HeapFrom(s: seq<int>, left: nat, i: nat, n: nat) {
    forall k: nat :: 0 < k < n && i <= Parent(k) ==> BelowParent(s, left, k)
  }

  /** The same, but the entry at root may be too small for its place. */
  ghost predicate HeapBut(s: seq<int>, left: nat, i: nat, n: nat, root: nat) {
    && i <= root
    && (forall k: nat :: 0 < k < n && i <= Parent(k) && Parent(k) != root ==> BelowParent(s, left, k))
    && (i < root < n && left + n <= |s| ==> ChildrenAtMost(s, left, n, root, s[left + Parent(root)]))
  }

  ghost predicate ChildrenAtMost(s: seq<int>, left: nat, n: nat, root: nat, x: int) {
    forall k: nat :: 0 < k < n && left + k < |s| && Parent(k) == root ==> s[left + k] <= x
  }

  lemma SiftStep(s: seq<int>, left: nat, i: nat, n: nat, root: nat, child: nat)
    requires left + n <= |s| && HeapBut(s, left, i, n, root) && 0 < child < n && Parent(child) == root
    requires s[left + root] < s[left + child]
    requires ChildrenAtMost(s, left, n, root, s[left + child])
    ensures HeapBut(Swapped(s, left + root, left + child), left, i, n, child)
  {
    var t := Swapped(s, left + root, left + child);
    forall k: nat | 0 < k < n && i <= Parent(k) && Parent(k) != child
      ensures BelowParent(t, left, k)
    {
      if Parent(k) != root {
        assert BelowParent(s, left, k);
      }
    }
    forall k: nat | 0 < k < n && Parent(k) == child
      ensures t[left + k] <= t[left + Parent(child)]
    {
      assert BelowParent(s, left, k);
    }
  }

  lemma {:induction false} RootIsGreatest(s: seq<int>, left: nat, n: nat, k: nat)
    requires left + n <= |s| && HeapFrom(s, left, 0, n) && k < n
    ensures s[left + k] <= s[left]
    decreases k
  {
    if k > 0 {
      assert BelowParent(s, left, k);
      RootIsGreatest(s, left, n, Parent(k));
    }
  }

  lemma Leaf(s: seq<int>, left: nat, n: nat, root: nat, x: int)
    requires 2 * root + 1 >= n
    ensures ChildrenAtMost(s, left, n, root, x)
  {
  }

  lemma LargerChild(s: seq<int>, left: nat, n: nat, root: nat, child: nat, x: int)
    requires left + n <= |s| && 2 * root + 1 <= child <= 2 * root + 2 && child < n && s[left + child] <= x
    requires child == 2 * root + 1 && child + 1 < n ==> s[left + child + 1] <= s[left + child]
    requires child == 2 * root + 2 ==> s[left + child - 1] <= s[left + child]
    ensures Parent(child) == root && ChildrenAtMost(s, left, n, root, x)
  {
    forall k: nat | 0 < k < n && Parent(k) == root
      ensures s[left + k] <= x
    {
      assert k == 2 * root + 1 || k == 2 * root + 2;
    }
  }

  lemma OneSift(s: seq<int>, t: seq<int>, left: nat, i: nat, n: nat, root: nat, child: nat)
    requires left + n <= |t| && HeapBut(t, left, i, n, root) && Rearranged(s, t, left, left + n)
    requires 2 * root + 1 <= child <= 2 * root + 2 && child < n && t[left + root] < t[left + child]
    requires child == 2 * root + 1 && child + 1 < n ==> t[left + child + 1] <= t[left + child]
    requires child == 2 * root + 2 ==> t[left + child - 1] <= t[left + child]
    ensures HeapBut(Swapped(t, left + root, left + child), left, i, n, child)
    ensures Rearranged(s, Swapped(t, left + root, left + child), left, left + n)
  {
    hide *;
    LargerChild(t, left, n, root, child, t[left + child]);
    SiftStep(t, left, i, n, root, child);
    SwapRearranges(t, left + root, left + child, left, left + n);
    Compose(s, t, Swapped(t, left + root, left + child), left, left + n);
  }

  /** Both sift loops of heap sort: a heap of n entries stored from `left` on. */
  method SiftDown(v: array<int>, left: nat, start: nat, n: nat)
    requires left + n <= v.Length && start < n && HeapFrom(v[..], left, start + 1, n)
    modifies v
    ensures Rearranged(old(v[..]), v[..], left, left + n)
    ensures HeapFrom(v[..], left, start, n)
  {
    hide *;
    ghost var s := v[..];
    Untouched(s, left, left + n);
    var root := start;
    SiftStarts(s, left, start, n);
    while true
      invariant start <= root < n && HeapBut(v[..], left, start, n, root)
      invariant Rearranged(s, v[..], left, left + n)
      decreases n - root
    {
      var child := 2 * root + 1;
      if child >= n {
        Leaf(v[..], left, n, root, v[left + root]);
        break;
      }
      if child + 1 < n && v[left + child] < v[left + child + 1] { child := child + 1; }
      if v[left + root] >= v[left + child] {
        LargerChild(v[..], left, n, root, child, v[left + root]);
        break;
      }
      OneSift(s, v[..], left, start, n, root, child);
      Swap(v, left + root, left + child);
      root := child;
    }
    SiftEnds(v[..], left, start, n, root);
  }

  lemma SiftStarts(s: seq<int>, left: nat, start: nat, n: nat)
    requires HeapFrom(s, left, start + 1, n)
    ensures HeapBut(s, left, start, n, start)
  {
  }

  lemma SiftEnds(s: seq<int>, left: nat, start: nat, n: nat, root: nat)
    requires left + n <= |s| && root < n && HeapBut(s, left, start, n, root)
    requires ChildrenAtMost(s, left, n, root, s[left + root])
    ensures HeapFrom(s, left, start, n)
  {
    forall k: nat | 0 < k < n && start <= Parent(k)
      ensures BelowParent(s, left, k)
    {
    }
  }

  lemma NoParents(s: seq<int>, left: nat, n: nat)
    ensures HeapFrom(s, left, n / 2, n)
  {
  }

  /** `done` is where the part already sorted begins; everything before it is smaller. */
  ghost predicate TailSorted(s: seq<int>, left: nat, done: nat, hi: nat) {
    Sorted(s, done, hi) && Ordered(s, left, done, done, hi)
  }

  /** Between two extractions: a heap up to end, and behind it the greatest elements in order. */
  ghost predicate Extracting(s: seq<int>, t: seq<int>, left: nat, end: int, hi: nat) {
    && -1 <= end && left + end < hi
    && HeapFrom(t, left, 0, end + 1) && TailSorted(t, left, left + end + 1, hi) && Rearranged(s, t, left, hi)
  }

  lemma NothingExtracted(s: seq<int>, t: seq<int>, left: nat, hi: nat)
    requires left <= hi && Rearranged(s, t, left, hi) && HeapFrom(t, left, 0, hi - left)
    ensures Extracting(s, t, left, hi - left - 1, hi)
  {
  }

  lemma AllExtracted(s: seq<int>, t: seq<int>, left: nat, end: int, hi: nat)
    requires end <= 0 && Extracting(s, t, left, end, hi)
    ensures Sorted(t, left, hi) && Rearranged(s, t, left, hi)
  {
  }

  lemma MaxOut(s: seq<int>, t: seq<int>, left: nat, end: int, hi: nat)
    requires end > 0 && Extracting(s, t, left, end, hi)
    ensures var u := Swapped(t, left, left + end);
            HeapFrom(u, left, 1, end) && TailSorted(u, left, left + end, hi) && Rearranged(s, u, left, hi)
  {
    hide HeapFrom, TailSorted, Swapped;
    MaxToEnd(t, left, end, hi);
    Compose(s, t, Swapped(t, left, left + end), left, hi);
  }

  lemma MaxToEnd(t: seq<int>, left: nat, end: nat, hi: nat)
    requires end > 0 && left + end < hi <= |t|
    requires HeapFrom(t, left, 0, end + 1) && TailSorted(t, left, left + end + 1, hi)
    ensures HeapFrom(Swapped(t, left, left + end), left, 1, end)
    ensures TailSorted(Swapped(t, left, left + end), left, left + end, hi)
    ensures Rearranged(t, Swapped(t, left, left + end), left, hi)
  {
    hide Rearranged, Swapped, HeapFrom, TailSorted;
    SwapRearranges(t, left, left + end, left, hi);
    RestIsHeap(t, left, end);
    forall j | left <= j <= left + end
      ensures t[j] <= t[left]
    {
      RootIsGreatest(t, left, end + 1, j - left);
    }
    MaxIsNext(t, left, end, hi);
  }

  lemma RestIsHeap(t: seq<int>, left: nat, end: nat)
    requires left + end < |t| && HeapFrom(t, left, 0, end + 1)
    ensures HeapFrom(Swapped(t, left, left + end), left, 1, end)
  {
    forall k: nat | 0 < k < end && 1 <= Parent(k)
      ensures BelowParent(Swapped(t, left, left + end), left, k)
    {
      assert BelowParent(t, left, k);
    }
  }

  lemma MaxIsNext(t: seq<int>, left: nat, end: nat, hi: nat)
    requires end > 0 && left + end < hi <= |t| && TailSorted(t, left, left + end + 1, hi)
    requires forall j :: left <= j <= left + end ==> t[j] <= t[left]
    ensures TailSorted(Swapped(t, left, left + end), left, left + end, hi)
  {
  }

  lemma AfterSift(s: seq<int>, u: seq<int>, w: seq<int>, left: nat, end: nat, hi: nat)
    requires end > 0 && left + end < hi <= |u| && TailSorted(u, left, left + end, hi) && HeapFrom(w, left, 0, end)
    requires Rearranged(s, u, left, hi) && Rearranged(u, w, left, left + end)
    ensures Extracting(s, w, left, end - 1, hi)
  {
    Widen(u, w, left, left + end, left, hi);
    Compose(s, u, w, left, hi);
    KeepsSorted(u, w, left, left + end, left + end, hi);
    KeepsOrdered(u, w, left, left + end, left, left + end, left + end, hi);
  }

  method HeapSortRange(v: array<int>, left: nat, right: int)
    requires left - 1 <= right < v.Length
    modifies v
    ensures Rearranged(old(v[..]), v[..], left, right + 1)
    ensures Sorted(v[..], left, right + 1)
  {
    hide *;
    ghost var s := v[..];
    var n := right - left + 1;
    Untouched(s, left, right + 1);
    NoParents(s, left, n);
    var i := n / 2 - 1;
    while i >= 0
      invariant -1 <= i < n
      invariant HeapFrom(v[..], left, i + 1, n)
      invariant Rearranged(s, v[..], left, right + 1)
    {
      ghost var t := v[..];
      SiftDown(v, left, i, n);
      Compose(s, t, v[..], left, right + 1);
      i := i - 1;
    }
    var end := n - 1;
    NothingExtracted(s, v[..], left, right + 1);
    while end > 0
      invariant -1 <= end < n
      invariant Extracting(s, v[..], left, end, right + 1)
    {
      MaxOut(s, v[..], left, end, right + 1);
      Swap(v, left, left + end);
      ghost var u := v[..];
      SiftDown(v, left, 0, end);
      AfterSift(s, u, v[..], left, end, right + 1);
      end := end - 1;
    }
    AllExtracted(s, v[..], left, end, right + 1);
  }
}
