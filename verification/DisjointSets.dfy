/** Union-find with path compression and union by rank. */
module DisjointSets {
  import opened Counting
  import opened Masking
  import opened Partition

  ghost function Block(sets: Labels, r: nat): set<nat> {
    set i | 0 <= i < |sets| && sets[i] == r
  }

  lemma MergedBlocks(sets: Labels, low: nat, high: nat, r: nat)
    requires low < |sets| && high < |sets| && sets[low] == low && sets[high] == high && low != high && r != low
    ensures |Block(Merge(sets, low, high), r)| == |Block(sets, r)| + if r == high then |Block(sets, low)| else 0
  {
    if r == high {
      assert Block(Merge(sets, low, high), r) == Block(sets, low) + Block(sets, high);
    } else {
      assert Block(Merge(sets, low, high), r) == Block(sets, r);
    }
  }

  class Dsu {
    const n: nat
    const parent: array<nat>
    const rank: array<nat>
    /** The root of every element: the abstract partition. */
    ghost var sets: Labels

    ghost predicate Valid()
      reads this, parent, rank
    {
      && parent != rank && parent.Length == rank.Length == n == |sets|
      && (forall i :: 0 <= i < n ==> Linked(i))
      && (forall r :: 0 <= r < n && sets[r] == r ==> Pow2(rank[r]) <= |Block(sets, r)|)
    }

    /** Ranks grow strictly on the way up, and the way up from `i` ends in sets[i]. */
    ghost predicate Linked(i: nat)
      requires parent.Length == rank.Length == n == |sets| && i < n
      reads this, parent, rank
    {
      && parent[i] < n && sets[i] < n
      && sets[parent[i]] == sets[i]
      && sets[sets[i]] == sets[i] && parent[sets[i]] == sets[i]
      && (parent[i] == i ==> sets[i] == i)
      && (parent[i] != i ==> rank[i] < rank[parent[i]])
      && (sets[i] != i ==> rank[i] < rank[sets[i]])
    }

    /** How far below its root's rank x is. */
    ghost function Gap(x: nat): nat
      requires Valid() && x < n
      reads this, parent, rank
    {
      assert Linked(x);
      rank[sets[x]] - rank[x]
    }

    /** The elements on the way up from x, with both ends. */
    ghost function Ancestors(x: nat): (r: set<nat>)
      requires Valid() && x < n
      reads this, parent, rank
      ensures forall i :: i in r ==> i < n && sets[i] == sets[x]
      decreases Gap(x)
    {
      assert Linked(x) && Linked(parent[x]);
      if parent[x] == x then {x} else {x} + Ancestors(parent[x])
    }

    constructor (n: nat)
      ensures Valid() && this.n == n && sets == Singletons(n)
      ensures fresh(parent) && fresh(rank)
    {
      this.n := n;
      parent := new nat[n](i => i);
      rank := new nat[n](_ => 0);
      sets := Singletons(n);
      new;
      forall r | 0 <= r < n
        ensures Pow2(rank[r]) <= |Block(sets, r)|
      {
        assert r in Block(sets, r);
        assert |Block(sets, r) - {r}| >= 0;
      }
    }

    /** The root of x. Compression redirects parents, never the partition, and the number
        of links followed is logarithmic in the number of elements. */
    method Find(x: nat) returns (root: nat, ghost links: nat)
      requires Valid() && x < n
      modifies parent
      ensures Valid() && root == sets[x] < n && parent[x] == root
      ensures rank[x] + links <= rank[root] && Pow2(rank[root]) <= n
      ensures forall i :: 0 <= i < n ==> parent[i] == if i in old(Ancestors(x)) then sets[i] else old(parent[i])
      decreases Gap(x)
    {
      links := 0;
      assert Linked(x);
      if parent[x] != x {
        assert Linked(parent[x]);
        assert sets[x] != x;
        var up := parent[x];
        var r, l := Find(up);
        assert Linked(x) && Linked(r);
        Compress(x, r);
        links := l + 1;
      }
      RootRank(x);
      return parent[x], links;
    }

    /** Path compression: x now points at its root. */
    method Compress(x: nat, r: nat)
      requires Valid() && x < n && sets[x] != x && r == sets[x]
      modifies parent
      ensures Valid() && parent[x] == r && forall i :: 0 <= i < n && i != x ==> parent[i] == old(parent[i])
    {
      assert Linked(x);
      parent[x] := r;
      forall i | 0 <= i < n
        ensures Linked(i)
      {
        assert old(Linked(i));
      }
    }

    lemma RootRank(x: nat)
      requires Valid() && x < n
      ensures sets[x] < n && rank[x] <= rank[sets[x]] && Pow2(rank[sets[x]]) <= n
    {
      assert Linked(x);
      var r := sets[x];
      assert Linked(r);
      forall i | i in Block(sets, r)
        ensures i in Blocks(Singletons(n))
      {
        assert Singletons(n)[i] == i;
      }
      SubsetSize(Block(sets, r), Blocks(Singletons(n)));
      SingletonBlocks(n);
    }

    /** True exactly when x and y were in different sets; then the two sets are one. */
    method Unite(x: nat, y: nat) returns (joined: bool)
      requires Valid() && x < n && y < n
      modifies this, parent, rank
      ensures Valid()
      ensures joined <==> old(sets)[x] != old(sets)[y]
      ensures !joined ==> sets == old(sets)
      ensures old(sets[x]) < n && old(sets[y]) < n
      ensures joined ==> sets == if old(rank[sets[x]]) < old(rank[sets[y]]) then Merge(old(sets), x, y)
                                 else Merge(old(sets), y, x)
      ensures forall i :: 0 <= i < n ==>
                rank[i] == old(rank[i]) +
                           if joined && i == sets[x] && old(rank[sets[x]] == rank[sets[y]]) then 1 else 0
    {
      var rx, _ := Find(x);
      var ry, _ := Find(y);
      assert Linked(x) && Linked(y);
      if rx == ry {
        return false;
      }
      if rank[rx] < rank[ry] {
        rx, ry := ry, rx;
      }
      Hang(ry, rx);
      return true;
    }

    /** Union by rank: the root `low` goes under the root `high`. */
    method Hang(low: nat, high: nat)
      requires Valid() && low < n && high < n && sets[low] == low && sets[high] == high
      requires low != high && rank[low] <= rank[high]
      modifies this, parent, rank
      ensures Valid() && sets == Merge(old(sets), low, high)
      ensures forall i :: 0 <= i < n ==> parent[i] == if i == low then high else old(parent[i])
      ensures forall i :: 0 <= i < n ==>
                rank[i] == old(rank[i]) + if i == high && old(rank[low] == rank[high]) then 1 else 0
    {
      parent[low] := high;
      if rank[high] == rank[low] {
        rank[high] := rank[high] + 1;
      }
      sets := Merge(sets, low, high);
      forall i | 0 <= i < n
        ensures Linked(i)
      {
        assert old(Linked(i)) && old(Linked(high)) && old(Linked(low));
      }
      forall r | 0 <= r < n && sets[r] == r
        ensures Pow2(rank[r]) <= |Block(sets, r)|
      {
        MergedBlocks(old(sets), low, high, r);
        hide Block, Merge;
      }
    }

    method Same(x: nat, y: nat) returns (same: bool)
      requires Valid() && x < n && y < n
      modifies parent
      ensures Valid() && (same <==> sets[x] == sets[y])
    {
      var rx, _ := Find(x);
      var ry, _ := Find(y);
      return rx == ry;
    }
  }
}
