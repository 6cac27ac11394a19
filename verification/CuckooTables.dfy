/** What the two tables of a cuckoo hash map represent, and why evicting keys ends. */
module CuckooTables {
  import opened CuckooSlots

  datatype Slot<K, V> = Vacant | Entry(key: K, value: V)

  // ---------- What two tables represent ----------

  /** The key sits in its own slot of s. */
  ghost predicate Has<K, V>(s: seq<Slot<K, V>>, f: K -> nat, k: K) {
    f(k) < |s| && s[f(k)].Entry? && s[f(k)].key == k
  }

  /** Every entry is in the slot its key belongs to and is part of the map. */
  ghost predicate Filed<K, V>(s: seq<Slot<K, V>>, f: K -> nat, m: map<K, V>) {
    forall i :: 0 <= i < |s| && s[i].Entry? ==>
      f(s[i].key) == i && s[i].key in m && m[s[i].key] == s[i].value
  }

  /** The tables hold the map, every key in exactly one of its two slots. */
  ghost predicate Represents<K, V>(a: seq<Slot<K, V>>, b: seq<Slot<K, V>>, f: K -> nat, g: K -> nat, m: map<K, V>) {
    && Filed(a, f, m) && Filed(b, g, m)
    && forall k :: k in m ==> (Has(a, f, k) <==> !Has(b, g, k))
  }

  lemma Mirrored<K, V>(a: seq<Slot<K, V>>, b: seq<Slot<K, V>>, f: K -> nat, g: K -> nat, m: map<K, V>)
    requires Represents(a, b, f, g, m)
    ensures Represents(b, a, g, f, m)
  {
  }

  /** Two probes decide whether a key is there. */
  lemma Lookup<K, V>(a: seq<Slot<K, V>>, b: seq<Slot<K, V>>, f: K -> nat, g: K -> nat, m: map<K, V>, k: K)
    requires Represents(a, b, f, g, m)
    ensures k in m <==> Has(a, f, k) || Has(b, g, k)
    ensures Has(a, f, k) ==> a[f(k)].value == m[k]
    ensures Has(b, g, k) ==> b[g(k)].value == m[k]
  {
  }

  lemma Placed<K, V>(a: seq<Slot<K, V>>, b: seq<Slot<K, V>>, f: K -> nat, g: K -> nat, m: map<K, V>, k: K, v: V)
    requires Represents(a, b, f, g, m) && f(k) < |a|
    requires (a[f(k)].Vacant? && k !in m) || Has(a, f, k)
    ensures Represents(a[f(k) := Entry(k, v)], b, f, g, m[k := v])
    ensures |m[k := v]| == |m| + (if k in m then 0 else 1)
  {
    var a' := a[f(k) := Entry(k, v)];
    assert m[k := v].Keys == m.Keys + {k};
    forall x | x in m[k := v]
      ensures Has(a', f, x) <==> !Has(b, g, x)
    {
      if x != k {
        assert Has(a', f, x) <==> Has(a, f, x);
      }
    }
  }

  /** One eviction: entries and the entry in hand together stay the same. */
  lemma Evicted<K, V>(a: seq<Slot<K, V>>, b: seq<Slot<K, V>>, f: K -> nat, g: K -> nat, m: map<K, V>, k: K, v: V)
    requires Represents(a, b, f, g, m) && k !in m && f(k) < |a| && a[f(k)].Entry?
    ensures var out := a[f(k)];
            var rest := m[k := v] - {out.key};
            && Represents(a[f(k) := Entry(k, v)], b, f, g, rest)
            && out.key !in rest && rest[out.key := out.value] == m[k := v] && |rest| == |m|
            && rest.Keys == m.Keys + {k} - {out.key}
            && f(out.key) == f(k) && Has(a[f(k) := Entry(k, v)], f, k)
  {
    var out := a[f(k)];
    var rest := m[k := v] - {out.key};
    var a' := a[f(k) := Entry(k, v)];
    assert Has(a, f, out.key);
    assert rest.Keys == m.Keys + {k} - {out.key};
    forall x | x in rest
      ensures Has(a', f, x) <==> !Has(b, g, x)
    {
      if x != k {
        assert Has(a', f, x) <==> Has(a, f, x);
      }
    }
    forall i | 0 <= i < |b| && b[i].Entry?
      ensures b[i].key in rest
    {
      assert Has(b, g, b[i].key);
    }
  }

  lemma Removed<K, V>(a: seq<Slot<K, V>>, b: seq<Slot<K, V>>, f: K -> nat, g: K -> nat, m: map<K, V>, k: K)
    requires Represents(a, b, f, g, m) && Has(a, f, k)
    ensures Represents(a[f(k) := Vacant], b, f, g, m - {k}) && |m - {k}| == |m| - 1
  {
    var a' := a[f(k) := Vacant];
    assert (m - {k}).Keys == m.Keys - {k};
    forall x | x in m - {k}
      ensures Has(a', f, x) <==> !Has(b, g, x)
    {
      assert Has(a', f, x) <==> Has(a, f, x);
    }
    forall i | 0 <= i < |b| && b[i].Entry?
      ensures b[i].key in m - {k}
    {
      assert Has(b, g, b[i].key);
    }
  }

  // The same three steps in the second table.

  lemma PlacedSecond<K, V>(a: seq<Slot<K, V>>, b: seq<Slot<K, V>>, f: K -> nat, g: K -> nat, m: map<K, V>, k: K, v: V)
    requires Represents(a, b, f, g, m) && g(k) < |b|
    requires (b[g(k)].Vacant? && k !in m) || Has(b, g, k)
    ensures Represents(a, b[g(k) := Entry(k, v)], f, g, m[k := v])
    ensures |m[k := v]| == |m| + (if k in m then 0 else 1)
  {
    Mirrored(a, b, f, g, m);
    Placed(b, a, g, f, m, k, v);
    Mirrored(b[g(k) := Entry(k, v)], a, g, f, m[k := v]);
  }

  lemma EvictedSecond<K, V>(a: seq<Slot<K, V>>, b: seq<Slot<K, V>>, f: K -> nat, g: K -> nat, m: map<K, V>, k: K, v: V)
    requires Represents(a, b, f, g, m) && k !in m && g(k) < |b| && b[g(k)].Entry?
    ensures var out := b[g(k)];
            var rest := m[k := v] - {out.key};
            && Represents(a, b[g(k) := Entry(k, v)], f, g, rest)
            && out.key !in rest && rest[out.key := out.value] == m[k := v] && |rest| == |m|
            && rest.Keys == m.Keys + {k} - {out.key}
  {
    Mirrored(a, b, f, g, m);
    Evicted(b, a, g, f, m, k, v);
    Mirrored(b[g(k) := Entry(k, v)], a, g, f, m[k := v] - {b[g(k)].key});
  }

  lemma RemovedSecond<K, V>(a: seq<Slot<K, V>>, b: seq<Slot<K, V>>, f: K -> nat, g: K -> nat, m: map<K, V>, k: K)
    requires Represents(a, b, f, g, m) && Has(b, g, k)
    ensures Represents(a, b[g(k) := Vacant], f, g, m - {k}) && |m - {k}| == |m| - 1
  {
    Mirrored(a, b, f, g, m);
    Removed(b, a, g, f, m, k);
    Mirrored(b[g(k) := Vacant], a, g, f, m - {k});
  }

  // ---------- Rehashing ----------

  /** The entries of a table, in the order in which rehashing inserts them. */
  function Entries<K, V>(s: seq<Slot<K, V>>): map<K, V> {
    if s == [] then map[]
    else
      var last := s[|s| - 1];
      if last.Entry? then Entries(s[..|s| - 1])[last.key := last.value] else Entries(s[..|s| - 1])
  }

  lemma NextEntry<K, V>(s: seq<Slot<K, V>>, i: nat)
    requires i <= |s|
    ensures Entries(s[..0]) == map[]
    ensures i < |s| ==> Entries(s[..i + 1]) ==
                        if s[i].Entry? then Entries(s[..i])[s[i].key := s[i].value] else Entries(s[..i])
  {
    if i < |s| {
      assert s[..i + 1][..i] == s[..i];
    }
  }

  lemma {:induction false} EntriesGrow<K, V>(s: seq<Slot<K, V>>, i: nat)
    requires i <= |s|
    ensures Entries(s[..i]).Keys <= Entries(s).Keys
    decreases |s|
  {
    if i < |s| {
      EntriesGrow(s[..|s| - 1], i);
      assert s[..|s| - 1][..i] == s[..i];
    } else {
      assert s[..i] == s;
    }
  }

  lemma {:induction false} EntriesAreFiled<K, V>(s: seq<Slot<K, V>>, f: K -> nat, m: map<K, V>)
    requires Filed(s, f, m)
    ensures forall k :: k in Entries(s) <==> Has(s, f, k)
    ensures forall k :: k in Entries(s) ==> k in m && Entries(s)[k] == m[k]
  {
    if s != [] {
      EntriesAreFiled(s[..|s| - 1], f, m);
    }
  }

  /** The entries of both tables are the map: rehashing inserts all of it and nothing else. */
  lemma EntriesAreAll<K, V>(a: seq<Slot<K, V>>, b: seq<Slot<K, V>>, f: K -> nat, g: K -> nat, m: map<K, V>)
    requires Represents(a, b, f, g, m)
    ensures Entries(a) + Entries(b) == m
  {
    EntriesAreFiled(a, f, m);
    EntriesAreFiled(b, g, m);
  }

  lemma NothingHeld<K, V>(a: seq<Slot<K, V>>, b: seq<Slot<K, V>>, f: K -> nat, g: K -> nat)
    requires forall i :: 0 <= i < |a| ==> a[i].Vacant?
    requires forall i :: 0 <= i < |b| ==> b[i].Vacant?
    ensures Represents(a, b, f, g, map[])
  {
  }

  // ---------- Keys that are stored can be placed ----------

  /** Three keys with one hash value share both slots at every capacity and seed. */
  lemma NoRoomForThree<K, V>(a: seq<Slot<K, V>>, b: seq<Slot<K, V>>, hash: K -> Word, word: nat -> Word,
                             seed: nat, cap: nat, m: map<K, V>, x: K, y: K, z: K)
    requires cap > 0 && Represents(a, b, First(hash, cap), Second(hash, word, seed, cap), m)
    requires hash(x) == hash(y) == hash(z) && x != y && y != z && x != z
    ensures !(x in m && y in m && z in m)
  {
  }

  lemma HeldAreAtMostTwo<K, V>(a: seq<Slot<K, V>>, b: seq<Slot<K, V>>, hash: K -> Word, word: nat -> Word,
                               seed: nat, cap: nat, m: map<K, V>)
    requires cap > 0 && Represents(a, b, First(hash, cap), Second(hash, word, seed, cap), m)
    ensures NoThree(hash, m.Keys)
  {
    hide Represents, First, Second;
    forall x, y, z | x in m && y in m && z in m && hash(x) == hash(y) == hash(z)
      ensures x == y || x == z || y == z
    {
      if x != y && x != z && y != z {
        NoRoomForThree(a, b, hash, word, seed, cap, m, x, y, z);
      }
    }
  }

  /** Tables show how their keys can be placed. */
  lemma HeldArePlaced<K(!new), V>(a: seq<Slot<K, V>>, b: seq<Slot<K, V>>, hash: K -> Word, word: nat -> Word,
                                  seed: nat, cap: nat, m: map<K, V>)
    requires cap > 0 && Represents(a, b, First(hash, cap), Second(hash, word, seed, cap), m)
    ensures Placeable(hash, word, m.Keys, cap, seed)
  {
    hide First, Second;
    var f := First(hash, cap);
    var side := set k | k in m && Has(a, f, k);
    assert Places(f, Second(hash, word, seed, cap), side, m.Keys);
  }

  // ---------- Evicting ends when there is a placement ----------

  /** The keys that sit where a placement wants them. */
  ghost function Settled<K, V>(a: seq<Slot<K, V>>, f: K -> nat, m: map<K, V>, side: set<K>): (r: set<K>)
    ensures r <= m.Keys
  {
    set k | k in m.Keys && (Has(a, f, k) <==> k in side)
  }

  /** How many more keys are moved at most, when the one in hand is, or is not, about to go
      where the placement wants it. Once it is, so are all keys evicted after it. Until then
      every key evicted was settled. */
  ghost function MovesLeft(settled: nat, keys: nat, right: bool): int {
    if right then keys - settled else settled + 1 + keys
  }

  ghost function FirstLeft<K, V>(a: seq<Slot<K, V>>, f: K -> nat, m: map<K, V>, k: K, side: set<K>): int {
    MovesLeft(|Settled(a, f, m, side)|, |m| + 1, k in side)
  }

  ghost function SecondLeft<K, V>(a: seq<Slot<K, V>>, f: K -> nat, m: map<K, V>, k: K, side: set<K>): int {
    MovesLeft(|Settled(a, f, m, side)|, |m| + 1, k !in side)
  }

  lemma SettledSize<K, V>(a: seq<Slot<K, V>>, f: K -> nat, m: map<K, V>, side: set<K>)
    ensures |Settled(a, f, m, side)| <= |m|
  {
    var s := Settled(a, f, m, side);
    assert m.Keys == s + (m.Keys - s);
  }

  lemma OthersStay<K, V>(a: seq<Slot<K, V>>, f: K -> nat, k: K, v: V, z: K)
    requires f(k) < |a| && a[f(k)].Entry? && z != k && z != a[f(k)].key
    ensures Has(a[f(k) := Entry(k, v)], f, z) <==> Has(a, f, z)
  {
  }

  /** Who meets in a slot, and where they are stored. */
  lemma Meeting<K, V>(a: seq<Slot<K, V>>, b: seq<Slot<K, V>>, f: K -> nat, g: K -> nat, m: map<K, V>, k: K,
                      side: set<K>)
    requires Represents(a, b, f, g, m) && k !in m && Places(f, g, side, m.Keys + {k})
    ensures f(k) < |a| && a[f(k)].Entry? ==>
              var x := a[f(k)].key; x in m && Has(a, f, x) && !(k in side && x in side)
    ensures g(k) < |b| && b[g(k)].Entry? ==>
              var x := b[g(k)].key; x in m && !Has(a, f, x) && (k in side || x in side)
    ensures !Has(a, f, k)
  {
    if f(k) < |a| && a[f(k)].Entry? {
      assert a[f(k)].key in m.Keys + {k} && k in m.Keys + {k};
    }
    if g(k) < |b| && b[g(k)].Entry? {
      assert b[g(k)].key in m.Keys + {k} && k in m.Keys + {k};
      assert Has(b, g, b[g(k)].key);
    }
  }

  /** An eviction from the first table settles one key, or unsettles one, or the key in hand is
      on its right way for the first time. */
  lemma FirstEviction<K, V>(a: seq<Slot<K, V>>, b: seq<Slot<K, V>>, f: K -> nat, g: K -> nat, m: map<K, V>, k: K,
                            v: V, side: set<K>)
    requires Represents(a, b, f, g, m) && k !in m && f(k) < |a| && a[f(k)].Entry?
    requires Places(f, g, side, m.Keys + {k})
    ensures var x := a[f(k)].key;
            SecondLeft(a[f(k) := Entry(k, v)], f, m[k := v] - {x}, x, side) < FirstLeft(a, f, m, k, side)
  {
    hide Represents, Has, Places;
    var x := a[f(k)].key;
    var a', rest := a[f(k) := Entry(k, v)], m[k := v] - {x};
    Meeting(a, b, f, g, m, k, side);
    Evicted(a, b, f, g, m, k, v);
    forall z | z != k && z != x
      ensures Has(a', f, z) <==> Has(a, f, z)
    {
      OthersStay(a, f, k, v, z);
    }
    SettledOneMore(a, a', f, m, rest, k, x, side);
  }

  /** The settled keys after k has come to the first table in place of x. */
  lemma SettledOneMore<K, V>(a: seq<Slot<K, V>>, a': seq<Slot<K, V>>, f: K -> nat, m: map<K, V>, rest: map<K, V>, k: K,
                             x: K, side: set<K>)
    requires k !in m && x in m && Has(a, f, x) && Has(a', f, k) && !(k in side && x in side)
    requires forall z :: z != k && z != x ==> (Has(a', f, z) <==> Has(a, f, z))
    requires rest.Keys == m.Keys + {k} - {x} && |rest| == |m|
    ensures SecondLeft(a', f, rest, x, side) < FirstLeft(a, f, m, k, side)
  {
    hide Has;
    var s, s' := Settled(a, f, m, side), Settled(a', f, rest, side);
    SettledSize(a, f, m, side);
    if k in side {
      assert s' == s + {k};
    } else {
      assert s' == s - {x};
    }
  }

  lemma SecondEviction<K, V>(a: seq<Slot<K, V>>, b: seq<Slot<K, V>>, f: K -> nat, g: K -> nat, m: map<K, V>, k: K,
                             v: V, side: set<K>)
    requires Represents(a, b, f, g, m) && k !in m && g(k) < |b| && b[g(k)].Entry?
    requires Places(f, g, side, m.Keys + {k})
    ensures var x := b[g(k)].key;
            FirstLeft(a, f, m[k := v] - {x}, x, side) < SecondLeft(a, f, m, k, side)
  {
    hide Represents, Has, Places;
    var x := b[g(k)].key;
    Meeting(a, b, f, g, m, k, side);
    EvictedSecond(a, b, f, g, m, k, v);
    SettledOneLess(a, f, m, m[k := v] - {x}, k, x, side);
  }

  /** The settled keys after k has come to the second table in place of x. */
  lemma SettledOneLess<K, V>(a: seq<Slot<K, V>>, f: K -> nat, m: map<K, V>, rest: map<K, V>, k: K, x: K, side: set<K>)
    requires k !in m && x in m && !Has(a, f, x) && !Has(a, f, k) && (k in side || x in side)
    requires rest.Keys == m.Keys + {k} - {x} && |rest| == |m|
    ensures FirstLeft(a, f, rest, x, side) < SecondLeft(a, f, m, k, side)
  {
    hide Has;
    var s, s' := Settled(a, f, m, side), Settled(a, f, rest, side);
    SettledSize(a, f, m, side);
    if k !in side {
      assert s' == s + {k};
    } else {
      assert s' == s - {x};
    }
  }

  lemma SomeLeft<K, V>(a: seq<Slot<K, V>>, f: K -> nat, m: map<K, V>, k: K, side: set<K>)
    ensures FirstLeft(a, f, m, k, side) > 0
  {
    SettledSize(a, f, m, side);
  }

  /** At the start no more moves are left than two for every slot. */
  lemma LeftAtStart<K, V>(a: seq<Slot<K, V>>, hash: K -> Word, word: nat -> Word, seed: nat, cap: nat, m: map<K, V>,
                          k: K, side: set<K>)
    requires cap > 0 && k !in m
    requires Places(First(hash, cap), Second(hash, word, seed, cap), side, m.Keys + {k})
    ensures FirstLeft(a, First(hash, cap), m, k, side) <= 4 * cap
  {
    var f, g := First(hash, cap), Second(hash, word, seed, cap);
    SettledSize(a, f, m, side);
    PlacedInSlots(f, g, side, m.Keys + {k}, cap);
    assert |m.Keys + {k}| == |m| + 1;
  }
}
