/** A cuckoo hash map: a finite map whose tables grow exactly when its keys cannot be placed. */
module Cuckoo {
  import opened CuckooSlots
  import opened CuckooTables
  import opened Options

  class CuckooMap<K(==, !new), V> {
    const hash: K -> Word
    const word: nat -> Word
    var t1: array<Slot<K, V>>
    var t2: array<Slot<K, V>>
    var cap: nat
    var size: nat
    var seed: nat
    /** The finite map this table stands for. */
    ghost var contents: map<K, V>

    ghost predicate Valid()
      reads this, t1, t2
    {
      && Shaped() && size == |contents|
      && Represents(t1[..], t2[..], First(hash, cap), Second(hash, word, seed, cap), contents)
    }

    predicate Shaped()
      reads this
    {
      cap > 0 && t1.Length == cap && t2.Length == cap && t1 != t2
    }

    constructor (hash: K -> Word, word: nat -> Word, cap: nat)
      requires cap > 0
      ensures Valid() && contents == map[] && fresh(t1) && fresh(t2)
      ensures this.hash == hash && this.word == word && this.cap == cap
    {
      this.hash := hash;
      this.word := word;
      this.cap := cap;
      t1 := new Slot<K, V>[cap](_ => Vacant);
      t2 := new Slot<K, V>[cap](_ => Vacant);
      size := 0;
      seed := 42;
      contents := map[];
    }

    function H1(k: K): (i: nat)
      requires cap > 0
      reads this
      ensures i < cap
    {
      First(hash, cap)(k)
    }

    function H2(k: K): (i: nat)
      requires cap > 0
      reads this
      ensures i < cap
    {
      Second(hash, word, seed, cap)(k)
    }

    method Find(key: K) returns (r: Option<V>)
      requires Valid()
      ensures r == if key in contents then Some(contents[key]) else None
    {
      hide First, Second, Represents, Filed;
      Lookup(t1[..], t2[..], First(hash, cap), Second(hash, word, seed, cap), contents, key);
      var idx1 := H1(key);
      if t1[idx1].Entry? && t1[idx1].key == key { return Some(t1[idx1].value); }
      var idx2 := H2(key);
      if t2[idx2].Entry? && t2[idx2].key == key { return Some(t2[idx2].value); }
      return None;
    }

    method Erase(key: K) returns (erased: bool)
      requires Valid()
      modifies this, t1, t2
      ensures Valid() && t1 == old(t1) && t2 == old(t2) && cap == old(cap) && seed == old(seed)
      ensures erased == (key in old(contents))
      ensures contents == if erased then old(contents) - {key} else old(contents)
    {
      hide First, Second, Represents, Filed;
      ghost var f, g := First(hash, cap), Second(hash, word, seed, cap);
      ghost var a, b, m := t1[..], t2[..], contents;
      Lookup(a, b, f, g, m, key);
      var idx1 := H1(key);
      if t1[idx1].Entry? && t1[idx1].key == key {
        Removed(a, b, f, g, m, key);
        t1[idx1] := Vacant;
        size, contents := size - 1, m - {key};
        assert t1[..] == a[f(key) := Vacant];
        return true;
      }
      var idx2 := H2(key);
      if t2[idx2].Entry? && t2[idx2].key == key {
        RemovedSecond(a, b, f, g, m, key);
        t2[idx2] := Vacant;
        size, contents := size - 1, m - {key};
        assert t2[..] == b[g(key) := Vacant];
        return true;
      }
      return false;
    }

    /** Source recursion is unbounded; here `fuel` bounds the nesting of rehashes, and
        `done` is false when it has run out: no call ever returns in that state. */
    method Insert(key: K, value: V, fuel: nat) returns (done: bool)
      requires Valid()
      modifies this, t1, t2
      ensures t1 == old(t1) || fresh(t1)
      ensures t2 == old(t2) || fresh(t2)
      ensures done ==> Valid() && contents == old(contents)[key := value]
      ensures done ==> Rehashed(hash, word, old(contents).Keys + {key}, old(cap), old(seed), cap, seed)
      ensures done ==> Placeable(hash, word, old(contents).Keys + {key}, cap, seed)
      ensures CanFit(hash, word, old(contents).Keys + {key}, old(cap), old(seed), fuel) ==> done
      ensures done ==> NoThree(hash, old(contents).Keys + {key})
      ensures fuel >= 64 ==> (done <==> NoThree(hash, old(contents).Keys + {key}))
      decreases fuel, 1
    {
      hide Valid, Placeable, CanFit, Rehashed, NoThree;
      ghost var keys, cap0, seed0 := contents.Keys + {key}, cap, seed;
      ghost var room := CanFit(hash, word, keys, cap, seed, fuel);
      AtMostTwo();
      NotRehashed(hash, word, keys, cap, seed);
      RoomForAll(keys, fuel);
      var curKey, curVal: V;
      done := Overwrite(key, value);
      assert done ==> contents.Keys == keys == old(contents).Keys;
      if !done {
        done, curKey, curVal := Evict(key, value);
        if !done { KeysIn(curKey, curVal, old(contents)[key := value]); }
      }
      if !done && room { CanFitNext(hash, word, keys, cap, seed, fuel); }
      if !done && fuel > 0 {
        ghost var rest := contents.Keys;
        assert rest + {curKey} == old(contents)[key := value].Keys == keys;
        assert rest <= keys;
        if room { FewerCanFit(hash, word, rest, keys, 2 * cap, seed + 1, fuel - 1); }
        RehashedOnce(hash, word, keys, cap, seed);
        done := Rehash(fuel - 1);
        if done {
          ghost var cap1, seed1 := cap, seed;
          if room { CanFitLater(hash, word, rest, keys, 2 * cap0, seed0 + 1, cap, seed, fuel - 1); }
          done := Insert(curKey, curVal, fuel - 1);
          if done {
            RehashedTwice(hash, word, rest, keys, 2 * cap0, seed0 + 1, cap1, seed1, cap, seed);
            RehashedTwice(hash, word, keys, keys, cap0, seed0, 2 * cap0, seed0 + 1, cap, seed);
          }
        }
      }
      if done {
        AtMostTwo();
        assert contents.Keys == keys;
      }
    }

    /** What is stored is placed, so no table ever holds three keys with one hash value. */
    lemma AtMostTwo()
      requires Valid()
      ensures cap > 0 && NoThree(hash, contents.Keys) && Placeable(hash, word, contents.Keys, cap, seed)
    {
      HeldAreAtMostTwo(t1[..], t2[..], hash, word, seed, cap, contents);
      HeldArePlaced(t1[..], t2[..], hash, word, seed, cap, contents);
    }

    lemma RoomForAll(keys: set<K>, fuel: nat)
      requires cap > 0
      ensures fuel >= 64 && NoThree(hash, keys) ==> CanFit(hash, word, keys, cap, seed, fuel)
    {
      hide CanFit, NoThree;
      if fuel >= 64 && NoThree(hash, keys) {
        RoomInTheEnd(hash, word, keys, cap, seed, fuel);
      }
    }

    /** The key is there already: only its value changes. */
    method Overwrite(key: K, value: V) returns (found: bool)
      requires Valid()
      modifies this, t1, t2
      ensures Valid() && t1 == old(t1) && t2 == old(t2) && cap == old(cap) && seed == old(seed)
      ensures found == (key in old(contents))
      ensures contents == if found then old(contents)[key := value] else old(contents)
    {
      hide First, Second, Represents, Filed;
      ghost var f, g := First(hash, cap), Second(hash, word, seed, cap);
      ghost var a, b, m := t1[..], t2[..], contents;
      Lookup(a, b, f, g, m, key);
      var idx1 := H1(key);
      if t1[idx1].Entry? && t1[idx1].key == key {
        Placed(a, b, f, g, m, key, value);
        t1[idx1] := Entry(key, value);
        contents := contents[key := value];
        assert t1[..] == a[f(key) := Entry(key, value)];
        return true;
      }
      var idx2 := H2(key);
      if t2[idx2].Entry? && t2[idx2].key == key {
        PlacedSecond(a, b, f, g, m, key, value);
        t2[idx2] := Entry(key, value);
        contents := contents[key := value];
        assert t2[..] == b[g(key) := Entry(key, value)];
        return true;
      }
      return false;
    }

    /** Puts the entry in hand into its first slot; what was there is in hand afterwards. */
    method SwapFirst(key: K, value: V) returns (placed: bool, outKey: K, outVal: V)
      requires Valid() && key !in contents
      modifies this, t1
      ensures Valid() && t1 == old(t1) && t2 == old(t2) && cap == old(cap) && seed == old(seed)
      ensures placed ==> contents == old(contents)[key := value]
      ensures !placed ==> outKey !in contents && contents[outKey := outVal] == old(contents)[key := value]
      ensures t1[..] == old(t1[..])[H1(key) := Entry(key, value)] && (placed <==> old(t1[H1(key)]).Vacant?)
      ensures !placed ==> Entry(outKey, outVal) == old(t1[H1(key)])
      ensures !placed ==> contents == old(contents)[key := value] - {outKey}
    {
      hide First, Second, Represents, Filed, Has;
      ghost var f, g := First(hash, cap), Second(hash, word, seed, cap);
      ghost var goal := contents[key := value];
      var idx := H1(key);
      var out := t1[idx];
      ghost var after := t1[..][idx := Entry(key, value)];
      if out.Vacant? {
        Placed(t1[..], t2[..], f, g, contents, key, value);
        t1[idx] := Entry(key, value);
        assert t1[..] == after;
        size, contents := size + 1, goal;
        return true, key, value;
      }
      Evicted(t1[..], t2[..], f, g, contents, key, value);
      t1[idx] := Entry(key, value);
      assert t1[..] == after;
      contents := goal - {out.key};
      return false, out.key, out.value;
    }

    method SwapSecond(key: K, value: V) returns (placed: bool, outKey: K, outVal: V)
      requires Valid() && key !in contents
      modifies this, t2
      ensures Valid() && t1 == old(t1) && t2 == old(t2) && cap == old(cap) && seed == old(seed)
      ensures t2[..] == old(t2[..])[H2(key) := Entry(key, value)] && (placed <==> old(t2[H2(key)]).Vacant?)
      ensures !placed ==> Entry(outKey, outVal) == old(t2[H2(key)])
      ensures !placed ==> contents == old(contents)[key := value] - {outKey}
      ensures placed ==> contents == old(contents)[key := value]
      ensures !placed ==> outKey !in contents && contents[outKey := outVal] == old(contents)[key := value]
    {
      hide First, Second, Represents, Filed, Has;
      ghost var f, g := First(hash, cap), Second(hash, word, seed, cap);
      ghost var goal := contents[key := value];
      var idx := H2(key);
      var out := t2[idx];
      ghost var after := t2[..][idx := Entry(key, value)];
      if out.Vacant? {
        PlacedSecond(t1[..], t2[..], f, g, contents, key, value);
        t2[idx] := Entry(key, value);
        assert t2[..] == after;
        size, contents := size + 1, goal;
        return true, key, value;
      }
      EvictedSecond(t1[..], t2[..], f, g, contents, key, value);
      t2[idx] := Entry(key, value);
      assert t2[..] == after;
      contents := goal - {out.key};
      return false, out.key, out.value;
    }

    /** The eviction loop. It succeeds exactly if all keys, the new one included, can be placed at
        this capacity and seed. Otherwise the tables hold everything but the entry in hand. */
    method Evict(key: K, value: V) returns (done: bool, curKey: K, curVal: V)
      requires Valid() && key !in contents
      modifies this, t1, t2
      ensures Valid() && t1 == old(t1) && t2 == old(t2) && cap == old(cap) && seed == old(seed)
      ensures done ==> contents == old(contents)[key := value]
      ensures !done ==> curKey !in contents && contents[curKey := curVal] == old(contents)[key := value]
      ensures done <==> Placeable(hash, word, old(contents).Keys + {key}, cap, seed)
    {
      hide Valid, First, Second, Represents, Has, Places, FirstLeft, SecondLeft;
      ghost var goal := contents[key := value];
      ghost var keys := contents.Keys + {key};
      ghost var side: set<K>, fits := {}, Placeable(hash, word, keys, cap, seed);
      PositiveCap();
      if fits {
        side :| Places(First(hash, cap), Second(hash, word, seed, cap), side, keys);
        LeftAtStart(t1[..], hash, word, seed, cap, contents, key, side);
      }
      hide Placeable;
      assert goal.Keys == keys;
      done, curKey, curVal := false, key, value;
      var i, maxIter := 0, cap * 2;
      while i < maxIter
        invariant Valid() && t1 == old(t1) && t2 == old(t2) && cap == old(cap) && seed == old(seed)
        invariant curKey !in contents && contents[curKey := curVal] == goal
        invariant fits ==> FirstLeft(t1[..], First(hash, cap), contents, curKey, side) <= 2 * (maxIter - i)
      {
        ghost var a, b, m, k, v := t1[..], t2[..], contents, curKey, curVal;
        KeysIn(curKey, curVal, goal);
        Opened();
        done, curKey, curVal := SwapFirst(curKey, curVal);
        if done { AtMostTwo(); return; }
        assert a[H1(k)] == Entry(curKey, curVal) && t2[..] == b;
        if fits { LessAfterFirst(a, m, k, v, curKey, side); }
        a, m, k, v := t1[..], contents, curKey, curVal;
        KeysIn(curKey, curVal, goal);
        Opened();
        done, curKey, curVal := SwapSecond(curKey, curVal);
        if done { AtMostTwo(); return; }
        assert b[H2(k)] == Entry(curKey, curVal) && t1[..] == a;
        if fits { LessAfterSecond(b, m, k, v, curKey, side); }
        i := i + 1;
      }
      if fits {
        SomeLeft(t1[..], First(hash, cap), contents, curKey, side);
      }
    }

    lemma PositiveCap()
      requires Valid()
      ensures cap > 0
    {
    }

    lemma Opened()
      requires Valid()
      ensures cap > 0 && t1.Length == t2.Length == cap && t1 != t2
      ensures Represents(t1[..], t2[..], First(hash, cap), Second(hash, word, seed, cap), contents)
    {
    }

    lemma KeysIn(key: K, value: V, goal: map<K, V>)
      requires contents[key := value] == goal
      ensures contents.Keys + {key} == goal.Keys
    {
    }

    /** The state before a turn in the first table was this one, but for that turn. */
    lemma LessAfterFirst(a: seq<Slot<K, V>>, m: map<K, V>, k: K, v: V, x: K, side: set<K>)
      requires cap > 0 && H1(k) < |a| && a[H1(k)].Entry? && a[H1(k)].key == x && t1[..] == a[H1(k) := Entry(k, v)]
      requires Represents(a, t2[..], First(hash, cap), Second(hash, word, seed, cap), m) && k !in m
      requires contents == m[k := v] - {x}
      requires Places(First(hash, cap), Second(hash, word, seed, cap), side, m.Keys + {k})
      ensures SecondLeft(t1[..], First(hash, cap), contents, x, side) < FirstLeft(a, First(hash, cap), m, k, side)
    {
      hide First, Second, Represents, Places, FirstLeft, SecondLeft;
      FirstEviction(a, t2[..], First(hash, cap), Second(hash, word, seed, cap), m, k, v, side);
    }

    lemma LessAfterSecond(b: seq<Slot<K, V>>, m: map<K, V>, k: K, v: V, x: K, side: set<K>)
      requires cap > 0 && H2(k) < |b| && b[H2(k)].Entry? && b[H2(k)].key == x && t2[..] == b[H2(k) := Entry(k, v)]
      requires Represents(t1[..], b, First(hash, cap), Second(hash, word, seed, cap), m) && k !in m
      requires contents == m[k := v] - {x}
      requires Places(First(hash, cap), Second(hash, word, seed, cap), side, m.Keys + {k})
      ensures FirstLeft(t1[..], First(hash, cap), contents, x, side) < SecondLeft(t1[..], First(hash, cap), m, k, side)
    {
      hide First, Second, Represents, Places, FirstLeft, SecondLeft;
      SecondEviction(t1[..], b, First(hash, cap), Second(hash, word, seed, cap), m, k, v, side);
    }

    /** Empty tables of twice the capacity, and a new seed. */
    method Reset()
      requires Valid()
      modifies this
      ensures Valid() && contents == map[] && fresh(t1) && fresh(t2)
      ensures cap == 2 * old(cap) && seed == old(seed) + 1
    {
      hide First, Second, Represents, Filed;
      seed := seed + 1;
      cap := cap * 2;
      t1 := new Slot<K, V>[cap](_ => Vacant);
      t2 := new Slot<K, V>[cap](_ => Vacant);
      size, contents := 0, map[];
      NothingHeld(t1[..], t2[..], First(hash, cap), Second(hash, word, seed, cap));
    }

    lemma AllEntries()
      requires Valid()
      ensures t1 != t2 && Entries(t1[..]) + Entries(t2[..]) == contents
    {
      EntriesAreAll(t1[..], t2[..], First(hash, cap), Second(hash, word, seed, cap), contents);
    }

    /** Twice the capacity, a new seed, and every entry inserted again. */
    method Rehash(fuel: nat) returns (done: bool)
      requires Valid()
      modifies this
      ensures fresh(t1) && fresh(t2)
      ensures done ==> Valid() && contents == old(contents)
      ensures done ==> Rehashed(hash, word, old(contents).Keys, 2 * old(cap), old(seed) + 1, cap, seed)
      ensures CanFit(hash, word, old(contents).Keys, 2 * old(cap), old(seed) + 1, fuel) ==> done
      ensures fuel >= 64 ==> done
      decreases fuel, 3
    {
      hide Valid, Entries, Placeable, CanFit, Rehashed, NoThree;
      AllEntries();
      AtMostTwo();
      ghost var all, n, s := contents.Keys, 2 * cap, seed + 1;
      ghost var room := CanFit(hash, word, all, n, s, fuel);
      var old1, old2 := t1, t2;
      ghost var first := Entries(t1[..]);
      assert first.Keys <= all;
      assert map[] + first == first;
      if room { FewerCanFit(hash, word, first.Keys, all, n, s, fuel); }
      Reset();
      RoomForAll(all, fuel);
      done := Reinsert(old1, map[], fuel);
      if done {
        ghost var n1, s1 := cap, seed;
        if room { CanFitLater(hash, word, first.Keys, all, n, s, n1, s1, fuel); }
        done := Reinsert(old2, first, fuel);
        if done { RehashedTwice(hash, word, first.Keys, all, n, s, n1, s1, cap, seed); }
      }
    }

    /** Inserts every entry of an old table. */
    method Reinsert(table: array<Slot<K, V>>, ghost before: map<K, V>, fuel: nat) returns (done: bool)
      requires Valid() && contents == before && table != t1 && table != t2
      modifies this, t1, t2
      ensures t1 == old(t1) || fresh(t1)
      ensures t2 == old(t2) || fresh(t2)
      ensures table[..] == old(table[..])
      ensures done ==> Valid() && contents == before + Entries(old(table[..]))
      ensures done ==>
                Rehashed(hash, word, (before + Entries(old(table[..]))).Keys, old(cap), old(seed), cap, seed)
      ensures CanFit(hash, word, (before + Entries(old(table[..]))).Keys, old(cap), old(seed), fuel) ==> done
      decreases fuel, 2
    {
      hide Valid, Entries, Placeable, CanFit, Rehashed, NoThree;
      NextEntry(table[..], 0);
      ghost var n, s, keys := cap, seed, (before + Entries(table[..])).Keys;
      NotRehashed(hash, word, contents.Keys, n, s);
      var i := 0;
      while i < table.Length
        invariant 0 <= i <= table.Length && Valid()
        invariant (t1 == old(t1) || fresh(t1)) && (t2 == old(t2) || fresh(t2))
        invariant table[..] == old(table[..]) && table != t1 && table != t2
        invariant contents == before + Entries(table[..i]) && Rehashed(hash, word, contents.Keys, n, s, cap, seed)
      {
        NextEntry(table[..], i);
        if table[i].Entry? {
          ghost var some, n1, s1 := contents.Keys, cap, seed;
          if CanFit(hash, word, keys, n, s, fuel) { RoomForNext(table[..], before, i, n, s, fuel); }
          done := Insert(table[i].key, table[i].value, fuel);
          if !done { return false; }
          assert contents.Keys == some + {table[i].key};
          RehashedTwice(hash, word, some, contents.Keys, n, s, n1, s1, cap, seed);
        }
        i := i + 1;
      }
      assert table[..i] == table[..];
      return true;
    }

    /** If there will be room for a whole table, there will be for its next entry. */
    lemma RoomForNext(s: seq<Slot<K, V>>, before: map<K, V>, i: nat, cap0: nat, seed0: nat, fuel: nat)
      requires i < |s| && s[i].Entry? && contents == before + Entries(s[..i])
      requires Rehashed(hash, word, contents.Keys, cap0, seed0, cap, seed)
      requires CanFit(hash, word, (before + Entries(s)).Keys, cap0, seed0, fuel)
      ensures CanFit(hash, word, contents.Keys + {s[i].key}, cap, seed, fuel)
    {
      hide Entries, CanFit, Rehashed;
      var keys, next := (before + Entries(s)).Keys, contents.Keys + {s[i].key};
      NextEntry(s, i);
      EntriesGrow(s, i + 1);
      FewerCanFit(hash, word, next, keys, cap0, seed0, fuel);
      CanFitLater(hash, word, contents.Keys, next, cap0, seed0, cap, seed, fuel);
    }
  }

  /** An empty map takes two keys of one hash value; inserting a third never returns. */
  method ThreeAlike<K(==, !new)>(hash: K -> Word, word: nat -> Word, cap: nat, keys: (K, K, K), fuel: nat)
      returns (first: bool, second: bool, third: bool)
    requires cap > 0 && keys.0 != keys.1 && keys.1 != keys.2 && keys.0 != keys.2
    requires hash(keys.0) == hash(keys.1) == hash(keys.2)
    ensures fuel >= 64 ==> first && second
    ensures !third
  {
    hide CuckooMap.Valid, CanFit, Rehashed, Placeable;
    var m := new CuckooMap<K, int>(hash, word, cap);
    first, second, third := false, false, false;
    first := m.Insert(keys.0, 0, fuel);
    if first {
      second := m.Insert(keys.1, 1, fuel);
      if second {
        third := m.Insert(keys.2, 2, fuel);
      }
    }
  }
}
