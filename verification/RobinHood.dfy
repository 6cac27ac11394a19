/** A Robin Hood hash map: open addressing, displacement of entries that are closer to
    home, backward-shift deletion. It refines a finite map for every hash function. */
module RobinHood {
  import opened Masking
  import opened Options
  import opened RobinHoodTable

  // ---------- The map ----------

  class RobinHoodMap<K(==), V> {
    const hash: K -> nat
    var slots: array<Slot<K, V>>
    var size: nat
    /** The finite map this table stands for. */
    ghost var contents: map<K, V>

    ghost predicate Valid()
      reads this, slots
    {
      && IsPowerOfTwo(slots.Length)
      && Table(slots[..], hash) && Represents(slots[..], contents) && HasRest(slots[..])
      && size == Count(slots[..]) == |contents|
    }

    constructor (hash: K -> nat, cap: nat)
      ensures Valid() && fresh(slots) && contents == map[] && this.hash == hash
      ensures slots.Length >= cap && (IsPowerOfTwo(cap) ==> slots.Length == cap)
    {
      var n := NextPowerOfTwo(cap);
      var s := new Slot<K, V>[n](_ => Empty);
      this.hash := hash;
      slots := s;
      size := 0;
      contents := map[];
      EmptyTable(s[..], hash);
      if IsPowerOfTwo(cap) {
        PowersApart(cap, n);
      }
    }

    /** A completely full table has an entry in its own home slot. */
    lemma FullTableHasEntryAtHome()
      requires Valid() && size == slots.Length
      ensures exists i :: 0 <= i < slots.Length && slots[i].Full? && slots[i].psl == 0
                && Home(hash, slots[i].key, slots.Length) == i
    {
      CountBound(slots[..]);
      var i :| 0 <= i < slots.Length && Rests(slots[..], i);
      assert slots[..][i].Full? && Placed(slots[..], hash, i);
    }

    function HashIndex(key: K): (i: nat)
      requires slots.Length > 0
      reads this
      ensures i < slots.Length && i == Home(hash, key, slots.Length)
    {
      And(hash(key), slots.Length - 1)
    }

    /** load_factor() > 0.75 */
    predicate Overloaded()
      reads this
    {
      4 * size > 3 * slots.Length
    }

    method Find(key: K) returns (r: Option<V>)
      requires Valid()
      ensures r == if key in contents then Some(contents[key]) else None
    {
      var idx: nat := HashIndex(key);
      var psl: nat := 0;
      while true
        invariant Probing(slots[..], hash, key, psl, idx)
        decreases slots.Length - psl
      {
        var slot := slots[idx];
        if slot.Empty? || slot.psl < psl {
          ProbeStops(slots[..], hash, key, psl, idx);
          return None;
        }
        if slot.key == key {
          assert At(slots[..], idx, key);
          return Some(slot.value);
        }
        ProbeSteps(slots[..], hash, key, psl, idx);
        psl := psl + 1;
        MaskIsNext(idx, slots.Length);
        idx := And(idx + 1, slots.Length - 1);
      }
    }

    method Insert(key: K, value: V)
      requires Valid()
      modifies this, slots
      ensures Valid() && contents == old(contents)[key := value]
      ensures if old(Overloaded()) then fresh(slots) && slots.Length == 2 * old(slots.Length) else slots == old(slots)
      decreases if Overloaded() then 2 else 0
    {
      hide Table, Represents, HasRest, Count;
      if Overloaded() {
        Grow();
      }
      Place(key, value);
    }

    /** The probing loop of insert, which always finds room. */
    method Place(key: K, value: V)
      requires Valid() && !Overloaded()
      modifies this, slots
      ensures Valid() && contents == old(contents)[key := value] && slots == old(slots)
    {
      hide Table, Represents, Searching, Carrying, HasRest, Count, And, Distance, Next;
      var incoming: Slot<K, V> := Full(key, value, 0);
      var idx: nat := HashIndex(key);
      SearchBegins(slots[..], hash, incoming, idx, contents);
      ghost var before, goal := slots[..], contents[key := value];
      CountBound(before);
      ghost var e: nat :| e < slots.Length && slots[e].Empty?;
      ghost var placed := false;
      while true
        invariant slots == old(slots) && size == old(size) && contents == old(contents)
        invariant IsPowerOfTwo(slots.Length) && goal == contents[key := value]
        invariant incoming.Full? && idx < slots.Length && e < slots.Length && slots[e].Empty?
        invariant Count(slots[..]) == size
        invariant !placed ==> slots[..] == before && incoming.key == key && incoming.value == value
        invariant !placed ==> Searching(slots[..], hash, incoming, idx, contents)
        invariant placed ==> key !in contents && Carrying(slots[..], hash, incoming, idx, goal)
        decreases Distance(idx, e, slots.Length)
      {
        var slot := slots[idx];
        ghost var s := slots[..];
        if !placed && (slot.Empty? || slot.psl < incoming.psl) {
          SearchMisses(s, hash, incoming, idx, contents);
          placed := true;
        }
        if slot.Empty? {
          CarryLands(s, hash, incoming, idx, goal);
          CountUpdate(s, idx, incoming);
          slots[idx] := incoming;
          assert slots[..] == s[idx := incoming];
          size := size + 1;
          contents := goal;
          return;
        }
        if slot.key == incoming.key {
          NotCarried(s, hash, incoming, idx, goal);
          SearchHits(s, hash, incoming, idx, contents);
          CountUpdate(s, idx, slot.(value := incoming.value));
          slots[idx] := slot.(value := incoming.value);
          assert slots[..] == s[idx := slot.(value := incoming.value)];
          contents := goal;
          return;
        }
        if slot.psl < incoming.psl {
          CarrySwaps(s, hash, incoming, idx, goal, e);
          CountUpdate(s, idx, incoming);
          slots[idx] := incoming;
          assert slots[..] == s[idx := incoming];
          incoming := slot;
        } else if placed {
          CarrySteps(s, hash, incoming, idx, goal, e);
        } else {
          SearchSteps(s, hash, incoming, idx, contents, e);
        }
        incoming := incoming.(psl := incoming.psl + 1);
        Closer(idx, e, slots.Length);
        MaskIsNext(idx, slots.Length);
        idx := And(idx + 1, slots.Length - 1);
      }
    }

    /** Moves everything into a table twice the size. */
    method Grow()
      requires Valid()
      modifies this
      ensures slots.Length == 2 * old(slots.Length)
      ensures Valid() && contents == old(contents) && fresh(slots) && !Overloaded()
      decreases 1
    {
      hide Table, Represents, HasRest, Count;
      var bigger := new RobinHoodMap<K, V>(hash, 2 * slots.Length);
      ghost var s := slots[..];
      CountBound(s);
      GrowBegins(s);
      for i := 0 to slots.Length
        invariant bigger.Valid() && fresh(bigger) && fresh(bigger.slots) && bigger.hash == hash
        invariant bigger.slots.Length == 2 * |s|
        invariant Represents(s[..i], bigger.contents) && bigger.size == Count(s[..i])
        invariant slots == old(slots) && slots[..] == s && contents == old(contents)
      {
        var slot := slots[i];
        CountBound(s[..i]);
        GrowSlot(s, hash, i, bigger.contents);
        if slot.Full? {
          assert !bigger.Overloaded();
          bigger.Insert(slot.key, slot.value);
        }
      }
      assert s[..|s|] == s;
      SameMap(s, bigger.contents, contents);
      slots := bigger.slots;
      size := bigger.size;
    }

    method Erase(key: K) returns (erased: bool)
      requires Valid()
      modifies this, slots
      ensures Valid() && contents == old(contents) - {key} && slots == old(slots)
      ensures erased <==> key in old(contents)
    {
      hide Table, Represents, HasRest, Count;
      var idx: nat := HashIndex(key);
      var psl: nat := 0;
      while true
        invariant Valid() && contents == old(contents) && slots == old(slots)
        invariant Probing(slots[..], hash, key, psl, idx)
        decreases slots.Length - psl
      {
        var slot := slots[idx];
        if slot.Empty? || slot.psl < psl {
          ProbeStops(slots[..], hash, key, psl, idx);
          AbsentKey(slots[..], contents, key);
          return false;
        }
        if slot.key == key {
          ShiftBack(idx, key);
          return true;
        }
        ProbeSteps(slots[..], hash, key, psl, idx);
        psl := psl + 1;
        MaskIsNext(idx, slots.Length);
        idx := And(idx + 1, slots.Length - 1);
      }
    }

    /** Backward shift deletion from the slot of `key`. */
    method ShiftBack(start: nat, ghost key: K)
      requires Valid() && At(slots[..], start, key)
      modifies this, slots
      ensures Valid() && key in old(contents) && contents == old(contents) - {key} && slots == old(slots)
    {
      hide Table, Represents, Shifting, Count, And;
      var idx: nat := start;
      ghost var m := contents - {key};
      RemovedSize(contents, key);
      ShiftBegins(slots[..], hash, idx, key, contents);
      CountUpdate(slots[..], idx, Empty);
      size := size - 1;
      ghost var rest: nat :| rest < slots.Length && Rests(slots[..], rest);
      while true
        invariant slots == old(slots) && size == Count(slots[..]) - 1 == |m|
        invariant idx < slots.Length && slots[idx].Full? && IsPowerOfTwo(slots.Length)
        invariant Shifting(slots[..], hash, idx, m) && rest < slots.Length && Rests(slots[..], rest)
        decreases Distance(Next(idx, slots.Length), rest, slots.Length)
      {
        ghost var s := slots[..];
        MaskIsNext(idx, slots.Length);
        var next := And(idx + 1, slots.Length - 1);
        var nextSlot := slots[next];
        if nextSlot.Empty? || nextSlot.psl == 0 {
          ShiftEnds(s, hash, idx, m);
          CountUpdate(s, idx, Empty);
          slots[idx] := Empty;
          assert slots[..] == s[idx := Empty];
          contents := m;
          return;
        }
        var moved := nextSlot.(psl := nextSlot.psl - 1);
        ShiftMoves(s, hash, idx, m, rest);
        CountUpdate(s, idx, moved);
        slots[idx] := moved;
        assert slots[..] == s[idx := moved];
        idx := next;
      }
    }
  }

  lemma {:induction false} EmptyTable<K, V>(s: seq<Slot<K, V>>, hash: K -> nat)
    requires |s| > 0 && forall i :: 0 <= i < |s| ==> s[i].Empty?
    ensures Table(s, hash) && Represents(s, map[]) && HasRest(s) && Count(s) == 0
  {
    assert Rests(s, 0);
    CountNone(s);
  }

  lemma {:induction false} CountNone<K, V>(s: seq<Slot<K, V>>)
    requires forall i :: 0 <= i < |s| ==> s[i].Empty?
    ensures Count(s) == 0
    decreases |s|
  {
    if s != [] {
      CountNone(s[..|s| - 1]);
    }
  }

  lemma GrowBegins<K, V>(s: seq<Slot<K, V>>)
    ensures Represents(s[..0], map[]) && Count(s[..0]) == 0
  {
  }

  /** What one round of grow adds. */
  lemma GrowSlot<K, V>(s: seq<Slot<K, V>>, hash: K -> nat, i: nat, m: map<K, V>)
    requires i < |s| && Table(s, hash) && Represents(s[..i], m)
    ensures Count(s[..i + 1]) == Count(s[..i]) + if s[i].Full? then 1 else 0
    ensures s[i].Full? ==> s[i].key !in m && Represents(s[..i + 1], m[s[i].key := s[i].value])
    ensures s[i].Empty? ==> Represents(s[..i + 1], m)
  {
    var t, t' := s[..i], s[..i + 1];
    assert t'[..i] == t;
    if s[i].Full? {
      var m' := m[s[i].key := s[i].value];
      assert forall j :: 0 <= j < i && s[j].Full? ==> s[j].key != s[i].key;
      assert Absent(t, s[i].key);
      forall k | k in m'
        ensures exists j :: At(t', j, k)
      {
        if k == s[i].key {
          assert At(t', i, k);
        } else {
          assert k in m;
          var j :| At(t, j, k);
          assert At(t', j, k);
        }
      }
    } else {
      forall k | k in m
        ensures exists j :: At(t', j, k)
      {
        var j :| At(t, j, k);
        assert At(t', j, k);
      }
    }
  }

  lemma AbsentKey<K, V>(s: seq<Slot<K, V>>, m: map<K, V>, key: K)
    requires Represents(s, m) && Absent(s, key)
    ensures key !in m && m - {key} == m
  {
  }

  lemma RemovedSize<K, V>(m: map<K, V>, key: K)
    ensures |m - {key}| == |m| - if key in m then 1 else 0
  {
    var r := m - {key};
    assert r.Keys == m.Keys - {key};
    assert |r| == |r.Keys| && |m| == |m.Keys|;
  }

  lemma SameMap<K, V>(s: seq<Slot<K, V>>, a: map<K, V>, b: map<K, V>)
    requires Represents(s, a) && Represents(s, b)
    ensures a == b
  {
    forall k
      ensures k in a <==> k in b
      ensures k in a ==> a[k] == b[k]
    {
      if k in a { var i :| At(s, i, k); }
      if k in b { var i :| At(s, i, k); }
    }
  }
}
