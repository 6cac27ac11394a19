/** Robin Hood tables as sequences of slots.

    Every entry stores its distance from home, and a displaced entry has a neighbour before
    it that is displaced at least nearly as far. Hence a probe may stop at the first slot
    that is nearer to home than the probe is, displacement and backward shift keep the
    table in this form, and even a full table has an entry in its own home slot. */
module RobinHoodTable {
  import opened Masking

  /** psl is the probe sequence length, the distance of the slot from the key's home. */
  datatype Slot<K, V> = Empty | Full(key: K, value: V, psl: nat)

  // ---------- Geometry of the ring ----------

  function Prev(i: nat, n: nat): (j: nat)
    requires i < n
    ensures j < n
  {
    if i == 0 then n - 1 else i - 1
  }

  /** The slot k steps before i. */
  function Back(i: nat, k: nat, n: nat): (j: nat)
    requires i < n && k < n
    ensures j < n
  {
    if i >= k then i - k else i + n - k
  }

  // ---------- Tables ----------

  function Home<K>(hash: K -> nat, key: K, n: nat): (h: nat)
    requires n > 0
    ensures h < n
  {
    And(hash(key), n - 1)
  }

  ghost predicate At<K, V>(s: seq<Slot<K, V>>, i: nat, key: K) {
    i < |s| && s[i].Full? && s[i].key == key
  }

  ghost predicate Absent<K, V>(s: seq<Slot<K, V>>, key: K) {
    forall j: nat :: !At(s, j, key)
  }

  /** A displaced entry has a neighbour before it that is displaced nearly as far. */
  ghost predicate Chained<K, V>(s: seq<Slot<K, V>>, i: nat)
    requires i < |s|
  {
    s[i].Full? && s[i].psl > 0 ==>
      s[Prev(i, |s|)].Full? && s[Prev(i, |s|)].psl + 1 >= s[i].psl
  }

  ghost predicate Placed<K, V>(s: seq<Slot<K, V>>, hash: K -> nat, i: nat)
    requires i < |s|
  {
    s[i].Full? ==> s[i].psl == Distance(Home(hash, s[i].key, |s|), i, |s|)
  }

  ghost predicate AllChained<K, V>(s: seq<Slot<K, V>>) {
    forall i :: 0 <= i < |s| ==> Chained(s, i)
  }

  ghost predicate AllPlaced<K, V>(s: seq<Slot<K, V>>, hash: K -> nat) {
    forall i :: 0 <= i < |s| ==> Placed(s, hash, i)
  }

  ghost predicate Unique<K, V>(s: seq<Slot<K, V>>) {
    forall i, j :: 0 <= i < j < |s| && s[i].Full? && s[j].Full? ==> s[i].key != s[j].key
  }

  ghost predicate Table<K, V>(s: seq<Slot<K, V>>, hash: K -> nat) {
    |s| > 0 && AllChained(s) && AllPlaced(s, hash) && Unique(s)
  }

  /** The slots hold exactly the bindings of m. */
  ghost predicate Represents<K, V>(s: seq<Slot<K, V>>, m: map<K, V>) {
    && (forall i :: 0 <= i < |s| && s[i].Full? ==> s[i].key in m && m[s[i].key] == s[i].value)
    && (forall k :: k in m ==> exists i :: At(s, i, k))
  }

  function Count<K, V>(s: seq<Slot<K, V>>): nat {
    if s == [] then 0 else Count(s[..|s| - 1]) + if s[|s| - 1].Full? then 1 else 0
  }

  /** A full table still has an entry at home, where a backward shift can stop. */
  ghost predicate HasRest<K, V>(s: seq<Slot<K, V>>) {
    exists i :: 0 <= i < |s| && Rests(s, i)
  }

  ghost predicate Rests<K, V>(s: seq<Slot<K, V>>, i: nat)
    requires i < |s|
  {
    s[i].Empty? || s[i].psl == 0
  }

  // ---------- Lemmas about tables ----------

  lemma {:induction false} CountUpdate<K, V>(s: seq<Slot<K, V>>, i: nat, x: Slot<K, V>)
    requires i < |s|
    ensures Count(s[i := x]) == Count(s) - (if s[i].Full? then 1 else 0) + (if x.Full? then 1 else 0)
    ensures s[i].Full? ==> Count(s) > 0
    decreases |s|
  {
    var n := |s| - 1;
    if i == n {
      assert s[i := x][..n] == s[..n];
    } else {
      assert s[i := x][..n] == s[..n][i := x];
      CountUpdate(s[..n], i, x);
    }
  }

  lemma {:induction false} CountBound<K, V>(s: seq<Slot<K, V>>)
    ensures Count(s) <= |s|
    ensures Count(s) == |s| <==> forall i :: 0 <= i < |s| ==> s[i].Full?
    decreases |s|
  {
    if s != [] {
      CountBound(s[..|s| - 1]);
      if Count(s) == |s| {
        assert forall i :: 0 <= i < |s| - 1 ==> s[i] == s[..|s| - 1][i];
      }
    }
  }

  /** The entries before a displaced one reach back to its home without a gap, each
      displaced at least as far as a probe for that home would be there. */
  lemma {:induction false} ChainBack<K, V>(s: seq<Slot<K, V>>, i: nat, k: nat)
    requires AllChained(s) && i < |s| && s[i].Full? && k <= s[i].psl && k < |s|
    ensures s[Back(i, k, |s|)].Full? && s[Back(i, k, |s|)].psl + k >= s[i].psl
    decreases k
  {
    if k > 0 {
      ChainBack(s, i, k - 1);
      var j := Back(i, k - 1, |s|);
      assert Chained(s, j);
      assert Prev(j, |s|) == Back(i, k, |s|);
    }
  }

  /** A key at distance d or more from its home fills the slot at distance d. */
  lemma KeyBlocks<K, V>(s: seq<Slot<K, V>>, hash: K -> nat, key: K, d: nat, i: nat, j: nat)
    requires Table(s, hash) && i < |s| && Distance(Home(hash, key, |s|), i, |s|) == d
    requires At(s, j, key) && s[j].psl >= d
    ensures s[i].Full? && s[i].psl >= d
  {
    assert Placed(s, hash, j);
    ChainBack(s, j, s[j].psl - d);
    assert Back(j, s[j].psl - d, |s|) == i;
  }

  /** A probe for `key` has taken d steps and stands at slot i. After |s| steps it is
      back at the key's home. */
  ghost predicate Probing<K, V>(s: seq<Slot<K, V>>, hash: K -> nat, key: K, d: nat, i: nat) {
    && i < |s| && d <= |s|
    && (if d < |s| then Distance(Home(hash, key, |s|), i, |s|) == d else i == Home(hash, key, |s|))
    && (forall j: nat :: At(s, j, key) ==> s[j].psl >= d)
  }

  /** Early exit: at a slot that is empty, or holds an entry closer to its own home than
      the probe has come, the key cannot be found any more. */
  lemma ProbeStops<K, V>(s: seq<Slot<K, V>>, hash: K -> nat, key: K, d: nat, i: nat)
    requires Table(s, hash) && Probing(s, hash, key, d, i)
    requires s[i].Empty? || s[i].psl < d
    ensures Absent(s, key)
  {
    forall j: nat
      ensures !At(s, j, key)
    {
      if At(s, j, key) {
        assert Placed(s, hash, j);
        KeyBlocks(s, hash, key, d, i, j);
      }
    }
  }

  lemma ProbeSteps<K, V>(s: seq<Slot<K, V>>, hash: K -> nat, key: K, d: nat, i: nat)
    requires Table(s, hash) && Probing(s, hash, key, d, i)
    requires s[i].Full? && s[i].psl >= d && s[i].key != key
    ensures d < |s| && Probing(s, hash, key, d + 1, Next(i, |s|))
  {
    assert Placed(s, hash, i);
    forall j: nat | At(s, j, key)
      ensures s[j].psl > d
    {
      assert Placed(s, hash, j);
    }
  }

  /** An entry that was displaced once around the ring left no slot empty behind it. */
  lemma FullCircle<K, V>(s: seq<Slot<K, V>>, i: nat)
    requires AllChained(s) && i < |s| && s[i].Full? && s[i].psl >= |s| - 1
    ensures forall j :: 0 <= j < |s| ==> s[j].Full?
  {
    forall j | 0 <= j < |s|
      ensures s[j].Full?
    {
      var k := Distance(j, i, |s|);
      ChainBack(s, i, k);
      assert Back(i, k, |s|) == j;
    }
  }

  // ---------- Insertion ----------

  /** x could be stored at i as far as its distance and its left neighbour go. */
  ghost predicate Landing<K, V>(s: seq<Slot<K, V>>, hash: K -> nat, x: Slot<K, V>, i: nat) {
    && i < |s| && x.Full? && x.psl == Distance(Home(hash, x.key, |s|), i, |s|)
    && (x.psl > 0 ==> s[Prev(i, |s|)].Full? && s[Prev(i, |s|)].psl + 1 >= x.psl)
  }

  /** The new entry is still in hand, and its key is not before slot i. */
  ghost predicate Searching<K, V>(s: seq<Slot<K, V>>, hash: K -> nat, x: Slot<K, V>, i: nat, m: map<K, V>) {
    && Table(s, hash) && Represents(s, m) && Landing(s, hash, x, i) && Probing(s, hash, x.key, x.psl, i)
  }

  /** The entry in hand is the only binding of `goal` that is not in the table. */
  ghost predicate Carrying<K, V>(s: seq<Slot<K, V>>, hash: K -> nat, x: Slot<K, V>, i: nat, goal: map<K, V>) {
    && Table(s, hash) && Landing(s, hash, x, i) && Absent(s, x.key)
    && x.key in goal && goal[x.key] == x.value && Represents(s, goal - {x.key})
  }

  lemma SearchBegins<K, V>(s: seq<Slot<K, V>>, hash: K -> nat, x: Slot<K, V>, i: nat, m: map<K, V>)
    requires Table(s, hash) && Represents(s, m) && x.Full? && x.psl == 0 && i == Home(hash, x.key, |s|)
    ensures Searching(s, hash, x, i, m)
  {
  }

  lemma SearchMisses<K, V>(s: seq<Slot<K, V>>, hash: K -> nat, x: Slot<K, V>, i: nat, m: map<K, V>)
    requires Searching(s, hash, x, i, m) && (s[i].Empty? || s[i].psl < x.psl)
    ensures x.key !in m && Carrying(s, hash, x, i, m[x.key := x.value])
  {
    ProbeStops(s, hash, x.key, x.psl, i);
    assert m[x.key := x.value] - {x.key} == m;
  }

  lemma SearchHits<K, V>(s: seq<Slot<K, V>>, hash: K -> nat, x: Slot<K, V>, i: nat, m: map<K, V>)
    requires Searching(s, hash, x, i, m) && s[i].Full? && s[i].key == x.key
    ensures x.key in m
    ensures var s' := s[i := s[i].(value := x.value)];
            Table(s', hash) && Represents(s', m[x.key := x.value]) && (HasRest(s) ==> HasRest(s'))
  {
    var s' := s[i := s[i].(value := x.value)];
    forall j | 0 <= j < |s|
      ensures Chained(s', j) && Placed(s', hash, j)
    {
      assert Chained(s, j) && Placed(s, hash, j);
    }
    assert At(s, i, x.key);
    forall k | k in m
      ensures exists j :: At(s', j, k)
    {
      var j :| At(s, j, k);
      assert At(s', j, k);
    }
    if HasRest(s) {
      var r :| 0 <= r < |s| && Rests(s, r);
      assert Rests(s', r);
    }
  }

  /** Past a slot that keeps its entry, the entry in hand could land one slot further. */
  lemma Advance<K, V>(s: seq<Slot<K, V>>, hash: K -> nat, x: Slot<K, V>, i: nat, e: nat)
    requires AllChained(s) && i < |s| && e < |s| && s[e].Empty?
    requires x.Full? && x.psl == Distance(Home(hash, x.key, |s|), i, |s|) && s[i].Full? && s[i].psl >= x.psl
    ensures Landing(s, hash, x.(psl := x.psl + 1), Next(i, |s|))
  {
    if s[i].psl >= |s| - 1 {
      FullCircle(s, i);
    }
    assert Prev(Next(i, |s|), |s|) == i;
  }

  /** Stepping on comes closer to any slot but the one left. */
  lemma Closer(i: nat, e: nat, n: nat)
    requires i < n && e < n && i != e
    ensures Distance(Next(i, n), e, n) < Distance(i, e, n)
  {
  }

  lemma SearchSteps<K, V>(s: seq<Slot<K, V>>, hash: K -> nat, x: Slot<K, V>, i: nat, m: map<K, V>, e: nat)
    requires Searching(s, hash, x, i, m) && e < |s| && s[e].Empty?
    requires s[i].Full? && s[i].psl >= x.psl && s[i].key != x.key
    ensures Searching(s, hash, x.(psl := x.psl + 1), Next(i, |s|), m)
  {
    Advance(s, hash, x, i, e);
    ProbeSteps(s, hash, x.key, x.psl, i);
  }

  lemma NotCarried<K, V>(s: seq<Slot<K, V>>, hash: K -> nat, x: Slot<K, V>, i: nat, goal: map<K, V>)
    requires i < |s| && s[i].Full? && x.Full? && s[i].key == x.key
    ensures !Carrying(s, hash, x, i, goal)
  {
    assert At(s, i, x.key);
  }

  lemma CarrySteps<K, V>(s: seq<Slot<K, V>>, hash: K -> nat, x: Slot<K, V>, i: nat, goal: map<K, V>, e: nat)
    requires Carrying(s, hash, x, i, goal) && e < |s| && s[e].Empty?
    requires s[i].Full? && s[i].psl >= x.psl
    ensures Carrying(s, hash, x.(psl := x.psl + 1), Next(i, |s|), goal)
  {
    Advance(s, hash, x, i, e);
    assert forall j: nat :: !At(s, j, x.key);
  }

  /** Storing x over an entry that is closer to home keeps the table a table. */
  lemma LandTable<K, V>(s: seq<Slot<K, V>>, hash: K -> nat, x: Slot<K, V>, i: nat)
    requires Table(s, hash) && Landing(s, hash, x, i) && Absent(s, x.key)
    requires s[i].Full? ==> s[i].psl < x.psl
    ensures Table(s[i := x], hash)
  {
    var s' := s[i := x];
    forall j | 0 <= j < |s|
      ensures Chained(s', j) && Placed(s', hash, j)
    {
      assert Chained(s, j) && Placed(s, hash, j);
    }
    forall j, k | 0 <= j < k < |s| && s'[j].Full? && s'[k].Full?
      ensures s'[j].key != s'[k].key
    {
      assert !At(s, j, x.key) && !At(s, k, x.key);
    }
  }

  lemma CarryLands<K, V>(s: seq<Slot<K, V>>, hash: K -> nat, x: Slot<K, V>, i: nat, goal: map<K, V>)
    requires Carrying(s, hash, x, i, goal) && s[i].Empty?
    ensures Table(s[i := x], hash) && Represents(s[i := x], goal) && HasRest(s[i := x])
  {
    LandTable(s, hash, x, i);
    var s' := s[i := x];
    forall k | k in goal
      ensures exists j :: At(s', j, k)
    {
      if k == x.key {
        assert At(s', i, k);
      } else {
        assert k in goal - {x.key};
        var j :| At(s, j, k);
        assert At(s', j, k);
      }
    }
    var after := Next(i, |s|);
    assert Chained(s, after) && Prev(after, |s|) == i;
    assert Rests(s', after);
  }

  lemma CarrySwaps<K, V>(s: seq<Slot<K, V>>, hash: K -> nat, x: Slot<K, V>, i: nat, goal: map<K, V>, e: nat)
    requires Carrying(s, hash, x, i, goal) && e < |s| && s[e].Empty?
    requires s[i].Full? && s[i].psl < x.psl
    ensures Carrying(s[i := x], hash, s[i].(psl := s[i].psl + 1), Next(i, |s|), goal)
  {
    LandTable(s, hash, x, i);
    var s', y := s[i := x], s[i];
    assert Placed(s, hash, i);
    Advance(s', hash, y, i, e);
    assert At(s, i, y.key);
    forall j: nat
      ensures !At(s', j, y.key)
    {
      assert At(s, j, y.key) ==> j == i;
    }
    SwapRepresents(s, x, i, goal);
  }

  lemma SwapRepresents<K, V>(s: seq<Slot<K, V>>, x: Slot<K, V>, i: nat, goal: map<K, V>)
    requires i < |s| && s[i].Full? && x.Full? && Unique(s) && Absent(s, x.key)
    requires x.key in goal && goal[x.key] == x.value && Represents(s, goal - {x.key})
    ensures s[i].key in goal && goal[s[i].key] == s[i].value && Represents(s[i := x], goal - {s[i].key})
  {
    var s', y := s[i := x], s[i];
    assert At(s, i, y.key);
    forall k | k in goal - {y.key}
      ensures exists j :: At(s', j, k)
    {
      if k == x.key {
        assert At(s', i, k);
      } else {
        assert k in goal - {x.key};
        var j :| At(s, j, k);
        assert At(s', j, k);
      }
    }
  }

  // ---------- Backward shift ----------

  /** Slot `hole` is stale: it still counts as occupied for its neighbours, but its entry
      has been erased or moved one slot back. The other slots hold exactly m. */
  ghost predicate Shifting<K, V>(s: seq<Slot<K, V>>, hash: K -> nat, hole: nat, m: map<K, V>) {
    && hole < |s| && s[hole].Full? && AllChained(s)
    && (forall j :: 0 <= j < |s| && j != hole ==> Placed(s, hash, j))
    && Unique(s[hole := Empty]) && Represents(s[hole := Empty], m)
  }

  lemma ShiftBegins<K, V>(s: seq<Slot<K, V>>, hash: K -> nat, i: nat, key: K, m: map<K, V>)
    requires Table(s, hash) && Represents(s, m) && At(s, i, key)
    ensures key in m && Shifting(s, hash, i, m - {key})
  {
    var s' := s[i := Empty];
    forall k | k in m - {key}
      ensures exists j :: At(s', j, k)
    {
      var j :| At(s, j, k);
      assert At(s', j, k);
    }
  }

  lemma NotAlone<K, V>(s: seq<Slot<K, V>>, hole: nat, rest: nat)
    requires hole < |s| && rest < |s| && Rests(s, rest) && !Rests(s, Next(hole, |s|))
    ensures Next(hole, |s|) != hole && Next(hole, |s|) != rest
  {
  }

  /** The entry after the hole has moved into it. */
  function Shifted<K, V>(s: seq<Slot<K, V>>, hole: nat): (t: seq<Slot<K, V>>)
    requires hole < |s| && s[Next(hole, |s|)].Full? && s[Next(hole, |s|)].psl > 0
    ensures |t| == |s|
  {
    s[hole := s[Next(hole, |s|)].(psl := s[Next(hole, |s|)].psl - 1)]
  }

  lemma ShiftKeepsChains<K, V>(s: seq<Slot<K, V>>, hole: nat)
    requires hole < |s| && AllChained(s) && s[hole].Full? && Next(hole, |s|) != hole
    requires s[Next(hole, |s|)].Full? && s[Next(hole, |s|)].psl > 0
    ensures AllChained(Shifted(s, hole))
  {
    var n := |s|;
    forall j | 0 <= j < n
      ensures Chained(Shifted(s, hole), j)
    {
      assert Chained(s, j) && Chained(s, hole) && Chained(s, Next(hole, n));
      assert Prev(j, n) == hole ==> j == Next(hole, n);
    }
  }

  lemma ShiftKeepsPlaces<K, V>(s: seq<Slot<K, V>>, hash: K -> nat, hole: nat, j: nat)
    requires hole < |s| && Next(hole, |s|) != hole && j < |s| && j != Next(hole, |s|)
    requires s[Next(hole, |s|)].Full? && s[Next(hole, |s|)].psl > 0
    requires Placed(s, hash, Next(hole, |s|)) && (j != hole ==> Placed(s, hash, j))
    ensures Placed(Shifted(s, hole), hash, j)
  {
  }

  lemma ShiftMoves<K, V>(s: seq<Slot<K, V>>, hash: K -> nat, hole: nat, m: map<K, V>, rest: nat)
    requires Shifting(s, hash, hole, m) && rest < |s| && Rests(s, rest)
    requires !Rests(s, Next(hole, |s|))
    ensures var next := Next(hole, |s|);
            && s[next].Full? && s[next].psl > 0
            && Shifting(Shifted(s, hole), hash, next, m) && Rests(Shifted(s, hole), rest)
            && Distance(Next(next, |s|), rest, |s|) < Distance(next, rest, |s|)
  {
    hide Placed, Unique, Represents;
    var next, t := Next(hole, |s|), Shifted(s, hole);
    assert Chained(s, next);
    NotAlone(s, hole, rest);
    ShiftKeepsChains(s, hole);
    forall j | 0 <= j < |s| && j != next
      ensures Placed(t, hash, j)
    {
      ShiftKeepsPlaces(s, hash, hole, j);
    }
    ShiftRepresents(s[hole := Empty], t[next := Empty], hole, next, m);
  }

  /** Moving an entry to an empty slot, with a new psl, changes no binding. */
  lemma ShiftRepresents<K, V>(t: seq<Slot<K, V>>, t': seq<Slot<K, V>>, to: nat, src: nat, m: map<K, V>)
    requires to < |t| && src < |t| && to != src && t[to].Empty? && t[src].Full?
    requires exists p: nat :: t' == t[to := t[src].(psl := p)][src := Empty]
    requires Unique(t) && Represents(t, m)
    ensures Unique(t') && Represents(t', m)
  {
    forall k | k in m
      ensures exists j :: At(t', j, k)
    {
      var j :| At(t, j, k);
      assert At(t', if j == src then to else j, k);
    }
  }

  lemma ShiftEnds<K, V>(s: seq<Slot<K, V>>, hash: K -> nat, hole: nat, m: map<K, V>)
    requires Shifting(s, hash, hole, m) && Rests(s, Next(hole, |s|))
    ensures var s' := s[hole := Empty]; Table(s', hash) && Represents(s', m) && HasRest(s')
  {
    var s' := s[hole := Empty];
    forall j | 0 <= j < |s|
      ensures Chained(s', j) && Placed(s', hash, j)
    {
      assert Chained(s, j);
      assert Prev(j, |s|) == hole ==> j == Next(hole, |s|);
      assert j != hole ==> Placed(s, hash, j);
    }
    assert Rests(s', hole);
  }
}
