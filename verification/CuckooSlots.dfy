/** Where a key may sit in a cuckoo hash map, and which sets of keys can be placed. */
module CuckooSlots {
  import opened Masking

  const WORD: nat := 0x1_0000_0000_0000_0000

  /** std::size_t */
  type Word = x: nat | x < WORD

  // ---------- Exclusive or ----------

  function Xor(x: nat, y: nat): nat {
    if x == 0 && y == 0 then 0 else 2 * Xor(x / 2, y / 2) + (x % 2 + y % 2) % 2
  }

  lemma XorHalves(x: nat, y: nat)
    ensures Xor(x, y) / 2 == Xor(x / 2, y / 2) && Xor(x, y) % 2 == (x % 2 + y % 2) % 2
  {
  }

  predicate Agree(a: nat, b: nat, n: nat)
    requires n > 0
  {
    a % n == b % n
  }

  /** The last bit and the remainder of the rest make up the remainder. */
  lemma LastBit(a: nat, b: nat, h: nat)
    requires h > 0
    ensures Agree(a, b, 2 * h) <==> a % 2 == b % 2 && Agree(a / 2, b / 2, h)
  {
    RemainderOfProduct(a, 2, h);
    RemainderOfProduct(b, 2, h);
    TwoDigits((a / 2) % h, a % 2, (b / 2) % h, b % 2);
  }

  lemma TwoDigits(x: int, c: int, y: int, d: int)
    requires 0 <= c < 2 && 0 <= d < 2
    ensures 2 * x + c == 2 * y + d <==> x == y && c == d
  {
  }

  /** With one operand fixed, the low bits of the result decide those of the other operand. */
  lemma {:induction false} XorAgrees(a: nat, b: nat, m: nat, n: nat)
    requires IsPowerOfTwo(n)
    ensures Agree(Xor(a, m), Xor(b, m), n) <==> Agree(a, b, n)
    decreases n
  {
    hide Agree, Xor;
    if n > 1 {
      var h := n / 2;
      assert n == 2 * h;
      XorAgrees(a / 2, b / 2, m / 2, h);
      LastBit(a, b, h);
      LastBit(Xor(a, m), Xor(b, m), h);
      XorHalves(a, m);
      XorHalves(b, m);
    } else {
      OneForAll(a, b);
      OneForAll(Xor(a, m), Xor(b, m));
    }
  }

  lemma OneForAll(a: nat, b: nat)
    ensures Agree(a, b, 1)
  {
  }

  lemma {:induction false} XorBelow(a: nat, m: nat, n: nat)
    requires IsPowerOfTwo(n) && a < n && m < n
    ensures Xor(a, m) < n
    decreases n
  {
    if n > 1 {
      XorBelow(a / 2, m / 2, n / 2);
    }
  }

  lemma {:induction false} Pow2IsPower(n: nat)
    ensures IsPowerOfTwo(Pow2(n))
  {
    if n > 0 {
      Pow2IsPower(n - 1);
    }
  }

  lemma NextPower(n: nat)
    ensures Pow2(n + 1) == 2 * Pow2(n) && Pow2(0) == 1
  {
  }

  lemma TwiceProduct(x: int, y: int)
    ensures x * (2 * y) == 2 * (x * y)
  {
  }

  lemma {:induction false} Pow2Sum(m: nat, n: nat)
    ensures Pow2(m + n) == Pow2(m) * Pow2(n)
  {
    hide Pow2;
    NextPower(m);
    if n > 0 {
      Pow2Sum(m, n - 1);
      NextPower(n - 1);
      NextPower(m + n - 1);
      TwiceProduct(Pow2(m), Pow2(n - 1));
    }
  }

  lemma Sixteen()
    ensures Pow2(4) == 16
  {
    assert Pow2(3) == 8;
  }

  lemma WordIsPower()
    ensures IsPowerOfTwo(WORD) && WORD == Pow2(64)
  {
    hide Pow2, IsPowerOfTwo;
    Sixteen();
    Pow2Sum(4, 4);
    Pow2Sum(8, 8);
    Pow2Sum(16, 16);
    Pow2Sum(32, 32);
    Pow2IsPower(64);
  }

  // ---------- The two hash functions ----------

  function First<K>(hash: K -> Word, cap: nat): K -> nat
    requires cap > 0
  {
    (k: K) => hash(k) % cap
  }

  /** `word` makes the seed a word, whatever the seed. */
  function Second<K>(hash: K -> Word, word: nat -> Word, seed: nat, cap: nat): K -> nat
    requires cap > 0
  {
    (k: K) => Xor(hash(k), word(seed)) % cap
  }

  /** Capacities at which the two hash functions tell the same keys apart. */
  predicate Ample(cap: nat) {
    IsPowerOfTwo(cap) || cap >= WORD
  }

  lemma SameSlots<K>(hash: K -> Word, word: nat -> Word, seed: nat, cap: nat, x: K, y: K)
    requires Ample(cap)
    ensures First(hash, cap)(x) == First(hash, cap)(y) <==>
            Second(hash, word, seed, cap)(x) == Second(hash, word, seed, cap)(y)
  {
    var a, b, m := hash(x), hash(y), word(seed);
    if IsPowerOfTwo(cap) {
      XorAgrees(a, b, m, cap);
    } else {
      WordIsPower();
      XorAgrees(a, b, m, WORD);
      XorBelow(a, m, WORD);
      XorBelow(b, m, WORD);
      SmallRemainders(a, b, cap);
      SmallRemainders(Xor(a, m), Xor(b, m), cap);
      SmallRemainders(a, b, WORD);
      SmallRemainders(Xor(a, m), Xor(b, m), WORD);
    }
  }

  lemma SmallRemainders(a: nat, b: nat, n: nat)
    requires a < n && b < n
    ensures a % n == a && b % n == b
  {
  }

  // ---------- Keys that share their slots ----------

  /** No three of the keys are in one class. */
  ghost predicate NoThree<K, C>(kind: K -> C, keys: set<K>) {
    forall x, y, z :: x in keys && y in keys && z in keys && kind(x) == kind(y) == kind(z) ==>
      x == y || x == z || y == z
  }

  /** No three of the keys share their first slot. */
  ghost predicate Roomy<K>(hash: K -> Word, keys: set<K>, cap: nat) {
    Ample(cap) && NoThree(First(hash, cap), keys)
  }

  // ---------- Placing keys ----------

  /** The keys in `side` go to their first slots and all others to their second, and no two
      keys meet in a slot. */
  ghost predicate Places<K>(f: K -> nat, g: K -> nat, side: set<K>, keys: set<K>) {
    && (forall x, y :: x in keys && y in keys && x in side && y in side && f(x) == f(y) ==> x == y)
    && (forall x, y :: x in keys && y in keys && x !in side && y !in side && g(x) == g(y) ==> x == y)
  }

  /** There is a way to store all keys at this capacity and seed. */
  ghost predicate Placeable<K(!new)>(hash: K -> Word, word: nat -> Word, keys: set<K>, cap: nat, seed: nat) {
    cap > 0 && exists side :: Places(First(hash, cap), Second(hash, word, seed, cap), side, keys)
  }

  lemma FewerArePlaceable<K(!new)>(hash: K -> Word, word: nat -> Word, keys: set<K>, more: set<K>, cap: nat, seed: nat)
    requires keys <= more && Placeable(hash, word, more, cap, seed)
    ensures Placeable(hash, word, keys, cap, seed)
  {
    hide First, Second;
    var side :| Places(First(hash, cap), Second(hash, word, seed, cap), side, more);
    assert Places(First(hash, cap), Second(hash, word, seed, cap), side, keys);
  }

  /** Keys that meet nowhere are no more than there are slots. */
  lemma {:induction false} OneEach<K>(f: K -> nat, keys: set<K>, n: nat)
    requires forall x :: x in keys ==> f(x) < n
    requires forall x, y :: x in keys && y in keys && f(x) == f(y) ==> x == y
    ensures |keys| <= n
    decreases n
  {
    if exists x :: x in keys && f(x) == n - 1 {
      var x :| x in keys && f(x) == n - 1;
      OneEach(f, keys - {x}, n - 1);
    } else if n > 0 {
      OneEach(f, keys, n - 1);
    } else {
      assert keys == {};
    }
  }

  lemma PlacedInSlots<K>(f: K -> nat, g: K -> nat, side: set<K>, keys: set<K>, cap: nat)
    requires Places(f, g, side, keys) && forall x :: x in keys ==> f(x) < cap && g(x) < cap
    ensures |keys| <= 2 * cap
  {
    OneEach(f, keys * side, cap);
    OneEach(g, keys - side, cap);
    assert keys == keys * side + (keys - side);
  }

  /** When both slots tell the same keys apart, one key more can be placed beside any but two. */
  lemma PlaceOneMore<K>(f: K -> nat, g: K -> nat, side: set<K>, keys: set<K>, k: K) returns (side': set<K>)
    requires Places(f, g, side, keys) && k !in keys && NoThree(f, keys + {k})
    requires forall x, y :: x in keys + {k} && y in keys + {k} ==> (f(x) == f(y) <==> g(x) == g(y))
    ensures Places(f, g, side', keys + {k})
  {
    if exists y :: y in keys && y in side && f(y) == f(k) {
      side' := side - {k};
    } else {
      side' := side + {k};
    }
  }

  lemma {:induction false} PlaceAll<K>(f: K -> nat, g: K -> nat, keys: set<K>) returns (side: set<K>)
    requires NoThree(f, keys)
    requires forall x, y :: x in keys && y in keys ==> (f(x) == f(y) <==> g(x) == g(y))
    ensures Places(f, g, side, keys)
    decreases |keys|
  {
    side := {};
    if keys != {} {
      var k :| k in keys;
      var rest := PlaceAll(f, g, keys - {k});
      assert keys - {k} + {k} == keys;
      side := PlaceOneMore(f, g, rest, keys - {k}, k);
    }
  }

  /** At an ample capacity keys can be placed exactly if no three of them share a slot. */
  lemma PlaceableIffRoomy<K(!new)>(hash: K -> Word, word: nat -> Word, keys: set<K>, cap: nat, seed: nat)
    requires cap > 0 && Ample(cap)
    ensures Placeable(hash, word, keys, cap, seed) <==> Roomy(hash, keys, cap)
  {
    hide First, Second, Ample;
    var f, g := First(hash, cap), Second(hash, word, seed, cap);
    forall x, y | x in keys && y in keys
      ensures f(x) == f(y) <==> g(x) == g(y)
    {
      SameSlots(hash, word, seed, cap, x, y);
    }
    if Roomy(hash, keys, cap) {
      var side := PlaceAll(f, g, keys);
    }
  }

  // ---------- Rehashing ----------

  /** The capacity after k rehashes. */
  function Doubled(cap: nat, k: nat): (n: nat)
    ensures cap > 0 ==> n > 0
  {
    if k == 0 then cap else 2 * Doubled(cap, k - 1)
  }

  lemma {:induction false} DoubledFirst(cap: nat, k: nat)
    ensures Doubled(2 * cap, k) == Doubled(cap, k + 1)
  {
    if k > 0 {
      DoubledFirst(cap, k - 1);
    }
  }

  lemma {:induction false} DoubledTwice(cap: nat, i: nat, k: nat)
    ensures Doubled(Doubled(cap, i), k) == Doubled(cap, i + k)
  {
    if k > 0 {
      DoubledTwice(cap, i, k - 1);
    }
  }

  lemma {:induction false} DoubledAtLeast(cap: nat, k: nat)
    requires cap > 0
    ensures Doubled(cap, k) >= Pow2(k) && Doubled(cap, k) >= cap
  {
    if k > 0 {
      DoubledAtLeast(cap, k - 1);
    }
  }

  ghost predicate FitsAfter<K(!new)>(hash: K -> Word, word: nat -> Word, keys: set<K>, cap: nat, seed: nat, k: nat) {
    Placeable(hash, word, keys, Doubled(cap, k), seed + k)
  }

  /** At most `fuel` rehashes lead to a capacity and a seed at which the keys can be placed. */
  ghost predicate CanFit<K(!new)>(hash: K -> Word, word: nat -> Word, keys: set<K>, cap: nat, seed: nat, fuel: nat) {
    exists k: nat :: k <= fuel && FitsAfter(hash, word, keys, cap, seed, k)
  }

  /** The table has been rehashed from the first capacity and seed to the second, and at none
      that it left could the keys be placed. */
  ghost predicate Rehashed<K(!new)>(hash: K -> Word, word: nat -> Word, keys: set<K>, cap0: nat, seed0: nat, cap: nat,
                              seed: nat) {
    && seed0 <= seed && cap == Doubled(cap0, seed - seed0)
    && forall k: nat :: k < seed - seed0 ==> !FitsAfter(hash, word, keys, cap0, seed0, k)
  }

  lemma NotRehashed<K(!new)>(hash: K -> Word, word: nat -> Word, keys: set<K>, cap: nat, seed: nat)
    ensures Rehashed(hash, word, keys, cap, seed, cap, seed)
    ensures FitsAfter(hash, word, keys, cap, seed, 0) <==> Placeable(hash, word, keys, cap, seed)
  {
  }

  lemma FitsLater<K(!new)>(hash: K -> Word, word: nat -> Word, keys: set<K>, cap: nat, seed: nat, i: nat, k: nat)
    ensures FitsAfter(hash, word, keys, Doubled(cap, i), seed + i, k) <==>
            FitsAfter(hash, word, keys, cap, seed, i + k)
  {
    DoubledTwice(cap, i, k);
  }

  lemma FewerFit<K(!new)>(hash: K -> Word, word: nat -> Word, keys: set<K>, more: set<K>, cap: nat, seed: nat, k: nat)
    requires keys <= more && FitsAfter(hash, word, more, cap, seed, k)
    ensures FitsAfter(hash, word, keys, cap, seed, k)
  {
    hide Placeable;
    FewerArePlaceable(hash, word, keys, more, Doubled(cap, k), seed + k);
  }

  /** Rehashing for some of the keys and then for all is rehashing for all. */
  lemma RehashedTwice<K(!new)>(hash: K -> Word, word: nat -> Word, keys: set<K>, more: set<K>, cap0: nat, seed0: nat,
                         cap1: nat, seed1: nat, cap: nat, seed: nat)
    requires keys <= more
    requires Rehashed(hash, word, keys, cap0, seed0, cap1, seed1) && Rehashed(hash, word, more, cap1, seed1, cap, seed)
    ensures Rehashed(hash, word, more, cap0, seed0, cap, seed)
  {
    hide FitsAfter, Doubled;
    var i := seed1 - seed0;
    DoubledTwice(cap0, i, seed - seed1);
    forall k: nat | k < seed - seed0
      ensures !FitsAfter(hash, word, more, cap0, seed0, k)
    {
      if k >= i {
        FitsLater(hash, word, more, cap0, seed0, i, k - i);
      } else if FitsAfter(hash, word, more, cap0, seed0, k) {
        FewerFit(hash, word, keys, more, cap0, seed0, k);
      }
    }
  }

  /** One rehash at a capacity where the keys could not be placed. */
  lemma RehashedOnce<K(!new)>(hash: K -> Word, word: nat -> Word, keys: set<K>, cap: nat, seed: nat)
    requires !Placeable(hash, word, keys, cap, seed)
    ensures Rehashed(hash, word, keys, cap, seed, 2 * cap, seed + 1)
  {
    assert Doubled(cap, 1) == 2 * Doubled(cap, 0);
    NotRehashed(hash, word, keys, cap, seed);
  }

  lemma CanFitNext<K(!new)>(hash: K -> Word, word: nat -> Word, keys: set<K>, cap: nat, seed: nat, fuel: nat)
    requires CanFit(hash, word, keys, cap, seed, fuel) && !Placeable(hash, word, keys, cap, seed)
    ensures fuel > 0 && CanFit(hash, word, keys, 2 * cap, seed + 1, fuel - 1)
  {
    hide FitsAfter;
    var k: nat :| k <= fuel && FitsAfter(hash, word, keys, cap, seed, k);
    NotRehashed(hash, word, keys, cap, seed);
    assert Doubled(cap, 1) == 2 * Doubled(cap, 0);
    FitsLater(hash, word, keys, cap, seed, 1, k - 1);
  }

  /** What can fit later can still fit after rehashes that some of the keys made necessary. */
  lemma CanFitLater<K(!new)>(hash: K -> Word, word: nat -> Word, keys: set<K>, more: set<K>, cap0: nat, seed0: nat,
                       cap: nat, seed: nat, fuel: nat)
    requires keys <= more && Rehashed(hash, word, keys, cap0, seed0, cap, seed)
    requires CanFit(hash, word, more, cap0, seed0, fuel)
    ensures CanFit(hash, word, more, cap, seed, fuel)
  {
    hide FitsAfter;
    var k: nat :| k <= fuel && FitsAfter(hash, word, more, cap0, seed0, k);
    FewerFit(hash, word, keys, more, cap0, seed0, k);
    var i := seed - seed0;
    FitsLater(hash, word, more, cap0, seed0, i, k - i);
  }

  lemma FewerCanFit<K(!new)>(hash: K -> Word, word: nat -> Word, keys: set<K>, more: set<K>, cap: nat, seed: nat,
                           fuel: nat)
    requires keys <= more && CanFit(hash, word, more, cap, seed, fuel)
    ensures CanFit(hash, word, keys, cap, seed, fuel)
  {
    hide FitsAfter;
    var k: nat :| k <= fuel && FitsAfter(hash, word, more, cap, seed, k);
    FewerFit(hash, word, keys, more, cap, seed, k);
  }

  /** Sixty-four rehashes make room for all keys, unless three have the same hash value. */
  lemma RoomInTheEnd<K(!new)>(hash: K -> Word, word: nat -> Word, keys: set<K>, cap: nat, seed: nat, fuel: nat)
    requires cap > 0 && fuel >= 64 && NoThree(hash, keys)
    ensures CanFit(hash, word, keys, cap, seed, fuel)
  {
    hide IsPowerOfTwo, Roomy, NoThree, Placeable;
    var n := Doubled(cap, 64);
    DoubledAtLeast(cap, 64);
    WordIsPower();
    AmpleForWords(hash, keys, n);
    PlaceableIffRoomy(hash, word, keys, n, seed + 64);
    assert FitsAfter(hash, word, keys, cap, seed, 64);
  }

  lemma AmpleForWords<K>(hash: K -> Word, keys: set<K>, n: nat)
    requires n >= WORD
    ensures Roomy(hash, keys, n) <==> NoThree(hash, keys)
  {
    hide IsPowerOfTwo;
    forall x | x in keys
      ensures First(hash, n)(x) == hash(x)
    {
      SmallRemainders(hash(x), hash(x), n);
    }
  }

  /** From a power of two on, the capacity that rehashing ends at is the least one modulo which
      no three keys agree. */
  lemma LeastCapacity<K(!new)>(hash: K -> Word, word: nat -> Word, keys: set<K>, cap0: nat, seed0: nat, cap: nat,
                               seed: nat)
    requires cap0 > 0 && Ample(cap0)
    requires Rehashed(hash, word, keys, cap0, seed0, cap, seed) && Placeable(hash, word, keys, cap, seed)
    ensures Roomy(hash, keys, cap)
    ensures forall k: nat :: k < seed - seed0 ==> !Roomy(hash, keys, Doubled(cap0, k))
  {
    hide Roomy, Ample, Placeable, Doubled;
    AmpleDoubled(cap0, seed - seed0);
    PlaceableIffRoomy(hash, word, keys, cap, seed);
    forall k: nat | k < seed - seed0
      ensures !Roomy(hash, keys, Doubled(cap0, k))
    {
      AmpleDoubled(cap0, k);
      PlaceableIffRoomy(hash, word, keys, Doubled(cap0, k), seed0 + k);
      assert !FitsAfter(hash, word, keys, cap0, seed0, k);
    }
  }

  lemma TwicePower(n: nat)
    requires IsPowerOfTwo(n)
    ensures IsPowerOfTwo(2 * n)
  {
  }

  lemma {:induction false} AmpleDoubled(cap: nat, k: nat)
    requires cap > 0 && Ample(cap)
    ensures Doubled(cap, k) > 0 && Ample(Doubled(cap, k))
  {
    hide IsPowerOfTwo;
    if k > 0 {
      AmpleDoubled(cap, k - 1);
      if IsPowerOfTwo(Doubled(cap, k - 1)) { TwicePower(Doubled(cap, k - 1)); }
    }
  }
}
