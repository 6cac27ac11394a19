/** Counting sort and radix sort: stable placement, bucket by bucket, at prefix sums. */
module LinearSorts {
  import opened Masking

  // ---------- Stable bucket order ----------

  /** The elements of s in bucket b, in their order. */
  function Bucket(s: seq<int>, f: int -> nat, b: nat): (r: seq<int>)
    ensures forall k :: 0 <= k < |r| ==> f(r[k]) == b
  {
    if s == [] then []
    else Bucket(s[..|s| - 1], f, b) + (if f(s[|s| - 1]) == b then [s[|s| - 1]] else [])
  }

  /** The first n buckets, one after the other. */
  function Buckets(s: seq<int>, f: int -> nat, n: nat): seq<int> {
    if n == 0 then [] else Buckets(s, f, n - 1) + Bucket(s, f, n - 1)
  }

  ghost predicate Fits(s: seq<int>, f: int -> nat, n: nat) {
    forall k :: 0 <= k < |s| ==> f(s[k]) < n
  }

  lemma UnfoldBuckets(s: seq<int>, f: int -> nat, n: nat)
    ensures Buckets(s, f, n) == if n == 0 then [] else Buckets(s, f, n - 1) + Bucket(s, f, n - 1)
    ensures multiset(Buckets(s, f, n)) ==
            if n == 0 then multiset{} else multiset(Buckets(s, f, n - 1)) + multiset(Bucket(s, f, n - 1))
  {
  }

  lemma {:induction false} BucketConcat(s: seq<int>, t: seq<int>, f: int -> nat, b: nat)
    ensures Bucket(s + t, f, b) == Bucket(s, f, b) + Bucket(t, f, b)
    decreases |t|
  {
    if t == [] {
      assert s + t == s;
    } else {
      assert (s + t)[..|s + t| - 1] == s + t[..|t| - 1];
      BucketConcat(s, t[..|t| - 1], f, b);
    }
  }

  /** A list in which everything is in bucket c. */
  lemma {:induction false} BucketOfUniform(s: seq<int>, f: int -> nat, c: nat, b: nat)
    requires forall k :: 0 <= k < |s| ==> f(s[k]) == c
    ensures Bucket(s, f, b) == if b == c then s else []
    decreases |s|
  {
    if s != [] {
      BucketOfUniform(s[..|s| - 1], f, c, b);
    }
  }

  /** Stability: placing the buckets one after the other leaves each bucket as it was. */
  lemma {:induction false} Stable(s: seq<int>, f: int -> nat, n: nat, b: nat)
    ensures Bucket(Buckets(s, f, n), f, b) == if b < n then Bucket(s, f, b) else []
  {
    hide Buckets;
    UnfoldBuckets(s, f, n);
    if n > 0 {
      Stable(s, f, n - 1, b);
      BucketConcat(Buckets(s, f, n - 1), Bucket(s, f, n - 1), f, b);
      BucketOfUniform(Bucket(s, f, n - 1), f, n - 1, b);
    }
  }

  lemma BucketAddOne(s: seq<int>, x: int, f: int -> nat, b: nat)
    ensures multiset(Bucket(s + [x], f, b)) ==
            multiset(Bucket(s, f, b)) + (if f(x) == b then multiset{x} else multiset{})
  {
    assert (s + [x])[..|s|] == s;
  }

  lemma {:induction false} BucketsAddOne(s: seq<int>, x: int, f: int -> nat, n: nat)
    ensures multiset(Buckets(s + [x], f, n)) ==
            multiset(Buckets(s, f, n)) + (if f(x) < n then multiset{x} else multiset{})
  {
    hide *;
    UnfoldBuckets(s, f, n);
    UnfoldBuckets(s + [x], f, n);
    if n > 0 {
      BucketsAddOne(s, x, f, n - 1);
      BucketAddOne(s, x, f, n - 1);
      Gather(multiset(Buckets(s, f, n - 1)), if f(x) < n - 1 then multiset{x} else multiset{},
        multiset(Bucket(s, f, n - 1)), if f(x) == n - 1 then multiset{x} else multiset{});
    }
  }

  lemma Gather(a: multiset<int>, x: multiset<int>, b: multiset<int>, y: multiset<int>)
    ensures (a + x) + (b + y) == (a + b) + (x + y) && x + multiset{} == x && multiset{} + y == y
  {
  }

  lemma {:induction false} NoBuckets(f: int -> nat, n: nat)
    ensures Buckets([], f, n) == []
  {
    if n > 0 {
      NoBuckets(f, n - 1);
    }
  }

  /** Nothing is lost or made up. */
  lemma {:induction false} BucketsPermute(s: seq<int>, f: int -> nat, n: nat)
    requires Fits(s, f, n)
    ensures multiset(Buckets(s, f, n)) == multiset(s)
    decreases |s|
  {
    if s == [] {
      NoBuckets(f, n);
    } else {
      var front, x := s[..|s| - 1], s[|s| - 1];
      assert s == front + [x];
      BucketsPermute(front, f, n);
      BucketsAddOne(front, x, f, n);
    }
  }

  ghost predicate SortedBy(s: seq<int>, f: int -> nat) {
    forall i, j :: 0 <= i < j < |s| ==> f(s[i]) <= f(s[j])
  }

  lemma {:induction false} BucketsSorted(s: seq<int>, f: int -> nat, n: nat)
    ensures SortedBy(Buckets(s, f, n), f) && Fits(Buckets(s, f, n), f, n)
  {
    if n > 0 {
      BucketsSorted(s, f, n - 1);
    }
  }

  // ---------- The counting passes ----------

  /** Where bucket b begins. */
  function Start(s: seq<int>, f: int -> nat, b: nat): nat {
    |Buckets(s, f, b)|
  }

  lemma {:induction false} BucketsPrefix(s: seq<int>, f: int -> nat, b: nat, n: nat)
    requires b <= n
    ensures Start(s, f, b) <= Start(s, f, n) && Buckets(s, f, n)[..Start(s, f, b)] == Buckets(s, f, b)
    decreases n
  {
    if b < n {
      BucketsPrefix(s, f, b, n - 1);
    }
  }

  /** Element i comes behind the earlier elements of its bucket. */
  lemma PlaceInBucket(s: seq<int>, f: int -> nat, i: nat)
    requires i < |s|
    ensures var b := f(s[i]);
            |Bucket(s[..i], f, b)| < |Bucket(s, f, b)| && Bucket(s, f, b)[|Bucket(s[..i], f, b)|] == s[i]
  {
    var b := f(s[i]);
    assert s == s[..i] + ([s[i]] + s[i + 1..]);
    BucketConcat(s[..i], [s[i]] + s[i + 1..], f, b);
    BucketConcat([s[i]], s[i + 1..], f, b);
    BucketOfUniform([s[i]], f, b, b);
  }

  lemma PlaceOf(s: seq<int>, f: int -> nat, n: nat, i: nat)
    requires i < |s| && f(s[i]) < n
    ensures var p := Start(s, f, f(s[i])) + |Bucket(s[..i], f, f(s[i]))|;
            p < Start(s, f, f(s[i]) + 1) <= Start(s, f, n) && Buckets(s, f, n)[p] == s[i]
  {
    hide Bucket, Buckets;
    var b := f(s[i]);
    UnfoldBuckets(s, f, b + 1);
    BucketsPrefix(s, f, b + 1, n);
    PlaceInBucket(s, f, i);
    InPrefix(Buckets(s, f, b), Bucket(s, f, b), Buckets(s, f, n), |Bucket(s[..i], f, b)|);
  }

  lemma InPrefix(a: seq<int>, b: seq<int>, all: seq<int>, k: nat)
    requires |a + b| <= |all| && all[..|a + b|] == a + b && k < |b|
    ensures all[|a| + k] == b[k]
  {
    assert all[|a| + k] == all[..|a + b|][|a| + k];
  }

  /** Every place lies in some bucket. */
  lemma {:induction false} BucketAt(s: seq<int>, f: int -> nat, n: nat, p: nat) returns (b: nat)
    requires p < Start(s, f, n)
    ensures b < n && Start(s, f, b) <= p < Start(s, f, b + 1)
  {
    b := n - 1;
    if p < Start(s, f, b) {
      b := BucketAt(s, f, b, p);
    }
  }

  /** count[b] while the buckets' sizes below `summed` have been added up. */
  function Tally(s: seq<int>, f: int -> nat, summed: nat, b: nat): nat {
    if b < summed then Start(s, f, b + 1) else |Bucket(s, f, b)|
  }

  /** Counts the elements of each bucket. */
  method CountBuckets(v: array<int>, f: int -> nat, n: nat) returns (count: array<int>)
    requires Fits(v[..], f, n)
    ensures fresh(count) && count.Length == n
    ensures forall b: nat :: b < n ==> count[b] == Tally(v[..], f, 0, b)
  {
    count := new int[n](_ => 0);
    var i := 0;
    while i < v.Length
      invariant 0 <= i <= v.Length
      invariant forall b: nat :: b < n ==> count[b] == |Bucket(v[..i], f, b)|
    {
      assert v[..i + 1][..i] == v[..i];
      count[f(v[i])] := count[f(v[i])] + 1;
      i := i + 1;
    }
    assert v[..i] == v[..];
  }

  /** Adds up the counts: count[b] becomes the place after the last one of bucket b. */
  method PrefixSums(count: array<int>, ghost s: seq<int>, ghost f: int -> nat)
    requires forall b: nat :: b < count.Length ==> count[b] == Tally(s, f, 0, b)
    modifies count
    ensures forall b: nat :: b < count.Length ==> count[b] == Start(s, f, b + 1)
  {
    assert Buckets(s, f, 1) == Bucket(s, f, 0);
    hide Bucket;
    var i := 1;
    while i < count.Length
      invariant 1 <= i && (i <= count.Length || i == 1)
      invariant forall b: nat :: b < count.Length ==> count[b] == Tally(s, f, i, b)
    {
      count[i] := count[i] + count[i - 1];
      i := i + 1;
    }
  }

  lemma BucketsSize(s: seq<int>, f: int -> nat, n: nat)
    requires Fits(s, f, n)
    ensures |Buckets(s, f, n)| == |s|
  {
    BucketsPermute(s, f, n);
    assert |multiset(s)| == |s| && |multiset(Buckets(s, f, n))| == |Buckets(s, f, n)|;
  }

  /** Before the placement count[b] is behind all of bucket b, afterwards at its start. */
  lemma NonePlaced(s: seq<int>, f: int -> nat, b: nat)
    ensures Start(s, f, b + 1) == Start(s, f, b) + |Bucket(s[..|s|], f, b)|
    ensures |Bucket(s[..0], f, b)| == 0
  {
    assert s[..|s|] == s;
  }

  lemma OneFewer(s: seq<int>, f: int -> nat, i: nat, b: nat)
    requires i < |s|
    ensures |Bucket(s[..i + 1], f, b)| == |Bucket(s[..i], f, b)| + (if f(s[i]) == b then 1 else 0)
  {
    assert s[..i + 1][..i] == s[..i];
  }

  /** The elements from i on are in their places. */
  ghost predicate Placing(s: seq<int>, f: int -> nat, n: nat, count: seq<int>, output: seq<int>, i: nat) {
    && i <= |s| == |output| && |count| == n && |Buckets(s, f, n)| == |s|
    && (forall b: nat :: b < n ==> count[b] == Start(s, f, b) + |Bucket(s[..i], f, b)|)
    && (forall b: nat, p: nat :: b < n && count[b] <= p < Start(s, f, b + 1) && p < |s| ==>
          output[p] == Buckets(s, f, n)[p])
  }

  lemma NothingPlaced(s: seq<int>, f: int -> nat, n: nat, count: seq<int>, output: seq<int>)
    requires Fits(s, f, n) && |output| == |s| && |count| == n
    requires forall b: nat :: b < n ==> count[b] == Start(s, f, b + 1)
    ensures Placing(s, f, n, count, output, |s|)
  {
    BucketsSize(s, f, n);
    forall b: nat { NonePlaced(s, f, b); }
  }

  lemma PlaceNext(s: seq<int>, f: int -> nat, n: nat, count: seq<int>, output: seq<int>, i: nat)
    requires i < |s| && f(s[i]) < n && Placing(s, f, n, count, output, i + 1)
    ensures 0 < count[f(s[i])] <= |s|
    ensures var p := count[f(s[i])] - 1;
            Placing(s, f, n, count[f(s[i]) := p], output[p := s[i]], i)
  {
    hide Bucket, Buckets;
    PlaceOf(s, f, n, i);
    forall b: nat { OneFewer(s, f, i, b); }
  }

  lemma AllPlaced(s: seq<int>, f: int -> nat, n: nat, count: seq<int>, output: seq<int>)
    requires Placing(s, f, n, count, output, 0)
    ensures output == Buckets(s, f, n)
  {
    forall p: nat | p < |s|
      ensures output[p] == Buckets(s, f, n)[p]
    {
      var b := BucketAt(s, f, n, p);
      NonePlaced(s, f, b);
      assert count[b] == Start(s, f, b);
    }
  }

  /** One pass of either sort. */
  method PlaceByBucket(v: array<int>, f: int -> nat, n: nat) returns (output: array<int>)
    requires Fits(v[..], f, n)
    ensures fresh(output) && output[..] == Buckets(v[..], f, n)
  {
    hide *;
    ghost var s := v[..];
    var count := CountBuckets(v, f, n);
    PrefixSums(count, s, f);
    output := new int[v.Length];
    var i := v.Length - 1;
    NothingPlaced(s, f, n, count[..], output[..]);
    while i >= 0
      invariant -1 <= i < v.Length && v[..] == s && output.Length == v.Length && count.Length == n
      invariant Placing(s, f, n, count[..], output[..], i + 1)
    {
      InBucket(s, f, n, i);
      PlaceNext(s, f, n, count[..], output[..], i);
      ghost var c, o := count[..], output[..];
      var bucket := f(v[i]);
      count[bucket] := count[bucket] - 1;
      output[count[bucket]] := v[i];
      assert count[..] == c[bucket := c[bucket] - 1] && output[..] == o[c[bucket] - 1 := s[i]];
      i := i - 1;
    }
    AllPlaced(s, f, n, count[..], output[..]);
  }

  lemma InBucket(s: seq<int>, f: int -> nat, n: nat, i: nat)
    requires Fits(s, f, n) && i < |s|
    ensures f(s[i]) < n
  {
  }

  // ---------- Counting sort ----------

  ghost predicate Ascending(s: seq<int>) {
    forall i, j :: 0 <= i < j < |s| ==> s[i] <= s[j]
  }

  function Value(): int -> nat {
    (x: int) => if x >= 0 then x else 0
  }

  method CountingSort(v: array<int>, maxVal: int)
    requires maxVal >= -1 && forall k :: 0 <= k < v.Length ==> 0 <= v[k] <= maxVal
    modifies v
    ensures Ascending(v[..]) && multiset(v[..]) == multiset(old(v[..]))
  {
    ghost var s := v[..];
    var output := PlaceByBucket(v, Value(), maxVal + 1);
    BucketsPermute(s, Value(), maxVal + 1);
    BucketsSize(s, Value(), maxVal + 1);
    BucketsSorted(s, Value(), maxVal + 1);
    ghost var r := output[..];
    Copy(output, v);
    forall k | 0 <= k < |r|
      ensures r[k] >= 0
    {
      assert r[k] in multiset(s);
    }
  }

  /** v = output */
  method Copy(output: array<int>, v: array<int>)
    requires output.Length == v.Length && output != v
    modifies v
    ensures v[..] == output[..]
  {
    var i := 0;
    while i < v.Length
      invariant 0 <= i <= v.Length && v[..i] == output[..i]
    {
      v[i] := output[i];
      i := i + 1;
    }
  }

  // ---------- Radix sort ----------

  const BITS := 8
  const BUCKETS := 256

  ghost predicate Int32(s: seq<int>) {
    forall k :: 0 <= k < |s| ==> -0x8000_0000 <= s[k] < 0x8000_0000
  }

  /** (x >> shift) & 255: an arithmetic shift, taken as the 32-bit pattern. */
  function DigitAt(shift: nat): int -> nat {
    (x: int) => And((x / Pow2(shift)) % 0x1_0000_0000, BUCKETS - 1)
  }

  /** The low bits of x, as an unsigned number. */
  function LowBits(bits: nat): int -> nat {
    (x: int) => x % Pow2(bits)
  }

  lemma DigitIsRemainder(x: int, shift: nat)
    ensures DigitAt(shift)(x) == (x / Pow2(shift)) % BUCKETS
  {
    var y := x / Pow2(shift);
    MaskIsRemainder(y % 0x1_0000_0000, BUCKETS);
    RemainderOfProduct(y, 256, 0x100_0000);
    var z := y % 0x1_0000_0000;
    assert z == 256 * ((y / 256) % 0x100_0000) + y % 256;
    RemainderIs(z, 256, (y / 256) % 0x100_0000, y % 256);
  }

  lemma PowerOfByte(n: nat)
    ensures Pow2(n + 8) == 256 * Pow2(n)
  {
    assert Pow2(n + 2) == 2 * Pow2(n + 1) && Pow2(n + 4) == 2 * Pow2(n + 3);
    assert Pow2(n + 6) == 2 * Pow2(n + 5) && Pow2(n + 8) == 2 * Pow2(n + 7);
  }

  /** One more digit in front of the low bits. */
  lemma NextDigit(x: int, shift: nat)
    ensures LowBits(shift + BITS)(x) == Pow2(shift) * DigitAt(shift)(x) + LowBits(shift)(x)
    ensures LowBits(shift)(x) < Pow2(shift)
  {
    DigitIsRemainder(x, shift);
    PowerOfByte(shift);
    hide DigitAt;
    RemainderOfProduct(x, Pow2(shift), 256);
  }

  lemma {:induction false} BucketKeepsOrder(s: seq<int>, f: int -> nat, g: int -> nat, b: nat)
    requires SortedBy(s, g)
    ensures SortedBy(Bucket(s, f, b), g)
    ensures forall k :: 0 <= k < |Bucket(s, f, b)| ==> Bucket(s, f, b)[k] in s
    decreases |s|
  {
    if s != [] {
      BucketKeepsOrder(s[..|s| - 1], f, g, b);
    }
  }

  /** Elements of one bucket are in the order that the bucket has them in. */
  lemma SameBucketOrder(s: seq<int>, f: int -> nat, g: int -> nat, i: nat, j: nat)
    requires i < j < |s| && f(s[i]) == f(s[j]) && SortedBy(Bucket(s, f, f(s[i])), g)
    ensures g(s[i]) <= g(s[j])
  {
    var b := f(s[i]);
    PlaceInBucket(s, f, i);
    PlaceInBucket(s, f, j);
    PlaceInBucket(s[..j], f, i);
    assert s[..j][..i] == s[..i];
  }

  /** A stable pass by the next digit turns order by the low bits into order by more of them. */
  lemma PassSorts(s: seq<int>, shift: nat)
    requires SortedBy(s, LowBits(shift))
    ensures SortedBy(Buckets(s, DigitAt(shift), BUCKETS), LowBits(shift + BITS))
  {
    var f, low := DigitAt(shift), LowBits(shift);
    var r := Buckets(s, f, BUCKETS);
    BucketsSorted(s, f, BUCKETS);
    forall i, j | 0 <= i < j < |r|
      ensures LowBits(shift + BITS)(r[i]) <= LowBits(shift + BITS)(r[j])
    {
      if f(r[i]) == f(r[j]) {
        BucketKeepsOrder(s, f, low, f(r[i]));
        Stable(s, f, BUCKETS, f(r[i]));
        SameBucketOrder(r, f, low, i, j);
      }
      CompareDigits(r[i], r[j], shift);
    }
  }

  lemma CompareDigits(x: int, y: int, shift: nat)
    requires DigitAt(shift)(x) <= DigitAt(shift)(y)
    requires DigitAt(shift)(x) == DigitAt(shift)(y) ==> LowBits(shift)(x) <= LowBits(shift)(y)
    ensures LowBits(shift + BITS)(x) <= LowBits(shift + BITS)(y)
  {
    hide *;
    NextDigit(x, shift);
    NextDigit(y, shift);
    if DigitAt(shift)(x) < DigitAt(shift)(y) {
      GreaterDigitWins(Pow2(shift), DigitAt(shift)(x), LowBits(shift)(x), DigitAt(shift)(y), LowBits(shift)(y));
    }
  }

  lemma GreaterDigitWins(p: nat, a: nat, x: nat, b: nat, y: nat)
    requires a < b && x < p
    ensures p * a + x <= p * b + y
  {
    ProductGrows(p, a + 1, b);
    assert p * (a + 1) == p * a + p;
  }

  /** The array after the first k passes. */
  function Passes(s: seq<int>, k: nat): seq<int> {
    if k == 0 then s else Buckets(Passes(s, k - 1), DigitAt((k - 1) * BITS), BUCKETS)
  }

  lemma DigitsFit(s: seq<int>, shift: nat)
    ensures Fits(s, DigitAt(shift), BUCKETS)
  {
    forall k | 0 <= k < |s|
      ensures DigitAt(shift)(s[k]) < BUCKETS
    {
      DigitIsRemainder(s[k], shift);
    }
  }

  lemma OneRemainder(s: seq<int>)
    ensures SortedBy(s, LowBits(0))
  {
  }

  /** After k passes the array is a permutation, in the order of the low 8k bits. */
  lemma {:induction false} PassesSort(s: seq<int>, k: nat)
    ensures multiset(Passes(s, k)) == multiset(s) && |Passes(s, k)| == |s|
    ensures SortedBy(Passes(s, k), LowBits(k * BITS))
  {
    hide SortedBy, Buckets, DigitAt, LowBits, Pow2;
    if k == 0 {
      OneRemainder(s);
    } else {
      PassesSort(s, k - 1);
      var before := Passes(s, k - 1);
      PassSorts(before, (k - 1) * BITS);
      DigitsFit(before, (k - 1) * BITS);
      BucketsPermute(before, DigitAt((k - 1) * BITS), BUCKETS);
      BucketsSize(before, DigitAt((k - 1) * BITS), BUCKETS);
    }
  }

  /** The four passes order 32-bit numbers as if they were unsigned, which is the order of
      the numbers exactly when no negative one stands beside one that is not. */
  lemma RadixOrder(s: seq<int>)
    requires Int32(s)
    ensures Ascending(Passes(s, 4)) <==>
            !(exists i, j :: 0 <= i < |s| && 0 <= j < |s| && s[i] < 0 <= s[j])
  {
    var r := Passes(s, 4);
    PassesSort(s, 4);
    hide Passes;
    SameElements(s, r);
    SameElements(r, s);
    UnsignedOrder(r);
  }

  /** A failing input: -1 comes out behind 0. */
  lemma NegativesComeLast()
    ensures !Ascending(Passes([-1, 0], 4))
  {
    hide Passes, Ascending;
    var s := [-1, 0];
    assert s[0] < 0 <= s[1];
    RadixOrder(s);
  }

  lemma SameElements(s: seq<int>, r: seq<int>)
    requires multiset(s) == multiset(r) && Int32(s)
    ensures Int32(r)
    ensures forall k :: 0 <= k < |s| ==> exists j :: 0 <= j < |r| && r[j] == s[k]
  {
    forall k | 0 <= k < |s|
      ensures exists j :: 0 <= j < |r| && r[j] == s[k]
    {
      assert s[k] in multiset(r);
    }
    forall k | 0 <= k < |r|
      ensures -0x8000_0000 <= r[k] < 0x8000_0000
    {
      assert r[k] in multiset(s);
    }
  }

  lemma UnsignedOrder(r: seq<int>)
    requires Int32(r) && SortedBy(r, LowBits(32))
    ensures Ascending(r) <==> !(exists i, j :: 0 <= i < |r| && 0 <= j < |r| && r[i] < 0 <= r[j])
  {
    forall k | 0 <= k < |r|
      ensures LowBits(32)(r[k]) == if r[k] >= 0 then r[k] else r[k] + 0x1_0000_0000
    {
      Unsigned(r[k]);
    }
    forall i, j | 0 <= i < |r| && 0 <= j < |r| && r[i] < 0 <= r[j]
      ensures j < i
    {
      assert LowBits(32)(r[i]) > LowBits(32)(r[j]);
    }
  }

  lemma Unsigned(x: int)
    requires -0x8000_0000 <= x < 0x8000_0000
    ensures LowBits(32)(x) == if x >= 0 then x else x + 0x1_0000_0000
  {
    PowerOfByte(0);
    PowerOfByte(8);
    PowerOfByte(16);
    PowerOfByte(24);
    RemainderIs(x, 0x1_0000_0000, if x >= 0 then 0 else -1, if x >= 0 then x else x + 0x1_0000_0000);
  }

  method RadixSort(v: array<int>)
    modifies v
    ensures v[..] == Passes(old(v[..]), 4)
    ensures multiset(v[..]) == multiset(old(v[..]))
    ensures (forall k :: 0 <= k < v.Length ==> 0 <= old(v[k]) < 0x8000_0000) ==> Ascending(v[..])
  {
    hide Fits, Buckets, DigitAt, Ascending, LowBits, SortedBy;
    ghost var s := v[..];
    var shift, k := 0, 0;
    while shift < 32
      invariant shift == k * BITS && 0 <= k <= 4 && v[..] == Passes(s, k)
    {
      DigitsFit(v[..], shift);
      PassesSort(s, k + 1);
      var output := PlaceByBucket(v, DigitAt(shift), BUCKETS);
      Copy(output, v);
      shift, k := shift + BITS, k + 1;
    }
    PassesSort(s, 4);
    if Int32(s) {
      RadixOrder(s);
    }
  }
}
