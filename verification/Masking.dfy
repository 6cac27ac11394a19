/** Powers of two, bitwise `and` on natural numbers, and indices masked with 2^k - 1.

    Masking is how the hash map and the ring buffer wrap their indices around, so both
    build on the remainder that it computes. */
module Masking {
  function And(x: nat, y: nat): (r: nat)
    ensures r <= x && r <= y
  {
    if x == 0 || y == 0 then 0
    else 2 * And(x / 2, y / 2) + (if x % 2 == 1 && y % 2 == 1 then 1 else 0)
  }

  function Pow2(n: nat): (p: nat)
    ensures p > n
  {
    if n == 0 then 1 else 2 * Pow2(n - 1)
  }

  predicate IsPowerOfTwo(n: nat) {
    n == 1 || (n > 1 && n % 2 == 0 && IsPowerOfTwo(n / 2))
  }

  /** Masking with n - 1 takes the remainder, when n is a power of two. */
  lemma {:induction false} MaskIsRemainder(x: nat, n: nat)
    requires IsPowerOfTwo(n)
    ensures And(x, n - 1) == x % n
    decreases n
  {
    if n > 1 {
      MaskIsRemainder(x / 2, n / 2);
      assert (n - 1) / 2 == n / 2 - 1 && (n - 1) % 2 == 1;
      RemainderOfProduct(x, 2, n / 2);
    }
  }

  /** Division in two steps. */
  lemma RemainderOfProduct(x: int, m: nat, n: nat)
    requires m > 0 && n > 0
    ensures m * n > 0 && x % (m * n) == m * ((x / m) % n) + x % m
  {
    var y := x / m;
    var q, r := y / n, y % n;
    ProductGrows(m, 1, n);
    ProductGrows(m, r + 1, n);
    assert x == (m * n) * q + (m * r + x % m) by {
      assert m * (n * q + r) == (m * n) * q + m * r;
    }
    RemainderIs(x, m * n, q, m * r + x % m);
  }

  /** A quotient and a remainder below the divisor are the quotient and the remainder. */
  lemma RemainderIs(x: int, n: int, q: int, r: int)
    requires n > 0 && x == n * q + r && 0 <= r < n
    ensures x % n == r && x / n == q
  {
    var p := x / n;
    if p > q {
      ProductGrows(n, q + 1, p);
    } else if p < q {
      ProductGrows(n, p + 1, q);
    }
  }

  lemma ProductGrows(n: int, a: int, b: int)
    requires n > 0 && a <= b
    ensures n * a <= n * b
  {
  }

  /** The index after i in a ring of n slots. */
  function Next(i: nat, n: nat): (j: nat)
    requires i < n
    ensures j < n
  {
    if i + 1 == n then 0 else i + 1
  }

  /** How many steps lead from i to j in a ring of n slots. */
  function Distance(i: nat, j: nat, n: nat): (d: nat)
    requires i < n && j < n
    ensures d < n
  {
    if j >= i then j - i else j + n - i
  }

  /** Stepping with the mask goes once around the ring. */
  lemma MaskIsNext(i: nat, n: nat)
    requires IsPowerOfTwo(n) && i < n
    ensures And(i + 1, n - 1) == Next(i, n)
  {
    MaskIsRemainder(i + 1, n);
    if i + 1 == n {
      RemainderIs(i + 1, n, 1, 0);
    } else {
      RemainderIs(i + 1, n, 0, i + 1);
    }
  }

  /** The smallest power of two that is at least n. */
  method NextPowerOfTwo(n: nat) returns (p: nat)
    ensures IsPowerOfTwo(p) && p >= n
    ensures p > 1 ==> p / 2 < n
  {
    p := 1;
    while p < n
      invariant IsPowerOfTwo(p) && p >= 1 && (p > 1 ==> p / 2 < n)
    {
      p := p * 2;
    }
  }

  lemma {:induction false} PowersApart(m: nat, n: nat)
    requires IsPowerOfTwo(m) && IsPowerOfTwo(n) && m <= n && (n > 1 ==> n / 2 < m)
    ensures m == n
    decreases n
  {
    if m > 1 {
      PowersApart(m / 2, n / 2);
    }
  }
}
