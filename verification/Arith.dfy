/** Facts about division, remainder and bit masks shared by the ring-shaped structures. */
module Arith {

  lemma NoSmallMultiple(n: int, d: int)
    requires n > 0 && -n < n * d < n
    ensures d == 0
  {
  }

  /** Quotient and remainder are unique. */
  lemma DivModUnique(n: int, q: int, r: int)
    requires 0 <= r < n
    ensures (n * q + r) / n == q && (n * q + r) % n == r
  {
    var x := n * q + r;
    assert x == n * (x / n) + x % n;
    assert n * (q - x / n) == n * q - n * (x / n);
    NoSmallMultiple(n, q - x / n);
  }

  lemma ModShift(x: int, n: int)
    requires n > 0
    ensures (x + n) % n == x % n && (x + n) / n == x / n + 1
  {
    assert x == n * (x / n) + x % n;
    assert n * (x / n + 1) == n * (x / n) + n;
    DivModUnique(n, x / n + 1, x % n);
  }

  /** Numbers less than n apart that share a remainder are equal. */
  lemma ModInjective(p: int, q: int, n: int)
    requires n > 0 && p <= q < p + n && p % n == q % n
    ensures p == q
  {
    assert p == n * (p / n) + p % n && q == n * (q / n) + q % n;
    assert n * (q / n - p / n) == n * (q / n) - n * (p / n);
    NoSmallMultiple(n, q / n - p / n);
  }

  lemma SuccMod(p: int, n: int)
    requires n > 0
    ensures (p + 1) % n == if p % n + 1 < n then p % n + 1 else 0
  {
    var q, r := p / n, p % n;
    assert p == n * q + r;
    if r + 1 < n {
      DivModUnique(n, q, r + 1);
    } else {
      assert n * (q + 1) == n * q + n;
      DivModUnique(n, q + 1, 0);
    }
  }

  /** Congruence is kept by the successor, and reflected by it. */
  lemma ModSucc(p: int, q: int, n: int)
    requires n > 0
    ensures p % n == q % n <==> (p + 1) % n == (q + 1) % n
  {
    SuccMod(p, n);
    SuccMod(q, n);
  }

  function Pow2(n: nat): (r: nat)
    ensures r > 0
  {
    if n == 0 then 1 else 2 * Pow2(n - 1)
  }

  /** Bitwise conjunction of two natural numbers. */
  function BitAnd(a: nat, b: nat): nat
    decreases a
  {
    if a == 0 || b == 0 then 0 else 2 * BitAnd(a / 2, b / 2) + (a % 2) * (b % 2)
  }

  lemma HalfMod(k: nat, p: nat)
    requires p > 0
    ensures k % (2 * p) == 2 * ((k / 2) % p) + k % 2
  {
    var q, r := (k / 2) / p, (k / 2) % p;
    assert k / 2 == p * q + r;
    assert (2 * p) * q == 2 * (p * q);
    DivModUnique(2 * p, q, 2 * r + k % 2);
  }

  lemma BitAndOdd(a: nat, b: nat)
    requires b % 2 == 1
    ensures BitAnd(a, b) == 2 * BitAnd(a / 2, b / 2) + a % 2
  {
    assert (a % 2) * (b % 2) == a % 2;
  }

  /** One bit more of a mask. */
  lemma MaskStep(k: nat, p: nat, half: nat)
    requires p > 0 && half == BitAnd(k / 2, p - 1) == (k / 2) % p
    ensures BitAnd(k, 2 * p - 1) == 2 * half + k % 2 == k % (2 * p)
  {
    hide BitAnd;
    HalfMod(k, p);
    BitAndOdd(k, 2 * p - 1);
    assert (2 * p - 1) / 2 == p - 1;
  }

  /** Masking with a power of two minus one is taking the remainder. */
  lemma {:induction false} MaskIsMod(k: nat, n: nat)
    ensures BitAnd(k, Pow2(n) - 1) == k % Pow2(n)
    decreases n
  {
    if n == 0 {
      assert Pow2(n) == 1;
    } else {
      MaskIsMod(k / 2, n - 1);
      MaskStep(k, Pow2(n - 1), (k / 2) % Pow2(n - 1));
    }
  }
}
