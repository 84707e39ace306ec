/**
  The mathematics the primality tests are measured against: divisibility, primes, powers,
  `BigInteger.modPow` as (a^e) mod m, and `BigInteger.gcd` as Euclid's algorithm, with the
  facts about them the proofs need.
*/
module NumberTheory {
  import opened Arith

  /** d divides n; zero divides only zero. */
  predicate Divides(d: int, n: int) {
    if d == 0 then n == 0 else n % d == 0
  }

  predicate IsPrime(n: int) {
    n >= 2 && forall d :: 1 < d < n ==> !Divides(d, n)
  }

  function Pow(a: int, e: nat): int {
    if e == 0 then 1 else a * Pow(a, e - 1)
  }

  /** `a.modPow(e, m)` for a positive modulus: the least non-negative residue of a^e. */
  function ModPow(a: int, e: nat, m: int): (r: int)
    requires m > 0
    ensures 0 <= r < m
    ensures (r - Pow(a, e)) % m == 0
  {
    var r := Pow(a, e) % m;
    ModUnique(r - Pow(a, e), m, -(Pow(a, e) / m), 0);
    r
  }

  /** `BigInteger.gcd` on non-negative arguments, by Euclid's algorithm. */
  function Gcd(a: nat, b: nat): nat
    decreases b
  {
    if b == 0 then a else Gcd(b, a % b)
  }

  function Abs(a: int): nat {
    if a < 0 then -a else a
  }

  // ---------------------------------------------------------------------------------
  // Divisibility

  /** A divisor of b divides a exactly when it divides a mod b. */
  lemma DividesMod(d: int, a: int, b: int)
    requires d > 0 && b > 0 && Divides(d, b)
    ensures Divides(d, a) <==> Divides(d, a % b)
  {
    var q, k := a / b, b / d;
    assert b == k * d;
    assert a == a % b + (q * k) * d;
    ModAddMultiple(a % b, q * k, d);
  }

  /** A positive multiple of a positive number is at least that number. */
  lemma DividesBound(x: int, y: int)
    requires x > 0 && y > 0 && Divides(x, y)
    ensures x <= y
  {
    var k := y / x;
    assert y == x * k;
    if k <= 0 {
      MulNonpos(x, k);
    } else {
      MulAtLeast(k, x);
    }
  }

  lemma MulNonpos(x: int, k: int)
    requires x > 0 && k <= 0
    ensures x * k <= 0
  {
  }

  lemma DividesAntisymmetric(x: int, y: int)
    requires x > 0 && y > 0 && Divides(x, y) && Divides(y, x)
    ensures x == y
  {
    DividesBound(x, y);
    DividesBound(y, x);
  }

  /** A divisor of d divides every multiple of d. */
  lemma DividesMultiple(d: int, n: int, k: int)
    requires d > 0 && Divides(d, n)
    ensures Divides(d, n * k)
  {
    var q := n / d;
    assert n == d * q;
    assert n * k == (q * k) * d;
    MultipleMod(q * k, d);
  }

  /** Divisibility is transitive. */
  lemma DividesTransitive(a: int, b: int, c: int)
    requires a > 0 && b > 0 && Divides(a, b) && Divides(b, c)
    ensures Divides(a, c)
  {
    var k := c / b;
    assert c == b * k;
    DividesMultiple(a, b, k);
  }

  /** An odd number divides 2x only if it divides x. */
  lemma OddDividesDouble(d: int, x: int)
    requires d > 0 && d % 2 == 1 && Divides(d, 2 * x)
    ensures Divides(d, x)
  {
    var k := (2 * x) / d;
    assert 2 * x == d * k;
    ParityOfProduct(d, k);
    var h := k / 2;
    assert k == 2 * h;
    assert x == h * d;
    MultipleMod(h, d);
  }

  /** An odd factor times k is even only when k is. */
  lemma ParityOfProduct(d: int, k: int)
    requires d % 2 == 1 && (d * k) % 2 == 0
    ensures k % 2 == 0
  {
    var d2, k2 := d / 2, k / 2;
    assert d == 2 * d2 + 1;
    assert k == 2 * k2 + k % 2;
    assert d * k == 2 * (d2 * k + k2) + k % 2;
    ModUnique(d * k, 2, d2 * k + k2, k % 2);
  }

  /** Every divisor of an odd number is odd. */
  lemma DivisorOfOdd(d: int, b: int)
    requires d > 0 && b % 2 == 1 && Divides(d, b)
    ensures d % 2 == 1
  {
    var k := b / d;
    assert b == d * k;
    if d % 2 == 0 {
      var h := d / 2;
      assert b == 2 * (h * k);
      MultipleMod(h * k, 2);
    }
  }

  // ---------------------------------------------------------------------------------
  // Greatest common divisor

  /** Euclid's result divides both arguments. */
  lemma {:induction false} GcdDivides(a: nat, b: nat)
    ensures Divides(Gcd(a, b), a) && Divides(Gcd(a, b), b)
    decreases b
  {
    if b > 0 {
      GcdDivides(b, a % b);
      DividesMod(Gcd(a, b), a, b);
    }
  }

  /** Every common divisor divides Euclid's result, so it is the greatest. */
  lemma {:induction false} GcdGreatest(a: nat, b: nat, d: int)
    requires d > 0 && Divides(d, a) && Divides(d, b)
    ensures Divides(d, Gcd(a, b))
    decreases b
  {
    if b > 0 {
      DividesMod(d, a, b);
      GcdGreatest(b, a % b, d);
    }
  }

  lemma GcdPositive(a: nat, b: nat)
    requires a > 0 || b > 0
    ensures Gcd(a, b) > 0
  {
    GcdDivides(a, b);
  }

  /** Two pairs with the same positive common divisors have the same gcd. */
  lemma SameCommonDivisors(a: nat, b: nat, c: nat, e: nat)
    requires a > 0 || b > 0
    requires c > 0 || e > 0
    requires forall d :: d > 0 && Divides(d, a) && Divides(d, b) ==> Divides(d, c) && Divides(d, e)
    requires forall d :: d > 0 && Divides(d, c) && Divides(d, e) ==> Divides(d, a) && Divides(d, b)
    ensures Gcd(a, b) == Gcd(c, e)
  {
    var g1, g2 := Gcd(a, b), Gcd(c, e);
    GcdPositive(a, b);
    GcdPositive(c, e);
    GcdDivides(a, b);
    GcdDivides(c, e);
    GcdGreatest(c, e, g1);
    GcdGreatest(a, b, g2);
    DividesAntisymmetric(g1, g2);
  }

  lemma GcdSymmetric(a: nat, b: nat)
    requires a > 0 || b > 0
    ensures Gcd(a, b) == Gcd(b, a)
  {
    SameCommonDivisors(a, b, b, a);
  }

  /** Halving an even first argument keeps the gcd with an odd number. */
  lemma GcdHalve(a: nat, b: nat)
    requires a > 0 && a % 2 == 0 && b % 2 == 1
    ensures Gcd(a, b) == Gcd(a / 2, b)
  {
    forall d | d > 0 && Divides(d, a / 2) && Divides(d, b)
      ensures Divides(d, a) && Divides(d, b)
    {
      DividesMultiple(d, a / 2, 2);
    }
    forall d | d > 0 && Divides(d, a) && Divides(d, b)
      ensures Divides(d, a / 2) && Divides(d, b)
    {
      DivisorOfOdd(d, b);
      OddDividesDouble(d, a / 2);
    }
    SameCommonDivisors(a, b, a / 2, b);
  }

  /** Reducing the first argument modulo the second keeps the gcd. */
  lemma GcdReduce(a: nat, b: nat)
    requires b > 0
    ensures Gcd(a % b, b) == Gcd(a, b)
  {
    GcdSymmetric(a % b, b);
  }

  lemma GcdZero(b: nat)
    ensures Gcd(0, b) == b
  {
  }
}
