/**
  Fermat's little theorem, the fact the Fermat test rests on: for a prime p and an a that
  p does not divide, a^(p-1) leaves remainder 1. The proof goes through the binomial
  theorem, p dividing the inner binomial coefficients (by Euclid's lemma), and induction
  on a.
*/
module FermatLittle {
  import opened Arith
  import opened NumberTheory

  // ---------------------------------------------------------------------------------
  // Divisibility helpers

  /** A divisor of two numbers divides their sum. */
  lemma DividesAdd(d: int, x: int, y: int)
    requires d > 0 && Divides(d, x) && Divides(d, y)
    ensures Divides(d, x + y)
  {
    var qx, qy := x / d, y / d;
    assert x == qx * d && y == qy * d;
    assert x + y == (qx + qy) * d;
    MultipleMod(qx + qy, d);
  }

  /** The only multiple of d strictly between -d and d is 0. */
  lemma SmallMultiple(d: int, x: int)
    requires d > 0 && Divides(d, x) && -d < x < d
    ensures x == 0
  {
    var q := x / d;
    assert x == q * d;
    if q >= 1 {
      MulAtLeast(q, d);
    } else if q <= -1 {
      MulAtLeast(-q, d);
    }
  }

  /** d divides d * k. */
  lemma DividesProduct(d: int, k: int)
    requires d > 0
    ensures Divides(d, d * k)
  {
    MultipleMod(k, d);
  }

  // ---------------------------------------------------------------------------------
  // Euclid's lemma

  /** Scaling both arguments scales Euclid's result. */
  lemma {:induction false} GcdScale(a: nat, b: nat, c: nat)
    ensures Gcd(a * c, b * c) == Gcd(a, b) * c
    decreases b
  {
    if b > 0 && c > 0 {
      var q, r := a / b, a % b;
      assert a * c == q * (b * c) + r * c;
      assert 0 <= r * c < b * c by {
        MulNonneg(r, c);
        MulAtLeast(c, b - r);
      }
      ModUnique(a * c, b * c, q, r * c);
      GcdScale(b, r, c);
    } else if b == 0 {
      assert b * c == 0;
    } else {
      assert a * c == 0 && b * c == 0;
    }
  }

  /** A prime either divides a or is coprime to it. */
  lemma PrimeGcd(p: nat, a: nat)
    requires IsPrime(p)
    ensures Divides(p, a) || Gcd(a, p) == 1
  {
    var g := Gcd(a, p);
    GcdPositive(a, p);
    GcdDivides(a, p);
    DividesBound(g, p);
    if g != 1 {
      assert g == p;
    }
  }

  /** Euclid's lemma: a prime dividing a product divides one of the factors. */
  lemma Euclid(p: nat, a: nat, b: nat)
    requires IsPrime(p) && Divides(p, a * b)
    ensures Divides(p, a) || Divides(p, b)
  {
    PrimeGcd(p, a);
    if !Divides(p, a) {
      GcdScale(a, p, b);
      assert Gcd(a * b, p * b) == b;
      DividesProduct(p, b);
      GcdGreatest(a * b, p * b, p);
    }
  }

  // ---------------------------------------------------------------------------------
  // Binomial coefficients

  /** Pascal's triangle. */
  function Binom(n: nat, k: nat): nat {
    if k == 0 then 1 else if n == 0 then 0 else Binom(n - 1, k - 1) + Binom(n - 1, k)
  }

  lemma {:induction false} BinomAbove(n: nat, k: nat)
    requires k > n
    ensures Binom(n, k) == 0
    decreases n
  {
    if n > 0 {
      BinomAbove(n - 1, k - 1);
      BinomAbove(n - 1, k);
    }
  }

  lemma {:induction false} BinomDiagonal(n: nat)
    ensures Binom(n, n) == 1
    decreases n
  {
    if n > 0 {
      BinomDiagonal(n - 1);
      BinomAbove(n - 1, n);
    }
  }

  lemma {:induction false} BinomOne(n: nat)
    ensures Binom(n, 1) == n
    decreases n
  {
    if n > 0 {
      BinomOne(n - 1);
    }
  }

  /** The absorption identity k C(n, k) = n C(n - 1, k - 1). */
  lemma {:induction false} Absorption(n: nat, k: nat)
    requires n >= 1 && k >= 1
    ensures k * Binom(n, k) == n * Binom(n - 1, k - 1)
    decreases n
  {
    if k == 1 {
      BinomOne(n);
    } else if n == 1 {
      BinomAbove(0, k - 1);
      BinomAbove(0, k);
    } else {
      Absorption(n - 1, k - 1);
      Absorption(n - 1, k);
      AbsorptionStep(n, k, Binom(n - 1, k - 1), Binom(n - 1, k), Binom(n - 2, k - 2), Binom(n - 2, k - 1));
    }
  }

  /** The arithmetic of the absorption step. */
  lemma AbsorptionStep(n: int, k: int, b11: int, b10: int, b22: int, b21: int)
    requires b11 == b22 + b21
    requires (k - 1) * b11 == (n - 1) * b22
    requires k * b10 == (n - 1) * b21
    ensures k * (b11 + b10) == n * b11
  {
    assert k * (b11 + b10) == (k - 1) * b11 + b11 + k * b10;
    assert n * b11 == (n - 1) * (b22 + b21) + b11;
  }

  /** A prime divides every inner coefficient of its row. */
  lemma PrimeDividesBinom(p: nat, k: nat)
    requires IsPrime(p) && 0 < k < p
    ensures Divides(p, Binom(p, k))
  {
    Absorption(p, k);
    DividesProduct(p, Binom(p - 1, k - 1));
    assert Divides(p, k * Binom(p, k));
    Euclid(p, k, Binom(p, k));
    if Divides(p, k) {
      DividesBound(p, k);
    }
  }

  // ---------------------------------------------------------------------------------
  // The binomial theorem for (a + 1)^n

  /** The partial sum C(n, 0) + C(n, 1) a + ... + C(n, k) a^k. */
  function Expand(a: int, n: nat, k: nat): int {
    if k == 0 then 1 else Expand(a, n, k - 1) + Binom(n, k) * Pow(a, k)
  }

  /** Pascal's rule, summed. */
  lemma {:induction false} ExpandPascal(a: int, n: nat, k: nat)
    requires k >= 1
    ensures Expand(a, n + 1, k) == Expand(a, n, k) + a * Expand(a, n, k - 1)
    decreases k
  {
    var e1, ek := Expand(a, n, k - 1), Expand(a, n, k);
    var b1, b0 := Binom(n, k - 1), Binom(n, k);
    var pk, pk1 := Pow(a, k), Pow(a, k - 1);
    assert Binom(n + 1, k) == b1 + b0;
    assert Expand(a, n + 1, k) == Expand(a, n + 1, k - 1) + (b1 + b0) * pk;
    assert pk == a * pk1 && ek == e1 + b0 * pk;
    if k == 1 {
      assert pk1 == 1 && b1 == 1 && e1 == 1;
      PascalStep(a, Expand(a, n + 1, k), 1, ek, e1, 0, b1, b0, pk, pk1);
    } else {
      ExpandPascal(a, n, k - 1);
      var e2 := Expand(a, n, k - 2);
      assert e1 == e2 + b1 * pk1;
      PascalStep(a, Expand(a, n + 1, k), Expand(a, n + 1, k - 1), ek, e1, e2, b1, b0, pk, pk1);
    }
  }

  /** The arithmetic of one step of the summed Pascal rule. */
  lemma PascalStep(a: int, top: int, prev: int, ek: int, e1: int, e2: int,
                   b1: int, b0: int, pk: int, pk1: int)
    requires top == prev + (b1 + b0) * pk
    requires prev == e1 + a * e2
    requires pk == a * pk1
    requires ek == e1 + b0 * pk
    requires e1 == e2 + b1 * pk1
    ensures top == ek + a * e1
  {
    assert b1 * pk == a * (b1 * pk1);
    assert a * e1 == a * e2 + a * (b1 * pk1);
  }

  /** The binomial theorem: the full sum is (a + 1)^n. */
  lemma {:induction false} BinomialTheorem(a: int, n: nat)
    ensures Expand(a, n, n) == Pow(a + 1, n)
    decreases n
  {
    if n > 0 {
      var e := Expand(a, n - 1, n - 1);
      BinomialTheorem(a, n - 1);
      ExpandPascal(a, n - 1, n);
      BinomAbove(n - 1, n);
      assert Expand(a, n - 1, n) == e + 0 * Pow(a, n);
      assert Pow(a + 1, n) == (a + 1) * Pow(a + 1, n - 1);
      TheoremStep(Expand(a, n, n), e, a, Pow(a + 1, n - 1));
    }
  }

  lemma TheoremStep(x: int, e: int, a: int, q: int)
    requires x == e + a * e && e == q
    ensures x == (a + 1) * q
  {
  }

  /** For a prime p every partial sum below the top is 1 more than a multiple of p. */
  lemma {:induction false} InnerTermsDivisible(a: int, p: nat, k: nat)
    requires IsPrime(p) && k < p
    ensures Divides(p, Expand(a, p, k) - 1)
    decreases k
  {
    if k > 0 {
      InnerTermsDivisible(a, p, k - 1);
      PrimeDividesBinom(p, k);
      DividesMultiple(p, Binom(p, k), Pow(a, k));
      DividesAdd(p, Expand(a, p, k - 1) - 1, Binom(p, k) * Pow(a, k));
    }
  }

  /** (a + 1)^p - a^p - 1 is a multiple of the prime p. */
  lemma {:induction false} FreshmansDream(a: int, p: nat)
    requires IsPrime(p)
    ensures Divides(p, Pow(a + 1, p) - Pow(a, p) - 1)
  {
    var top, last, e := Pow(a + 1, p), Pow(a, p), Expand(a, p, p - 1);
    assert top == e + 1 * last by {
      TopTerm(a, p);
    }
    assert Divides(p, e - 1) by {
      InnerTermsDivisible(a, p, p - 1);
    }
    DreamStep(p, top, last, e);
  }

  /** (a + 1)^n splits into the partial sum below the top and the top term a^n. */
  lemma {:induction false} TopTerm(a: int, n: nat)
    requires n >= 1
    ensures Pow(a + 1, n) == Expand(a, n, n - 1) + 1 * Pow(a, n)
  {
    BinomialTheorem(a, n);
    BinomDiagonal(n);
    assert Expand(a, n, n) == Expand(a, n, n - 1) + Binom(n, n) * Pow(a, n);
  }

  lemma DreamStep(p: int, top: int, last: int, e: int)
    requires p > 0 && Divides(p, e - 1) && top == e + 1 * last
    ensures Divides(p, top - last - 1)
  {
    assert top - last - 1 == e - 1;
  }

  // ---------------------------------------------------------------------------------
  // Fermat's little theorem

  /** a^p - a is a multiple of the prime p for every a >= 0. */
  lemma {:induction false} PowPrimeCongruent(a: nat, p: nat)
    requires IsPrime(p)
    ensures Divides(p, Pow(a, p) - a)
    decreases a
  {
    if a == 0 {
      assert Pow(0, p) == 0 * Pow(0, p - 1);
    } else {
      PowPrimeCongruent(a - 1, p);
      FreshmansDream(a - 1, p);
      DividesAdd(p, Pow(a, p) - Pow(a - 1, p) - 1, Pow(a - 1, p) - (a - 1));
    }
  }

  lemma {:induction false} PowPositive(a: int, e: nat)
    requires a > 0
    ensures Pow(a, e) > 0
    decreases e
  {
    if e > 0 {
      PowPositive(a, e - 1);
      MulNonneg(a - 1, Pow(a, e - 1));
    }
  }

  /** Fermat's little theorem: a^(p-1) mod p is 1 when the prime p does not divide a >= 0. */
  lemma FermatLittleTheorem(a: int, p: int)
    requires IsPrime(p) && a >= 0 && a % p != 0
    ensures ModPow(a, p - 1, p) == 1
  {
    var b := Pow(a, p - 1);
    assert a != 0;
    PowPositive(a, p - 1);
    PowPrimeCongruent(a, p);
    assert Pow(a, p) - a == a * (b - 1);
    Euclid(p, a, b - 1);
    var r := ModPow(a, p - 1, p);
    DividesAdd(p, r - b, b - 1);
    SmallMultiple(p, r - 1);
  }

  // ---------------------------------------------------------------------------------
  // The residue of a^((p-1)/2)

  /** Exponents add under multiplication. */
  lemma {:induction false} PowAdd(a: int, m: nat, n: nat)
    ensures Pow(a, m + n) == Pow(a, m) * Pow(a, n)
    decreases m
  {
    if m > 0 {
      PowAdd(a, m - 1, n);
      assert Pow(a, m + n) == a * Pow(a, m - 1 + n);
    }
  }

  /** b and b mod p have squares that differ by a multiple of p. */
  lemma SquareStep(b: int, p: int, q: int, r: int)
    requires b == q * p + r
    ensures b * b - r * r == p * (q * q * p + 2 * q * r)
  {
  }

  /** Modulo a prime, 1 has no square roots but 1 and p - 1. */
  lemma SquareRootsOfOne(p: nat, r: int)
    requires IsPrime(p) && 0 <= r < p && Divides(p, r * r - 1)
    ensures r == 1 || r == p - 1
  {
    if r == 0 {
      ModUnique(-1, p, -1, p - 1);
    } else {
      assert r * r - 1 == (r - 1) * (r + 1);
      Euclid(p, r - 1, r + 1);
      if Divides(p, r - 1) {
        SmallMultiple(p, r - 1);
      } else if r + 1 < p {
        SmallMultiple(p, r + 1);
      }
    }
  }

  /** If b * b leaves remainder 1 modulo the prime p, then b leaves 1 or p - 1. */
  lemma SquareOneResidue(p: nat, b: int)
    requires IsPrime(p) && (b * b) % p == 1
    ensures b % p == 1 || b % p == p - 1
  {
    var q, r := b / p, b % p;
    assert Divides(p, b * b - 1) by {
      ModUnique(b * b - 1, p, (b * b) / p, 0);
    }
    assert Divides(p, r * r - 1) by {
      SquareStep(b, p, q, r);
      var k := q * q * p + 2 * q * r;
      DividesProduct(p, -k);
      assert r * r - 1 == (b * b - 1) + p * -k;
      DividesAdd(p, b * b - 1, p * -k);
    }
    SquareRootsOfOne(p, r);
  }

  /**
    For an odd prime p and an a >= 0 that p does not divide, a^((p-1)/2) mod p is 1 or
    p - 1: its square is a^(p-1), which Fermat's little theorem puts at 1.
  */
  lemma HalfPowerResidue(a: int, p: int)
    requires IsPrime(p) && p % 2 == 1 && a >= 0 && a % p != 0
    ensures ModPow(a, (p - 1) / 2, p) == 1 || ModPow(a, (p - 1) / 2, p) == p - 1
  {
    var e := (p - 1) / 2;
    var b := Pow(a, e);
    assert Pow(a, p - 1) == b * b by {
      assert p - 1 == e + e;
      PowAdd(a, e, e);
    }
    assert (b * b) % p == 1 by {
      FermatLittleTheorem(a, p);
    }
    SquareOneResidue(p, b);
  }
}
