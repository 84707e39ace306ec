/**
  Corrected counterparts of two PrimeTest routines, each with the property the original
  evidently intends proved about it: trial division with the bound i * i <= n decides
  primality exactly, and the Jacobi loop with the reciprocity flip taken only when BOTH
  numbers are 3 mod 4 obeys the second supplement and the reciprocity law.
*/
module PrimeCorrected {
  import opened Arith
  import opened NumberTheory
  import opened PrimeTest
  import opened PrimeProps
  import opened FermatLittle

  // ---------------------------------------------------------------------------------
  // Trial division up to and including the square root

  /** i * i <= n with i >= 5 forces i + 2 < n, so the loop measure n - i drops. */
  lemma SquareAtMostBelow(i: int, n: int)
    requires i >= 5 && i * i <= n
    ensures i + 2 < n
  {
    NextCandidateBelow(i);
  }

  /** The trial loop with the non-strict bound `i <= Math.sqrt(n)`. */
  function TrialLoopInclusive(n: int, i: int): bool
    requires i >= 5
    decreases n - i
  {
    if i * i <= n then
      SquareAtMostBelow(i, n);
      if n % i == 0 || n % (i + 2) == 0 then false else TrialLoopInclusive(n, i + 6)
    else true
  }

  /** `primality` with the non-strict loop bound. */
  function PrimalityCorrected(n: int): (r: bool)
    ensures n <= 1 ==> !r
    ensures n == 2 || n == 3 ==> r
    ensures n > 3 && (n % 2 == 0 || n % 3 == 0) ==> !r
  {
    if n <= 1 then false
    else if n <= 3 then true
    else if n % 2 == 0 || n % 3 == 0 then false
    else TrialLoopInclusive(n, 5)
  }

  lemma {:induction false} InclusiveLoopAcceptsPrime(n: int, i: int)
    requires i >= 5 && IsPrime(n)
    ensures TrialLoopInclusive(n, i)
    decreases n - i
  {
    if i * i <= n {
      SquareAtMostBelow(i, n);
      assert !Divides(i, n) && !Divides(i + 2, n);
      InclusiveLoopAcceptsPrime(n, i + 6);
    }
  }

  /** The non-strict loop has checked every candidate d prime to 6 with d * d <= n. */
  lemma {:induction false} InclusiveLoopExcludes(n: int, i: int, d: int)
    requires i >= 5 && i % 6 == 5 && TrialLoopInclusive(n, i)
    requires (d % 6 == 5 && d >= i) || (d % 6 == 1 && d >= i + 2)
    requires d * d <= n
    ensures !Divides(d, n)
    decreases n - i
  {
    SquareMono(i, d);
    SquareAtMostBelow(i, n);
    if d != i && d != i + 2 {
      CandidateStep(i, d);
      InclusiveLoopExcludes(n, i + 6, d);
    }
  }

  /** A proper divisor of n has a partner divisor, and the smaller of the two has a square at most n. */
  lemma SmallDivisor(d: int, n: int) returns (f: int)
    requires 1 < d < n && Divides(d, n)
    ensures 1 < f && f * f <= n && Divides(f, n)
  {
    var e := n / d;
    assert n == d * e;
    if e <= 1 {
      MulNonneg(d, 1 - e);
    }
    if d <= e {
      MulNonneg(d, e - d);
      f := d;
    } else {
      MulNonneg(e, d - e);
      MultipleMod(d, e);
      f := e;
    }
  }

  /** With the non-strict bound, trial division accepts exactly the primes. */
  lemma PrimalityCorrectedIsPrime(n: int)
    ensures PrimalityCorrected(n) <==> IsPrime(n)
  {
    if IsPrime(n) && n > 3 {
      assert !Divides(2, n) && !Divides(3, n);
      InclusiveLoopAcceptsPrime(n, 5);
    }
    if PrimalityCorrected(n) && n > 3 {
      forall d | 1 < d < n
        ensures !Divides(d, n)
      {
        if Divides(d, n) {
          var f := SmallDivisor(d, n);
          DivisorKeepsCoprimeToSix(f, n);
          InclusiveLoopExcludes(n, 5, f);
        }
      }
    }
  }

  /** The corrected test rejects 25, which the strict bound lets through. */
  lemma CorrectedRejectsTwentyFive()
    ensures !PrimalityCorrected(25) && Primality(25)
  {
    PrimalityAcceptsTwentyFive();
    PrimalityCorrectedIsPrime(25);
  }

  // ---------------------------------------------------------------------------------
  // The Jacobi loop with the reciprocity flip for two numbers that are 3 mod 4

  /** The outer Jacobi loop, flipping j only when both a and b are 3 mod 4. */
  function JacobiLoopCorrected(a: nat, b: nat, j: int): (r: int)
    requires b % 2 == 1
    requires j == 1 || j == -1
    ensures r == -1 || r == 0 || r == 1
    ensures r == 0 <==> Gcd(a, b) != 1
    decreases a + b, if a >= b then 1 else 0
  {
    if a == 0 then
      GcdZero(b);
      if b == 1 then j else 0
    else
      var (odd, j1) := StripTwos(a, b, j);
      var j2 := if b % 4 == 3 && odd % 4 == 3 then -j1 else j1;
      SwapStep(a, b, odd);
      JacobiLoopCorrected(b % odd, odd, j2)
  }

  /** `Jacobi` with the corrected loop. */
  function JacobiCorrected(m: int, n: int): (r: int)
    ensures r == -1 || r == 0 || r == 1
    ensures n < 0 || n % 2 == 0 ==> r == 0
    ensures n > 0 && n % 2 == 1 ==> (r == 0 <==> Gcd(Abs(m), n) != 1)
  {
    if n < 0 || n % 2 == 0 then 0
    else
      var j := if m < 0 && n % 4 == 3 then -1 else 1;
      JacobiLoopCorrected(Abs(m), n, j)
  }

  /** Stripping twos from the same a commutes with negating j. */
  lemma {:induction false} StripTwosNegates(a: nat, b: nat, j: int)
    requires a > 0
    ensures StripTwos(a, b, -j) == (StripTwos(a, b, j).0, -StripTwos(a, b, j).1)
    decreases a
  {
    if a % 2 == 0 {
      StripTwosNegates(a / 2, b, if b % 8 == 3 || b % 8 == 5 then -j else j);
    }
  }

  /** The loop is odd in its accumulated sign. */
  lemma {:induction false} LoopNegates(a: nat, b: nat, j: int)
    requires b % 2 == 1 && (j == 1 || j == -1)
    ensures JacobiLoopCorrected(a, b, -j) == -JacobiLoopCorrected(a, b, j)
    decreases a + b, if a >= b then 1 else 0
  {
    if a > 0 {
      var (odd, j1) := StripTwos(a, b, j);
      StripTwosNegates(a, b, j);
      SwapStep(a, b, odd);
      var j2 := if b % 4 == 3 && odd % 4 == 3 then -j1 else j1;
      assert StripTwos(a, b, -j) == (odd, -j1);
      LoopNegates(b % odd, odd, j2);
    }
  }

  lemma FourFromEight(n: int)
    ensures n % 4 == (n % 8) % 4
    ensures n % 2 == (n % 8) % 2
  {
    var q := n / 8;
    assert n == (2 * q) * 4 + n % 8;
    ModAddMultiple(n % 8, 2 * q, 4);
    assert n == (4 * q) * 2 + n % 8;
    ModAddMultiple(n % 8, 4 * q, 2);
  }

  /** Halving 2 once flips j exactly when b is 3 or 5 mod 8. */
  lemma StripTwo(b: nat, j: int)
    ensures StripTwos(2, b, j) == (1, if b % 8 == 3 || b % 8 == 5 then -j else j)
  {
    var f := if b % 8 == 3 || b % 8 == 5 then -j else j;
    assert StripTwos(1, b, f) == (1, f);
  }

  /** From a = 2 both loops swap to (0, 1) and stop with the sign they carry. */
  lemma LoopFromTwo(n: nat)
    requires n % 2 == 1
    ensures var f := if n % 8 == 3 || n % 8 == 5 then -1 else 1;
            JacobiLoopCorrected(2, n, 1) == f
            && JacobiLoop(2, n, 1) == (if n % 4 == 3 then -f else f)
  {
    StripTwo(n, 1);
    assert n % 1 == 0;
  }

  /** The second supplement: (2/n) is 1 exactly when n is 1 or 7 mod 8. */
  lemma SecondSupplement(n: int)
    requires n > 0 && n % 2 == 1
    ensures JacobiCorrected(2, n) == (if n % 8 == 1 || n % 8 == 7 then 1 else -1)
  {
    assert JacobiCorrected(2, n) == JacobiLoopCorrected(2, n, 1);
    LoopFromTwo(n);
    FourFromEight(n);
  }

  /** As written, (2/n) comes out 1 for n = 1 or 3 mod 8: the sign is wrong whenever n is 3 mod 4. */
  lemma AsWrittenSecondSupplement(n: int)
    requires n > 0 && n % 2 == 1
    ensures Jacobi(2, n) == (if n % 8 == 1 || n % 8 == 3 then 1 else -1)
  {
    assert Jacobi(2, n) == JacobiLoop(2, n, 1);
    LoopFromTwo(n);
    FourFromEight(n);
  }

  /** One round from an odd a below the odd b. */
  lemma OddStep(a: nat, b: nat, j: int)
    requires 0 < a && a % 2 == 1 && b % 2 == 1 && (j == 1 || j == -1)
    ensures JacobiLoopCorrected(a, b, j)
         == JacobiLoopCorrected(b % a, a, if b % 4 == 3 && a % 4 == 3 then -j else j)
  {
    assert StripTwos(a, b, j) == (a, j);
  }

  /** Reciprocity for odd m < n: both symbols continue from (n mod m, m). */
  lemma ReciprocityBelow(m: nat, n: nat)
    requires 0 < m < n && m % 2 == 1 && n % 2 == 1
    ensures JacobiLoopCorrected(m, n, 1)
         == (if m % 4 == 3 && n % 4 == 3 then -1 else 1) * JacobiLoopCorrected(n, m, 1)
  {
    var f := if m % 4 == 3 && n % 4 == 3 then -1 else 1;
    OddStep(m, n, 1);
    OddStep(n, m, 1);
    ModBelow(m, n);
    OddStep(m, n, f);
    if f == -1 {
      LoopNegates(n % m, m, 1);
    }
  }

  /** The law of quadratic reciprocity for the corrected loop, on odd positive m and n. */
  lemma Reciprocity(m: int, n: int)
    requires m > 0 && n > 0 && m % 2 == 1 && n % 2 == 1
    ensures JacobiCorrected(m, n) == (if m % 4 == 3 && n % 4 == 3 then -1 else 1) * JacobiCorrected(n, m)
  {
    if m < n {
      ReciprocityBelow(m, n);
    } else if n < m {
      ReciprocityBelow(n, m);
    } else {
      OddStep(m, m, 1);
    }
  }

  // ---------------------------------------------------------------------------------
  // Solovay-Strassen comparing the symbol as a residue modulo n

  /**
    A round that compares `jacobi.mod(n)`, the symbol as a residue in [0, n), with
    a^((n-1)/2) mod n, using the corrected symbol.
  */
  predicate SolovayStrassenRoundCorrected(a: int, n: int)
    requires n > 0
  {
    Gcd(Abs(a), n) == 1 && JacobiCorrected(a, n) % n == ModPow(a, (n - 1) / 2, n)
  }

  /**
    For odd n > 2 the corrected round passes exactly when a is coprime to n and either the
    symbol is 1 with residue 1 or the symbol is -1 with residue n - 1.
  */
  lemma CorrectedRoundSigns(a: int, n: int)
    requires n > 2 && n % 2 == 1
    ensures SolovayStrassenRoundCorrected(a, n)
        <==> Gcd(Abs(a), n) == 1
             && ((JacobiCorrected(a, n) == 1 && ModPow(a, (n - 1) / 2, n) == 1)
                 || (JacobiCorrected(a, n) == -1 && ModPow(a, (n - 1) / 2, n) == n - 1))
  {
    ModUnique(1, n, 0, 1);
    ModUnique(-1, n, -1, n - 1);
  }

  /**
    For an odd prime p and a witness in (0, p) the residue a^((p-1)/2) mod p is 1 or p - 1,
    and the corrected round passes exactly when the symbol is 1 for residue 1 and -1 for
    residue p - 1.
  */
  lemma PrimeRoundMatchesSign(a: int, p: int)
    requires IsPrime(p) && p % 2 == 1 && 0 < a < p
    ensures ModPow(a, (p - 1) / 2, p) == 1 || ModPow(a, (p - 1) / 2, p) == p - 1
    ensures SolovayStrassenRoundCorrected(a, p)
        <==> (JacobiCorrected(a, p) == 1 <==> ModPow(a, (p - 1) / 2, p) == 1)
  {
    ModUnique(a, p, 0, a);
    HalfPowerResidue(a, p);
    PrimeGcd(p, a);
    GcdSymmetric(a, p);
    CorrectedRoundSigns(a, p);
  }

  /** With the comparison modulo n, the prime 5 passes the round with witness 2. */
  lemma CorrectedAcceptsFiveWithTwo()
    ensures SolovayStrassenRoundCorrected(2, 5)
  {
    assert StripTwos(2, 5, 1) == (1, -1);
    assert JacobiLoopCorrected(5 % 1, 1, -1) == -1;
    assert Pow(2, 2) == 4;
  }

  /** The loop as written breaks reciprocity: (3/5) and (5/3) must agree but come out -1 and 1. */
  lemma AsWrittenBreaksReciprocity()
    ensures Jacobi(3, 5) == -1 && Jacobi(5, 3) == 1
  {
    JacobiThreeFive();
    JacobiFiveThree();
  }

  /** The loop as written: (3, 5) swaps with a flip, then (2, 3) strips and swaps, to -1. */
  lemma JacobiThreeFive()
    ensures Jacobi(3, 5) == -1
  {
    assert StripTwos(3, 5, 1) == (3, 1);
    assert StripTwos(2, 3, -1) == (1, 1);
    assert JacobiLoop(0, 1, -1) == -1;
    assert JacobiLoop(2, 3, -1) == -1;
    assert JacobiLoop(3, 5, 1) == -1;
  }

  /** The loop as written: (5, 3) and (3, 5) each flip, then (2, 3) strips and swaps, to 1. */
  lemma JacobiFiveThree()
    ensures Jacobi(5, 3) == 1
  {
    assert StripTwos(5, 3, 1) == (5, 1);
    assert StripTwos(3, 5, -1) == (3, -1);
    assert StripTwos(2, 3, 1) == (1, -1);
    assert JacobiLoop(0, 1, 1) == 1;
    assert JacobiLoop(2, 3, 1) == 1;
    assert JacobiLoop(3, 5, -1) == 1;
    assert JacobiLoop(5, 3, 1) == 1;
  }
}
