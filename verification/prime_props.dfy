/**
  Properties of PrimeTest as written: what trial division accepts and rejects, and what
  the Jacobi symbol forces on a Solovay-Strassen round.
*/
module PrimeProps {
  import opened Arith
  import opened NumberTheory
  import opened PrimeTest

  // ---------------------------------------------------------------------------------
  // Trial division never rejects a prime

  /** Squaring is monotone on non-negative numbers. */
  lemma SquareMono(i: int, d: int)
    requires 0 <= i <= d
    ensures i * i <= d * d
  {
    MulNonneg(d - i, d + i);
  }

  /** i + 2 stays below i * i once i >= 5. */
  lemma NextCandidateBelow(i: int)
    requires i >= 5
    ensures i + 2 < i * i
  {
    MulAtLeast(i, 5);
  }

  /** The trial loop finds no divisor of a prime. */
  lemma {:induction false} TrialLoopAcceptsPrime(n: int, i: int)
    requires i >= 5 && IsPrime(n)
    ensures TrialLoop(n, i)
    decreases n - i
  {
    if i * i < n {
      SquareBelow(i, n);
      NextCandidateBelow(i);
      assert !Divides(i, n) && !Divides(i + 2, n);
      TrialLoopAcceptsPrime(n, i + 6);
    }
  }

  /** `primality` never rejects a prime: a false verdict means n <= 1 or a proper divisor. */
  lemma PrimalityAcceptsPrimes(n: int)
    ensures IsPrime(n) ==> Primality(n)
    ensures !Primality(n) ==> n <= 1 || exists d :: 1 < d < n && Divides(d, n)
  {
    if IsPrime(n) && n > 3 {
      assert !Divides(2, n) && !Divides(3, n);
      TrialLoopAcceptsPrime(n, 5);
    }
  }

  // ---------------------------------------------------------------------------------
  // What trial division accepts

  /**
    The loop at candidate i (i = 5 mod 6) has checked every d = 5 mod 6 from i on and every
    d = 1 mod 6 from i + 2 on, as long as d * d < n.
  */
  lemma {:induction false} TrialLoopExcludes(n: int, i: int, d: int)
    requires i >= 5 && i % 6 == 5 && TrialLoop(n, i)
    requires (d % 6 == 5 && d >= i) || (d % 6 == 1 && d >= i + 2)
    requires d * d < n
    ensures !Divides(d, n)
    decreases n - i
  {
    SquareMono(i, d);
    SquareBelow(i, n);
    if d != i && d != i + 2 {
      CandidateStep(i, d);
      TrialLoopExcludes(n, i + 6, d);
    }
  }

  /** Candidates passed over by one round are still ahead of the next one. */
  lemma CandidateStep(i: int, d: int)
    requires i % 6 == 5 && d != i && d != i + 2
    requires (d % 6 == 5 && d >= i) || (d % 6 == 1 && d >= i + 2)
    ensures (d % 6 == 5 && d >= i + 6) || (d % 6 == 1 && d >= i + 8)
  {
    if d % 6 == 5 {
      ModUnique(d - i, 6, (d / 6) - (i / 6), 0);
    } else {
      ModUnique(d - i, 6, (d / 6) - (i / 6) - 1, 2);
    }
  }

  /** The residues mod 2 and mod 3 are read off the residue mod 6. */
  lemma ModSix(d: int)
    ensures d % 2 == (d % 6) % 2 && d % 3 == (d % 6) % 3
  {
    var q, r := d / 6, d % 6;
    assert d == (3 * q) * 2 + r;
    ModAddMultiple(r, 3 * q, 2);
    assert d == (2 * q) * 3 + r;
    ModAddMultiple(r, 2 * q, 3);
  }

  /** A divisor of a number prime to 2 and 3 is itself prime to 2 and 3. */
  lemma DivisorKeepsCoprimeToSix(d: int, n: int)
    requires d > 1 && n > 0 && Divides(d, n) && n % 2 != 0 && n % 3 != 0
    ensures d % 6 == 1 || d % 6 == 5
  {
    ModSix(d);
    if d % 2 == 0 {
      DividesTransitive(2, d, n);
    }
    if d % 3 == 0 {
      DividesTransitive(3, d, n);
    }
  }

  /**
    An accepted n above 3 has no divisor d > 1 with d * d < n; only a divisor whose square
    is n itself can slip through the strict bound.
  */
  lemma PrimalityNoSmallDivisor(n: int, d: int)
    requires Primality(n) && n > 3
    requires 1 < d && d * d < n
    ensures !Divides(d, n)
  {
    if Divides(d, n) {
      DivisorKeepsCoprimeToSix(d, n);
      TrialLoopExcludes(n, 5, d);
    }
  }

  /** The strict bound `i < Math.sqrt(n)` accepts 25 = 5 * 5. */
  lemma PrimalityAcceptsTwentyFive()
    ensures Primality(25)
    ensures Divides(5, 25) && !IsPrime(25)
  {
    assert TrialLoop(25, 5);
    assert Divides(5, 25);
  }

  // ---------------------------------------------------------------------------------
  // Solovay-Strassen against the Jacobi symbol

  /**
    A round can pass only with a Jacobi symbol of 1: the residue is never negative, so a
    symbol of -1 always fails, and for odd n the gcd test rules out 0.
  */
  lemma RoundNeedsUnitSymbol(a: int, n: int)
    requires n > 0 && n % 2 == 1 && SolovayStrassenRound(a, n)
    ensures Jacobi(a, n) == 1 && ModPow(a, (n - 1) / 2, n) == 1
  {
  }

  /** A symbol of -1 fails the round whatever the residue. */
  lemma MinusOneFailsRound(a: int, n: int)
    requires n > 0 && Jacobi(a, n) == -1
    ensures !SolovayStrassenRound(a, n)
  {
  }

  /**
    n = 2 passes the fast path, but its Jacobi symbol is 0 while a^0 mod 2 is 1: no witness
    passes a round, so SolovayStrassen(2, k) is false for every k >= 1.
  */
  lemma NoRoundPassesForTwo(a: int)
    ensures !SolovayStrassenRound(a, 2)
  {
    assert Jacobi(a, 2) == 0;
    assert Pow(a, 0) == 1;
  }

  /**
    The prime 5 fails the round with witness 2: the symbol (2/5) is -1 and 2^2 mod 5 is 4,
    the same residue class, but -1 and 4 are compared as integers.
  */
  lemma FiveFailsWitnessTwo()
    ensures IsPrime(5) && Jacobi(2, 5) == -1 && ModPow(2, 2, 5) == 4
    ensures !SolovayStrassenRound(2, 5)
  {
    forall d | 1 < d < 5
      ensures !Divides(d, 5)
    {
      assert d == 2 || d == 3 || d == 4;
    }
    assert StripTwos(2, 5, 1) == (1, -1);
    assert JacobiLoop(5 % 1, 1, -1) == -1;
  }

  /** The Jacobi loop as written gives (2/3) = 1, where the symbol is -1. */
  lemma JacobiTwoThree()
    ensures Jacobi(2, 3) == 1
  {
  }
}
