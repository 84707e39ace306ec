/**
  `core.primes.PrimeTest` as written. Random witnesses become explicit sequences, the
  `BigInteger` operations become their mathematical definitions (NumberTheory), and the
  library call behind `MillerRabin` becomes a parameter. The divergences from the
  documented intent are kept; PrimeProps exhibits them.
*/
module PrimeTest {
  import opened Arith
  import opened NumberTheory
  import opened Results
  import opened FermatLittle

  // ---------------------------------------------------------------------------------
  // Trial division

  /** i*i < n with i >= 5 forces i < n, the measure of the trial loop. */
  lemma SquareBelow(i: int, n: int)
    requires i >= 5 && i * i < n
    ensures i < n
  {
    MulGrows(i, i);
  }

  /**
    The loop of `primality`: candidates i and i + 2 for i = 5, 11, 17, ... while i is
    below the square root of n. `i < Math.sqrt(n)` is taken as `i * i < n`.
  */
  function TrialLoop(n: int, i: int): bool
    requires i >= 5
    decreases n - i
  {
    if i * i < n then
      SquareBelow(i, n);
      if n % i == 0 || n % (i + 2) == 0 then false else TrialLoop(n, i + 6)
    else true
  }

  /** `primality(n)`: the small cases, the divisibility by 2 and 3, then the trial loop. */
  function Primality(n: int): (r: bool)
    ensures n <= 1 ==> !r
    ensures n == 2 || n == 3 ==> r
    ensures n > 3 && (n % 2 == 0 || n % 3 == 0) ==> !r
  {
    if n <= 1 then false
    else if n <= 3 then true
    else if n % 2 == 0 || n % 3 == 0 then false
    else TrialLoop(n, 5)
  }

  // ---------------------------------------------------------------------------------
  // The shared fast path

  /**
    `passSimpleVerificationForPrimarility(n)`: true for 2, false for 0, 1 and every other
    even number, true for everything else, negative odd numbers included.
  */
  function PassSimple(n: int): (r: bool)
    ensures n == 2 ==> r
    ensures n == 0 || n == 1 || (n != 2 && n % 2 == 0) ==> !r
    ensures n % 2 == 1 && n != 1 ==> r
  {
    if n == 2 then true
    else if n == 1 || n == 0 || n % 2 == 0 then false
    else true
  }

  /** Every prime passes the fast path, so none of the three tests rejects a prime there. */
  lemma PrimePassesFastPath(n: int)
    requires IsPrime(n)
    ensures PassSimple(n)
  {
    if n != 2 {
      assert !Divides(2, n);
    }
  }

  // ---------------------------------------------------------------------------------
  // Fermat

  /** One Fermat round with witness a: a^(n-1) mod n is 1. */
  predicate FermatRound(a: int, n: int)
    requires n > 0
  {
    ModPow(a, n - 1, n) == 1
  }

  /** By Fermat's little theorem, a prime passes every round whose witness lies in (0, n). */
  lemma PrimePassesFermatRound(a: int, n: int)
    ensures IsPrime(n) && 0 < a < n ==> FermatRound(a, n)
  {
    if IsPrime(n) && 0 < a < n {
      ModUnique(a, n, 0, a);
      FermatLittleTheorem(a, n);
    }
  }

  /**
    `Fermat(n, t)` with the t random witnesses supplied as `witnesses[0..t)`. A modulus
    below 1 makes `modPow` throw, which happens for the negative odd numbers the fast
    path lets through.
  */
  method Fermat(n: int, t: int, witnesses: seq<int>) returns (r: Result<bool>)
    requires t <= |witnesses|
    ensures !PassSimple(n) ==> r == Ok(false)
    ensures PassSimple(n) && t <= 0 ==> r == Ok(true)
    ensures PassSimple(n) && n < 0 && t > 0 ==> r == Err(ArithmeticError)
    ensures PassSimple(n) && n > 0
            ==> r.Ok? && (r.value <==> forall k :: 0 <= k < t ==> FermatRound(witnesses[k], n))
    ensures IsPrime(n) && (forall k :: 0 <= k < t ==> 0 < witnesses[k] < n) ==> r == Ok(true)
  {
    if !PassSimple(n) {
      if IsPrime(n) {
        PrimePassesFastPath(n);
      }
      return Ok(false);
    }
    var i := 0;
    while i < t
      invariant 0 <= i <= Max(t, 0)
      invariant n < 0 ==> i == 0
      invariant n > 0 ==> forall k :: 0 <= k < i ==> FermatRound(witnesses[k], n)
    {
      if n <= 0 {
        return Err(ArithmeticError);
      }
      var residue := ModPow(witnesses[i], n - 1, n);
      if residue != 1 {
        PrimePassesFermatRound(witnesses[i], n);
        return Ok(false);
      }
      i := i + 1;
    }
    return Ok(true);
  }

  // ---------------------------------------------------------------------------------
  // Jacobi symbol

  /**
    The inner loop of `Jacobi`: halve a while it is even, flipping j each time
    b mod 8 is 3 or 5.
  */
  function StripTwos(a: nat, b: nat, j: int): (r: (nat, int))
    requires a > 0
    ensures 0 < r.0 <= a && r.0 % 2 == 1
    ensures j == 1 || j == -1 ==> r.1 == 1 || r.1 == -1
    ensures b % 2 == 1 ==> Gcd(r.0, b) == Gcd(a, b)
    decreases a
  {
    if a % 2 == 0 then
      HalveKeepsGcd(a, b);
      StripTwos(a / 2, b, if b % 8 == 3 || b % 8 == 5 then -j else j)
    else (a, j)
  }

  lemma HalveKeepsGcd(a: nat, b: nat)
    requires a > 0 && a % 2 == 0
    ensures b % 2 == 1 ==> Gcd(a, b) == Gcd(a / 2, b)
  {
    if b % 2 == 1 {
      GcdHalve(a, b);
    }
  }

  /**
    The outer loop of `Jacobi`, with b odd and positive: strip the twos from a, swap a
    and b, flip j when EITHER of them is 3 mod 4, reduce a modulo b; at a == 0 the answer
    is j if b == 1 and 0 otherwise. The final b is gcd(a, b), so the answer is 0 exactly
    when a and b share a factor.
  */
  function JacobiLoop(a: nat, b: nat, j: int): (r: int)
    requires b % 2 == 1
    requires j == 1 || j == -1
    ensures r == -1 || r == 0 || r == 1
    ensures r == 0 <==> Gcd(a, b) != 1
    decreases a + b, if a >= b then 1 else 0
  {
    if a == 0 then
      GcdZero(b);
      if b == 1 then j else 0
    else
      var (odd, j1) := StripTwos(a, b, j);
      var j2 := if b % 4 == 3 || odd % 4 == 3 then -j1 else j1;
      SwapStep(a, b, odd);
      JacobiLoop(b % odd, odd, j2)
  }

  /**
    One round of the outer loop keeps the gcd and decreases (a + b, a >= b)
    lexicographically: the new pair is (b mod odd, odd) with odd <= a.
  */
  lemma SwapStep(a: nat, b: nat, odd: nat)
    requires 0 < odd <= a && b % 2 == 1 && Gcd(odd, b) == Gcd(a, b)
    ensures Gcd(b % odd, odd) == Gcd(a, b)
    ensures b % odd < odd
    ensures b % odd + odd < a + b || (b % odd + odd == a + b && a >= b)
  {
    GcdSymmetric(odd, b);
    GcdReduce(b, odd);
    ModBelow(b, odd);
  }

  lemma ModBelow(b: nat, m: nat)
    requires m > 0
    ensures b % m <= b && b % m < m
    ensures b < m ==> b % m == b
  {
    if b < m {
      ModUnique(b, m, 0, b);
    }
  }

  /**
    `Jacobi(m, n)`: 0 for negative or even n; otherwise m's sign is removed (flipping j
    when n is 3 mod 4) and the loop runs from (|m|, n).
  */
  function Jacobi(m: int, n: int): (r: int)
    ensures r == -1 || r == 0 || r == 1
    ensures n < 0 || n % 2 == 0 ==> r == 0
    ensures n > 0 && n % 2 == 1 ==> (r == 0 <==> Gcd(Abs(m), n) != 1)
  {
    if n < 0 || n % 2 == 0 then 0
    else
      var j := if m < 0 && n % 4 == 3 then -1 else 1;
      JacobiLoop(Abs(m), n, j)
  }

  // ---------------------------------------------------------------------------------
  // Solovay-Strassen

  /**
    One Solovay-Strassen round with witness a: a and n coprime, and the Jacobi symbol
    (in {-1, 0, 1}) EQUAL to the residue a^((n-1)/2) mod n (in [0, n)).
  */
  predicate SolovayStrassenRound(a: int, n: int)
    requires n > 0
  {
    Gcd(Abs(a), n) == 1 && Jacobi(a, n) == ModPow(a, (n - 1) / 2, n)
  }

  /**
    `SolovayStrassen(n, k)` with the k random witnesses supplied as `witnesses[0..k)`.
    The gcd test comes first; `modPow` throws for a negative modulus, after the gcd test
    and the Jacobi symbol.
  */
  method SolovayStrassen(n: int, k: int, witnesses: seq<int>) returns (r: Result<bool>)
    requires k <= |witnesses|
    ensures !PassSimple(n) ==> r == Ok(false)
    ensures PassSimple(n) && k <= 0 ==> r == Ok(true)
    ensures PassSimple(n) && n < 0 && k > 0
            ==> r == (if Gcd(Abs(witnesses[0]), Abs(n)) != 1 then Ok(false) else Err(ArithmeticError))
    ensures PassSimple(n) && n > 0
            ==> r.Ok? && (r.value <==> forall i :: 0 <= i < k ==> SolovayStrassenRound(witnesses[i], n))
  {
    if !PassSimple(n) {
      return Ok(false);
    }
    var i := 0;
    while i < k
      invariant 0 <= i <= Max(k, 0)
      invariant n < 0 ==> i == 0
      invariant n > 0 ==> forall l :: 0 <= l < i ==> SolovayStrassenRound(witnesses[l], n)
    {
      var a := witnesses[i];
      if Gcd(Abs(a), Abs(n)) != 1 {
        return Ok(false);
      }
      var jacobi := Jacobi(a, n);
      if n <= 0 {
        return Err(ArithmeticError);
      }
      var condition := ModPow(a, (n - 1) / 2, n);
      if jacobi != condition {
        return Ok(false);
      }
      i := i + 1;
    }
    return Ok(true);
  }

  // ---------------------------------------------------------------------------------
  // Miller-Rabin

  /**
    `MillerRabin(n)`: the fast path, then `n.isProbablePrime(bitLength^2)`, whose
    verdict is supplied as `libraryVerdict`.
  */
  function MillerRabin(n: int, libraryVerdict: bool): (r: bool)
    ensures !PassSimple(n) ==> !r
    ensures r ==> libraryVerdict
    ensures PassSimple(n) ==> r == libraryVerdict
  {
    PassSimple(n) && libraryVerdict
  }
}
