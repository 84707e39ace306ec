# Large decimal integers and primality tests, in Dafny

This project models two classes of the `crypto-core` module of
methods-of-cryptographic-mechanisms:

- `core.arithmetic.Large` is a sign-magnitude integer. It stores base-10 digits least significant
  first, plus an `isNegative` flag. It can be built from decimal text, printed, and has `abs`, `sign`,
  magnitude `add` and `subtract`, the digit shift `multiplyByOrder`, the multiply-by-a-small-value
  `multiplyBySimpleValue`, a recursive Karatsuba `multiply`, and `compareTo`.
- `core.primes.PrimeTest` holds the primality tests: trial division on `int`, the even/0/1/2 fast
  path, the Fermat and Solovay-Strassen loops, the Jacobi-symbol loop, and the guard in front of
  Miller-Rabin.

The code is modelled as written, including the places where it departs from what its names and
comments promise. Each departure is stated as a lemma on a concrete input. For the eight departures
listed under "## Findings", a corrected member sits next to it with the intended property proved
about it. The others are stated as lemmas only:
- `add` ignores the argument's sign (LargeProps.AddIgnoresSign);
- `subtract` wraps around (LargeProps.SubtractWraps);
- `multiplyBySimpleValue` drops its last carry (LargeProps.SimpleValueDropsCarry);
- "-0" builds a flagged zero (LargeProps.NegativeZero);
- `multiply` drops both signs (LargeProps.MultiplyIgnoresSign);
- Solovay-Strassen rejects the prime 2 (PrimeProps.NoRoundPassesForTwo).

Modules, one per file:

| file | module | contents |
|---|---|---|
| `results.dfy` | `Results` | `Result<T>` with `Ok`/`Err`, and the two Java exceptions the code can raise |
| `arith.dfy` | `Arith` | `Cmp`, `Min`, `Max`, Java's truncating `/` and `%`, small facts about `%` and products |
| `digits.dfy` | `Digits` | digit lists and their value `Val`, `Trim` (the list's `trim(0)`), decimal text to digits and back |
| `large.dfy` | `LargeArith` | `Large` as written |
| `large_props.dfy` | `LargeProps` | round trips, algebraic laws, and concrete divergences of `Large` |
| `large_corrected.dfy` | `LargeCorrected` | exact Karatsuba, an order-respecting comparison, a canonical constructor |
| `number_theory.dfy` | `NumberTheory` | divisibility, primes, `modPow` as (a^e) mod m, `gcd` as Euclid's algorithm |
| `fermat_little.dfy` | `FermatLittle` | Euclid's lemma, the binomial theorem for (a + 1)^n, Fermat's little theorem, and a^((p-1)/2) mod p in {1, p - 1} |
| `prime_test.dfy` | `PrimeTest` | `PrimeTest` as written |
| `prime_props.dfy` | `PrimeProps` | what trial division accepts and rejects, Solovay-Strassen against the symbol |
| `prime_corrected.dfy` | `PrimeCorrected` | trial division with `<=`, the Jacobi loop with the reciprocity flip fixed |

A `Large` is `Large(digits: seq<int>, neg: bool)` with `digits[0]` the units digit. `Valid` is the
representation that the class comment of Large.java (lines 16-21) documents: at least one digit,
each in [0, 9]. `multiplyBySimpleValue` breaks it for a negative or overflowing multiplier (see
"## Left out"). `Magnitude` is the value of the digits alone.
`Value` is the signed integer; a flagged zero still stands for 0. `Normalized` adds that no
high-order zero survives and that zero is never flagged.

The digit list type `ExtendedArrayList` is not part of this model. Its behaviour is taken as stated:
`get(i, d)` returns `d` past the end, `set(i, v, d)` pads with `d`, and `trim(0)` drops high-order
zeros but keeps at least one digit. In the model these are `Get`, the explicit padding in the digit
loops, and `Trim`.

Java's `/` and `%` truncate toward zero, while Dafny's are Euclidean. They agree on the
non-negative operands of `add`, `subtract` and Karatsuba. `multiplyBySimpleValue` takes any `Integer`,
so it uses the explicit `JavaDiv`/`JavaRem`. The Java integers are unbounded here. In `add`,
`subtract` and Karatsuba every intermediate value stays small, because digits are in [0, 9].
`multiplyBySimpleValue` is the exception: a_i * val + carry is an `int` and overflows once
9 * |val| + carry exceeds 2^31 - 1. For `primality` the loop variable
stays below 46341.

## Model

| member | source | states |
|---|---|---|
| LargeArith.Parse | crypto-core/src/main/java/core/arithmetic/Large.java:34-59 | succeeds exactly on text matching `^-?\d+$`, otherwise a format error; the digits are valid and worth the literal's integer; the flag is set exactly when the text starts with '-'; unsigned text leaves no high-order zero; signed text keeps every digit |
| LargeArith.StripLeadingZeros | crypto-core/src/main/java/core/arithmetic/Large.java:39 | the result is a suffix of the text; only '0' characters were removed; the last character is never removed; a result of two or more characters does not start with '0' |
| LargeArith.ToString | crypto-core/src/main/java/core/arithmetic/Large.java:327-339 | prints a decimal literal whose integer is the number's value; the digit list [0] prints as "0" whatever the flag; a '-' appears exactly for a flagged non-zero |
| LargeArith.Abs | crypto-core/src/main/java/core/arithmetic/Large.java:68-72 | keeps the digits and clears the flag; the value is non-negative and equals x or -x |
| LargeArith.Sign | crypto-core/src/main/java/core/arithmetic/Large.java:75-84 | 0 exactly for the digit list [0]; -1 exactly for a flagged list other than [0]; 1 exactly for an unflagged list other than [0], trimmed or not; on a canonical number it is the sign of the value |
| LargeArith.Add | crypto-core/src/main/java/core/arithmetic/Large.java:93-109 | valid, trimmed digits worth \|x\| + \|y\|; the flag is the receiver's, so the argument's sign is ignored |
| LargeArith.Subtract | crypto-core/src/main/java/core/arithmetic/Large.java:118-132 | valid, trimmed digits with the receiver's flag; worth \|x\| - \|y\| whenever \|y\| <= \|x\| |
| LargeArith.SubtractModulo | crypto-core/src/main/java/core/arithmetic/Large.java:123-128 | for every pair the result is worth (\|x\| - \|y\|) mod 10^(receiver length): a larger argument wraps around instead of changing the sign |
| LargeArith.MultiplyByOrder | crypto-core/src/main/java/core/arithmetic/Large.java:198-206 | multiplies the magnitude by 10^n (no change for n <= 0), keeps the flag, leaves trimmed digits |
| LargeArith.MultiplyBySimpleValue | crypto-core/src/main/java/core/arithmetic/Large.java:214-228 | clears the flag; the result plus the carry lost at the top, times 10^(length+1), is \|x\| * v; exact for 0 <= v <= 10 |
| LargeArith.Partial | crypto-core/src/main/java/core/arithmetic/Large.java:183-189 | the digits at indices [from, to) with the flag clear; valid when non-empty |
| LargeArith.SplitPoint | crypto-core/src/main/java/core/arithmetic/Large.java:156 | min(length) - 1 splits both operands of two or more digits into two non-empty parts |
| LargeArith.HighPart | crypto-core/src/main/java/core/arithmetic/Large.java:158-162 | the part called "high" is the digits at [0, len - mid), which are the low-order ones |
| LargeArith.LowPart | crypto-core/src/main/java/core/arithmetic/Large.java:158-162 | the part called "low" is the top mid digits, [len - mid, len) |
| LargeArith.Combine | crypto-core/src/main/java/core/arithmetic/Large.java:169-171 | worth z2 * 10^(2 mid) + z1 * 10^mid + z0, with z2's flag, trimmed |
| LargeArith.MiddleCallDecreases | crypto-core/src/main/java/core/arithmetic/Large.java:165 | the middle recursive call, on the sums of the parts, lowers (total length, total value) lexicographically, so the recursion terminates |
| LargeArith.Karatsuba | crypto-core/src/main/java/core/arithmetic/Large.java:146-173 | terminates on every pair of valid numbers and returns valid, trimmed digits with the flag never set |
| LargeArith.Multiply | crypto-core/src/main/java/core/arithmetic/Large.java:142-144 | never negative; exact when either factor has a single digit |
| LargeArith.KaratsubaSingleDigit | crypto-core/src/main/java/core/arithmetic/Large.java:147-154 | with a one-digit factor the product is \|x\| * \|y\| |
| LargeArith.ScanFromLow | crypto-core/src/main/java/core/arithmetic/Large.java:311-317 | in {-1, 0, 1}, and 0 exactly when the two lists are equal |
| LargeArith.CompareTo | crypto-core/src/main/java/core/arithmetic/Large.java:280-319 | in {-1, 0, 1}; 0 exactly when flag and digits are equal; non-negative above negative; with equal flags and different lengths the longer is greater for non-negatives and smaller for negatives |
| LargeProps.ParsePrintRoundTrip | crypto-core/src/main/java/core/arithmetic/Large.java:34-59 | canonical decimal text (no leading zero, no "-0") parses, and printing the result gives the text back |
| LargeProps.PrintParseRoundTrip | crypto-core/src/main/java/core/arithmetic/Large.java:327-339 | a normalized number prints to text that parses back to the same number |
| LargeProps.SignedTextKeepsZeros | crypto-core/src/main/java/core/arithmetic/Large.java:39 | "-007" parses to digits [7, 0, 0] with the flag, which compares below -7; its sign is -1 and its absolute value's sign is 1 despite the untrimmed digits |
| LargeProps.NegativeZero | crypto-core/src/main/java/core/arithmetic/Large.java:49-51 | "-0" gives a flagged zero that prints as "0" yet compares below the plain zero |
| LargeProps.AddCommutes | crypto-core/src/main/java/core/arithmetic/Large.java:93-109 | the digits of x + y and y + x are the same |
| LargeProps.AddThenSubtract | crypto-core/src/main/java/core/arithmetic/Large.java:118-132 | for a trimmed a, adding b and then subtracting b gives a back, flag included |
| LargeProps.AddIgnoresSign | crypto-core/src/main/java/core/arithmetic/Large.java:94-101 | 5 + (-3) comes out as 8 |
| LargeProps.SubtractWraps | crypto-core/src/main/java/core/arithmetic/Large.java:123-128 | 3 - 5 comes out as 8 |
| LargeProps.SimpleValueDropsCarry | crypto-core/src/main/java/core/arithmetic/Large.java:219-226 | 99 multiplied by the simple value 11 comes out as 89 |
| LargeProps.KaratsubaCommutes | crypto-core/src/main/java/core/arithmetic/Large.java:146-173 | Karatsuba(x, y) and Karatsuba(y, x) are the same number |
| LargeProps.KaratsubaByZero | crypto-core/src/main/java/core/arithmetic/Large.java:146-173 | a zero factor on either side gives the plain zero |
| LargeProps.KaratsubaTwoDigits | crypto-core/src/main/java/core/arithmetic/Large.java:156-171 | for two-digit operands with small digit sums the result is 100 x0 y0 + 10 (x0 + x1)(y0 + y1) + x1 y1, not the integer product |
| LargeProps.KaratsubaTwelveByThirtyFour | crypto-core/src/main/java/core/arithmetic/Large.java:158-171 | 12 * 34 comes out as 1013 |
| LargeProps.MultiplyIgnoresSign | crypto-core/src/main/java/core/arithmetic/Large.java:214-215 | (-2) * 3 comes out as 6 |
| LargeProps.CompareToAntisymmetric | crypto-core/src/main/java/core/arithmetic/Large.java:280-319 | swapping the operands negates the result |
| LargeProps.CompareToTransitive | crypto-core/src/main/java/core/arithmetic/Large.java:280-319 | "greater than" is transitive, so the comparison is a total order on representations |
| LargeProps.CompareToScansLowestFirst | crypto-core/src/main/java/core/arithmetic/Large.java:311-317 | 19 compares above 21 |
| LargeProps.CompareToIgnoresSignOfScan | crypto-core/src/main/java/core/arithmetic/Large.java:311-317 | -2 compares below -3 |
| LargeCorrected.KaratsubaCorrected | crypto-core/src/main/java/core/arithmetic/Large.java:146-173 | Karatsuba with the parts taken the right way round and z1 - z0 - z2 in the middle: terminates, valid, trimmed, never negative |
| LargeCorrected.KaratsubaCorrectedExact | crypto-core/src/main/java/core/arithmetic/Large.java:168 | the corrected Karatsuba returns exactly \|x\| * \|y\| for all valid inputs |
| LargeCorrected.CorrectedTwelveByThirtyFour | crypto-core/src/main/java/core/arithmetic/Large.java:168 | the corrected Karatsuba gives 12 * 34 = 408 for any representation of 12 and 34 |
| LargeCorrected.ScanFromHigh | crypto-core/src/main/java/core/arithmetic/Large.java:311-317 | the top-down scan is in {-1, 0, 1} and 0 exactly for equal lists |
| LargeCorrected.ScanFromHighOrders | crypto-core/src/main/java/core/arithmetic/Large.java:311-317 | on equal-length digit lists the top-down scan is the order of their values |
| LargeCorrected.CompareCorrected | crypto-core/src/main/java/core/arithmetic/Large.java:280-319 | the comparison with a top-down scan, negated for two negatives: in {-1, 0, 1}, 0 exactly for equal representations |
| LargeCorrected.CompareCorrectedOrders | crypto-core/src/main/java/core/arithmetic/Large.java:280-319 | on normalized numbers the corrected comparison is the order of the integers they stand for |
| LargeCorrected.CorrectedCompareExamples | crypto-core/src/main/java/core/arithmetic/Large.java:311-317 | the corrected comparison puts 19 below 21 and -2 above -3 |
| LargeCorrected.ParseCorrected | crypto-core/src/main/java/core/arithmetic/Large.java:34-59 | the constructor with every leading zero removed: succeeds exactly on decimal literals, and the result is normalized and worth the literal |
| LargeCorrected.ParseCorrectedCanonical | crypto-core/src/main/java/core/arithmetic/Large.java:39 | literals that denote the same integer ("-007", "-7") build the same number |
| NumberTheory.ModPow | crypto-core/src/main/java/core/primes/PrimeTest.java:66 | `modPow` for a positive modulus: a residue in [0, m) congruent to a^e |
| NumberTheory.GcdDivides | crypto-core/src/main/java/core/primes/PrimeTest.java:102 | the gcd divides both arguments |
| NumberTheory.GcdGreatest | crypto-core/src/main/java/core/primes/PrimeTest.java:102 | every positive common divisor divides the gcd |
| PrimeTest.Primality | crypto-core/src/main/java/core/primes/PrimeTest.java:30-41 | false for n <= 1, true for 2 and 3, false for n > 3 divisible by 2 or 3 |
| PrimeTest.PassSimple | crypto-core/src/main/java/core/primes/PrimeTest.java:145-155 | true for 2; false for 0, 1 and every other even number; true for every other odd number, negatives included |
| PrimeTest.Fermat | crypto-core/src/main/java/core/primes/PrimeTest.java:53-74 | false when the fast path fails; true for t <= 0; a thrown `ArithmeticException` for negative n and t > 0; for positive n, true exactly when every witness w satisfies w^(n-1) mod n = 1; a prime with every witness in (0, n) is never rejected |
| PrimeTest.PrimePassesFermatRound | crypto-core/src/main/java/core/primes/PrimeTest.java:62-69 | a prime n passes the round of every witness a with 0 < a < n, the range the code draws from |
| FermatLittle.FermatLittleTheorem | crypto-core/src/main/java/core/primes/PrimeTest.java:65-69 | for a prime p and a >= 0 that p does not divide, a^(p-1) mod p is 1: the fact that makes a residue other than 1 prove n composite |
| PrimeTest.StripTwos | crypto-core/src/main/java/core/primes/PrimeTest.java:185-191 | leaves an odd positive a no larger than before, keeps j a sign, and keeps gcd(a, b) for odd b |
| PrimeTest.SwapStep | crypto-core/src/main/java/core/primes/PrimeTest.java:193-202 | the swap and reduction keep gcd(a, b) and lower the loop measure |
| PrimeTest.JacobiLoop | crypto-core/src/main/java/core/primes/PrimeTest.java:183-209 | terminates with a result in {-1, 0, 1} that is 0 exactly when gcd(a, b) is not 1 |
| PrimeTest.Jacobi | crypto-core/src/main/java/core/primes/PrimeTest.java:166-210 | 0 for negative or even n; otherwise in {-1, 0, 1} and 0 exactly when gcd(\|m\|, n) is not 1 |
| PrimeTest.SolovayStrassen | crypto-core/src/main/java/core/primes/PrimeTest.java:88-115 | false when the fast path fails; true for k <= 0; for negative n, false on a first witness sharing a factor with \|n\| and otherwise a thrown `ArithmeticException`; for positive n, true exactly when every witness is coprime to n and its Jacobi symbol equals a^((n-1)/2) mod n |
| PrimeTest.MillerRabin | crypto-core/src/main/java/core/primes/PrimeTest.java:127-136 | false when the fast path fails; otherwise exactly the verdict of `isProbablePrime`, so with PrimeTest.PrimePassesFastPath a prime is rejected only when the library rejects it |
| PrimeProps.TrialLoopAcceptsPrime | crypto-core/src/main/java/core/primes/PrimeTest.java:36-38 | the trial loop finds no divisor of a prime |
| PrimeProps.PrimalityAcceptsPrimes | crypto-core/src/main/java/core/primes/PrimeTest.java:30-41 | every prime is accepted; a rejected n is at most 1 or has a divisor d with 1 < d < n |
| PrimeProps.TrialLoopExcludes | crypto-core/src/main/java/core/primes/PrimeTest.java:36-38 | a loop that passed from candidate i has ruled out every d prime to 6 from i on with d * d < n |
| PrimeProps.PrimalityNoSmallDivisor | crypto-core/src/main/java/core/primes/PrimeTest.java:36-40 | an accepted n > 3 has no divisor d > 1 with d * d < n |
| PrimeProps.PrimalityAcceptsTwentyFive | crypto-core/src/main/java/core/primes/PrimeTest.java:36 | 25 is accepted although 5 divides it |
| PrimeTest.PrimePassesFastPath | crypto-core/src/main/java/core/primes/PrimeTest.java:145-155 | every prime passes the fast path |
| PrimeProps.RoundNeedsUnitSymbol | crypto-core/src/main/java/core/primes/PrimeTest.java:106-111 | for odd positive n a round passes only with Jacobi symbol 1 and residue 1 |
| PrimeProps.MinusOneFailsRound | crypto-core/src/main/java/core/primes/PrimeTest.java:109 | a witness with Jacobi symbol -1 always fails the round, since the residue is never negative |
| PrimeProps.NoRoundPassesForTwo | crypto-core/src/main/java/core/primes/PrimeTest.java:106-111 | no witness passes a round for n = 2, so SolovayStrassen(2, k) is false for k >= 1 |
| PrimeProps.FiveFailsWitnessTwo | crypto-core/src/main/java/core/primes/PrimeTest.java:106-109 | the prime 5 fails the round with witness 2: the symbol is -1 and the residue is 4, which the integer comparison tells apart |
| PrimeProps.JacobiTwoThree | crypto-core/src/main/java/core/primes/PrimeTest.java:198 | the loop as written gives (2/3) = 1 |
| PrimeCorrected.PrimalityCorrected | crypto-core/src/main/java/core/primes/PrimeTest.java:30-41 | `primality` with the bound i * i <= n: the same small cases as the original |
| PrimeCorrected.PrimalityCorrectedIsPrime | crypto-core/src/main/java/core/primes/PrimeTest.java:36 | with the non-strict bound, trial division accepts exactly the primes |
| PrimeCorrected.CorrectedRejectsTwentyFive | crypto-core/src/main/java/core/primes/PrimeTest.java:36 | the corrected test rejects 25 where the original accepts it |
| PrimeCorrected.JacobiLoopCorrected | crypto-core/src/main/java/core/primes/PrimeTest.java:183-209 | the loop flipping j only when both numbers are 3 mod 4: in {-1, 0, 1}, 0 exactly when gcd(a, b) is not 1 |
| PrimeCorrected.JacobiCorrected | crypto-core/src/main/java/core/primes/PrimeTest.java:166-210 | the corrected symbol: 0 for negative or even n, otherwise 0 exactly when gcd(\|m\|, n) is not 1 |
| PrimeCorrected.SecondSupplement | crypto-core/src/main/java/core/primes/PrimeTest.java:185-202 | the corrected symbol (2/n) is 1 exactly when n is 1 or 7 mod 8 |
| PrimeCorrected.AsWrittenSecondSupplement | crypto-core/src/main/java/core/primes/PrimeTest.java:185-202 | the loop as written gives (2/n) = 1 exactly when n is 1 or 3 mod 8 |
| PrimeCorrected.Reciprocity | crypto-core/src/main/java/core/primes/PrimeTest.java:193-202 | for odd positive m and n, (m/n) = -(n/m) when both are 3 mod 4 and (m/n) = (n/m) otherwise |
| PrimeCorrected.CorrectedRoundSigns | crypto-core/src/main/java/core/primes/PrimeTest.java:101-109 | with the symbol compared as a residue mod n, for odd n > 2 a round passes exactly when the witness is coprime to n and the symbol is 1 with residue 1 or -1 with residue n - 1 |
| PrimeCorrected.PrimeRoundMatchesSign | crypto-core/src/main/java/core/primes/PrimeTest.java:106-109 | for an odd prime p and a witness in (0, p), a^((p-1)/2) mod p is 1 or p - 1, and the corrected round passes exactly when the symbol's sign matches it |
| PrimeCorrected.CorrectedAcceptsFiveWithTwo | crypto-core/src/main/java/core/primes/PrimeTest.java:106-109 | the corrected round accepts the prime 5 with witness 2 |
| FermatLittle.HalfPowerResidue | crypto-core/src/main/java/core/primes/PrimeTest.java:107 | for an odd prime p and a >= 0 that p does not divide, a^((p-1)/2) mod p is 1 or p - 1 |
| PrimeCorrected.AsWrittenBreaksReciprocity | crypto-core/src/main/java/core/primes/PrimeTest.java:198 | the loop as written gives (3/5) = -1 and (5/3) = 1, which reciprocity says must agree |

## Left out

- `divide`, `modulo`, and both `power` methods (Large.java:238-277) only throw `UnsupportedOperationException`, so there is nothing to model.
- `prettyPrint` (Large.java:342-364) is private debug formatting that nothing calls.
- `clone`, `Cloneable` and `CloneNotSupportedException` are left out. Every model operation returns a new value, which is what the clones achieve.
- `ExtendedArrayList` is not part of this model. Only the behaviour of `get`, `set` and `trim` described above is assumed.
- The random witnesses of `Fermat` (`Chaos`) and `SolovayStrassen` (`java.util.Random`) become sequences passed in by the caller. Their range, [2, n-2] for `Fermat`, appears only as the hypothesis of Fermat's guarantee for primes.
- PrimeTest.SolovayStrassen: the witness bound `n.bitLength()^3` (PrimeTest.java:99) is an `int` product, and the wrap-around is not modelled. The product is 0 or negative whenever bitLength^3 mod 2^32 is 0 or at least 2^31: bitLength 0, then 1291-1625, 1861-2048, 2207-2344, 2468-2580, and more ranges above. For those n, `Random.nextInt` throws `IllegalArgumentException` in the first round, so for k >= 1 Java throws. The model instead returns a verdict for positive n, and `Ok(false)` or `Err(ArithmeticError)` for negative n.
- PrimeTest.SolovayStrassen: the only bitLength-0 number the fast path passes is n = -1. There the gcd test always passes, so the model returns `Err(ArithmeticError)` for k >= 1, while Java throws `IllegalArgumentException` from `nextInt(0)`.
- PrimeTest.Fermat: the model assumes that `Chaos.getBigInteger(2, n - 2)` (PrimeTest.java:63) returns normally on every range the fast path lets through, since `Chaos` is not part of this model. Those ranges are inverted for n = 2 (`getBigInteger(2, 0)`), for n = 3 (`getBigInteger(2, 1)`) and for every negative odd n. The model's `Ok` verdicts for n = 2 and n = 3 with t >= 1, and its `Err(ArithmeticError)` for negative n, rest on that assumption.
- LargeArith.MultiplyBySimpleValue: the `int` overflow of a_i * val + carry (Large.java:220) is not modelled. Once 9 * |val| + carry exceeds 2^31 - 1, Java wraps around and the model does not; for example Large("9").multiplyBySimpleValue(238609295) stores [-1, -4] in Java and [5, 5] in the model.
- LargeArith.MultiplyBySimpleValue: with a negative multiplier it stores digits in [-9, 0], as Java's truncating `%` does, and the result is not `Valid`. `add`, `subtract`, `multiply`, `toString` and `sign` accept such objects in Java, but the model's operations require `Valid`, so their behaviour on them is not modelled.
- `MillerRabin` is modelled only up to its guard. `BigInteger.isProbablePrime` is a library call, and its verdict is a parameter.
- `BigInteger.modPow` and `BigInteger.gcd` are their mathematical definitions, not the library's algorithms. `modPow` with a modulus of 0 or below is the exception the code can raise.
- `Math.sqrt` in `primality` is replaced by the integer test i * i < n. No floating point is modelled; the two agree for every `int` n.
- Euler's criterion is proved only in part: FermatLittle.HalfPowerResidue shows that a^((p-1)/2) mod p is 1 or p - 1, but not that its sign agrees with the symbol. So there is no statement that a prime passes every corrected round. The code as written fails such rounds whenever the residue is p - 1 (see PrimeProps.MinusOneFailsRound).
- LargeCorrected.KaratsubaCorrected: its own contract gives only validity and sign; exactness is stated and proved separately in LargeCorrected.KaratsubaCorrectedExact.
- LargeArith.Karatsuba: its contract gives termination, validity and sign only, since the code as written is not the product; what it does compute is stated by LargeProps.KaratsubaTwoDigits and the single-digit lemma.

## Findings

| source | as written | input that shows it | evidently intended | confidence | as-written member | corrected member |
|---|---|---|---|---|---|---|
| crypto-core/src/main/java/core/arithmetic/Large.java:158-171 | the low-order digits are taken as the "high" part, and z0 and z2 are not subtracted from z1 | 12 * 34 gives 1013 | Karatsuba returns the product, as the commented-out line 168 computes | high, not executed | LargeProps.KaratsubaTwelveByThirtyFour | LargeCorrected.KaratsubaCorrectedExact |
| crypto-core/src/main/java/core/arithmetic/Large.java:311-317 | equal-length lists are scanned from index 0, the lowest digit | compareTo(19, 21) is 1 | the highest digit decides | high, not executed | LargeProps.CompareToScansLowestFirst | LargeCorrected.CompareCorrectedOrders |
| crypto-core/src/main/java/core/arithmetic/Large.java:311-317 | the digit scan is not negated when both numbers are negative | compareTo(-2, -3) is -1 | the larger magnitude is the smaller negative number | high, not executed | LargeProps.CompareToIgnoresSignOfScan | LargeCorrected.CompareCorrectedOrders |
| crypto-core/src/main/java/core/arithmetic/Large.java:39 | the leading-zero pattern only matches text that starts with '0', so signed text keeps its zeros | "-007" stores [7, 0, 0] and compares below "-7" | equal literals build equal numbers | medium, not executed | LargeProps.SignedTextKeepsZeros | LargeCorrected.ParseCorrectedCanonical |
| crypto-core/src/main/java/core/primes/PrimeTest.java:36 | the loop bound i < sqrt(n) is strict | primality(25) is true | trial division accepts exactly the primes | high, not executed | PrimeProps.PrimalityAcceptsTwentyFive | PrimeCorrected.PrimalityCorrectedIsPrime |
| crypto-core/src/main/java/core/primes/PrimeTest.java:198 | the reciprocity flip fires when EITHER number is 3 mod 4 | Jacobi(2, 3) is 1; the symbol is -1 | the flip fires when both are 3 mod 4, so (2/n) follows the second supplement | high, not executed | PrimeCorrected.AsWrittenSecondSupplement | PrimeCorrected.SecondSupplement |
| crypto-core/src/main/java/core/primes/PrimeTest.java:198 | the same flip | Jacobi(3, 5) is -1 and Jacobi(5, 3) is 1 | the symbol obeys quadratic reciprocity | high, not executed | PrimeCorrected.AsWrittenBreaksReciprocity | PrimeCorrected.Reciprocity |
| crypto-core/src/main/java/core/primes/PrimeTest.java:109 | the symbol, in {-1, 0, 1}, is compared with the residue a^((n-1)/2) mod n, in [0, n), as integers, so a symbol of -1 never matches | the prime 5 with witness 2: the symbol is -1 and the residue is 4 | the two are compared as residues modulo n, so a^((n-1)/2) = (a/n) mod n passes | high, not executed | PrimeProps.FiveFailsWitnessTwo | PrimeCorrected.PrimeRoundMatchesSign |
