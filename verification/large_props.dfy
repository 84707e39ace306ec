/**
  Properties of `core.arithmetic.Large` as written: the text round trips, the laws the
  magnitude operations satisfy, Karatsuba's symmetry, the order `compareTo` defines, and
  concrete inputs on which the code departs from integer arithmetic.
*/
module LargeProps {
  import opened Arith
  import opened Digits
  import opened Results
  import opened LargeArith

  // ---------------------------------------------------------------------------------
  // Text round trips

  /** Canonical decimal text: no leading zero (except "0" itself) and no "-0". */
  predicate Canonical(s: string) {
    IsDecimalLiteral(s)
    && (s[0] == '-' ==> s[1] != '0')
    && (s[0] != '-' ==> (|s| == 1 || s[0] != '0'))
  }

  /** Text the leading-zero removal leaves alone is read digit by digit. */
  lemma ParseUnstripped(s: string)
    requires IsDecimalLiteral(s) && StripLeadingZeros(s) == s && s != "0"
    ensures s[0] == '-' ==> Parse(s) == Ok(Large(DigitsOfText(s[1..]), true))
    ensures s[0] != '-' ==> Parse(s) == Ok(Large(DigitsOfText(s), false))
  {
  }

  /** A digit list other than [0] prints as its digits, behind a '-' when flagged. */
  lemma PrintNonZero(ds: seq<int>, neg: bool)
    requires |ds| >= 1 && AllDigits(ds) && ds != [0]
    ensures ToString(Large(ds, neg)) == (if neg then "-" + TextOfDigits(ds) else TextOfDigits(ds))
  {
  }

  /** The digits of text without a leading '0' are [0] only for "0" itself. */
  lemma TextDigitsNotZero(t: string)
    requires |t| >= 1 && AllDigitChars(t) && t != "0" && (|t| == 1 || t[0] != '0')
    ensures DigitsOfText(t) != [0]
  {
    var ds := DigitsOfText(t);
    assert ds[|t| - 1] == DigitOf(t[0]);
    if |t| == 1 {
      assert t == [t[0]];
    }
  }

  /** Parsing canonical text and printing the result gives the text back. */
  lemma ParsePrintRoundTrip(s: string)
    requires Canonical(s)
    ensures Parse(s).Ok? && ToString(Parse(s).value) == s
  {
    assert StripLeadingZeros(s) == s;
    if s == "0" {
    } else if s[0] == '-' {
      NegativeRoundTrip(s);
    } else {
      PlainRoundTrip(s);
    }
  }

  lemma NegativeRoundTrip(s: string)
    requires Canonical(s) && s[0] == '-'
    ensures Parse(s).Ok? && ToString(Parse(s).value) == s
  {
    var body := s[1..];
    assert StripLeadingZeros(s) == s;
    ParseUnstripped(s);
    TextDigitsNotZero(body);
    PrintNonZero(DigitsOfText(body), true);
    DigitsTextRoundTrip(body);
    assert s == "-" + body;
  }

  lemma PlainRoundTrip(s: string)
    requires Canonical(s) && s[0] != '-' && s != "0"
    ensures Parse(s).Ok? && ToString(Parse(s).value) == s
  {
    assert StripLeadingZeros(s) == s;
    ParseUnstripped(s);
    TextDigitsNotZero(s);
    PrintNonZero(DigitsOfText(s), false);
    DigitsTextRoundTrip(s);
  }

  /** The text of a trimmed digit list other than [0] starts with a non-zero digit. */
  lemma TextOfTrimmed(ds: seq<int>)
    requires |ds| >= 1 && AllDigits(ds) && Trimmed(ds) && ds != [0]
    ensures TextOfDigits(ds) != "0" && TextOfDigits(ds)[0] != '0'
    ensures StripLeadingZeros(TextOfDigits(ds)) == TextOfDigits(ds)
  {
    var body := TextOfDigits(ds);
    assert body[0] == CharOf(ds[|ds| - 1]);
    assert DigitOf(body[0]) == ds[|ds| - 1] != 0;
  }

  /** Printing a canonical value and parsing the text gives the same value back. */
  lemma PrintParseRoundTrip(x: Large)
    requires Normalized(x)
    ensures Parse(ToString(x)) == Ok(x)
  {
    if x.digits == [0] {
      assert ToString(x) == "0";
    } else {
      PrintNonZero(x.digits, x.neg);
      TextOfTrimmed(x.digits);
      TextDigitsRoundTrip(x.digits);
      if x.neg {
        ReadNegativeText(x.digits);
      } else {
        ReadPlainText(x.digits);
      }
    }
  }

  lemma ReadNegativeText(ds: seq<int>)
    requires |ds| >= 1 && AllDigits(ds) && Trimmed(ds) && ds != [0]
    ensures Parse("-" + TextOfDigits(ds)) == Ok(Large(ds, true))
  {
    var body := TextOfDigits(ds);
    var t := "-" + body;
    DigitTextFacts(ds);
    assert t[0] == '-' && t[1..] == body;
    assert StripLeadingZeros(t) == t;
    ParseUnstripped(t);
    assert Parse(t) == Ok(Large(DigitsOfText(body), true));
    TextDigitsRoundTrip(ds);
  }

  lemma ReadPlainText(ds: seq<int>)
    requires |ds| >= 1 && AllDigits(ds) && Trimmed(ds) && ds != [0]
    ensures Parse(TextOfDigits(ds)) == Ok(Large(ds, false))
  {
    var body := TextOfDigits(ds);
    DigitTextFacts(ds);
    TextOfTrimmed(ds);
    TextDigitsRoundTrip(ds);
    ParseUnstripped(body);
  }

  /** A '-' in front stops the leading-zero removal: "-007" keeps three digits. */
  lemma SignedTextKeepsZeros()
    ensures Parse("-007") == Ok(Large([7, 0, 0], true))
    ensures CompareTo(Large([7, 0, 0], true), Large([7], true)) == -1
    ensures Sign(Large([7, 0, 0], true)) == -1 && Sign(Abs(Large([7, 0, 0], true))) == 1
  {
    assert StripLeadingZeros("-007") == "-007";
    NegativeLiteralFacts("-007");
    assert "-007"[1..] == "007";
    assert DigitsOfText("007") == [7, 0, 0] by {
      DigitsOfTextThree('0', '0', '7');
    }
  }

  lemma DigitsOfTextThree(a: char, b: char, c: char)
    ensures DigitsOfText([a, b, c]) == [DigitOf(c), DigitOf(b), DigitOf(a)]
  {
  }

  /** "-0" is a flagged zero: it prints as "0" yet compares below the plain zero. */
  lemma NegativeZero()
    ensures Parse("-0") == Ok(Large([0], true))
    ensures ToString(Large([0], true)) == "0"
    ensures CompareTo(Large([0], true), Zero) == -1
  {
    assert StripLeadingZeros("-0") == "-0";
    NegativeLiteralFacts("-0");
    assert "-0"[1..] == "0";
    assert DigitsOfText("0") == [0];
  }

  // ---------------------------------------------------------------------------------
  // add and subtract

  /** Magnitude addition does not depend on the order of the operands. */
  lemma AddCommutes(a: Large, b: Large)
    requires Valid(a) && Valid(b)
    ensures Add(a, b).digits == Add(b, a).digits
  {
    TrimmedUnique(Add(a, b).digits, Add(b, a).digits);
  }

  /** Adding b and then subtracting b restores a trimmed receiver, flag included. */
  lemma AddThenSubtract(a: Large, b: Large)
    requires Valid(a) && Trimmed(a.digits) && Valid(b)
    ensures Subtract(Add(a, b), b) == a
  {
    var s := Add(a, b);
    ValidMagnitudeNonneg(a);
    ValidMagnitudeNonneg(b);
    var r := Subtract(s, b);
    assert Magnitude(r) == Magnitude(a);
    TrimmedUnique(r.digits, a.digits);
  }

  /** `add` ignores the argument's sign: 5 + (-3) comes out as 8. */
  lemma AddIgnoresSign()
    ensures Add(Large([5], false), Large([3], true)) == Large([8], false)
  {
    assert AddDigits([5], [3], 0) == [8, 0];
  }

  /** `subtract` with a larger argument wraps modulo 10^len: 3 - 5 comes out as 8. */
  lemma SubtractWraps()
    ensures Subtract(Large([3], false), Large([5], false)) == Large([8], false)
  {
    assert SubDigits([3], [5], 0) == [8];
  }

  // ---------------------------------------------------------------------------------
  // multiplyBySimpleValue, Karatsuba

  /** With a two-digit multiplier the last carry is lost: 99 * 11 comes out as 89. */
  lemma SimpleValueDropsCarry()
    ensures MultiplyBySimpleValue(Large([9, 9], false), 11) == Large([9, 8], false)
  {
    SimpleValueDigits();
    SimpleValueUnfold(Large([9, 9], false), 11);
  }

  /** The digits `multiplyBySimpleValue` keeps are the trimmed digit loop. */
  lemma SimpleValueUnfold(x: Large, v: int)
    requires Valid(x)
    ensures MultiplyBySimpleValue(x, v) == Large(Trim(MulDigits(x.digits, v, 0)), false)
  {
  }

  lemma SimpleValueDigits()
    ensures MulDigits([9, 9], 11, 0) == [9, 8, 0] && Trim([9, 8, 0]) == [9, 8]
  {
    assert [9, 9][1..] == [9] && [9][1..] == [];
    assert JavaDiv(99, 10) == 9 && JavaRem(99, 10) == 9;
    assert JavaDiv(108, 10) == 10 && JavaRem(108, 10) == 8;
    assert JavaRem(10, 10) == 0;
    assert MulDigits([], 11, 10) == [0];
    assert MulDigits([9], 11, 9) == [8, 0];
    assert Trim([9, 8, 0]) == [9, 8];
  }

  /** Karatsuba's result does not depend on the order of its operands. */
  lemma {:induction false} KaratsubaCommutes(x: Large, y: Large)
    requires Valid(x) && Valid(y)
    ensures Karatsuba(x, y) == Karatsuba(y, x)
    decreases |x.digits| + |y.digits|, Val(x.digits) + Val(y.digits)
  {
    if |x.digits| == 1 && |y.digits| == 1 {
      KaratsubaDigitTimes(x, y);
      KaratsubaDigitTimes(y, x);
      TrimmedUnique(Karatsuba(x, y).digits, Karatsuba(y, x).digits);
    } else if |x.digits| != 1 && |y.digits| != 1 {
      var mid := SplitPoint(|x.digits|, |y.digits|);
      assert mid == SplitPoint(|y.digits|, |x.digits|);
      var sum1 := Add(LowPart(x, mid), HighPart(x, mid));
      var sum2 := Add(LowPart(y, mid), HighPart(y, mid));
      MiddleCallDecreases(x, y, mid, sum1, sum2);
      KaratsubaCommutes(LowPart(x, mid), LowPart(y, mid));
      KaratsubaCommutes(sum1, sum2);
      KaratsubaCommutes(HighPart(x, mid), HighPart(y, mid));
    }
  }

  /** A zero factor gives the plain zero, on either side. */
  lemma KaratsubaByZero(x: Large)
    requires Valid(x)
    ensures Karatsuba(x, Zero) == Zero && Karatsuba(Zero, x) == Zero
  {
    KaratsubaSingleDigit(x, Zero);
    KaratsubaSingleDigit(Zero, x);
    assert Magnitude(Zero) == 0;
    TrimmedZero(Karatsuba(x, Zero).digits);
    TrimmedZero(Karatsuba(Zero, x).digits);
  }

  /** A trimmed, unflagged result is determined by its magnitude. */
  lemma ByMagnitude(r: Large, ds: seq<int>)
    requires Valid(r) && Trimmed(r.digits) && !r.neg
    requires |ds| >= 1 && AllDigits(ds) && Trimmed(ds) && Magnitude(r) == Val(ds)
    ensures r == Large(ds, false)
  {
    TrimmedUnique(r.digits, ds);
  }

  /** A trimmed value below 10 has a single digit. */
  lemma OneDigit(s: Large)
    requires Valid(s) && Trimmed(s.digits) && Magnitude(s) < 10
    ensures |s.digits| == 1
  {
    if |s.digits| > 1 {
      ValTopDigit(s.digits);
    }
  }

  /** The recursive case of Karatsuba on two two-digit operands: the split falls after one digit. */
  lemma KaratsubaTwoByTwo(x: Large, y: Large)
    requires Valid(x) && Valid(y) && |x.digits| == 2 && |y.digits| == 2
    ensures Karatsuba(x, y)
            == Combine(1, Karatsuba(LowPart(x, 1), LowPart(y, 1)),
                       Karatsuba(Add(LowPart(x, 1), HighPart(x, 1)), Add(LowPart(y, 1), HighPart(y, 1))),
                       Karatsuba(HighPart(x, 1), HighPart(y, 1)))
  {
    assert SplitPoint(2, 2) == 1;
  }

  /** Karatsuba on two single digits is their product. */
  lemma DigitProduct(a: Large, b: Large)
    requires Valid(a) && Valid(b) && |a.digits| == 1 && |b.digits| == 1
    ensures Magnitude(Karatsuba(a, b)) == a.digits[0] * b.digits[0]
  {
    KaratsubaDigitTimes(a, b);
    OneDigitVal(a.digits);
    OneDigitVal(b.digits);
  }

  /** Adding two one-digit parts whose sum stays below 10 gives that one-digit sum. */
  lemma DigitSum(a: Large, b: Large)
    requires Valid(a) && Valid(b) && |a.digits| == 1 && |b.digits| == 1
    requires a.digits[0] + b.digits[0] < 10
    ensures |Add(a, b).digits| == 1 && Add(a, b).digits[0] == a.digits[0] + b.digits[0]
  {
    var s := Add(a, b);
    OneDigitVal(a.digits);
    OneDigitVal(b.digits);
    OneDigit(s);
    OneDigitVal(s.digits);
  }

  /**
    What Karatsuba computes for two-digit operands whose digit sums stay below 10: with
    x = x1 x0 and y = y1 y0 it returns 100 x0 y0 + 10 (x0 + x1)(y0 + y1) + x1 y1, where
    integer multiplication gives 100 x1 y1 + 10 (x1 y0 + x0 y1) + x0 y0.
  */
  lemma KaratsubaTwoDigits(x: Large, y: Large)
    requires Valid(x) && Valid(y) && |x.digits| == 2 && |y.digits| == 2
    requires x.digits[0] + x.digits[1] < 10 && y.digits[0] + y.digits[1] < 10
    ensures Magnitude(Karatsuba(x, y))
            == 100 * (x.digits[0] * y.digits[0])
               + 10 * ((x.digits[0] + x.digits[1]) * (y.digits[0] + y.digits[1]))
               + x.digits[1] * y.digits[1]
  {
    var l1, h1 := LowPart(x, 1), HighPart(x, 1);
    var l2, h2 := LowPart(y, 1), HighPart(y, 1);
    assert l1.digits == [x.digits[1]] && h1.digits == [x.digits[0]];
    assert l2.digits == [y.digits[1]] && h2.digits == [y.digits[0]];
    var s1, s2 := Add(l1, h1), Add(l2, h2);
    DigitSum(l1, h1);
    DigitSum(l2, h2);
    DigitProduct(l1, l2);
    DigitProduct(s1, s2);
    DigitProduct(h1, h2);
    var z0, z1, z2 := Karatsuba(l1, l2), Karatsuba(s1, s2), Karatsuba(h1, h2);
    KaratsubaTwoByTwo(x, y);
    assert Magnitude(Karatsuba(x, y))
           == Magnitude(z2) * Pow10(2) + Magnitude(z1) * Pow10(1) + Magnitude(z0);
    SmallPowers(Magnitude(z2), Magnitude(z1), Magnitude(z0));
  }

  lemma SmallPowers(a: int, b: int, c: int)
    ensures a * Pow10(2) + b * Pow10(1) + c == 100 * a + 10 * b + c
  {
    assert Pow10(2) == 100 && Pow10(1) == 10;
  }

  /** The swapped parts and the missing subtractions give 12 * 34 = 1013 instead of 408. */
  lemma {:induction false} KaratsubaTwelveByThirtyFour(x: Large, y: Large)
    requires x == Large([2, 1], false) && y == Large([4, 3], false)
    ensures Value(x) == 12 && Value(y) == 34
    ensures Value(Karatsuba(x, y)) == 1013
  {
    TwelveAndThirtyFour(x, y);
    TwelveByThirtyFourMagnitude(x, y);
  }

  lemma TwelveAndThirtyFour(x: Large, y: Large)
    requires x == Large([2, 1], false) && y == Large([4, 3], false)
    ensures Value(x) == 12 && Value(y) == 34
  {
  }

  lemma TwelveByThirtyFourMagnitude(x: Large, y: Large)
    requires x == Large([2, 1], false) && y == Large([4, 3], false)
    ensures Magnitude(Karatsuba(x, y)) == 1013
  {
    KaratsubaTwoDigits(x, y);
  }

  /** `multiply` drops both signs: (-2) * 3 comes out as 6. */
  lemma MultiplyIgnoresSign()
    ensures Multiply(Large([2], true), Large([3], false)) == Large([6], false)
  {
    var x, y := Large([2], true), Large([3], false);
    OneDigitVal([2]);
    OneDigitVal([3]);
    OneDigitVal([6]);
    assert Magnitude(Multiply(x, y)) == 6;
    ByMagnitude(Multiply(x, y), [6]);
  }

  // ---------------------------------------------------------------------------------
  // compareTo

  lemma {:induction false} ScanFromLowAntisymmetric(a: seq<int>, b: seq<int>)
    requires |a| == |b|
    ensures ScanFromLow(a, b) == -ScanFromLow(b, a)
  {
    if |a| > 0 && a[0] == b[0] {
      ScanFromLowAntisymmetric(a[1..], b[1..]);
    }
  }

  lemma {:induction false} ScanFromLowTransitive(a: seq<int>, b: seq<int>, c: seq<int>)
    requires |a| == |b| == |c|
    requires ScanFromLow(a, b) == 1 && ScanFromLow(b, c) == 1
    ensures ScanFromLow(a, c) == 1
  {
    if a[0] == b[0] && b[0] == c[0] {
      ScanFromLowTransitive(a[1..], b[1..], c[1..]);
    }
  }

  /** Swapping the operands negates the result. */
  lemma CompareToAntisymmetric(x: Large, o: Large)
    ensures CompareTo(x, o) == -CompareTo(o, x)
  {
    if x.neg == o.neg && |x.digits| == |o.digits| {
      ScanFromLowAntisymmetric(x.digits, o.digits);
    }
  }

  /** "Greater than" is transitive, so `compareTo` is a total order on representations. */
  lemma CompareToTransitive(x: Large, y: Large, z: Large)
    requires CompareTo(x, y) == 1 && CompareTo(y, z) == 1
    ensures CompareTo(x, z) == 1
  {
    if x.neg == y.neg == z.neg && |x.digits| == |y.digits| == |z.digits| {
      ScanFromLowTransitive(x.digits, y.digits, z.digits);
    }
  }

  /** Equal lengths are decided at the lowest digit: 19 compares above 21. */
  lemma CompareToScansLowestFirst()
    ensures CompareTo(Large([9, 1], false), Large([1, 2], false)) == 1
    ensures Value(Large([9, 1], false)) < Value(Large([1, 2], false))
  {
  }

  /**
    For two negatives of the same length the scan result is not negated, so the order of
    the magnitudes is returned: compareTo(-2, -3) is -1 although -2 > -3.
  */
  lemma CompareToIgnoresSignOfScan()
    ensures CompareTo(Large([2], true), Large([3], true)) == -1
    ensures Value(Large([2], true)) > Value(Large([3], true))
  {
  }
}
