/**
  Corrected counterparts of Karatsuba multiplication, `compareTo` and the constructor,
  each with the property the original evidently intends proved about it: the product is
  exact, the comparison orders normalized numbers by the integers they stand for, and
  literals denoting the same integer build the same number.
*/
module LargeCorrected {
  import opened Arith
  import opened Digits
  import opened Results
  import opened LargeArith

  // ---------------------------------------------------------------------------------
  // Karatsuba with the parts the right way round and z1 - z0 - z2 in the middle

  /** The low-order part: the digits at indices [0, mid). */
  function LowDigits(x: Large, mid: nat): (r: Large)
    requires Valid(x) && 1 <= mid < |x.digits|
    ensures Valid(r) && !r.neg && r.digits == x.digits[..mid]
  {
    Partial(x, 0, mid)
  }

  /** The high-order part: the digits at indices [mid, len). */
  function HighDigits(x: Large, mid: nat): (r: Large)
    requires Valid(x) && 1 <= mid < |x.digits|
    ensures Valid(r) && !r.neg && r.digits == x.digits[mid..]
  {
    Partial(x, mid, |x.digits|)
  }

  /** The middle recursive call, on the sums of the parts, decreases the Karatsuba measure. */
  lemma SumsDecrease(x: Large, y: Large, mid: nat, s1: Large, s2: Large)
    requires Valid(x) && Valid(y) && 1 <= mid < |x.digits| && mid < |y.digits|
    requires s1 == Add(LowDigits(x, mid), HighDigits(x, mid))
    requires s2 == Add(LowDigits(y, mid), HighDigits(y, mid))
    ensures 0 <= Val(s1.digits) + Val(s2.digits)
    ensures |s1.digits| + |s2.digits| < |x.digits| + |y.digits|
            || (|s1.digits| + |s2.digits| == |x.digits| + |y.digits|
                && Val(s1.digits) + Val(s2.digits) < Val(x.digits) + Val(y.digits))
  {
    SplitSumShrinks(x.digits, mid, s1.digits);
    SplitSumShrinks(y.digits, mid, s2.digits);
    ValBounds(s1.digits);
    ValBounds(s2.digits);
    if |s1.digits| == |x.digits| && |s2.digits| == |y.digits| {
      ValBounds(x.digits);
    }
  }

  /**
    Karatsuba's identity on integers: with x = a + p b and y = c + p d, the middle term
    (a + b)(c + d) - ac - bd is ad + bc, never negative, and the three terms rebuild x y.
  */
  lemma KaratsubaIdentity(a: int, b: int, c: int, d: int, p: int)
    requires a >= 0 && b >= 0 && c >= 0 && d >= 0
    ensures a * c <= (a + b) * (c + d)
    ensures b * d <= (a + b) * (c + d) - a * c
    ensures (b * d) * (p * p) + ((a + b) * (c + d) - a * c - b * d) * p + a * c
            == (a + p * b) * (c + p * d)
  {
    assert (a + b) * (c + d) == a * c + a * d + b * c + b * d;
    MulNonneg(a, d);
    MulNonneg(b, c);
    assert (a + p * b) * (c + p * d) == a * c + p * (a * d + b * c) + (p * p) * (b * d);
  }

  /**
    Karatsuba multiplication as the algorithm is meant: the low part is the low-order
    digits, and z1 - z0 - z2 is the middle coefficient. KaratsubaCorrectedExact proves the
    product exact.
  */
  function KaratsubaCorrected(x: Large, y: Large): (r: Large)
    requires Valid(x) && Valid(y)
    ensures Valid(r) && Trimmed(r.digits) && !r.neg
    decreases |x.digits| + |y.digits|, Val(x.digits) + Val(y.digits)
  {
    if |x.digits| == 1 then MultiplyBySimpleValue(y, x.digits[0])
    else if |y.digits| == 1 then MultiplyBySimpleValue(x, y.digits[0])
    else
      var mid := SplitPoint(|x.digits|, |y.digits|);
      var sum1 := Add(LowDigits(x, mid), HighDigits(x, mid));
      var sum2 := Add(LowDigits(y, mid), HighDigits(y, mid));
      SumsDecrease(x, y, mid, sum1, sum2);
      var z0 := KaratsubaCorrected(LowDigits(x, mid), LowDigits(y, mid));
      var z1 := KaratsubaCorrected(sum1, sum2);
      var z2 := KaratsubaCorrected(HighDigits(x, mid), HighDigits(y, mid));
      Combine(mid, z0, Subtract(Subtract(z1, z0), z2), z2)
  }

  /** The corrected Karatsuba multiplies exactly. */
  lemma {:induction false} KaratsubaCorrectedExact(x: Large, y: Large)
    requires Valid(x) && Valid(y)
    ensures Magnitude(KaratsubaCorrected(x, y)) == Magnitude(x) * Magnitude(y)
    decreases |x.digits| + |y.digits|, Val(x.digits) + Val(y.digits)
  {
    if |x.digits| == 1 {
      KaratsubaDigitFirst(x, y);
    } else if |y.digits| == 1 {
      KaratsubaDigitSecond(x, y);
    } else {
      var mid := SplitPoint(|x.digits|, |y.digits|);
      var sum1 := Add(LowDigits(x, mid), HighDigits(x, mid));
      var sum2 := Add(LowDigits(y, mid), HighDigits(y, mid));
      SumsDecrease(x, y, mid, sum1, sum2);
      KaratsubaCorrectedExact(LowDigits(x, mid), LowDigits(y, mid));
      KaratsubaCorrectedExact(sum1, sum2);
      KaratsubaCorrectedExact(HighDigits(x, mid), HighDigits(y, mid));
      UnfoldSplit(x, y, mid, sum1, sum2);
      SplitExact(x, y, mid, sum1, sum2,
                 KaratsubaCorrected(LowDigits(x, mid), LowDigits(y, mid)),
                 KaratsubaCorrected(sum1, sum2),
                 KaratsubaCorrected(HighDigits(x, mid), HighDigits(y, mid)));
    }
  }

  lemma KaratsubaDigitFirst(x: Large, y: Large)
    requires Valid(x) && Valid(y) && |x.digits| == 1
    ensures Magnitude(KaratsubaCorrected(x, y)) == Magnitude(x) * Magnitude(y)
  {
    assert KaratsubaCorrected(x, y) == MultiplyBySimpleValue(y, x.digits[0]);
    OneDigitVal(x.digits);
    assert Magnitude(x) == x.digits[0] && IsDigit(x.digits[0]);
  }

  lemma KaratsubaDigitSecond(x: Large, y: Large)
    requires Valid(x) && Valid(y) && |x.digits| != 1 && |y.digits| == 1
    ensures Magnitude(KaratsubaCorrected(x, y)) == Magnitude(x) * Magnitude(y)
  {
    assert KaratsubaCorrected(x, y) == MultiplyBySimpleValue(x, y.digits[0]);
    OneDigitVal(y.digits);
    assert Magnitude(y) == y.digits[0] && IsDigit(y.digits[0]);
  }

  /** With exact recursive products, one split step of the corrected Karatsuba is exact. */
  lemma SplitExact(x: Large, y: Large, mid: nat, s1: Large, s2: Large, z0: Large, z1: Large, z2: Large)
    requires Valid(x) && Valid(y) && 1 <= mid < |x.digits| && mid < |y.digits|
    requires Valid(z0) && Valid(z1) && Valid(z2)
    requires Magnitude(s1) == Magnitude(LowDigits(x, mid)) + Magnitude(HighDigits(x, mid))
    requires Magnitude(s2) == Magnitude(LowDigits(y, mid)) + Magnitude(HighDigits(y, mid))
    requires Magnitude(z0) == Magnitude(LowDigits(x, mid)) * Magnitude(LowDigits(y, mid))
    requires Magnitude(z2) == Magnitude(HighDigits(x, mid)) * Magnitude(HighDigits(y, mid))
    requires Magnitude(z1) == Magnitude(s1) * Magnitude(s2)
    ensures Magnitude(Combine(mid, z0, Subtract(Subtract(z1, z0), z2), z2)) == Magnitude(x) * Magnitude(y)
  {
    CorrectedStep(x, y, mid, s1, s2, z0, z1, z2);
    CombineExact(mid, z0, z1, z2, Magnitude(x) * Magnitude(y));
  }

  /** For two operands of two or more digits, the corrected Karatsuba takes the split branch. */
  lemma UnfoldSplit(x: Large, y: Large, mid: nat, s1: Large, s2: Large)
    requires Valid(x) && Valid(y) && |x.digits| >= 2 && |y.digits| >= 2
    requires mid == SplitPoint(|x.digits|, |y.digits|)
    requires s1 == Add(LowDigits(x, mid), HighDigits(x, mid))
    requires s2 == Add(LowDigits(y, mid), HighDigits(y, mid))
    ensures var z0 := KaratsubaCorrected(LowDigits(x, mid), LowDigits(y, mid));
            var z1 := KaratsubaCorrected(s1, s2);
            var z2 := KaratsubaCorrected(HighDigits(x, mid), HighDigits(y, mid));
            KaratsubaCorrected(x, y) == Combine(mid, z0, Subtract(Subtract(z1, z0), z2), z2)
  {
  }

  /** The three recursive products of the corrected step rebuild the full product. */
  lemma CorrectedStep(x: Large, y: Large, mid: nat, s1: Large, s2: Large, z0: Large, z1: Large, z2: Large)
    requires Valid(x) && Valid(y) && 1 <= mid < |x.digits| && mid < |y.digits|
    requires Magnitude(s1) == Magnitude(LowDigits(x, mid)) + Magnitude(HighDigits(x, mid))
    requires Magnitude(s2) == Magnitude(LowDigits(y, mid)) + Magnitude(HighDigits(y, mid))
    requires Magnitude(z0) == Magnitude(LowDigits(x, mid)) * Magnitude(LowDigits(y, mid))
    requires Magnitude(z2) == Magnitude(HighDigits(x, mid)) * Magnitude(HighDigits(y, mid))
    requires Magnitude(z1) == Magnitude(s1) * Magnitude(s2)
    ensures Magnitude(z0) <= Magnitude(z1)
    ensures Magnitude(z2) <= Magnitude(z1) - Magnitude(z0)
    ensures Magnitude(z2) * Pow10(2 * mid) + (Magnitude(z1) - Magnitude(z0) - Magnitude(z2)) * Pow10(mid)
            + Magnitude(z0)
            == Magnitude(x) * Magnitude(y)
  {
    var a, b := Val(x.digits[..mid]), Val(x.digits[mid..]);
    var c, d := Val(y.digits[..mid]), Val(y.digits[mid..]);
    ValBounds(x.digits[..mid]);
    ValBounds(x.digits[mid..]);
    ValBounds(y.digits[..mid]);
    ValBounds(y.digits[mid..]);
    ValSplit(x.digits, mid);
    ValSplit(y.digits, mid);
    Pow10Add(mid, mid);
    KaratsubaIdentity(a, b, c, d, Pow10(mid));
  }

  /** Subtracting z0 and then z2 from z1 is exact when both fit, and Combine then yields p. */
  lemma CombineExact(mid: nat, z0: Large, z1: Large, z2: Large, p: int)
    requires Valid(z0) && Valid(z1) && Valid(z2)
    requires Magnitude(z0) <= Magnitude(z1) && Magnitude(z2) <= Magnitude(z1) - Magnitude(z0)
    requires Magnitude(z2) * Pow10(2 * mid) + (Magnitude(z1) - Magnitude(z0) - Magnitude(z2)) * Pow10(mid)
             + Magnitude(z0) == p
    ensures Magnitude(Combine(mid, z0, Subtract(Subtract(z1, z0), z2), z2)) == p
  {
    var d := SubtractTwice(z0, z1, z2);
    CombineMagnitude(mid, z0, d, z2, p);
  }

  /** z1 - z0 - z2 by two exact subtractions. */
  lemma SubtractTwice(z0: Large, z1: Large, z2: Large) returns (d: Large)
    requires Valid(z0) && Valid(z1) && Valid(z2)
    requires Magnitude(z0) <= Magnitude(z1) && Magnitude(z2) <= Magnitude(z1) - Magnitude(z0)
    ensures d == Subtract(Subtract(z1, z0), z2)
    ensures Valid(d) && Magnitude(d) == Magnitude(z1) - Magnitude(z0) - Magnitude(z2)
  {
    d := Subtract(Subtract(z1, z0), z2);
  }

  /** Combine of a middle coefficient worth m. */
  lemma CombineMagnitude(mid: nat, z0: Large, d: Large, z2: Large, p: int)
    requires Valid(z0) && Valid(d) && Valid(z2)
    requires Magnitude(z2) * Pow10(2 * mid) + Magnitude(d) * Pow10(mid) + Magnitude(z0) == p
    ensures Magnitude(Combine(mid, z0, d, z2)) == p
  {
  }

  /** The corrected multiplication gives 12 * 34 = 408, whatever the representations. */
  lemma CorrectedTwelveByThirtyFour(x: Large, y: Large)
    requires Valid(x) && Valid(y) && Magnitude(x) == 12 && Magnitude(y) == 34
    ensures Value(KaratsubaCorrected(x, y)) == 408
  {
    KaratsubaCorrectedExact(x, y);
  }

  // ---------------------------------------------------------------------------------
  // compareTo scanning from the most significant digit

  /** Equal-length lists compared from the top digit down. */
  function ScanFromHigh(a: seq<int>, b: seq<int>): (r: int)
    requires |a| == |b|
    ensures r == -1 || r == 0 || r == 1
    ensures r == 0 <==> a == b
  {
    if |a| == 0 then 0
    else
      var n := |a| - 1;
      if a[n] > b[n] then 1
      else if a[n] < b[n] then -1
      else
        var r := ScanFromHigh(a[..n], b[..n]);
        assert a == a[..n] + [a[n]] && b == b[..n] + [b[n]];
        r
  }

  /**
    `compareTo` with the equal-length scan running from the most significant digit and
    its verdict negated for two negatives.
  */
  function CompareCorrected(x: Large, o: Large): (r: int)
    ensures r == -1 || r == 0 || r == 1
    ensures r == 0 <==> x == o
  {
    if !x.neg && o.neg then 1
    else if x.neg && !o.neg then -1
    else if x.digits == o.digits then 0
    else if |x.digits| > |o.digits| then (if !x.neg then 1 else -1)
    else if |x.digits| < |o.digits| then (if !x.neg then -1 else 1)
    else if !x.neg then ScanFromHigh(x.digits, o.digits)
    else -ScanFromHigh(x.digits, o.digits)
  }

  /** A higher top digit outweighs anything the lower digits hold. */
  lemma TopDigitDecides(la: int, lb: int, da: int, db: int, p: int)
    requires 0 <= la < p && 0 <= lb < p && da > db
    ensures la + p * da > lb + p * db
  {
    MulAtLeast(da - db, p);
  }

  /** The top-down scan orders equal-length digit lists by value. */
  lemma {:induction false} ScanFromHighOrders(a: seq<int>, b: seq<int>)
    requires AllDigits(a) && AllDigits(b) && |a| == |b|
    ensures ScanFromHigh(a, b) == Cmp(Val(a), Val(b))
    decreases |a|
  {
    if |a| > 0 {
      var n := |a| - 1;
      ValSplit(a, n);
      ValSplit(b, n);
      assert a[n..] == [a[n]] && b[n..] == [b[n]];
      ValBounds(a[..n]);
      ValBounds(b[..n]);
      if a[n] > b[n] {
        TopDigitDecides(Val(a[..n]), Val(b[..n]), a[n], b[n], Pow10(n));
      } else if a[n] < b[n] {
        TopDigitDecides(Val(b[..n]), Val(a[..n]), b[n], a[n], Pow10(n));
      } else {
        ScanFromHighOrders(a[..n], b[..n]);
      }
    }
  }

  /** A trimmed list longer than another digit list is worth more. */
  lemma LongerIsLarger(a: seq<int>, b: seq<int>)
    requires AllDigits(a) && AllDigits(b) && Trimmed(a) && |a| > |b| >= 1
    ensures Val(a) > Val(b)
  {
    ValTopDigit(a);
    ValBounds(b);
    Pow10Mono(|b|, |a| - 1);
  }

  /** A normalized negative number is below zero. */
  lemma NegativeBelowZero(x: Large)
    requires Normalized(x) && x.neg
    ensures Value(x) < 0
  {
    TrimmedZero(x.digits);
    ValBounds(x.digits);
  }

  /** On normalized numbers the corrected comparison is the order of the integers. */
  lemma CompareCorrectedOrders(x: Large, o: Large)
    requires Normalized(x) && Normalized(o)
    ensures CompareCorrected(x, o) == Cmp(Value(x), Value(o))
  {
    ValBounds(x.digits);
    ValBounds(o.digits);
    if x.neg {
      NegativeBelowZero(x);
    }
    if o.neg {
      NegativeBelowZero(o);
    }
    if x.neg == o.neg && x.digits != o.digits {
      if |x.digits| > |o.digits| {
        LongerIsLarger(x.digits, o.digits);
      } else if |x.digits| < |o.digits| {
        LongerIsLarger(o.digits, x.digits);
      } else {
        ScanFromHighOrders(x.digits, o.digits);
      }
    }
  }

  /** The corrected comparison puts 19 below 21 and -2 above -3. */
  lemma CorrectedCompareExamples()
    ensures CompareCorrected(Large([9, 1], false), Large([1, 2], false)) == -1
    ensures CompareCorrected(Large([2], true), Large([3], true)) == 1
  {
  }

  // ---------------------------------------------------------------------------------
  // Construction that also trims the zeros after a '-'

  /** The canonical representative of x: high zeros trimmed, and no flag on zero. */
  function Normalize(x: Large): (r: Large)
    requires Valid(x)
    ensures Normalized(r) && Value(r) == Value(x)
  {
    TrimFacts(x.digits);
    TrimmedZero(Trim(x.digits));
    Large(Trim(x.digits), x.neg && Trim(x.digits) != [0])
  }

  /** Two normalized numbers with the same value are the same representation. */
  lemma NormalizedUnique(x: Large, y: Large)
    requires Normalized(x) && Normalized(y) && Value(x) == Value(y)
    ensures x == y
  {
    ValBounds(x.digits);
    ValBounds(y.digits);
    if x.neg {
      NegativeBelowZero(x);
    }
    if y.neg {
      NegativeBelowZero(y);
    }
    TrimmedUnique(x.digits, y.digits);
  }

  /** The constructor with every leading zero removed, '-' or not, and "-0" read as 0. */
  function ParseCorrected(s: string): (r: Result<Large>)
    ensures r.Ok? <==> IsDecimalLiteral(s)
    ensures r.Ok? ==> Normalized(r.value) && Value(r.value) == LiteralValue(s)
  {
    match Parse(s)
    case Ok(x) => Ok(Normalize(x))
    case Err(e) => Err(e)
  }

  /** Literals that denote the same integer give the same number. */
  lemma ParseCorrectedCanonical(s: string, t: string)
    requires IsDecimalLiteral(s) && IsDecimalLiteral(t) && LiteralValue(s) == LiteralValue(t)
    ensures ParseCorrected(s) == ParseCorrected(t)
  {
    NormalizedUnique(ParseCorrected(s).value, ParseCorrected(t).value);
  }
}
