/**
  `core.arithmetic.Large` as written: a sign flag plus base-10 digits stored least
  significant first. Every operation returns a fresh value, as the Java methods return a
  modified clone. The divergences of this code from the documented intent are kept here
  on purpose; the lemmas in LargeProps exhibit them and LargeCorrected repairs them.
*/
module LargeArith {
  import opened Arith
  import opened Digits
  import opened Results

  datatype Large = Large(digits: seq<int>, neg: bool)

  /**
    The representation Large.java:16-21 documents: at least one digit, every digit in
    [0, 9]. `multiplyBySimpleValue` with a negative multiplier builds objects outside it.
  */
  predicate Valid(x: Large) {
    |x.digits| >= 1 && AllDigits(x.digits)
  }

  /** |x|, the value of the digits alone. */
  function Magnitude(x: Large): int {
    Val(x.digits)
  }

  /** The signed integer x stands for; a set flag on a zero magnitude still means 0. */
  function Value(x: Large): int {
    if x.neg then -Val(x.digits) else Val(x.digits)
  }

  /** The canonical form: trimmed digits, and zero never flagged negative. */
  predicate Normalized(x: Large) {
    Valid(x) && Trimmed(x.digits) && !(x.neg && x.digits == [0])
  }

  const Zero: Large := Large([0], false)

  // ---------------------------------------------------------------------------------
  // Construction from text and printing

  /** The constructor's format check `^-?\d+$`. */
  predicate IsDecimalLiteral(s: string) {
    if |s| > 0 && s[0] == '-' then |s| >= 2 && AllDigitChars(s[1..])
    else |s| >= 1 && AllDigitChars(s)
  }

  /** The integer a decimal literal denotes. */
  function LiteralValue(s: string): int
    requires IsDecimalLiteral(s)
  {
    if s[0] == '-' then -TextValue(s[1..]) else TextValue(s)
  }

  /**
    `replaceFirst("^0+(?!$)", "")`: removes the run of leading '0' characters, except that
    the last character of the text is never removed.
  */
  function StripLeadingZeros(s: string): (r: string)
    ensures |r| <= |s| && r == s[|s| - |r|..]
    ensures forall i :: 0 <= i < |s| - |r| ==> s[i] == '0'
    ensures |s| >= 1 ==> |r| >= 1
    ensures |r| >= 2 ==> r[0] != '0'
  {
    if |s| >= 2 && s[0] == '0' then
      var r := StripLeadingZeros(s[1..]);
      StripStep(s, r);
      r
    else s
  }

  /** One removed '0' in front of a suffix of the rest keeps the result a suffix of zeros-stripped text. */
  lemma StripStep(s: string, r: string)
    requires |s| >= 2 && s[0] == '0'
    requires |r| <= |s| - 1 && r == s[1..][|s| - 1 - |r|..]
    requires forall i :: 0 <= i < |s| - 1 - |r| ==> s[1..][i] == '0'
    ensures |r| <= |s| && r == s[|s| - |r|..]
    ensures forall i :: 0 <= i < |s| - |r| ==> s[i] == '0'
  {
    forall i | 0 <= i < |s| - |r|
      ensures s[i] == '0'
    {
      if i > 0 {
        assert s[i] == s[1..][i - 1];
      }
    }
  }

  /** `new Large(String)`: fails with a format error unless the text matches `^-?\d+$`. */
  function Parse(s: string): (r: Result<Large>)
    ensures r.Ok? <==> IsDecimalLiteral(s)
    ensures r.Ok? ==> Valid(r.value) && Value(r.value) == LiteralValue(s)
    ensures r.Ok? ==> (r.value.neg <==> s[0] == '-')
    ensures r.Ok? && s[0] != '-' ==> Trimmed(r.value.digits)
    ensures r.Ok? && s[0] == '-' ==> |r.value.digits| == |s| - 1
  {
    if !IsDecimalLiteral(s) then Err(FormatError)
    else
      StripKeepsValue(s);
      var x := StripLeadingZeros(s);
      if s[0] == '-' then
        NegativeLiteralFacts(s);
        Ok(FromStripped(x))
      else
        PlainLiteralFacts(s);
        Ok(FromStripped(x))
  }

  /** The constructor after the leading zeros are gone: the zero case, the '-' case, the rest. */
  function FromStripped(x: string): Large
    requires IsDecimalLiteral(x)
  {
    if x == "0" then Zero
    else if x[0] == '-' then Large(DigitsOfText(x[1..]), true)
    else Large(DigitsOfText(x), false)
  }

  /** A literal with a '-' keeps all its digits, and the flag. */
  lemma NegativeLiteralFacts(s: string)
    requires IsDecimalLiteral(s) && s[0] == '-'
    ensures var v := FromStripped(StripLeadingZeros(s));
            Valid(v) && Value(v) == LiteralValue(s) && v.neg && |v.digits| == |s| - 1
  {
    StripKeepsValue(s);
    var body := s[1..];
    DigitsOfTextAreDigits(body);
    ValOfText(body);
  }

  /** A literal without a '-' loses its leading zeros and is read as a trimmed, unflagged list. */
  lemma PlainLiteralFacts(s: string)
    requires IsDecimalLiteral(s) && s[0] != '-'
    ensures var v := FromStripped(StripLeadingZeros(s));
            Valid(v) && Value(v) == LiteralValue(s) && !v.neg && Trimmed(v.digits)
  {
    StripKeepsValue(s);
    var x := StripLeadingZeros(s);
    assert x[0] == s[|s| - |x|] && IsDigitChar(x[0]);
    if x == "0" {
      ZeroLiteral();
    } else {
      PlainTextFacts(x);
    }
  }

  /** Unsigned digit text other than "0" with no leading '0' is read as a trimmed, unflagged list. */
  lemma PlainTextFacts(x: string)
    requires IsDecimalLiteral(x) && x[0] != '-' && x != "0"
    requires |x| == 1 || x[0] != '0'
    ensures var v := FromStripped(x);
            Valid(v) && Value(v) == LiteralValue(x) && !v.neg && Trimmed(v.digits)
  {
    assert FromStripped(x) == Large(DigitsOfText(x), false);
    DigitsOfTextAreDigits(x);
    ValOfText(x);
    TrimmedText(x);
  }

  /** The text "0" is read as the plain zero. */
  lemma ZeroLiteral()
    ensures IsDecimalLiteral("0") && LiteralValue("0") == 0
    ensures var v := FromStripped("0");
            Valid(v) && Value(v) == 0 && !v.neg && Trimmed(v.digits)
  {
    ZeroText();
    assert FromStripped("0") == Zero;
  }

  lemma ZeroText()
    ensures TextValue("0") == 0
  {
    assert "0"[..0] == "";
  }

  /** Digit text without a leading '0' (or a single digit) is read as a trimmed list. */
  lemma TrimmedText(x: string)
    requires |x| >= 1 && (|x| == 1 || x[0] != '0')
    ensures Trimmed(DigitsOfText(x))
  {
    var ds := DigitsOfText(x);
    assert ds[|x| - 1] == DigitOf(x[0]);
  }

  lemma {:induction false} TextValueLeadingZero(t: string)
    ensures TextValue(['0'] + t) == TextValue(t)
    decreases |t|
  {
    if |t| > 0 {
      assert (['0'] + t)[..|t|] == ['0'] + t[..|t| - 1];
      TextValueLeadingZero(t[..|t| - 1]);
    }
  }

  lemma TextValueDropZero(t: string)
    requires |t| >= 1 && t[0] == '0'
    ensures TextValue(t) == TextValue(t[1..])
  {
    assert t == ['0'] + t[1..];
    TextValueLeadingZero(t[1..]);
  }

  /** Stripping leading zeros keeps a non-empty text of the same decimal value. */
  lemma {:induction false} StripTextValue(t: string)
    requires |t| >= 1
    ensures |StripLeadingZeros(t)| >= 1
    ensures TextValue(StripLeadingZeros(t)) == TextValue(t)
    decreases |t|
  {
    if |t| >= 2 && t[0] == '0' {
      assert StripLeadingZeros(t) == StripLeadingZeros(t[1..]);
      StripTextValue(t[1..]);
      TextValueDropZero(t);
    }
  }

  /** Stripping leading zeros from digit text leaves digit text. */
  lemma {:induction false} StripDigitChars(t: string)
    requires |t| >= 1 && AllDigitChars(t)
    ensures AllDigitChars(StripLeadingZeros(t))
    decreases |t|
  {
    if |t| >= 2 && t[0] == '0' {
      StripDigitChars(t[1..]);
    }
  }

  /** Stripping leading zeros keeps the literal and its value; a '-' blocks it entirely. */
  lemma StripKeepsValue(s: string)
    requires IsDecimalLiteral(s)
    ensures IsDecimalLiteral(StripLeadingZeros(s))
    ensures LiteralValue(StripLeadingZeros(s)) == LiteralValue(s)
    ensures s[0] == '-' ==> StripLeadingZeros(s) == s
  {
    if s[0] != '-' {
      StripTextValue(s);
      StripDigitChars(s);
      var r := StripLeadingZeros(s);
      assert IsDigitChar(r[0]);
    }
  }

  /** `toString()`: "0" when `sign()` is 0, otherwise an optional '-' and the digits. */
  function ToString(x: Large): (r: string)
    requires Valid(x)
    ensures IsDecimalLiteral(r) && LiteralValue(r) == Value(x)
    ensures x.digits == [0] ==> r == "0"
    ensures r[0] == '-' <==> x.neg && x.digits != [0]
  {
    if Sign(x) == 0 then
      assert TextValue("0") == 0 && Val([0]) == 0;
      "0"
    else
      var body := TextOfDigits(x.digits);
      DigitTextFacts(x.digits);
      if x.neg then "-" + body else body
  }

  /** The digits' text, with or without a '-' in front, is a literal for the right value. */
  lemma DigitTextFacts(ds: seq<int>)
    requires AllDigits(ds) && |ds| >= 1
    ensures IsDecimalLiteral(TextOfDigits(ds)) && TextOfDigits(ds)[0] != '-'
    ensures LiteralValue(TextOfDigits(ds)) == Val(ds)
    ensures IsDecimalLiteral("-" + TextOfDigits(ds))
    ensures LiteralValue("-" + TextOfDigits(ds)) == -Val(ds)
  {
    var body := TextOfDigits(ds);
    TextOfDigitsChars(ds);
    TextOfDigitsValue(ds);
    assert ("-" + body)[1..] == body;
  }

  lemma TextOfDigitsChars(ds: seq<int>)
    requires AllDigits(ds) && |ds| >= 1
    ensures AllDigitChars(TextOfDigits(ds)) && TextOfDigits(ds)[0] != '-'
  {
    var body := TextOfDigits(ds);
    assert forall i :: 0 <= i < |body| ==> IsDigitChar(body[i]);
  }

  lemma TextOfDigitsValue(ds: seq<int>)
    requires AllDigits(ds)
    ensures TextValue(TextOfDigits(ds)) == Val(ds)
  {
    TextDigitsRoundTrip(ds);
    ValOfText(TextOfDigits(ds));
  }

  // ---------------------------------------------------------------------------------
  // abs and sign

  /** `abs()`: the same digits with the flag cleared. */
  function Abs(x: Large): (r: Large)
    ensures r.digits == x.digits && !r.neg
    ensures Valid(x) ==> Valid(r) && Value(r) >= 0
    ensures Valid(x) ==> (Value(r) == Value(x) || Value(r) == -Value(x))
  {
    ValidMagnitudeNonneg(x);
    Large(x.digits, false)
  }

  lemma ValidMagnitudeNonneg(x: Large)
    ensures Valid(x) ==> Magnitude(x) >= 0
  {
    if Valid(x) {
      ValBounds(x.digits);
    }
  }

  /** `sign()`: 0 for the digit list [0], otherwise -1 or 1 by the flag alone, trimmed or not. */
  function Sign(x: Large): (r: int)
    requires Valid(x)
    ensures r == 0 <==> x.digits == [0]
    ensures r == -1 <==> x.neg && x.digits != [0]
    ensures r == 1 <==> !x.neg && x.digits != [0]
    ensures Trimmed(x.digits) && !(x.neg && x.digits == [0]) ==> r == Cmp(Value(x), 0)
  {
    SignFacts(x.digits);
    if |x.digits| == 1 && x.digits[0] == 0 then 0 else if x.neg then -1 else 1
  }

  lemma SignFacts(ds: seq<int>)
    requires AllDigits(ds)
    ensures Val(ds) >= 0
    ensures Trimmed(ds) ==> (Val(ds) == 0 <==> ds == [0])
  {
    ValBounds(ds);
    if Trimmed(ds) {
      TrimmedZero(ds);
    }
  }

  // ---------------------------------------------------------------------------------
  // add and subtract: magnitudes only, the receiver's flag is kept

  /** The loop of `add`: position i gets (a_i + b_i + carry) % 10, for i = 0 .. max(|a|, |b|). */
  function AddDigits(a: seq<int>, b: seq<int>, carry: int): (r: seq<int>)
    ensures |r| == Max(|a|, |b|) + 1
    decreases |a| + |b|
  {
    var sum := Get(a, 0) + Get(b, 0) + carry;
    if |a| == 0 && |b| == 0 then [sum % 10]
    else [sum % 10] + AddDigits(Rest(a), Rest(b), sum / 10)
  }

  lemma ValRest(ds: seq<int>)
    ensures Val(ds) == Get(ds, 0) + 10 * Val(Rest(ds))
  {
  }

  lemma RestDigits(ds: seq<int>)
    requires AllDigits(ds)
    ensures AllDigits(Rest(ds)) && IsDigit(Get(ds, 0))
  {
  }

  lemma {:induction false} AddDigitsVal(a: seq<int>, b: seq<int>, carry: int)
    requires AllDigits(a) && AllDigits(b) && 0 <= carry <= 1
    ensures Val(AddDigits(a, b, carry)) == Val(a) + Val(b) + carry
    decreases |a| + |b|
  {
    var sum := Get(a, 0) + Get(b, 0) + carry;
    RestDigits(a);
    RestDigits(b);
    ValRest(a);
    ValRest(b);
    if |a| > 0 || |b| > 0 {
      var tail := AddDigits(Rest(a), Rest(b), sum / 10);
      AddDigitsVal(Rest(a), Rest(b), sum / 10);
      ValCons(sum % 10, tail);
    }
  }

  lemma {:induction false} AddDigitsDigits(a: seq<int>, b: seq<int>, carry: int)
    requires AllDigits(a) && AllDigits(b) && 0 <= carry <= 1
    ensures AllDigits(AddDigits(a, b, carry))
    decreases |a| + |b|
  {
    var sum := Get(a, 0) + Get(b, 0) + carry;
    RestDigits(a);
    RestDigits(b);
    assert 0 <= sum <= 19;
    assert 0 <= sum / 10 <= 1 && IsDigit(sum % 10);
    if |a| > 0 || |b| > 0 {
      var tail := AddDigits(Rest(a), Rest(b), sum / 10);
      assert AddDigits(a, b, carry) == [sum % 10] + tail;
      AddDigitsDigits(Rest(a), Rest(b), sum / 10);
      ConsDigits(sum % 10, tail);
    }
  }

  lemma ValCons(d: int, ds: seq<int>)
    ensures Val([d] + ds) == d + 10 * Val(ds)
  {
    assert ([d] + ds)[1..] == ds;
  }

  lemma ConsDigits(d: int, ds: seq<int>)
    requires IsDigit(d) && AllDigits(ds)
    ensures AllDigits([d] + ds)
  {
    var r := [d] + ds;
    forall i | 0 <= i < |r|
      ensures IsDigit(r[i])
    {
      if i > 0 {
        assert r[i] == ds[i - 1];
      }
    }
  }

  /** `add(x)`: the magnitudes are added; the flag is copied from the receiver, x's sign is ignored. */
  function Add(x: Large, y: Large): (r: Large)
    requires Valid(x) && Valid(y)
    ensures Valid(r) && Trimmed(r.digits)
    ensures Magnitude(r) == Magnitude(x) + Magnitude(y)
    ensures r.neg == x.neg
  {
    var sum := AddDigits(x.digits, y.digits, 0);
    AddDigitsVal(x.digits, y.digits, 0);
    AddDigitsDigits(x.digits, y.digits, 0);
    TrimVal(sum);
    TrimAllDigits(sum);
    Large(Trim(sum), x.neg)
  }

  /**
    The loop of `subtract`: it walks the receiver's positions only; position i gets
    (a_i - b_i + borrow + 10) % 10 and the borrow out of the last position is dropped.
  */
  function SubDigits(a: seq<int>, b: seq<int>, borrow: int): (r: seq<int>)
    ensures |r| == |a|
  {
    if |a| == 0 then []
    else
      var diff := a[0] - Get(b, 0) + borrow;
      [(diff + 10) % 10] + SubDigits(a[1..], Rest(b), if diff >= 0 then 0 else -1)
  }

  lemma {:induction false} SubDigitsVal(a: seq<int>, b: seq<int>, borrow: int)
    requires AllDigits(a) && AllDigits(b) && -1 <= borrow <= 0
    ensures AllDigits(SubDigits(a, b, borrow))
    ensures Val(SubDigits(a, b, borrow)) == (Val(a) - Val(b) + borrow) % Pow10(|a|)
    decreases |a|
  {
    if |a| == 0 {
      assert Pow10(0) == 1;
    } else {
      var diff := a[0] - Get(b, 0) + borrow;
      var next := if diff >= 0 then 0 else -1;
      var digit := (diff + 10) % 10;
      RestDigits(b);
      ValRest(b);
      SubDigitStep(diff, next, digit);
      var tail := SubDigits(a[1..], Rest(b), next);
      assert SubDigits(a, b, borrow) == [digit] + tail;
      SubDigitsVal(a[1..], Rest(b), next);
      ValCons(digit, tail);
      ConsDigits(digit, tail);
      SubStep(a[0], Val(a[1..]), Get(b, 0), Val(Rest(b)), borrow, next, digit, Pow10(|a| - 1));
      assert Val(a) == a[0] + 10 * Val(a[1..]);
      assert Pow10(|a|) == 10 * Pow10(|a| - 1);
    }
  }

  /** One position of `subtract`: the digit and the borrow passed on. */
  lemma SubDigitStep(diff: int, next: int, digit: int)
    requires -10 <= diff <= 9
    requires next == (if diff >= 0 then 0 else -1) && digit == (diff + 10) % 10
    ensures diff == digit + 10 * next && IsDigit(digit)
  {
    if diff >= 0 {
      ModUnique(diff + 10, 10, 1, diff);
    } else {
      ModUnique(diff + 10, 10, 0, diff + 10);
    }
  }

  /** The arithmetic of one position of `subtract`, modulo 10^len. */
  lemma SubStep(a0: int, ta: int, b0: int, tb: int, borrow: int, next: int, digit: int, p: int)
    requires p > 0 && IsDigit(digit)
    requires a0 - b0 + borrow == digit + 10 * next
    ensures digit + 10 * ((ta - tb + next) % p)
            == ((a0 + 10 * ta) - (b0 + 10 * tb) + borrow) % (10 * p)
  {
    var x := ta - tb + next;
    assert (a0 + 10 * ta) - (b0 + 10 * tb) + borrow == digit + 10 * x;
    ModShift(digit, x, p);
  }

  /**
    `subtract(x)`: the magnitude of x is taken from the receiver's magnitude modulo
    10^(receiver length); the flag is copied from the receiver, x's sign is ignored.
  */
  function Subtract(x: Large, y: Large): (r: Large)
    requires Valid(x) && Valid(y)
    ensures Valid(r) && Trimmed(r.digits)
    ensures r.neg == x.neg
    ensures Magnitude(y) <= Magnitude(x) ==> Magnitude(r) == Magnitude(x) - Magnitude(y)
  {
    var diff := SubDigits(x.digits, y.digits, 0);
    SubDigitsVal(x.digits, y.digits, 0);
    TrimVal(diff);
    TrimAllDigits(diff);
    SmallDifferenceExact(x.digits, y.digits);
    Large(Trim(diff), x.neg)
  }

  /**
    Whatever the operands, `subtract` yields |x| - |y| reduced modulo 10^(receiver length):
    a larger subtrahend wraps around instead of changing the sign.
  */
  lemma SubtractModulo(x: Large, y: Large)
    requires Valid(x) && Valid(y)
    ensures Magnitude(Subtract(x, y)) == (Magnitude(x) - Magnitude(y)) % Pow10(|x.digits|)
  {
    SubDigitsVal(x.digits, y.digits, 0);
    TrimVal(SubDigits(x.digits, y.digits, 0));
  }

  /** When b is worth at most a, reducing a - b modulo 10^|a| changes nothing. */
  lemma SmallDifferenceExact(a: seq<int>, b: seq<int>)
    requires AllDigits(a) && AllDigits(b)
    ensures Val(b) <= Val(a) ==> (Val(a) - Val(b)) % Pow10(|a|) == Val(a) - Val(b)
  {
    ValBounds(a);
    ValBounds(b);
    if Val(b) <= Val(a) {
      ModUnique(Val(a) - Val(b), Pow10(|a|), 0, Val(a) - Val(b));
    }
  }

  // ---------------------------------------------------------------------------------
  // Shifts and single-digit products

  /** `multiplyByOrder(n)`: n zero digits are inserted at the low end, then the list is trimmed. */
  function MultiplyByOrder(x: Large, n: int): (r: Large)
    requires Valid(x)
    ensures Valid(r) && Trimmed(r.digits)
    ensures r.neg == x.neg
    ensures Magnitude(r) == Magnitude(x) * Pow10(if n > 0 then n else 0)
  {
    var k: nat := if n > 0 then n else 0;
    ShiftVal(x.digits, k);
    Large(Trim(Zeros(k) + x.digits), x.neg)
  }

  lemma ShiftVal(ds: seq<int>, k: nat)
    requires AllDigits(ds)
    ensures AllDigits(Trim(Zeros(k) + ds))
    ensures Val(Trim(Zeros(k) + ds)) == Val(ds) * Pow10(k)
  {
    ShiftedVal(ds, k);
    ShiftedDigits(ds, k);
    TrimFacts(Zeros(k) + ds);
  }

  /**
    The loop of `multiplyBySimpleValue`: position i gets (a_i * v + carry) % 10 for
    i = 0 .. |a|, with Java's truncating division; the carry left after position |a|
    is dropped.
  */
  function MulDigits(a: seq<int>, v: int, carry: int): (r: seq<int>)
    ensures |r| == |a| + 1
  {
    var product := Get(a, 0) * v + carry;
    if |a| == 0 then [JavaRem(product, 10)]
    else [JavaRem(product, 10)] + MulDigits(a[1..], v, JavaDiv(product, 10))
  }

  /** The carry `multiplyBySimpleValue` drops after its last position. */
  function DroppedCarry(a: seq<int>, v: int, carry: int): int {
    var product := Get(a, 0) * v + carry;
    if |a| == 0 then JavaDiv(product, 10)
    else DroppedCarry(a[1..], v, JavaDiv(product, 10))
  }

  lemma {:induction false} MulDigitsVal(a: seq<int>, v: int, carry: int)
    ensures Val(MulDigits(a, v, carry)) + Pow10(|a| + 1) * DroppedCarry(a, v, carry)
            == Val(a) * v + carry
    decreases |a|
  {
    var product := Get(a, 0) * v + carry;
    var next := JavaDiv(product, 10);
    if |a| > 0 {
      var tail := MulDigits(a[1..], v, next);
      MulDigitsVal(a[1..], v, next);
      ValCons(JavaRem(product, 10), tail);
      assert MulDigits(a, v, carry) == [JavaRem(product, 10)] + tail;
      MulStep(a[0], Val(a[1..]), v, carry, JavaRem(product, 10), next, Val(tail),
              Pow10(|a|), DroppedCarry(a, v, carry));
    }
  }

  /** The arithmetic of one position of `multiplyBySimpleValue`. */
  lemma MulStep(d: int, tail: int, v: int, carry: int, rem: int, next: int, rest: int,
                p: int, dropped: int)
    requires d * v + carry == 10 * next + rem
    requires rest + p * dropped == tail * v + next
    ensures (rem + 10 * rest) + (10 * p) * dropped == (d + 10 * tail) * v + carry
  {
    assert (10 * p) * dropped == 10 * (p * dropped);
    assert (d + 10 * tail) * v == d * v + 10 * (tail * v);
  }

  lemma {:induction false} MulDigitsDigits(a: seq<int>, v: int, carry: int)
    requires AllDigits(a) && v >= 0 && carry >= 0
    ensures AllDigits(MulDigits(a, v, carry))
    decreases |a|
  {
    var product := Get(a, 0) * v + carry;
    RestDigits(a);
    MulNonneg(Get(a, 0), v);
    if |a| > 0 {
      MulDigitsDigits(a[1..], v, JavaDiv(product, 10));
    }
  }

  /** With a multiplier of at most 10 the carry never exceeds 9, so nothing is dropped. */
  lemma {:induction false} NoDroppedCarry(a: seq<int>, v: int, carry: int)
    requires AllDigits(a) && 0 <= v <= 10 && 0 <= carry <= 9
    ensures DroppedCarry(a, v, carry) == 0
    decreases |a|
  {
    var product := Get(a, 0) * v + carry;
    RestDigits(a);
    assert Get(a, 0) * v <= 9 * 10;
    if |a| > 0 {
      NoDroppedCarry(a[1..], v, JavaDiv(product, 10));
    }
  }

  /**
    `multiplyBySimpleValue(v)`: the magnitude times v, flag cleared. The carry out of the
    last position is lost, which only matters when the multiplier exceeds 10.
  */
  function MultiplyBySimpleValue(x: Large, v: int): (r: Large)
    requires Valid(x)
    ensures !r.neg && Trimmed(r.digits)
    ensures v >= 0 ==> Valid(r)
    ensures Magnitude(r) + Pow10(|x.digits| + 1) * DroppedCarry(x.digits, v, 0)
            == Magnitude(x) * v
    ensures 0 <= v <= 10 ==> Magnitude(r) == Magnitude(x) * v
  {
    SimpleValueVal(x.digits, v);
    MulDigitsFacts(x.digits, v);
    Large(Trim(MulDigits(x.digits, v, 0)), false)
  }

  lemma SimpleValueVal(a: seq<int>, v: int)
    ensures Trimmed(Trim(MulDigits(a, v, 0)))
    ensures Val(Trim(MulDigits(a, v, 0))) + Pow10(|a| + 1) * DroppedCarry(a, v, 0) == Val(a) * v
  {
    MulDigitsVal(a, v, 0);
    TrimVal(MulDigits(a, v, 0));
  }

  lemma MulDigitsFacts(a: seq<int>, v: int)
    requires AllDigits(a)
    ensures 0 <= v <= 10 ==> DroppedCarry(a, v, 0) == 0
    ensures 0 <= v <= 10 ==> Val(Trim(MulDigits(a, v, 0))) == Val(a) * v
    ensures v >= 0 ==> AllDigits(Trim(MulDigits(a, v, 0)))
  {
    if 0 <= v <= 10 {
      NoDroppedCarry(a, v, 0);
      SimpleValueVal(a, v);
    }
    if v >= 0 {
      MulDigitsDigits(a, v, 0);
      TrimAllDigits(MulDigits(a, v, 0));
    }
  }

  // ---------------------------------------------------------------------------------
  // Karatsuba multiplication

  /** `getPartialNumber(from, to)`: the digits in [from, to), untrimmed, flag clear. */
  function Partial(x: Large, from: nat, to: nat): (r: Large)
    requires from <= to <= |x.digits|
    ensures r.digits == x.digits[from..to] && !r.neg
    ensures Valid(x) && from < to ==> Valid(r)
  {
    Large(x.digits[from..to], false)
  }

  /**
    Adding the two halves of a split digit list gives a trimmed list that is no longer
    than the original, and strictly smaller in value when it is as long. This is the
    measure Karatsuba's middle recursive call decreases.
  */
  lemma SplitSumShrinks(ds: seq<int>, k: nat, s: seq<int>)
    requires AllDigits(ds) && 1 <= k < |ds|
    requires AllDigits(s) && Trimmed(s)
    requires Val(s) == Val(ds[..k]) + Val(ds[k..])
    ensures |s| <= |ds|
    ensures |s| == |ds| ==> Val(s) < Val(ds)
  {
    SplitSumNotLonger(ds, k, s);
    if |s| == |ds| {
      SameLengthSmaller(ds, k, s);
    }
  }

  lemma SplitSumNotLonger(ds: seq<int>, k: nat, s: seq<int>)
    requires AllDigits(ds) && 1 <= k < |ds|
    requires AllDigits(s) && Trimmed(s)
    requires Val(s) == Val(ds[..k]) + Val(ds[k..])
    ensures |s| <= |ds|
  {
    HalvesBound(ds, k);
    NotLonger(s, |ds|);
  }

  lemma SameLengthSmaller(ds: seq<int>, k: nat, s: seq<int>)
    requires AllDigits(ds) && 1 <= k < |ds|
    requires AllDigits(s) && Trimmed(s) && |s| == |ds|
    requires Val(s) == Val(ds[..k]) + Val(ds[k..])
    ensures Val(s) < Val(ds)
  {
    ValTopDigit(s);
    HighHalfPositive(ds, k);
    HalvesSumLess(ds, k);
  }

  /** A trimmed list whose value is below 2 * 10^(n-1) has at most n digits. */
  lemma NotLonger(s: seq<int>, n: nat)
    requires AllDigits(s) && Trimmed(s) && n >= 1
    requires Val(s) < 2 * Pow10(n - 1)
    ensures |s| <= n
  {
    if |s| > n {
      ValTopDigit(s);
      Pow10Mono(n, |s| - 1);
    }
  }

  /** Each half of a split list is below 10^(n-1), so their sum is below 2 * 10^(n-1). */
  lemma HalvesBound(ds: seq<int>, k: nat)
    requires AllDigits(ds) && 1 <= k < |ds|
    ensures 0 <= Val(ds[..k]) < Pow10(k) <= Pow10(|ds| - 1)
    ensures 0 <= Val(ds[k..]) < Pow10(|ds| - 1)
  {
    ValBounds(ds[..k]);
    ValBounds(ds[k..]);
    Pow10Mono(k, |ds| - 1);
    Pow10Mono(|ds| - k, |ds| - 1);
  }

  /** A sum of the halves reaching 10^(n-1) forces a non-zero high half. */
  lemma HighHalfPositive(ds: seq<int>, k: nat)
    requires AllDigits(ds) && 1 <= k < |ds|
    requires Val(ds[..k]) + Val(ds[k..]) >= Pow10(|ds| - 1)
    ensures Val(ds[k..]) >= 1
  {
    HalvesBound(ds, k);
  }

  /** With a non-zero high half, the sum of the halves is below the whole. */
  lemma HalvesSumLess(ds: seq<int>, k: nat)
    requires AllDigits(ds) && 1 <= k < |ds| && Val(ds[k..]) >= 1
    ensures Val(ds[..k]) + Val(ds[k..]) < Val(ds)
  {
    ValSplit(ds, k);
    assert Pow10(k) >= 2 by {
      Pow10Mono(1, k);
    }
    MulGrows(Pow10(k), Val(ds[k..]));
  }

  /** Karatsuba's `mid`: one less than the shorter length, so both splits are proper. */
  function SplitPoint(m: nat, n: nat): (mid: nat)
    requires m >= 2 && n >= 2
    ensures 1 <= mid < m && mid < n
  {
    Min(m, n) - 1
  }

  /**
    The part the code calls "high": indices [0, len - mid), which are the LOW-order digits,
    since the list is stored least significant first.
  */
  function HighPart(x: Large, mid: nat): (r: Large)
    requires Valid(x) && 1 <= mid < |x.digits|
    ensures Valid(r) && !r.neg && r.digits == x.digits[..|x.digits| - mid]
  {
    Partial(x, 0, |x.digits| - mid)
  }

  /** The part the code calls "low": the top `mid` digits, indices [len - mid, len). */
  function LowPart(x: Large, mid: nat): (r: Large)
    requires Valid(x) && 1 <= mid < |x.digits|
    ensures Valid(r) && !r.neg && r.digits == x.digits[|x.digits| - mid..]
  {
    Partial(x, |x.digits| - mid, |x.digits|)
  }

  /**
    The combination step as written: z2 * 10^(2 mid) + z1 * 10^mid + z0, with no
    subtraction of z0 and z2 from z1.
  */
  function Combine(mid: nat, z0: Large, z1: Large, z2: Large): (r: Large)
    requires Valid(z0) && Valid(z1) && Valid(z2)
    ensures Valid(r) && Trimmed(r.digits) && r.neg == z2.neg
    ensures Magnitude(r)
            == Magnitude(z2) * Pow10(2 * mid) + Magnitude(z1) * Pow10(mid) + Magnitude(z0)
  {
    Add(MultiplyByOrder(z2, 2 * mid), Add(MultiplyByOrder(z1, mid), z0))
  }

  /** The sum of the two parts, in the order Karatsuba adds them, is worth the parts' sum. */
  lemma PartsSum(x: Large, mid: nat)
    requires Valid(x) && 1 <= mid < |x.digits|
    ensures var s := Add(LowPart(x, mid), HighPart(x, mid));
            var k := |x.digits| - mid;
            Valid(s) && Trimmed(s.digits) && Val(s.digits) == Val(x.digits[..k]) + Val(x.digits[k..])
  {
  }

  /**
    The middle recursive call of Karatsuba, on the sums of the two parts, decreases the
    pair (total length, total value) lexicographically.
  */
  lemma MiddleCallDecreases(x: Large, y: Large, mid: nat, s1: Large, s2: Large)
    requires Valid(x) && Valid(y) && 1 <= mid < |x.digits| && mid < |y.digits|
    requires s1 == Add(LowPart(x, mid), HighPart(x, mid))
    requires s2 == Add(LowPart(y, mid), HighPart(y, mid))
    ensures 0 <= Val(s1.digits) + Val(s2.digits)
    ensures |s1.digits| + |s2.digits| < |x.digits| + |y.digits|
            || (|s1.digits| + |s2.digits| == |x.digits| + |y.digits|
                && Val(s1.digits) + Val(s2.digits) < Val(x.digits) + Val(y.digits))
  {
    HalfSumShrinks(x, mid, s1);
    HalfSumShrinks(y, mid, s2);
  }

  /** The sum of one operand's two parts is no longer than it, and smaller if as long. */
  lemma HalfSumShrinks(x: Large, mid: nat, s: Large)
    requires Valid(x) && 1 <= mid < |x.digits|
    requires s == Add(LowPart(x, mid), HighPart(x, mid))
    ensures 0 <= Val(s.digits) && |s.digits| <= |x.digits|
    ensures |s.digits| == |x.digits| ==> Val(s.digits) < Val(x.digits)
  {
    PartsSum(x, mid);
    SplitSumShrinks(x.digits, |x.digits| - mid, s.digits);
    ValBounds(s.digits);
  }

  /**
    `karatsubaMultiplication(x, y)` as written: a one-digit operand goes to
    `multiplyBySimpleValue`; otherwise the low-order digits are taken as "high" and the
    three partial products are summed without subtracting z0 and z2 from z1.
  */
  function Karatsuba(x: Large, y: Large): (r: Large)
    requires Valid(x) && Valid(y)
    ensures Valid(r) && Trimmed(r.digits) && !r.neg
    decreases |x.digits| + |y.digits|, Val(x.digits) + Val(y.digits)
  {
    if |x.digits| == 1 then MultiplyBySimpleValue(y, x.digits[0])
    else if |y.digits| == 1 then MultiplyBySimpleValue(x, y.digits[0])
    else
      var mid := SplitPoint(|x.digits|, |y.digits|);
      var sum1 := Add(LowPart(x, mid), HighPart(x, mid));
      var sum2 := Add(LowPart(y, mid), HighPart(y, mid));
      MiddleCallDecreases(x, y, mid, sum1, sum2);
      Combine(mid,
              Karatsuba(LowPart(x, mid), LowPart(y, mid)),
              Karatsuba(sum1, sum2),
              Karatsuba(HighPart(x, mid), HighPart(y, mid)))
  }

  /** `multiply(x)`: delegates to Karatsuba; exact when either factor has a single digit. */
  function Multiply(x: Large, y: Large): (r: Large)
    requires Valid(x) && Valid(y)
    ensures Valid(r) && Trimmed(r.digits) && !r.neg
    ensures |x.digits| == 1 || |y.digits| == 1 ==> Magnitude(r) == Magnitude(x) * Magnitude(y)
  {
    KaratsubaSingleDigit(x, y);
    Karatsuba(x, y)
  }

  /** With a one-digit factor Karatsuba is a single `multiplyBySimpleValue`, hence exact. */
  lemma KaratsubaSingleDigit(x: Large, y: Large)
    requires Valid(x) && Valid(y)
    ensures |x.digits| == 1 || |y.digits| == 1
            ==> Magnitude(Karatsuba(x, y)) == Magnitude(x) * Magnitude(y)
  {
    if |x.digits| == 1 {
      KaratsubaDigitTimes(x, y);
    } else if |y.digits| == 1 {
      KaratsubaTimesDigit(x, y);
    }
  }

  lemma KaratsubaDigitTimes(x: Large, y: Large)
    requires Valid(x) && Valid(y) && |x.digits| == 1
    ensures Magnitude(Karatsuba(x, y)) == Magnitude(x) * Magnitude(y)
  {
    assert Karatsuba(x, y) == MultiplyBySimpleValue(y, x.digits[0]);
    OneDigitVal(x.digits);
    assert Magnitude(x) == x.digits[0] && IsDigit(x.digits[0]);
  }

  lemma KaratsubaTimesDigit(x: Large, y: Large)
    requires Valid(x) && Valid(y) && |x.digits| != 1 && |y.digits| == 1
    ensures Magnitude(Karatsuba(x, y)) == Magnitude(x) * Magnitude(y)
  {
    assert Karatsuba(x, y) == MultiplyBySimpleValue(x, y.digits[0]);
    OneDigitVal(y.digits);
    assert Magnitude(y) == y.digits[0] && IsDigit(y.digits[0]);
  }

  // ---------------------------------------------------------------------------------
  // compareTo

  /** The loop of `compareTo`: equal-length lists scanned from index 0, the lowest digit. */
  function ScanFromLow(a: seq<int>, b: seq<int>): (r: int)
    requires |a| == |b|
    ensures r == -1 || r == 0 || r == 1
    ensures r == 0 <==> a == b
  {
    if |a| == 0 then 0
    else if a[0] > b[0] then 1
    else if a[0] < b[0] then -1
    else
      var r := ScanFromLow(a[1..], b[1..]);
      assert a == [a[0]] + a[1..] && b == [b[0]] + b[1..];
      r
  }

  /**
    `compareTo(o)`: flags first, then list equality, then lengths (longer is greater for
    non-negatives and smaller for negatives), then the scan from the lowest digit.
  */
  function CompareTo(x: Large, o: Large): (r: int)
    ensures r == -1 || r == 0 || r == 1
    ensures r == 0 <==> x == o
    ensures !x.neg && o.neg ==> r == 1
    ensures x.neg == o.neg && |x.digits| != |o.digits|
            ==> r == (if (|x.digits| > |o.digits|) != x.neg then 1 else -1)
  {
    if !x.neg && o.neg then 1
    else if x.neg && !o.neg then -1
    else if x.digits == o.digits then 0
    else if |x.digits| > |o.digits| then (if !x.neg then 1 else -1)
    else if |x.digits| < |o.digits| then (if !x.neg then -1 else 1)
    else ScanFromLow(x.digits, o.digits)
  }
}
