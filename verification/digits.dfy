/**
  Base-10 digit lists stored least-significant digit first, as the `ExtendedArrayList<Integer>`
  inside `Large` holds them, together with the three list operations `Large` relies on
  (`get(i, 0)`, `set(i, v, 0)`, `trim(0)`) and the conversions between digit lists and
  decimal text.
*/
module Digits {
  import opened Arith


  function Pow10(n: nat): (r: nat)
    ensures r >= 1
  {
    if n == 0 then 1 else 10 * Pow10(n - 1)
  }

  predicate IsDigit(d: int) {
    0 <= d < 10
  }

  predicate AllDigits(ds: seq<int>) {
    forall i :: 0 <= i < |ds| ==> IsDigit(ds[i])
  }

  /** The number a digit list stands for: the sum of ds[i] * 10^i. */
  function Val(ds: seq<int>): int {
    if |ds| == 0 then 0 else ds[0] + 10 * Val(ds[1..])
  }

  /** A one-digit list is worth its digit. */
  lemma OneDigitVal(ds: seq<int>)
    requires |ds| == 1
    ensures Val(ds) == ds[0]
  {
    assert ds[1..] == [];
  }

  /** `get(i, 0)`: positions past the end read as the default 0. */
  function Get(ds: seq<int>, i: nat): int {
    if i < |ds| then ds[i] else 0
  }

  /** The list without its lowest digit; the empty list stays empty. */
  function Rest(ds: seq<int>): seq<int> {
    if |ds| == 0 then [] else ds[1..]
  }

  /** No high-order zero digit (vacuously true of the empty list). */
  predicate NoHighZero(ds: seq<int>) {
    |ds| == 0 || ds[|ds| - 1] != 0
  }

  /** The shape `trim(0)` leaves behind: a lone digit, or a non-zero top digit. */
  predicate Trimmed(ds: seq<int>) {
    |ds| == 1 || (|ds| > 1 && ds[|ds| - 1] != 0)
  }

  /**
    `trim(0)`: drops high-order zero digits but always keeps at least one digit.
    The list class itself is not part of this model; this is the behaviour `Large` assumes.
  */
  function Trim(ds: seq<int>): (r: seq<int>)
    ensures |ds| >= 1 ==> Trimmed(r)
    ensures |r| <= |ds| && r == ds[..|r|]
    ensures forall i :: |r| <= i < |ds| ==> ds[i] == 0
    decreases |ds|
  {
    if |ds| > 1 && ds[|ds| - 1] == 0 then Trim(ds[..|ds| - 1]) else ds
  }

  /** `n` zero digits, the low end `multiplyByOrder(n)` inserts. */
  function Zeros(n: nat): (r: seq<int>)
    ensures |r| == n && forall i :: 0 <= i < n ==> r[i] == 0
  {
    seq(n, _ => 0)
  }

  lemma {:induction false} Pow10Mono(i: nat, j: nat)
    requires i <= j
    ensures Pow10(i) <= Pow10(j)
    decreases j
  {
    if i < j {
      Pow10Mono(i, j - 1);
    }
  }

  lemma {:induction false} Pow10Add(i: nat, j: nat)
    ensures Pow10(i + j) == Pow10(i) * Pow10(j)
    decreases i
  {
    if i > 0 {
      Pow10Add(i - 1, j);
    }
  }

  lemma {:induction false} ValAppend(p: seq<int>, q: seq<int>)
    ensures Val(p + q) == Val(p) + Pow10(|p|) * Val(q)
    decreases |p|
  {
    if |p| == 0 {
      assert p + q == q;
    } else {
      assert (p + q)[1..] == p[1..] + q;
      ValAppend(p[1..], q);
      calc {
        Val(p + q);
        p[0] + 10 * Val(p[1..] + q);
        p[0] + 10 * (Val(p[1..]) + Pow10(|p| - 1) * Val(q));
        p[0] + 10 * Val(p[1..]) + (10 * Pow10(|p| - 1)) * Val(q);
      }
    }
  }

  /** Splitting a list at `k` splits its value into a low part and a shifted high part. */
  lemma ValSplit(ds: seq<int>, k: nat)
    requires k <= |ds|
    ensures Val(ds) == Val(ds[..k]) + Pow10(k) * Val(ds[k..])
  {
    assert ds == ds[..k] + ds[k..];
    ValAppend(ds[..k], ds[k..]);
  }

  lemma {:induction false} ValBounds(ds: seq<int>)
    requires AllDigits(ds)
    ensures 0 <= Val(ds) < Pow10(|ds|)
    decreases |ds|
  {
    if |ds| > 0 {
      ValBounds(ds[1..]);
    }
  }

  /** A list whose top digit is non-zero is worth at least 10^(length-1). */
  lemma ValTopDigit(ds: seq<int>)
    requires AllDigits(ds) && |ds| >= 1 && ds[|ds| - 1] != 0
    ensures Val(ds) >= Pow10(|ds| - 1)
  {
    var n := |ds| - 1;
    ValSplit(ds, n);
    assert ds[n..] == [ds[n]];
    ValBounds(ds[..n]);
  }

  lemma {:induction false} ValZeros(n: nat)
    ensures Val(Zeros(n)) == 0
    decreases n
  {
    if n > 0 {
      assert Zeros(n)[1..] == Zeros(n - 1);
      ValZeros(n - 1);
    }
  }

  /** Inserting k zero digits at the low end multiplies the value by 10^k. */
  lemma ShiftedVal(ds: seq<int>, k: nat)
    ensures Val(Zeros(k) + ds) == Val(ds) * Pow10(k)
  {
    ValAppend(Zeros(k), ds);
    ValZeros(k);
  }

  lemma ShiftedDigits(ds: seq<int>, k: nat)
    requires AllDigits(ds)
    ensures AllDigits(Zeros(k) + ds)
  {
    var shifted := Zeros(k) + ds;
    forall i | 0 <= i < |shifted|
      ensures IsDigit(shifted[i])
    {
      if i >= k {
        assert shifted[i] == ds[i - k];
      }
    }
  }

  /** `trim(0)` keeps the digits valid and the value unchanged. */
  lemma TrimFacts(ds: seq<int>)
    requires AllDigits(ds)
    ensures AllDigits(Trim(ds)) && Val(Trim(ds)) == Val(ds)
  {
    TrimVal(ds);
    TrimAllDigits(ds);
  }

  lemma {:induction false} TrimVal(ds: seq<int>)
    ensures Val(Trim(ds)) == Val(ds)
    decreases |ds|
  {
    if |ds| > 1 && ds[|ds| - 1] == 0 {
      var n := |ds| - 1;
      TrimVal(ds[..n]);
      ValSplit(ds, n);
      assert ds[n..] == [0];
    }
  }

  lemma TrimAllDigits(ds: seq<int>)
    requires AllDigits(ds)
    ensures AllDigits(Trim(ds))
  {
    var r := Trim(ds);
    assert forall i :: 0 <= i < |r| ==> r[i] == ds[i];
  }

  /** Over digits, the value is 0 exactly when every digit is 0. */
  lemma {:induction false} ValZeroIff(ds: seq<int>)
    requires AllDigits(ds)
    ensures Val(ds) == 0 <==> forall i :: 0 <= i < |ds| ==> ds[i] == 0
    decreases |ds|
  {
    if |ds| > 0 {
      ValZeroIff(ds[1..]);
      ValBounds(ds[1..]);
      if forall i :: 0 <= i < |ds| ==> ds[i] == 0 {
        forall i | 0 <= i < |ds| - 1
          ensures ds[1..][i] == 0
        {
          assert ds[1..][i] == ds[i + 1];
        }
      }
      if Val(ds) == 0 {
        forall i | 0 <= i < |ds|
          ensures ds[i] == 0
        {
          if i > 0 {
            assert ds[i] == ds[1..][i - 1];
          }
        }
      }
    }
  }

  /** A units digit and the rest are determined by the number they make up. */
  lemma HeadAndTail(d1: int, t1: int, d2: int, t2: int)
    requires IsDigit(d1) && IsDigit(d2) && d1 + 10 * t1 == d2 + 10 * t2
    ensures d1 == d2 && t1 == t2
  {
    ModUnique(d1 + 10 * t1, 10, t1, d1);
    ModUnique(d2 + 10 * t2, 10, t2, d2);
  }

  /** Two lists without high-order zeros are equal when their values are. */
  lemma {:induction false} NoHighZeroUnique(a: seq<int>, b: seq<int>)
    requires AllDigits(a) && AllDigits(b)
    requires NoHighZero(a) && NoHighZero(b)
    requires Val(a) == Val(b)
    ensures a == b
    decreases |a|
  {
    if |a| == 0 && |b| > 0 {
      ValTopDigit(b);
    } else if |a| > 0 && |b| == 0 {
      ValTopDigit(a);
    } else if |a| > 0 {
      HeadAndTail(a[0], Val(a[1..]), b[0], Val(b[1..]));
      assert NoHighZero(a[1..]) && NoHighZero(b[1..]);
      NoHighZeroUnique(a[1..], b[1..]);
      assert a == [a[0]] + a[1..];
      assert b == [b[0]] + b[1..];
    }
  }

  /** Trimmed digit lists are canonical: equal values mean equal lists. */
  lemma TrimmedUnique(a: seq<int>, b: seq<int>)
    requires AllDigits(a) && AllDigits(b)
    requires Trimmed(a) && Trimmed(b)
    requires Val(a) == Val(b)
    ensures a == b
  {
    if a[|a| - 1] == 0 {
      assert |a| == 1 && a == [0];
      if |b| > 1 {
        ValTopDigit(b);
      }
    } else if b[|b| - 1] == 0 {
      assert |b| == 1 && b == [0];
      if |a| > 1 {
        ValTopDigit(a);
      }
    } else {
      NoHighZeroUnique(a, b);
    }
  }

  /** A trimmed list is [0] exactly when it is worth 0. */
  lemma TrimmedZero(ds: seq<int>)
    requires AllDigits(ds) && Trimmed(ds)
    ensures Val(ds) == 0 <==> ds == [0]
  {
    if ds[|ds| - 1] != 0 {
      ValTopDigit(ds);
    }
  }

  // ---------------------------------------------------------------------------------
  // Decimal text

  predicate IsDigitChar(c: char) {
    '0' <= c <= '9'
  }

  predicate AllDigitChars(s: string) {
    forall i :: 0 <= i < |s| ==> IsDigitChar(s[i])
  }

  /** `Character.getNumericValue` on the characters '0'..'9'. */
  function DigitOf(c: char): int {
    c as int - '0' as int
  }

  /** The text of one digit, as `StringBuilder.append(Integer)` writes it. */
  function CharOf(d: int): (c: char)
    requires IsDigit(d)
    ensures IsDigitChar(c) && DigitOf(c) == d
  {
    (d + '0' as int) as char
  }

  /** The decimal value of a digit string, read most significant first. */
  function TextValue(s: string): int {
    if |s| == 0 then 0 else 10 * TextValue(s[..|s| - 1]) + DigitOf(s[|s| - 1])
  }

  /** The constructor's fill loop: characters from last to first become digits 0, 1, ... */
  function DigitsOfText(s: string): (r: seq<int>)
    ensures |r| == |s|
    ensures forall i :: 0 <= i < |s| ==> r[i] == DigitOf(s[|s| - 1 - i])
  {
    if |s| == 0 then [] else [DigitOf(s[|s| - 1])] + DigitsOfText(s[..|s| - 1])
  }

  /** `toString`'s loop: digits from the highest index down to 0, one character each. */
  function TextOfDigits(ds: seq<int>): (r: string)
    requires AllDigits(ds)
    ensures |r| == |ds|
    ensures forall i :: 0 <= i < |ds| ==> r[i] == CharOf(ds[|ds| - 1 - i])
  {
    if |ds| == 0 then "" else TextOfDigits(ds[1..]) + [CharOf(ds[0])]
  }

  lemma DigitsOfTextAreDigits(s: string)
    requires AllDigitChars(s)
    ensures AllDigits(DigitsOfText(s))
  {
  }

  /** The digit list read from text is worth the text's decimal value. */
  lemma {:induction false} ValOfText(s: string)
    ensures Val(DigitsOfText(s)) == TextValue(s)
    decreases |s|
  {
    if |s| > 0 {
      var r := DigitsOfText(s);
      assert r[1..] == DigitsOfText(s[..|s| - 1]);
      ValOfText(s[..|s| - 1]);
    }
  }

  /** Writing a digit list and reading it back gives the same list. */
  lemma TextDigitsRoundTrip(ds: seq<int>)
    requires AllDigits(ds)
    ensures DigitsOfText(TextOfDigits(ds)) == ds
  {
    var s := TextOfDigits(ds);
    var r := DigitsOfText(s);
    forall i | 0 <= i < |ds|
      ensures r[i] == ds[i]
    {
      assert r[i] == DigitOf(s[|s| - 1 - i]);
      assert s[|s| - 1 - i] == CharOf(ds[i]);
    }
  }

  /** Reading digit text and writing it back gives the same text. */
  lemma DigitsTextRoundTrip(s: string)
    requires AllDigitChars(s)
    ensures TextOfDigits(DigitsOfText(s)) == s
  {
    var ds := DigitsOfText(s);
    var t := TextOfDigits(ds);
    forall i | 0 <= i < |s|
      ensures t[i] == s[i]
    {
      assert ds[|s| - 1 - i] == DigitOf(s[i]);
    }
  }
}
