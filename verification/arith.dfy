/** Integer facts shared by the digit arithmetic and the number theory. */
module Arith {

  /** Three-way comparison of integers, the result convention of `compareTo`. */
  function Cmp(a: int, b: int): (r: int)
    ensures r == 0 <==> a == b
    ensures r == 1 <==> a > b
    ensures r == -1 <==> a < b
  {
    if a > b then 1 else if a < b then -1 else 0
  }

  function Max(a: int, b: int): int {
    if a >= b then a else b
  }

  function Min(a: int, b: int): int {
    if a <= b then a else b
  }

  /** Java's `/` on `int`, which truncates toward zero. */
  function JavaDiv(a: int, b: int): (q: int)
    requires b > 0
    ensures a >= 0 ==> q == a / b
  {
    if a >= 0 then a / b else -((-a) / b)
  }

  /** Java's `%` on `int`: the remainder takes the sign of the dividend. */
  function JavaRem(a: int, b: int): (r: int)
    requires b > 0
    ensures a == b * JavaDiv(a, b) + r
    ensures a >= 0 ==> r == a % b
    ensures -b < r < b
  {
    a - b * JavaDiv(a, b)
  }

  /** Division with remainder is unique: any decomposition x == q*m + r with 0 <= r < m is Euclid's. */
  lemma ModUnique(x: int, m: int, q: int, r: int)
    requires m > 0 && 0 <= r < m && x == q * m + r
    ensures x / m == q && x % m == r
  {
    var q', r' := x / m, x % m;
    assert x == q' * m + r';
    assert (q - q') * m == r' - r;
    if q - q' >= 1 {
      MulAtLeast(q - q', m);
    } else if q' - q >= 1 {
      MulAtLeast(q' - q, m);
    }
  }

  lemma MulAtLeast(k: int, m: int)
    requires k >= 1 && m >= 0
    ensures k * m >= m
  {
  }

  lemma MulGrows(p: int, h: int)
    requires p >= 2 && h >= 1
    ensures p * h > h
  {
    MulAtLeast(p - 1, h);
    assert p * h == (p - 1) * h + h;
  }

  lemma MulNonneg(a: int, b: int)
    requires a >= 0 && b >= 0
    ensures a * b >= 0
  {
  }

  /** A multiple of m leaves no remainder. */
  lemma MultipleMod(k: int, m: int)
    requires m > 0
    ensures (k * m) % m == 0 && (k * m) / m == k
  {
    ModUnique(k * m, m, k, 0);
  }

  /** Reducing a digit-shifted number: (d + 10x) mod 10m == d + 10 (x mod m). */
  lemma ModShift(d: int, x: int, m: int)
    requires 0 <= d < 10 && m > 0
    ensures (d + 10 * x) % (10 * m) == d + 10 * (x % m)
  {
    var q, r := x / m, x % m;
    assert x == q * m + r;
    assert d + 10 * x == q * (10 * m) + (d + 10 * r);
    ModUnique(d + 10 * x, 10 * m, q, d + 10 * r);
  }

  /** Adding multiples of m does not change the remainder. */
  lemma ModAddMultiple(x: int, k: int, m: int)
    requires m > 0
    ensures (x + k * m) % m == x % m
  {
    var q, r := x / m, x % m;
    assert x + k * m == (q + k) * m + r;
    ModUnique(x + k * m, m, q + k, r);
  }
}
