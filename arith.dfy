/**
 * Integer facts behind the digit and bucket computations of the non-comparison sorts. All
 * operands there are non-negative, where JavaScript's `Math.floor(x / y)` and `%` agree
 * with Dafny's Euclidean `/` and `%`.
 */
module Arith {

  /** A non-zero integer multiple of `d` is at least `d` away from zero. */
  lemma MulAway(k: int, d: int)
    requires d > 0
    ensures k >= 1 ==> k * d >= d
    ensures k <= -1 ==> k * d <= -d
  {
  }

  /** Division is determined by any quotient and in-range remainder. */
  lemma DivModUnique(x: int, d: int, q: int, r: int)
    requires d > 0 && 0 <= r < d && x == q * d + r
    ensures x / d == q && x % d == r
  {
    var q0, r0 := x / d, x % d;
    assert x == q0 * d + r0;
    assert (q - q0) * d == r0 - r;
    MulAway(q - q0, d);
  }

  /**
   * Splitting off one more decimal digit: the digit `(x / e) % 10` at place `e` and the
   * rest `x % e` below it make up `x % (10e)`, and `x / (10e) == (x / e) / 10`.
   */
  lemma ModSplit(x: int, e: int)
    requires x >= 0 && e > 0
    ensures x % (10 * e) == ((x / e) % 10) * e + x % e
    ensures x / (10 * e) == (x / e) / 10
  {
    var q, r := x / e, x % e;
    var hi, d := q / 10, q % 10;
    assert x == q * e + r;
    assert q == hi * 10 + d;
    MulDistrib(hi * 10, d, e);
    MulAssoc(hi, 10, e);
    DigitTimes(d, e);
    DivModUnique(x, 10 * e, hi, d * e + r);
  }

  lemma MulDistrib(a: int, b: int, c: int)
    ensures (a + b) * c == a * c + b * c
  {
  }

  lemma MulAssoc(a: int, b: int, c: int)
    ensures a * (b * c) == (a * b) * c
  {
  }

  /** A digit times a positive place value stays below ten times it. */
  lemma DigitTimes(d: int, e: int)
    requires 0 <= d <= 9 && e > 0
    ensures 0 <= d * e <= 9 * e
  {
    MulDistrib(d, 9 - d, e);
    MulAway(9 - d, e);
    MulAway(d, e);
  }

  /** A value below the modulus is its own remainder. */
  lemma ModSmall(x: int, e: int)
    requires 0 <= x < e
    ensures x % e == x
  {
    DivModUnique(x, e, 0, x);
  }

  /** Division of a non-negative value by a positive divisor is non-negative. */
  lemma DivNonNegative(x: int, e: int)
    requires x >= 0 && e > 0
    ensures x / e >= 0
  {
    assert x == (x / e) * e + x % e;
    MulAway(x / e, e);
  }

  /** A quotient that is not positive means the value is below the divisor. */
  lemma DivZero(x: int, e: int)
    requires x >= 0 && e > 0 && x / e <= 0
    ensures x < e
  {
    assert x == (x / e) * e + x % e;
    MulAway(x / e, e);
  }

  /** Floor division by a positive divisor is monotone. */
  lemma DivMonotone(x: int, y: int, d: int)
    requires x <= y && d > 0
    ensures x / d <= y / d
  {
    assert x == (x / d) * d + x % d;
    assert y == (y / d) * d + y % d;
    assert (x / d - y / d) * d == (x - x % d) - (y - y % d);
    MulAway(x / d - y / d, d);
  }

  /**
   * Comparing two non-negative values modulo `10e` by their digit at place `e` first and
   * their remainder modulo `e` second.
   */
  lemma DigitOrder(x: int, y: int, e: int)
    requires x >= 0 && y >= 0 && e > 0
    ensures (x / e) % 10 < (y / e) % 10 ==> x % (10 * e) < y % (10 * e)
    ensures (x / e) % 10 == (y / e) % 10 && x % e <= y % e ==> x % (10 * e) <= y % (10 * e)
  {
    ModSplit(x, e);
    ModSplit(y, e);
    var dx, dy := (x / e) % 10, (y / e) % 10;
    assert dy * e - dx * e == (dy - dx) * e;
    MulAway(dy - dx, e);
  }

  /** The number of decimal digits of `m`, `0` for `0`: the passes radix sort makes. */
  function DigitCount(m: nat): nat
  {
    if m == 0 then 0 else 1 + DigitCount(m / 10)
  }

  function Pow10(k: nat): (p: nat)
    ensures p >= 1
  {
    if k == 0 then 1 else 10 * Pow10(k - 1)
  }

  /** `DigitCount(m)` is the `k` with `10^(k-1) <= m < 10^k` (and `0` for `m == 0`). */
  lemma {:induction false} DigitCountBounds(m: nat)
    ensures m < Pow10(DigitCount(m))
    ensures m > 0 ==> Pow10(DigitCount(m) - 1) <= m
  {
    if m > 0 {
      DigitCountBounds(m / 10);
      var k := DigitCount(m / 10);
      assert m == 10 * (m / 10) + m % 10;
      if m / 10 > 0 {
        assert Pow10(k - 1) <= m / 10;
        assert Pow10(k) == 10 * Pow10(k - 1);
      }
    }
  }

  /**
   * The bucket index of bucket sort taken exactly, `floor(v * (n-1) / max)`: it lies in
   * `[0, n-1]` for `0 <= v <= max` and grows with `v`.
   */
  function BucketIndex(v: int, max: int, n: int): int
    requires max > 0
  {
    v * (n - 1) / max
  }

  lemma BucketIndexRange(v: int, max: int, n: int)
    requires 0 <= v <= max && max > 0 && n >= 1
    ensures 0 <= BucketIndex(v, max, n) <= n - 1
  {
    assert 0 <= v * (n - 1) <= max * (n - 1);
    DivMonotone(v * (n - 1), max * (n - 1), max);
    DivModUnique(max * (n - 1), max, n - 1, 0);
  }

  lemma BucketIndexMonotone(v: int, w: int, max: int, n: int)
    requires 0 <= v <= w && max > 0 && n >= 1
    ensures BucketIndex(v, max, n) <= BucketIndex(w, max, n)
  {
    assert v * (n - 1) <= w * (n - 1);
    DivMonotone(v * (n - 1), w * (n - 1), max);
  }
}
