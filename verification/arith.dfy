/**
 * The integer helpers the register-demand code uses from util/u_math.h and
 * from C's integer conversions: `align`, `DIV_ROUND_UP`, masking with
 * `~(granule - 1)` and truncation to `uint16_t`.
 */
module Arith {

  const U16Modulus: nat := 0x1_0000

  /** Conversion to `uint16_t`: the value modulo 2^16. */
  function U16(x: int): (r: nat)
    ensures r < U16Modulus
    ensures 0 <= x < U16Modulus ==> r == x
  {
    x % U16Modulus
  }

  function Min(a: int, b: int): (m: int)
    ensures m <= a && m <= b && (m == a || m == b)
  {
    if a <= b then a else b
  }

  function Max(a: int, b: int): (m: int)
    ensures m >= a && m >= b && (m == a || m == b)
  {
    if a >= b then a else b
  }

  predicate IsPowerOfTwo(n: nat)
    decreases n
  {
    n == 1 || (n >= 2 && n % 2 == 0 && IsPowerOfTwo(n / 2))
  }

  /** Euclidean division in the form the proofs below use. */
  lemma DivMod(x: nat, d: nat)
    requires d > 0
    ensures x == (x / d) * d + x % d && 0 <= x % d < d
  {
  }

  /** A quotient never exceeds the dividend. */
  lemma QuotientAtMost(x: nat, d: nat)
    requires d > 0
    ensures x / d <= x
  {
    DivMod(x, d);
    MulMonotone(1, d, x / d);
  }

  /** A product at most `total` bounds the factor by the quotient. */
  lemma FitsUnderQuotient(a: nat, w: nat, total: nat)
    requires w > 0 && a * w <= total
    ensures a <= total / w
  {
    DivMod(total, w);
    if a > total / w {
      MulMonotone(total / w + 1, a, w);
    }
  }

  /** The quotient is the largest factor whose product with the divisor stays within the dividend. */
  lemma QuotientIsLargestFit(x: nat, d: nat)
    requires d > 0
    ensures (x / d) * d <= x
    ensures forall k: nat :: k * d <= x ==> k <= x / d
  {
    DivMod(x, d);
    forall k: nat | k * d <= x
      ensures k <= x / d
    {
      FitsUnderQuotient(k, d, x);
    }
  }

  /** A share of at most `total / w` fits `w` times into `total`. */
  lemma ShareFits(total: nat, w: nat, a: nat)
    requires w > 0 && a <= total / w
    ensures a * w <= total
  {
    DivMod(total, w);
    MulMonotone(a, total / w, w);
  }

  lemma PositiveProduct(a: nat, b: nat)
    requires a > 0 && b > 0
    ensures a * b > 0
  {
    MulMonotone(1, a, b);
  }

  /** A quotient of a 16-bit value survives truncation to 16 bits. */
  lemma QuotientFitsU16(x: nat, d: nat)
    requires d > 0 && x < U16Modulus
    ensures U16(x / d) == x / d
  {
    QuotientAtMost(x, d);
  }

  /**
   * The smaller of two quotients is the largest factor whose products
   * with both divisors stay within their dividends.
   */
  lemma LargestCommonFit(x1: nat, d1: nat, x2: nat, d2: nat)
    requires d1 > 0 && d2 > 0
    ensures var r := Min(x1 / d1, x2 / d2);
            r * d1 <= x1 && r * d2 <= x2
    ensures forall k: nat :: k * d1 <= x1 && k * d2 <= x2 ==> k <= Min(x1 / d1, x2 / d2)
  {
    QuotientIsLargestFit(x1, d1);
    QuotientIsLargestFit(x2, d2);
    var r := Min(x1 / d1, x2 / d2);
    MulMonotone(r, x1 / d1, d1);
    MulMonotone(r, x2 / d2, d2);
  }

  /** A multiple of `d` is `k * d` for its quotient `k`. */
  lemma MultipleIsProduct(m: nat, d: nat)
    requires d > 0 && m % d == 0
    ensures m == (m / d) * d
  {
    DivMod(m, d);
  }

  /** `k * d` is a multiple of `d`. */
  lemma ProductIsMultiple(k: nat, d: nat)
    requires d > 0
    ensures (k * d) % d == 0 && (k * d) / d == k
  {
    var x := k * d;
    DivMod(x, d);
    var q, m := x / d, x % d;
    assert (k - q) * d == m;
    if k - q >= 1 {
      MulMonotone(1, k - q, d);
    } else if k - q <= -1 {
      MulMonotone(k - q, -1, d);
    }
  }

  /** Multiplication by a natural number keeps order. */
  lemma MulMonotone(a: int, b: int, c: nat)
    requires a <= b
    ensures a * c <= b * c
  {
    assert b * c - a * c == (b - a) * c;
  }

  /** Among multiples of `d`, a smaller quotient means a smaller value. */
  lemma MultiplesOrdered(m1: nat, m2: nat, d: nat)
    requires d > 0 && m1 % d == 0 && m2 % d == 0 && m1 < m2
    ensures m1 + d <= m2
  {
    MultipleIsProduct(m1, d);
    MultipleIsProduct(m2, d);
    var k1, k2 := m1 / d, m2 / d;
    if k2 <= k1 {
      MulMonotone(k2, k1, d);
    }
    assert k1 + 1 <= k2;
    MulMonotone(k1 + 1, k2, d);
  }

  /**
   * `align(v, a)`: `v` rounded up to a multiple of the power of two `a`;
   * the least multiple of `a` that is at least `v`.
   */
  function Align(v: nat, a: nat): (r: nat)
    requires IsPowerOfTwo(a)
    ensures r % a == 0 && v <= r < v + a
  {
    PowerOfTwoIsPositive(a);
    DivMod(v + a - 1, a);
    ProductIsMultiple((v + a - 1) / a, a);
    ((v + a - 1) / a) * a
  }

  lemma {:induction false} PowerOfTwoIsPositive(a: nat)
    requires IsPowerOfTwo(a)
    ensures a >= 1
  {
  }

  /** No multiple of `a` at least `v` lies below `align(v, a)`. */
  lemma AlignIsLeast(v: nat, a: nat, m: nat)
    requires IsPowerOfTwo(a) && m % a == 0 && m >= v
    ensures Align(v, a) <= m
  {
    PowerOfTwoIsPositive(a);
    var r := Align(v, a);
    if m < r {
      MultiplesOrdered(m, r, a);
    }
  }

  /**
   * `v & ~(a - 1)` for a power of two `a`: `v` rounded down to a multiple
   * of `a`; the greatest multiple of `a` that is at most `v`.
   */
  function AlignDown(v: nat, a: nat): (r: nat)
    requires a > 0
    ensures r % a == 0 && r <= v < r + a
  {
    DivMod(v, a);
    ProductIsMultiple(v / a, a);
    v - v % a
  }

  /** No multiple of `a` at most `v` lies above the rounded-down value. */
  lemma AlignDownIsGreatest(v: nat, a: nat, m: nat)
    requires a > 0 && m % a == 0 && m <= v
    ensures m <= AlignDown(v, a)
  {
    var r := AlignDown(v, a);
    if m > r {
      MultiplesOrdered(r, m, a);
    }
  }

  /** `DIV_ROUND_UP(a, b)`: the least `r` with `r * b >= a`. */
  function DivRoundUp(a: nat, b: nat): (r: nat)
    requires b > 0
    ensures r * b >= a && r * b < a + b
  {
    var r := (a + b - 1) / b;
    DivMod(a + b - 1, b);
    r
  }

  /** The ceiling is unique: any `r` within one divisor above `a` is it. */
  lemma CeilingUnique(a: nat, b: nat, r: nat)
    requires b > 0 && r * b >= a && r * b < a + b
    ensures r == DivRoundUp(a, b)
  {
    var c := DivRoundUp(a, b);
    if r < c {
      MulMonotone(r + 1, c, b);
    } else if r > c {
      MulMonotone(c + 1, r, b);
    }
  }

  /** Rounding up twice is rounding up once by the product of the divisors. */
  lemma {:induction false} NestedCeiling(a: nat, b: nat, c: nat)
    requires b > 0 && c > 0
    ensures DivRoundUp(DivRoundUp(a, b), c) == DivRoundUp(a, b * c)
  {
    var x := DivRoundUp(a, b);
    var y := DivRoundUp(x, c);
    MulMonotone(x, y * c, b);
    assert y * (b * c) == (y * c) * b;
    MulMonotone(y * c, x + c - 1, b);
    assert (x + c - 1) * b == x * b + c * b - b;
    CeilingUnique(a, b * c, y);
  }
}
