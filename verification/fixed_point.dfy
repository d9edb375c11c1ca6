/**
 * The guest's fixed-point helpers: `i64` arithmetic with Rust's truncating
 * division, the bit-mask `abs`, and `powf_fixed`, exponentiation by squaring
 * in fixed point with 10000 units per unit value.
 *
 * Integers are unbounded here. Every operation the guest performs on `i64`
 * is admitted only where its value stays inside the `i64` range, so the
 * model agrees with the guest whenever it is defined.
 */
module FixedPoint {

  /** Fractional units per unit value (`SCALING_FACTOR`). */
  const SCALE: int := 10000

  const I64_MIN: int := -0x8000_0000_0000_0000
  const I64_MAX: int := 0x7fff_ffff_ffff_ffff

  predicate InI64(v: int) {
    I64_MIN <= v <= I64_MAX
  }

  function Magnitude(v: int): int {
    if v < 0 then -v else v
  }

  /**
   * Rust's `/` on integers: the quotient rounded toward zero, so the
   * remainder takes the sign of the dividend (Dafny's own `/` is Euclidean).
   */
  function TDiv(a: int, b: int): int
    requires b != 0
  {
    if b > 0 then
      (if a >= 0 then a / b else -((-a) / b))
    else
      (if a >= 0 then -(a / (-b)) else (-a) / (-b))
  }

  /**
   * TDiv rounds toward zero: the remainder `a - b * q` is smaller than `b`
   * in magnitude and never has the opposite sign of `a`.
   */
  lemma TDivRemainder(a: int, b: int)
    requires b != 0
    ensures var q := TDiv(a, b);
      (0 <= a ==> 0 <= a - b * q < Magnitude(b)) &&
      (a < 0 ==> -Magnitude(b) < a - b * q <= 0)
  {
  }

  /** A truncated quotient is never larger in magnitude than its dividend. */
  lemma TDivMagnitude(a: int, b: int)
    requires b != 0
    ensures Magnitude(TDiv(a, b)) <= Magnitude(a)
  {
    DivAtMostDividend(Magnitude(a), Magnitude(b));
  }

  /** Dividing an `i64` by a positive divisor cannot leave the range. */
  lemma TDivInRange(a: int, b: int)
    requires InI64(a) && b > 0
    ensures InI64(TDiv(a, b))
    ensures 0 <= a ==> 0 <= TDiv(a, b) <= a
    ensures a < 0 ==> a <= TDiv(a, b) <= 0
  {
    DivAtMostDividend(Magnitude(a), b);
  }

  /** Truncating division leaves an exact multiple unchanged. */
  lemma TDivExact(k: int, b: int)
    requires b != 0
    ensures TDiv(k * b, b) == k
  {
    var q := TDiv(k * b, b);
    TDivRemainder(k * b, b);
    assert k * b - b * q == b * (k - q);
    if k != q {
      MagnitudeOfMultiple(b, k - q);
    }
  }

  /** A non-zero multiple of b is at least as large as b. */
  lemma MagnitudeOfMultiple(b: int, d: int)
    requires d != 0
    ensures Magnitude(b * d) >= Magnitude(b)
  {
    var m, n := Magnitude(b), Magnitude(d);
    assert Magnitude(b * d) == m * n by {
      if b < 0 && d < 0 { assert b * d == (-b) * (-d); }
      else if b < 0 { assert b * d == -((-b) * d); }
      else if d < 0 { assert b * d == -(b * (-d)); }
    }
    ProductGrows(n, m);
  }

  lemma ProductGrows(n: int, m: int)
    requires n >= 1 && m >= 0
    ensures m * n >= m
  {
    assert m * n == m * (n - 1) + m;
  }

  /** The magnitude of a product is the product of the magnitudes. */
  lemma MagnitudeOfProduct(a: int, b: int)
    ensures Magnitude(a * b) == Magnitude(a) * Magnitude(b)
  {
    if a < 0 && b < 0 { assert a * b == (-a) * (-b); }
    else if a < 0 { assert a * b == -((-a) * b); }
    else if b < 0 { assert a * b == -(a * (-b)); }
  }

  lemma ProductNonNegative(a: int, b: int)
    requires a >= 0 && b >= 0
    ensures a * b >= 0
  {
  }

  /** Bounds on two factors bound their product. */
  lemma ProductBound(a: int, b: int, bound_a: int, bound_b: int)
    requires Magnitude(a) <= bound_a && Magnitude(b) <= bound_b
    ensures Magnitude(a * b) <= bound_a * bound_b
  {
    MagnitudeOfProduct(a, b);
    var m, n := Magnitude(a), Magnitude(b);
    ProductNonNegative(bound_a - m, n);
    assert (bound_a - m) * n == bound_a * n - m * n;
    ProductNonNegative(bound_a, bound_b - n);
    assert bound_a * (bound_b - n) == bound_a * bound_b - bound_a * n;
  }

  /** A dividend smaller than the divisor truncates to 0. */
  lemma TDivOfSmaller(a: int, b: int)
    requires 0 <= a < b
    ensures TDiv(a, b) == 0
  {
    var q := a / b;
    if q != 0 {
      MagnitudeOfMultiple(b, q);
    }
  }

  lemma DivAtMostDividend(a: int, d: int)
    requires a >= 0 && d >= 1
    ensures 0 <= a / d <= a
  {
    var q := a / d;
    assert d * q <= a;
    ProductGrows(d, q);
  }

  // ---------------------------------------------------------------------
  // `abs` (methods/guest/src/main.rs:104-106)
  // ---------------------------------------------------------------------

  /**
   * The guest's `abs`: `x & 0x7fffffff` on the two's-complement `i64`
   * pattern of `x`, that is, the low 31 bits of `x`.
   */
  function Abs(x: int): (r: int)
    requires InI64(x)
    ensures 0 <= r <= 0x7fff_ffff
    ensures r == x <==> 0 <= x <= 0x7fff_ffff
  {
    // The low 31 bits of a two's-complement pattern are its remainder
    // modulo 2^31, and 2^64 is a multiple of 2^31, so the mask is the
    // Euclidean remainder of x itself.
    x % 0x8000_0000
  }

  /** `(-1) & 0x7fffffff` is `0x7fffffff`, not 1. */
  lemma AbsOfMinusOne()
    ensures Abs(-1) == 0x7fff_ffff
  {
  }

  /**
   * For a negative `x`, the mask yields `-x` only at `x == -2^30`: it is
   * not the absolute value of any other negative number.
   */
  lemma AbsOfNegative(x: int)
    requires InI64(x) && x < 0
    ensures Abs(x) == -x <==> x == -0x4000_0000
  {
    var r := Abs(x);
    var k := x / 0x8000_0000;
    assert x == 0x8000_0000 * k + r;
    if r == -x {
      assert 2 * r == -0x8000_0000 * k;
      assert k == -1;
    }
  }

  // ---------------------------------------------------------------------
  // `powf_fixed` (methods/guest/src/main.rs:109-129)
  // ---------------------------------------------------------------------

  /**
   * The value of `result` when the square-and-multiply loop of
   * `powf_fixed` stops, started from `result = acc`, `base` and
   * `exponent = e`. Each step multiplies in fixed point, truncating:
   * `a * b / SCALE`.
   */
  function PowLoop(acc: int, base: int, e: nat): int
    decreases e
  {
    if e == 0 then acc
    else
      PowLoop(if e % 2 == 1 then TDiv(acc * base, SCALE) else acc,
              TDiv(base * base, SCALE), e / 2)
  }

  /** Every product the loop forms from that state fits in `i64`. */
  predicate LoopInRange(acc: int, base: int, e: nat)
    decreases e
  {
    e == 0 ||
    ((e % 2 == 1 ==> InI64(acc * base)) && InI64(base * base) &&
     LoopInRange(if e % 2 == 1 then TDiv(acc * base, SCALE) else acc,
                 TDiv(base * base, SCALE), e / 2))
  }

  /**
   * `powf_fixed(x, n)` runs without overflow or division by zero: the
   * loop's products fit, `-n` fits, and the positive power that a negative
   * exponent divides by is not zero.
   */
  predicate PowDefined(x: int, n: int) {
    InI64(x) && InI64(n) &&
    (n > 0 ==> LoopInRange(SCALE, x, n)) &&
    (n < 0 ==> n != I64_MIN && LoopInRange(SCALE, x, -n) && PowLoop(SCALE, x, -n) != 0)
  }

  /** The value of `powf_fixed(x, n)`, both branches of its recursion included. */
  function Power(x: int, n: int): int
    requires PowDefined(x, n)
    decreases if n < 0 then 1 else 0
  {
    if n == 0 then SCALE
    else if n < 0 then TDiv(SCALE, Power(x, -n))
    else PowLoop(SCALE, x, n)
  }

  /**
   * `powf_fixed`: the exponent-0 and negative-exponent cases, then the
   * square-and-multiply loop, which halves `exponent` on every turn.
   */
  method PowFixed(x: int, n: int) returns (r: int)
    requires PowDefined(x, n)
    ensures r == Power(x, n)
    ensures InI64(r)
    decreases if n < 0 then 1 else 0
  {
    if n == 0 {
      return SCALE;
    }
    if n < 0 {
      var p := PowFixed(x, -n);
      TDivMagnitude(SCALE, p);
      return TDiv(SCALE, p);
    }
    var result := SCALE;
    var base := x;
    var exponent: int := n;
    while exponent > 0
      invariant 0 <= exponent
      invariant InI64(result) && InI64(base)
      invariant LoopInRange(result, base, exponent)
      invariant PowLoop(result, base, exponent) == PowLoop(SCALE, x, n)
      decreases exponent
    {
      if exponent % 2 == 1 {
        TDivInRange(result * base, SCALE);
        result := TDiv(result * base, SCALE);
      }
      TDivInRange(base * base, SCALE);
      base := TDiv(base * base, SCALE);
      exponent := exponent / 2;
    }
    return result;
  }

  /** Raising 1.0 (that is, SCALE) to a non-negative power gives 1.0 at every step. */
  lemma {:induction false} PowLoopOfOne(e: nat)
    ensures LoopInRange(SCALE, SCALE, e)
    ensures PowLoop(SCALE, SCALE, e) == SCALE
    decreases e
  {
    if e > 0 {
      TDivExact(SCALE, SCALE);
      PowLoopOfOne(e / 2);
    }
  }

  /**
   * `powf_fixed(SCALE, n)` is 1.0 for `n >= 0`, but for `n < 0` it is
   * `SCALE / SCALE == 1`, one fractional unit (0.0001): the reciprocal of a
   * negative exponent is not rescaled.
   */
  lemma PowerOfOne(n: int)
    requires InI64(n) && n != I64_MIN
    ensures PowDefined(SCALE, n)
    ensures Power(SCALE, n) == if n >= 0 then SCALE else 1
  {
    if n > 0 {
      PowLoopOfOne(n);
    } else if n < 0 {
      PowLoopOfOne(-n);
      TDivExact(1, SCALE);
    }
  }

  /** From a state at or above 1.0, the loop never ends below its base. */
  lemma {:induction false} PowLoopGrows(acc: int, base: int, e: nat)
    requires acc >= SCALE && base >= SCALE && e >= 1
    ensures PowLoop(acc, base, e) >= base
    decreases e
  {
    var acc' := if e % 2 == 1 then TDiv(acc * base, SCALE) else acc;
    var base' := TDiv(base * base, SCALE);
    ScaledProductGrows(acc, base);
    ScaledProductGrows(base, base);
    if e / 2 >= 1 {
      PowLoopGrows(acc', base', e / 2);
    }
  }

  lemma ScaledProductGrows(a: int, b: int)
    requires a >= SCALE && b >= SCALE
    ensures TDiv(a * b, SCALE) >= b && TDiv(a * b, SCALE) >= a
  {
    assert (a - SCALE) * b >= 0;
    assert (b - SCALE) * a >= 0;
  }

  /**
   * A negative power of any value above 1.0 is 0: `SCALE / p` truncates
   * to 0 because the positive power `p` exceeds SCALE.
   */
  lemma PowerOfNegativeExponent(x: int, n: int)
    requires PowDefined(x, n) && x > SCALE && n < 0
    ensures Power(x, n) == 0
  {
    PowLoopGrows(SCALE, x, -n);
    TDivOfSmaller(SCALE, PowLoop(SCALE, x, -n));
  }

  /** Integer exponentiation, the reference for whole-number powers. */
  function IntPow(c: int, e: nat): int
    decreases e
  {
    if e == 0 then 1 else c * IntPow(c, e - 1)
  }

  lemma {:induction false} IntPowOfSquare(c: int, h: nat)
    ensures IntPow(c * c, h) == IntPow(c, 2 * h)
    decreases h
  {
    if h > 0 {
      IntPowOfSquare(c, h - 1);
      assert IntPow(c, 2 * h) == c * (c * IntPow(c, 2 * h - 2));
    }
  }

  /** The loop is exact on whole numbers: no truncation ever happens. */
  lemma {:induction false} PowLoopOfWhole(r: int, c: int, e: nat)
    ensures PowLoop(r * SCALE, c * SCALE, e) == r * IntPow(c, e) * SCALE
    decreases e
  {
    if e > 0 {
      var acc, base := r * SCALE, c * SCALE;
      ScaledProductOfWhole(c, c);
      assert TDiv(base * base, SCALE) == (c * c) * SCALE;
      IntPowOfSquare(c, e / 2);
      var q := IntPow(c, 2 * (e / 2));
      if e % 2 == 1 {
        ScaledProductOfWhole(r, c);
        assert TDiv(acc * base, SCALE) == (r * c) * SCALE;
        assert PowLoop(acc, base, e) == PowLoop((r * c) * SCALE, (c * c) * SCALE, e / 2);
        PowLoopOfWhole(r * c, c * c, e / 2);
        assert IntPow(c, e) == c * q;
        ProductAssociates(r, c, q);
      } else {
        assert PowLoop(acc, base, e) == PowLoop(acc, (c * c) * SCALE, e / 2);
        PowLoopOfWhole(r, c * c, e / 2);
      }
    }
  }

  lemma ProductAssociates(a: int, b: int, c: int)
    ensures (a * b) * c == a * (b * c)
  {
  }

  /** Rescaling the product of two whole numbers in fixed point is exact. */
  lemma ScaledProductOfWhole(a: int, b: int)
    ensures TDiv((a * SCALE) * (b * SCALE), SCALE) == a * b * SCALE
  {
    assert (a * SCALE) * (b * SCALE) == (a * b * SCALE) * SCALE;
    TDivExact(a * b * SCALE, SCALE);
  }

  /** `powf_fixed(k * SCALE, n)` is `k^n * SCALE` for a whole number k and `n >= 0`. */
  lemma PowerOfWhole(k: int, n: int)
    requires n >= 0 && PowDefined(k * SCALE, n)
    ensures Power(k * SCALE, n) == IntPow(k, n) * SCALE
  {
    if n > 0 {
      PowLoopOfWhole(1, k, n);
    }
  }

}
