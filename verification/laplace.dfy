/**
 * The guest's deterministic differential-privacy perturbation:
 * `laplace_noise` evaluates the Laplace density analytically in fixed
 * point (nothing is sampled), and `laplace_mechanism` composes two such
 * evaluations into the perturbation added to the intercept.
 */
module Laplace {
  import opened FixedPoint

  /** Euler's number in fixed point, as the guest passes it to `powf_fixed`. */
  const EULER: int := 271828

  /**
   * `laplace_noise(x, b)` runs without overflow: `x * SCALE`, its quotient
   * by `b`, the call to `powf_fixed` and both products of line 95 fit in
   * `i64`. With `b == 0` the function returns at once.
   */
  predicate NoiseInRange(x: int, b: int) {
    InI64(x) && InI64(b) &&
    (b != 0 ==>
       InI64(x * SCALE) && InI64(TDiv(x * SCALE, b)) &&
       var k := TDiv(-Abs(TDiv(x * SCALE, b)), SCALE);
       PowDefined(EULER, k) &&
       InI64(SCALE / 2 * b) && InI64(SCALE / 2 * b * Power(EULER, k)))
  }

  /**
   * `laplace_noise(x, b)`. Its value is 0 for `b == 0`, and otherwise
   * either `SCALE / 2 * b` or 0: the exponential is `powf_fixed(EULER, k)`
   * with `k` the truncated quotient `-abs(x * SCALE / b) / SCALE`, where
   * `abs` is the mask of FixedPoint.Abs and not the true absolute value;
   * the power is 1.0 for `k == 0` and truncates to 0 for every `k < 0`.
   */
  function LaplaceNoise(x: int, b: int): (r: int)
    requires NoiseInRange(x, b)
    ensures InI64(r)
    ensures r == if b == 0 || Abs(TDiv(x * SCALE, b)) >= SCALE then 0 else SCALE / 2 * b
  {
    if b == 0 then 0
    else
      var exponent := Abs(TDiv(x * SCALE, b));
      var k := TDiv(-exponent, SCALE);
      var expResult := Power(EULER, k);
      LaplaceNoiseValue(b, exponent, k, expResult);
      TDiv(SCALE / 2 * b * expResult, SCALE)
  }

  /** The case split behind LaplaceNoise's closed form. */
  lemma LaplaceNoiseValue(b: int, exponent: int, k: int, expResult: int)
    requires b != 0 && 0 <= exponent <= 0x7fff_ffff && k == TDiv(-exponent, SCALE)
    requires PowDefined(EULER, k) && expResult == Power(EULER, k)
    requires InI64(SCALE / 2 * b * expResult)
    ensures TDiv(SCALE / 2 * b * expResult, SCALE) == if exponent >= SCALE then 0 else SCALE / 2 * b
    ensures InI64(TDiv(SCALE / 2 * b * expResult, SCALE))
  {
    TDivInRange(SCALE / 2 * b * expResult, SCALE);
    if exponent >= SCALE {
      assert k < 0;
      PowerOfNegativeExponent(EULER, k);
    } else {
      assert k == 0;
      TDivExact(SCALE / 2 * b, SCALE);
    }
  }

  /**
   * Because `abs` is a mask, a mean far from 0 can still give the full
   * noise: `x * SCALE / b` is `-2147478648` here, whose mask is 5000, below
   * 1.0, so the noise is `SCALE / 2 * b` rather than 0.
   */
  lemma NoiseOfMaskedExponent()
    ensures NoiseInRange(-2147478648, 10000)
    ensures LaplaceNoise(-2147478648, 10000) == 50_000_000
  {
    assert SCALE / 2 == 5000;
    assert TDiv(-2147478648 * SCALE, 10000) == -2147478648;
    assert Abs(-2147478648) == 5000;
    assert TDiv(-5000, SCALE) == 0;
    assert Power(EULER, 0) == SCALE;
  }

  /**
   * At `x == 0` the exponent is 0, `powf_fixed` returns 1.0 and the noise
   * is exactly `SCALE / 2 * b`, for every `b` for which the product of
   * line 95 fits in `i64`.
   */
  lemma NoiseAtZero(b: int)
    requires InI64(b) && InI64(SCALE / 2 * b * SCALE)
    ensures NoiseInRange(0, b)
    ensures LaplaceNoise(0, b) == SCALE / 2 * b
  {
    assert SCALE / 2 == 5000;
    if b != 0 {
      assert InI64(SCALE / 2 * b);
      assert 0 * SCALE == 0 && TDiv(0, b) == 0;
      assert Abs(0) == 0 && -0 == 0 && TDiv(0, SCALE) == 0;
      assert Power(EULER, 0) == SCALE;
      assert SCALE / 2 * b * SCALE == (5000 * b) * SCALE;
      TDivExact(5000 * b, SCALE);
    }
  }

  /** A scale up to 10^11 in magnitude keeps the product of line 95 inside `i64`. */
  lemma ScaleFits(b: int)
    requires Magnitude(b) <= 100_000_000_000
    ensures InI64(b) && InI64(SCALE / 2 * b * SCALE)
  {
    assert SCALE / 2 == 5000;
    assert SCALE / 2 * b * SCALE == 50_000_000 * b;
  }

  /**
   * The scale of the second evaluation in `laplace_mechanism(epsilon, n,
   * alpha)`: `3 * delta_3 / epsilon` with
   * `delta_3 = (SCALE / n) * (SCALE + (abs(alpha) + l) / SCALE)`, where `l`
   * is the first evaluation, at scale `3 * delta / epsilon` with
   * `delta = SCALE - SCALE / n`. Every intermediate stays inside `i64` for
   * every non-zero `n` and `epsilon`; the scale vanishes once `|n|` exceeds
   * SCALE and is never negative for positive `n` and `epsilon`.
   */
  function MechanismScale(epsilon: int, n: int, alpha: int): (b2: int)
    requires InI64(epsilon) && InI64(n) && InI64(alpha)
    requires n != 0 && epsilon != 0
    ensures Magnitude(b2) <= 9_000_000_000
    ensures Magnitude(n) > SCALE ==> b2 == 0
    ensures epsilon > 0 && n > 0 ==> b2 >= 0
  {
    var share := TDiv(SCALE, n);
    TDivMagnitude(SCALE, n);
    var delta := SCALE - share;
    assert SCALE / 2 == 5000;
    var b1 := TDiv(3 * delta, epsilon);
    TDivMagnitude(3 * delta, epsilon);
    ScaleFits(b1);
    NoiseAtZero(b1);
    var l := LaplaceNoise(0, b1);
    var spread := TDiv(Abs(alpha) + l, SCALE);
    TDivMagnitude(Abs(alpha) + l, SCALE);
    var delta3 := share * (SCALE + spread);
    ProductBound(share, SCALE + spread, SCALE, 300_000);
    var b2 := TDiv(3 * delta3, epsilon);
    TDivMagnitude(3 * delta3, epsilon);
    ShareVanishes(n);
    MechanismSign(epsilon, n, share, delta, b1, l, Abs(alpha), spread, delta3, b2);
    b2
  }

  /**
   * `laplace_mechanism(epsilon, n, alpha)` runs without overflow for every
   * non-zero `n` and `epsilon`: `SCALE / n`, `delta`, `3 * delta`, the first
   * scale and its noise `l`, `abs(alpha) + l`, the spread
   * `(abs(alpha) + l) / SCALE`, `SCALE` plus the spread, `delta_3`,
   * `3 * delta_3` and the second scale all lie inside `i64`, and both calls
   * of `laplace_noise` are in range.
   */
  lemma MechanismInRange(epsilon: int, n: int, alpha: int)
    requires InI64(epsilon) && InI64(n) && InI64(alpha)
    requires n != 0 && epsilon != 0
    ensures var share := TDiv(SCALE, n);
      var delta := SCALE - share;
      var b1 := TDiv(3 * delta, epsilon);
      InI64(share) && InI64(delta) && InI64(3 * delta) && InI64(b1) &&
      NoiseInRange(0, b1) &&
      var l := LaplaceNoise(0, b1);
      var spread := TDiv(Abs(alpha) + l, SCALE);
      var delta3 := share * (SCALE + spread);
      InI64(l) && InI64(Abs(alpha) + l) && InI64(spread) && InI64(SCALE + spread) &&
      InI64(delta3) && InI64(3 * delta3) && InI64(TDiv(3 * delta3, epsilon)) &&
      NoiseInRange(0, TDiv(3 * delta3, epsilon))
  {
    var share := TDiv(SCALE, n);
    TDivMagnitude(SCALE, n);
    var delta := SCALE - share;
    assert SCALE / 2 == 5000;
    var b1 := TDiv(3 * delta, epsilon);
    TDivMagnitude(3 * delta, epsilon);
    ScaleFits(b1);
    NoiseAtZero(b1);
    var l := LaplaceNoise(0, b1);
    var spread := TDiv(Abs(alpha) + l, SCALE);
    TDivMagnitude(Abs(alpha) + l, SCALE);
    var delta3 := share * (SCALE + spread);
    ProductBound(share, SCALE + spread, SCALE, 300_000);
    var b2 := TDiv(3 * delta3, epsilon);
    TDivMagnitude(3 * delta3, epsilon);
    ScaleFits(b2);
    NoiseAtZero(b2);
  }

  /**
   * `laplace_mechanism(epsilon, n, alpha)`: the Laplace density at 0 for
   * the scale MechanismScale computes. The perturbation is a multiple of
   * `SCALE / 2`, vanishes once `|n|` exceeds SCALE, and is never negative
   * for positive `n` and `epsilon`.
   */
  function LaplaceMechanism(epsilon: int, n: int, alpha: int): (r: int)
    requires InI64(epsilon) && InI64(n) && InI64(alpha)
    requires n != 0 && epsilon != 0
    ensures InI64(r)
    ensures r % 5000 == 0
    ensures Magnitude(n) > SCALE ==> r == 0
    ensures epsilon > 0 && n > 0 ==> r >= 0
  {
    var b2 := MechanismScale(epsilon, n, alpha);
    ScaleFits(b2);
    NoiseAtZero(b2);
    HalfScaleMultiple(b2);
    LaplaceNoise(0, b2)
  }

  lemma HalfScaleMultiple(k: int)
    ensures SCALE / 2 * k == 5000 * k && (5000 * k) % 5000 == 0
  {
    assert SCALE / 2 == 5000;
  }

  /** Once `|n|` exceeds SCALE, `SCALE / n` truncates to 0. */
  lemma ShareVanishes(n: int)
    requires n != 0
    ensures Magnitude(n) > SCALE ==> TDiv(SCALE, n) == 0
  {
    if n > SCALE {
      TDivOfSmaller(SCALE, n);
    } else if n < -SCALE {
      TDivOfSmaller(SCALE, -n);
    }
  }

  /** The sign facts of LaplaceMechanism's contract. */
  lemma MechanismSign(epsilon: int, n: int, share: int, delta: int, b1: int, l: int,
                      magnitude: int, spread: int, delta3: int, b2: int)
    requires InI64(epsilon) && epsilon != 0 && InI64(n) && n != 0
    requires share == TDiv(SCALE, n) && delta == SCALE - share
    requires b1 == TDiv(3 * delta, epsilon) && l == SCALE / 2 * b1
    requires 0 <= magnitude <= 0x7fff_ffff && spread == TDiv(magnitude + l, SCALE)
    requires delta3 == share * (SCALE + spread) && b2 == TDiv(3 * delta3, epsilon)
    requires Magnitude(b1) <= 60_000 && Magnitude(delta3) <= 3_000_000_000
    ensures epsilon > 0 && n > 0 ==> b2 >= 0
  {
    if epsilon > 0 && n > 0 {
      assert SCALE / 2 == 5000;
      TDivInRange(SCALE, n);
      TDivInRange(3 * delta, epsilon);
      TDivInRange(magnitude + l, SCALE);
      ProductNonNegative(share, SCALE + spread);
      TDivInRange(3 * delta3, epsilon);
    }
  }

}
