/**
 * What the running statistics of `LinearRegression` mean: the denominator
 * of the slope is a sum of squared distances, so `train` divides by zero
 * exactly when every `x` seen so far is the same; samples on an exact
 * line give back that line; and a single sample gives the intercept
 * `y` plus a fixed perturbation.
 */
module RegressionProperties {
  import opened FixedPoint
  import opened Laplace
  import opened Regression

  lemma Distributes(k: int, a: int, b: int)
    ensures k * (a + b) == k * a + k * b && (a + b) * k == a * k + b * k
  {
  }

  lemma SquareOfDifference(u: int, v: int)
    ensures (u - v) * (u - v) == u * u - 2 * v * u + v * v
  {
  }

  lemma SquareOfSum(u: int, v: int)
    ensures (u + v) * (u + v) == u * u + 2 * v * u + v * v
  {
  }

  lemma ScaledSquare(u: int, a: int)
    ensures u * (a * u) == a * (u * u)
  {
  }

  lemma LineNumeratorAlgebra(n: int, sumX: int, sumXX: int, a: int, c: int)
    ensures n * (a * sumXX + c * sumX) - sumX * (a * sumX + n * c) == a * (n * sumXX - sumX * sumX)
  {
  }

  // ---------------------------------------------------------------------
  // The denominator `n * sum_x_squared - sum_x * sum_x`
  // ---------------------------------------------------------------------

  /** Every sample of `s` has the same `x`. */
  predicate SameX(s: seq<Sample>) {
    forall i, j :: 0 <= i < |s| && 0 <= j < |s| ==> s[i].x == s[j].x
  }

  /** The sum of `(x - v)^2` over the samples of `s`. */
  function SquaredDistances(s: seq<Sample>, v: int): (d: int)
    ensures d >= 0
    ensures d == 0 <==> forall i :: 0 <= i < |s| ==> s[i].x == v
  {
    if s == [] then 0
    else
      var last := s[|s| - 1];
      SquaredDistances(s[..|s| - 1], v) + (last.x - v) * (last.x - v)
  }

  /**
   * Written out over the statistics of `s`, the squared distances to `v`
   * are `sum_x_squared - 2 * v * sum_x + n * v * v`.
   */
  lemma {:induction false} SquaredDistancesOfStats(s: seq<Sample>, v: int)
    ensures var st := Stats(s);
      SquaredDistances(s, v) == st.sumXX - 2 * v * st.sumX + st.n * (v * v)
  {
    if s != [] {
      var init, last := s[..|s| - 1], s[|s| - 1];
      SquaredDistancesOfStats(init, v);
      var st := Stats(init);
      var u := last.x;
      assert Stats(s) == Include(st, last);
      assert SquaredDistances(s, v) == SquaredDistances(init, v) + (u - v) * (u - v);
      SquareOfDifference(u, v);
      Distributes(2 * v, st.sumX, u);
      Distributes(v * v, st.n, 1);
    }
  }

  /**
   * One more sample `p` adds to the denominator the squared distances of
   * the samples before it to `p.x`.
   */
  lemma DenominatorStep(st: Statistics, p: Sample)
    ensures Denominator(Include(st, p)) ==
            Denominator(st) + (st.sumXX - 2 * p.x * st.sumX + st.n * (p.x * p.x))
  {
    var v := p.x;
    Distributes(st.n + 1, st.sumXX, v * v);
    Distributes(st.sumXX, st.n, 1);
    Distributes(v * v, st.n, 1);
    SquareOfSum(st.sumX, v);
  }

  /**
   * The denominator of the slope is never negative, and it is zero exactly
   * when all samples share one `x`: `train` divides by zero precisely when
   * no two of the samples seen so far differ in `x`.
   */
  lemma {:induction false} DenominatorVanishes(s: seq<Sample>)
    ensures Denominator(Stats(s)) >= 0
    ensures Denominator(Stats(s)) == 0 <==> SameX(s)
  {
    if s != [] {
      var init := s[..|s| - 1];
      DenominatorVanishes(init);
      DenominatorOfExtension(s);
      SameXOfExtension(s);
    }
  }

  /** The denominator grows by the squared distances of the earlier samples to the last. */
  lemma DenominatorOfExtension(s: seq<Sample>)
    requires s != []
    ensures var init, last := s[..|s| - 1], s[|s| - 1];
      Denominator(Stats(s)) == Denominator(Stats(init)) + SquaredDistances(init, last.x)
  {
    var init, last := s[..|s| - 1], s[|s| - 1];
    DenominatorStep(Stats(init), last);
    SquaredDistancesOfStats(init, last.x);
  }

  /** All samples share one `x` iff the earlier ones do and the last has theirs. */
  lemma SameXOfExtension(s: seq<Sample>)
    requires s != []
    ensures var init, last := s[..|s| - 1], s[|s| - 1];
      SameX(s) <==> SameX(init) && forall i :: 0 <= i < |init| ==> init[i].x == last.x
  {
    var init, last := s[..|s| - 1], s[|s| - 1];
    assert forall i :: 0 <= i < |init| ==> init[i] == s[i];
    if SameX(init) && forall i :: 0 <= i < |init| ==> init[i].x == last.x {
      forall i, j | 0 <= i < |s| && 0 <= j < |s| ensures s[i].x == s[j].x {
        if i < |init| && j < |init| {
          assert s[i].x == init[i].x && s[j].x == init[j].x;
        } else if i < |init| {
          assert s[i].x == init[i].x;
        } else if j < |init| {
          assert s[j].x == init[j].x;
        }
      }
    }
  }

  /**
   * `train` can only run on data whose first two `x` values differ: with
   * equal ones, the second call divides by a zero denominator.
   */
  lemma TrainingNeedsDistinctStart(data: seq<Sample>)
    requires |data| >= 2 && Trainable(data)
    ensures data[0].x != data[1].x
  {
    assert StepInRange(Stats(data[..1]), data[1]);
    StatsOfLongerPrefix(data, 1);
    DenominatorVanishes(data[..2]);
    assert !SameX(data[..2]);
    assert data[..2][0] == data[0] && data[..2][1] == data[1];
  }

  // ---------------------------------------------------------------------
  // Samples on an exact line
  // ---------------------------------------------------------------------

  /** Every sample of `s` satisfies `y == a * x + c`. */
  predicate OnLine(s: seq<Sample>, a: int, c: int) {
    forall i :: 0 <= i < |s| ==> s[i].y == a * s[i].x + c
  }

  /** On the line, the sums of `y` and of `x * y` follow from those of `x`. */
  lemma {:induction false} LineSums(s: seq<Sample>, a: int, c: int)
    requires OnLine(s, a, c)
    ensures var st := Stats(s);
      st.sumY == a * st.sumX + st.n * c && st.sumXY == a * st.sumXX + c * st.sumX
  {
    if s != [] {
      var init, last := s[..|s| - 1], s[|s| - 1];
      assert OnLine(init, a, c) by {
        forall i | 0 <= i < |init| ensures init[i].y == a * init[i].x + c {
          assert init[i] == s[i];
        }
      }
      LineSums(init, a, c);
      var st := Stats(init);
      var u := last.x;
      assert Stats(s) == Include(st, last);
      assert last.y == a * u + c;
      Distributes(a, st.sumX, u);
      Distributes(c, st.n, 1);
      Distributes(u, a * u, c);
      ScaledSquare(u, a);
      Distributes(a, st.sumXX, u * u);
      Distributes(c, st.sumX, u);
    }
  }

  /** The least-squares numerator of points on the line is `a` times the denominator. */
  lemma NumeratorOnLine(st: Statistics, a: int, c: int)
    requires st.sumY == a * st.sumX + st.n * c && st.sumXY == a * st.sumXX + c * st.sumX
    ensures Numerator(st) == a * Denominator(st)
  {
    LineNumeratorAlgebra(st.n, st.sumX, st.sumXX, a, c);
  }

  /**
   * Trained on at least two samples of the line `y == a * x + c`, the
   * model recovers the slope `a` exactly and the intercept `c` plus the
   * Laplace perturbation for `n` and `a`.
   */
  lemma FitOfExactLine(s: seq<Sample>, a: int, c: int)
    requires |s| >= 2 && OnLine(s, a, c) && Fits(Stats(s))
    ensures Slope(Stats(s)) == a
    ensures Intercept(Stats(s)) == c + LaplaceMechanism(EPSILON, |s|, a)
  {
    var st := Stats(s);
    LineSums(s, a, c);
    NumeratorOnLine(st, a, c);
    TDivExact(a, Denominator(st));
    assert Slope(st) == a;
    var rest := st.sumY - a * st.sumX;
    assert rest == st.n * c;
    Commutes(st.n, c);
    TDivExact(c, st.n);
    assert TDiv(rest, st.n) == c;
  }

  lemma Commutes(a: int, b: int)
    ensures a * b == b * a
  {
  }

  // ---------------------------------------------------------------------
  // The first sample
  // ---------------------------------------------------------------------

  /**
   * After one sample the slope is still 0 and the intercept is `y` plus
   * 75_000_000 (7500.0 in fixed point): with `n == 1` the first Laplace
   * evaluation has scale 0, and the second has scale
   * `3 * SCALE * SCALE / EPSILON == 15000`.
   */
  lemma FirstSample(p: Sample)
    requires InI64(p.x) && InI64(p.y) && InI64(p.x * p.x) && InI64(p.x * p.y)
    ensures Fits(Stats([p])) && Slope(Stats([p])) == 0
    ensures Intercept(Stats([p])) == p.y + 75_000_000
  {
    var st := Stats([p]);
    assert [p][..0] == [];
    assert st == Include(Stats([]), p);
    assert st == Statistics(1, p.x, p.y, p.x * p.x, p.x * p.y);
    assert SCALE / 2 == 5000;
    assert TDiv(SCALE, 1) == SCALE;
    assert TDiv(0, EPSILON) == 0;
    assert Abs(0) == 0 && TDiv(0, SCALE) == 0;
    assert TDiv(3 * (SCALE * SCALE), EPSILON) == 15000;
    NoiseAtZero(15000);
    assert TDiv(p.y - 0 * p.x, 1) == p.y;
  }

}
