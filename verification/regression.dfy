/**
 * The guest's streaming regression: `LinearRegression` keeps the running
 * sufficient statistics of the samples it has been trained on and, after
 * every sample, recomputes the least-squares slope (once there are two
 * samples) and the perturbed intercept. `main` trains it on a fixed array
 * of pairs and commits `(slope, intercept)`.
 */
module Regression {
  import opened FixedPoint
  import opened Laplace

  /** Number of pairs in the embedded data set (`ARRAY_SIZE`). */
  const ARRAY_SIZE: int := 140 * 10

  /** The privacy parameter the guest passes to `laplace_mechanism`. */
  const EPSILON: int := 2 * SCALE

  datatype Sample = Sample(x: int, y: int)

  /** The sufficient statistics: count and the four running sums. */
  datatype Statistics = Statistics(n: int, sumX: int, sumY: int, sumXX: int, sumXY: int)

  /** Folding one more sample into the statistics, as `train` does. */
  function Include(st: Statistics, p: Sample): Statistics {
    Statistics(st.n + 1, st.sumX + p.x, st.sumY + p.y,
               st.sumXX + p.x * p.x, st.sumXY + p.x * p.y)
  }

  /** The statistics after training, in order, on every sample of `s`. */
  function Stats(s: seq<Sample>): (st: Statistics)
    ensures st.n == |s|
  {
    if s == [] then Statistics(0, 0, 0, 0, 0)
    else Include(Stats(s[..|s| - 1]), s[|s| - 1])
  }

  /** The sum of `f` over the samples of `s`. */
  function SumOf(s: seq<Sample>, f: Sample -> int): int {
    if s == [] then 0 else f(s[0]) + SumOf(s[1..], f)
  }

  // The four per-sample terms the running sums add up.
  function TermX(p: Sample): int { p.x }
  function TermY(p: Sample): int { p.y }
  function TermXX(p: Sample): int { p.x * p.x }
  function TermXY(p: Sample): int { p.x * p.y }

  /** The statistics written out as direct sums over the whole sequence. */
  function DirectStats(s: seq<Sample>): Statistics {
    Statistics(|s|, SumOf(s, TermX), SumOf(s, TermY),
               SumOf(s, TermXX), SumOf(s, TermXY))
  }

  /** A direct sum over an extended sequence adds the new term at the end. */
  lemma {:induction false} SumOfAppend(s: seq<Sample>, p: Sample, f: Sample -> int)
    ensures SumOf(s + [p], f) == SumOf(s, f) + f(p)
  {
    if s != [] {
      assert (s + [p])[1..] == s[1..] + [p];
      SumOfAppend(s[1..], p, f);
    }
  }

  /**
   * The running sums `train` accumulates are the direct sums: count, sum of
   * `x`, of `y`, of `x * x` and of `x * y` over all samples trained on.
   */
  lemma {:induction false} StatsAreDirectSums(s: seq<Sample>)
    ensures Stats(s) == DirectStats(s)
  {
    if s != [] {
      var init, last := s[..|s| - 1], s[|s| - 1];
      assert s == init + [last];
      StatsAreDirectSums(init);
      SumOfAppend(init, last, TermX);
      SumOfAppend(init, last, TermY);
      SumOfAppend(init, last, TermXX);
      SumOfAppend(init, last, TermXY);
    }
  }

  /** The least-squares numerator `n * sum_xy - sum_x * sum_y`. */
  function Numerator(st: Statistics): int {
    st.n * st.sumXY - st.sumX * st.sumY
  }

  /** The least-squares denominator `n * sum_x_squared - sum_x * sum_x`. */
  function Denominator(st: Statistics): int {
    st.n * st.sumXX - st.sumX * st.sumX
  }

  /**
   * The statistics lie inside `i64` and, from two samples on, the slope
   * `Numerator / Denominator` is defined and fits.
   */
  predicate Fits(st: Statistics) {
    0 <= st.n && InI64(st.n) && InI64(st.sumX) && InI64(st.sumY) &&
    InI64(st.sumXX) && InI64(st.sumXY) &&
    (st.n > 1 ==> Denominator(st) != 0 && InI64(TDiv(Numerator(st), Denominator(st))))
  }

  /** The slope held after training: recomputed from two samples on, 0 before. */
  function Slope(st: Statistics): int
    requires Fits(st)
  {
    if st.n > 1 then TDiv(Numerator(st), Denominator(st)) else 0
  }

  /** The intercept held after training on at least one sample. */
  function Intercept(st: Statistics): int
    requires Fits(st) && st.n >= 1
  {
    TDiv(st.sumY - Slope(st) * st.sumX, st.n) + LaplaceMechanism(EPSILON, st.n, Slope(st))
  }

  /**
   * `train(x, y)` on statistics `st` runs without overflow and without
   * dividing by zero: the new count and sums, the products of the slope
   * formula and of the intercept, and the intercept itself fit in `i64`,
   * and the denominator is non-zero once there are two samples.
   */
  predicate StepInRange(st: Statistics, p: Sample) {
    var st' := Include(st, p);
    InI64(p.x) && InI64(p.y) && InI64(p.x * p.x) && InI64(p.x * p.y) && Fits(st') &&
    (st'.n > 1 ==>
       InI64(st'.n * st'.sumXY) && InI64(st'.sumX * st'.sumY) && InI64(Numerator(st')) &&
       InI64(st'.n * st'.sumXX) && InI64(st'.sumX * st'.sumX) && InI64(Denominator(st'))) &&
    InI64(Slope(st') * st'.sumX) && InI64(st'.sumY - Slope(st') * st'.sumX) &&
    st'.n >= 1 && InI64(Intercept(st'))
  }

  /** Every sample of `data`, taken in order, can be trained on. */
  predicate Trainable(data: seq<Sample>) {
    forall k :: 0 <= k < |data| ==> StepInRange(Stats(data[..k]), data[k])
  }

  // Overflow-checked `i64` operations, as the guest performs them.
  function Add(a: int, b: int): int requires InI64(a + b) { a + b }
  function Sub(a: int, b: int): int requires InI64(a - b) { a - b }
  function Mul(a: int, b: int): int requires InI64(a * b) { a * b }
  function Div(a: int, b: int): int requires b != 0 && InI64(TDiv(a, b)) { TDiv(a, b) }

  /** The regression accumulator `LinearRegression`. */
  class LinearRegression {
    var slope: int
    var intercept: int
    var n: int
    var sumX: int
    var sumY: int
    var sumXSquared: int
    var sumXY: int

    /**
     * The counters fit in `i64`, and the slope is the one of the statistics
     * held (0 until there are two samples).
     */
    ghost predicate Valid()
      reads this
    {
      Fits(Statistic()) && slope == Slope(Statistic())
    }

    /** The statistics the fields hold. */
    function Statistic(): Statistics
      reads this
    {
      Statistics(n, sumX, sumY, sumXSquared, sumXY)
    }

    /** `LinearRegression::new`: every field 0. */
    constructor ()
      ensures Valid() && Statistic() == Stats([])
      ensures slope == 0 && intercept == 0 && n == 0
      ensures sumX == 0 && sumY == 0 && sumXSquared == 0 && sumXY == 0
    {
      slope, intercept, n := 0, 0, 0;
      sumX, sumY, sumXSquared, sumXY := 0, 0, 0, 0;
    }

    /**
     * `train(x, y)`: one more sample in the running sums, the slope
     * recomputed only when there are now at least two samples, and the
     * intercept recomputed, perturbed, on every call.
     */
    method Train(x: int, y: int)
      requires Valid()
      requires StepInRange(Statistic(), Sample(x, y))
      modifies this
      ensures Valid()
      ensures Statistic() == Include(old(Statistic()), Sample(x, y))
      ensures n > 1 ==> slope == TDiv(Numerator(Statistic()), Denominator(Statistic()))
      ensures n <= 1 ==> slope == old(slope)
      ensures intercept == Intercept(Statistic())
    {
      ghost var next := Include(Statistic(), Sample(x, y));
      var n1 := Add(n, 1);
      var sumX1 := Add(sumX, x);
      var sumY1 := Add(sumY, y);
      var sumXSquared1 := Add(sumXSquared, Mul(x, x));
      var sumXY1 := Add(sumXY, Mul(x, y));
      assert Statistics(n1, sumX1, sumY1, sumXSquared1, sumXY1) == next;
      var slope1 := slope;
      if n1 > 1 {
        var numerator := Sub(Mul(n1, sumXY1), Mul(sumX1, sumY1));
        var denominator := Sub(Mul(n1, sumXSquared1), Mul(sumX1, sumX1));
        slope1 := Div(numerator, denominator);
      }
      assert slope1 == Slope(next);
      var interceptNumerator := Sub(sumY1, Mul(slope1, sumX1));
      TDivInRange(interceptNumerator, n1);
      var intercept1 := Add(Div(interceptNumerator, n1), LaplaceMechanism(Mul(2, SCALE), n1, slope1));
      n, sumX, sumY, sumXSquared, sumXY := n1, sumX1, sumY1, sumXSquared1, sumXY1;
      slope, intercept := slope1, intercept1;
    }
  }

  /** Training on one more sample of `s` folds it into the prefix's statistics. */
  lemma StatsOfLongerPrefix(s: seq<Sample>, i: int)
    requires 0 <= i < |s|
    ensures Stats(s[..i + 1]) == Include(Stats(s[..i]), s[i])
  {
    assert s[..i + 1][..i] == s[..i];
  }

  /**
   * The guest's `main`: train a fresh accumulator on every pair of the
   * embedded array, in order, and commit `(slope, intercept)`. The result
   * is the slope and intercept of the direct sums over the whole array.
   */
  method TrainOnDataset(data: seq<Sample>) returns (slope: int, intercept: int)
    requires |data| == ARRAY_SIZE
    requires Trainable(data)
    ensures var st := DirectStats(data);
      Fits(st) && st.n == ARRAY_SIZE && slope == Slope(st) && intercept == Intercept(st)
  {
    var lr := new LinearRegression();
    for i := 0 to |data|
      invariant lr.Valid()
      invariant lr.Statistic() == Stats(data[..i]) && lr.n == i
      invariant i > 0 ==> lr.intercept == Intercept(lr.Statistic())
    {
      assert StepInRange(Stats(data[..i]), data[i]);
      lr.Train(data[i].x, data[i].y);
      StatsOfLongerPrefix(data, i);
    }
    assert data[..|data|] == data;
    StatsAreDirectSums(data);
    slope, intercept := lr.slope, lr.intercept;
  }

}
