# A verified model of the capy2vML regression kernel and host data shaping

capy2vML trains a linear regression with differential-privacy noise inside a
zero-knowledge virtual machine. The guest program keeps the running
sufficient statistics of the samples it is trained on. From two samples on
it recomputes the least-squares slope, and on every sample it recomputes the
intercept plus a Laplace perturbation. Everything is `i64` fixed-point
arithmetic with 10000 units per unit value. The host reads a two-column CSV
file into two vectors and interleaves them.

The model has seven modules:

- `FixedPoint` (`fixed_point.dfy`): Rust's truncating division `TDiv`, the
  bit-mask `abs`, and `powf_fixed` as a method with its square-and-multiply
  loop, proved against a recursive specification `Power`/`PowLoop`.
- `Laplace` (`laplace.dfy`): `laplace_noise` and `laplace_mechanism` as
  functions. The closed form of the noise is proved: it is 0 or
  `SCALE / 2 * b`, depending on whether the mask `abs(x * SCALE / b)`
  reaches 1.0.
- `Regression` (`regression.dfy`): the `LinearRegression` struct as a class
  with the seven fields, `new` as its constructor, and `train` as a method
  that modifies the object. The fold in `main` is `TrainOnDataset`. The
  running sums are tied to `Stats`, the fold of `train` over a sequence,
  which is in turn proved equal to the direct sums `DirectStats`.
- `RegressionProperties` (`regression_properties.dfy`): what the statistics
  mean. The slope's denominator is zero exactly when all `x` values are
  equal, so training needs its first two `x` values to differ. Samples on an
  exact line give back that line. One sample gives the intercept `y` plus
  75_000_000.
- `Interleave` (`interleave.dfy`): `interleave_vectors` as a method with its
  three loops, proved against `Interleaved`, with lemmas for positions,
  tail and de-interleaving.
- `CsvIngest` (`csv_ingest.dfy`): the row rule of `read_csv_file` over an
  abstract sequence of rows, with number parsing as a parameter.
- `Wrappers` (`wrappers.dfy`): `Option` and `Result`.

`i64` overflow is modelled by preconditions. Every product, sum and quotient
the guest forms must lie in the `i64` range (`InI64`, `LoopInRange`,
`PowDefined`, `NoiseInRange`, `Fits`, `StepInRange`, `Trainable`). So the
model agrees with the guest wherever no `i64` operation overflows and no
division by zero occurs. Within `train`, the checked helpers `Add`, `Sub`,
`Mul` and `Div` make the verifier check each of `train`'s own intermediate
values against those bounds. `MechanismInRange` states the same for every
intermediate of `laplace_mechanism`.

In some places the code does not do what its names and doc comments say:
`abs` "Calculates |x|", `powf_fixed` "calculates x^n", and `laplace_noise`
"Forms a laplace distribution". There the model follows the code:

- `abs` is the mask `x & 0x7fffffff`, not a true absolute value.
- The slope is guarded only by `n > 1`, not by a non-zero denominator. A
  zero denominator is therefore excluded by the precondition of `Train`.
- The noise is `SCALE / 2 * b * e / SCALE`, that is `b / 2` times the
  exponential, not `1 / (2b)` times it.
- A negative exponent gives `SCALE / p`. This is not rescaled, so 1.0 to a
  negative power is one fractional unit (`PowerOfOne`).
- A row is skipped only when it has fewer than two fields. Extra fields are
  ignored.

## Model

| member | source | states |
|---|---|---|
| FixedPoint.TDivRemainder | methods/guest/src/main.rs:59 | Rust's integer `/` rounds toward zero: the remainder is smaller than the divisor in magnitude and has the sign of the dividend |
| FixedPoint.TDivInRange | methods/guest/src/main.rs:123-125 | dividing an `i64` by a positive divisor stays in `i64`, keeps the sign and does not grow |
| FixedPoint.TDivExact | methods/guest/src/main.rs:95 | dividing an exact multiple `k * b` by `b` gives back `k` |
| FixedPoint.Abs | methods/guest/src/main.rs:104-106 | the mask lies in `[0, 0x7fffffff]` and equals `x` exactly when `0 <= x <= 0x7fffffff` |
| FixedPoint.AbsOfMinusOne | methods/guest/src/main.rs:104-106 | `abs(-1) == 0x7fffffff` |
| FixedPoint.AbsOfNegative | methods/guest/src/main.rs:104-106 | for negative `x` the mask equals `-x` only at `x == -2^30`, so it is not the absolute value |
| FixedPoint.PowFixed | methods/guest/src/main.rs:109-129 | the method returns `Power(x, n)`: SCALE for `n == 0`, SCALE divided by the positive power for `n < 0`, otherwise the result of the square-and-multiply loop; the loop terminates because `exponent` is halved, and the result fits in `i64` |
| FixedPoint.PowerOfOne | methods/guest/src/main.rs:110-128 | `powf_fixed(SCALE, n) == SCALE` for every `n >= 0`, and `== 1` for `n < 0` because the reciprocal is not rescaled |
| FixedPoint.PowLoopOfOne | methods/guest/src/main.rs:117-128 | the loop from 1.0 with base 1.0 stays at 1.0 and never overflows |
| FixedPoint.PowLoopGrows | methods/guest/src/main.rs:117-128 | from a state at or above 1.0 the loop never ends below its base |
| FixedPoint.PowerOfNegativeExponent | methods/guest/src/main.rs:113-115 | a negative power of any base above 1.0 truncates to 0 |
| FixedPoint.PowLoopOfWhole | methods/guest/src/main.rs:117-128 | on whole numbers the loop is exact: it computes `r * c^e` in fixed point |
| FixedPoint.PowerOfWhole | methods/guest/src/main.rs:109-129 | `powf_fixed(k * SCALE, n) == k^n * SCALE` for `n >= 0`, against the reference `IntPow` |
| Laplace.LaplaceNoise | methods/guest/src/main.rs:86-101 | the noise fits in `i64`; it is 0 when `b == 0` or `abs(x * SCALE / b) >= SCALE`, and otherwise `SCALE / 2 * b` |
| Laplace.NoiseOfMaskedExponent | methods/guest/src/main.rs:93-95 | because `abs` is a mask, `laplace_noise(-2147478648, 10000)` is the full `SCALE / 2 * b == 50_000_000`: the mask of `x * SCALE / b` is 5000, below 1.0 |
| Laplace.NoiseAtZero | methods/guest/src/main.rs:86-101 | at `x == 0` the exponent is 0, `powf_fixed` gives 1.0 and the noise is `SCALE / 2 * b` for every `b` for which `SCALE / 2 * b * SCALE` fits in `i64` |
| Laplace.MechanismInRange | methods/guest/src/main.rs:76-79 | for non-zero `n` and `epsilon` every intermediate of `laplace_mechanism` fits in `i64`: `SCALE / n`, `delta`, `3 * delta`, the first scale, its noise `l`, `abs(alpha) + l`, the spread, `SCALE` plus the spread, `delta_3`, `3 * delta_3` and the second scale; both `laplace_noise` calls are in range |
| Laplace.MechanismScale | methods/guest/src/main.rs:76-79 | the scale of the second `laplace_noise` call is at most 9·10^9 in magnitude; it is 0 once `abs(n) > SCALE` and is non-negative for positive `n` and `epsilon` |
| Laplace.LaplaceMechanism | methods/guest/src/main.rs:75-80 | the perturbation fits in `i64`, is a multiple of `SCALE / 2`, is 0 once `abs(n) > SCALE`, and is non-negative for positive `n` and `epsilon` |
| Laplace.ShareVanishes | methods/guest/src/main.rs:76 | `SCALE / n` truncates to 0 once `abs(n) > SCALE` |
| Regression.Stats | methods/guest/src/main.rs:48-53 | folding `train`'s accumulation over a sequence counts its samples |
| Regression.SumOfAppend | methods/guest/src/main.rs:50-53 | a direct sum over an extended sequence adds the new term |
| Regression.StatsAreDirectSums | methods/guest/src/main.rs:48-53 | after folding a sequence, `n` is its length and each running sum is the direct sum of `x`, `y`, `x * x` or `x * y` over it |
| Regression.LinearRegression.constructor | methods/guest/src/main.rs:34-43 | `new()` sets all seven fields to 0, the statistics of the empty sequence |
| Regression.LinearRegression.Train | methods/guest/src/main.rs:48-65 | `n` goes up by 1 and the sums take `x`, `y`, `x * x`, `x * y`; the slope is recomputed as the truncated least-squares quotient only when `n > 1` and is unchanged otherwise; the intercept is `(sum_y - slope * sum_x) / n` plus `laplace_mechanism(2 * SCALE, n, slope)` on every call; the class invariant is kept |
| Regression.StatsOfLongerPrefix | methods/guest/src/main.rs:135 | training on one more element of the array folds it into the prefix's statistics |
| Regression.TrainOnDataset | methods/guest/src/main.rs:132-136 | training a fresh model on every pair of the array, in order, yields the slope and intercept of the direct sums over the whole array |
| RegressionProperties.SquaredDistances | methods/guest/src/main.rs:58 | a sum of squares is non-negative and is 0 exactly when every `x` equals `v` |
| RegressionProperties.SquaredDistancesOfStats | methods/guest/src/main.rs:50-52 | the squared distances to `v` are `sum_x_squared - 2 * v * sum_x + n * v * v` |
| RegressionProperties.DenominatorStep | methods/guest/src/main.rs:49-58 | one more sample adds to the denominator the squared distances of the earlier samples to its `x` |
| RegressionProperties.DenominatorOfExtension | methods/guest/src/main.rs:49-58 | the denominator of a sequence is that of its prefix plus the squared distances to the last `x` |
| RegressionProperties.SameXOfExtension | methods/guest/src/main.rs:58 | all samples share one `x` exactly when the prefix does and the last sample has the same `x` |
| RegressionProperties.DenominatorVanishes | methods/guest/src/main.rs:56-59 | the slope's denominator is never negative, and it is zero exactly when all `x` values are equal, which is when `train` divides by zero |
| RegressionProperties.TrainingNeedsDistinctStart | methods/guest/src/main.rs:56-59 | data that can be trained on without a panic has different first and second `x` values |
| RegressionProperties.LineSums | methods/guest/src/main.rs:50-53 | on the line `y == a * x + c`, `sum_y == a * sum_x + n * c` and `sum_xy == a * sum_x_squared + c * sum_x` |
| RegressionProperties.NumeratorOnLine | methods/guest/src/main.rs:57-58 | for such sums the numerator is `a` times the denominator |
| RegressionProperties.FitOfExactLine | methods/guest/src/main.rs:56-64 | trained on two or more samples of `y == a * x + c`, the slope is exactly `a` and the intercept is `c` plus the perturbation for `n` and `a` |
| RegressionProperties.FirstSample | methods/guest/src/main.rs:48-64 | after one sample the slope is still 0 and the intercept is `y + 75_000_000` |
| Interleave.Interleaved | host/src/main.rs:97-123 | the interleaving has length `|x| + |y|` |
| Interleave.InterleaveVectors | host/src/main.rs:96-126 | the method returns `Interleaved(x, y)`, of length `|x| + |y|`; with one side empty it returns the other side |
| Interleave.InterleavedAt | host/src/main.rs:102-106 | for `i < min(|x|, |y|)`, position `2 * i` holds `x[i]` and position `2 * i + 1` holds `y[i]` |
| Interleave.InterleavedTail | host/src/main.rs:108-121 | after the first `2 * min(|x|, |y|)` elements come the rest of the longer input, unmodified and in order |
| Interleave.Deinterleave | host/src/main.rs:101-107 | for equal lengths the even positions give back `x` and the odd positions give back `y` |
| CsvIngest.ReadCsvFile | host/src/main.rs:73-94 | the read succeeds exactly when no row fails to be read or to parse; on success it returns the parsed fields 0 and 1 of the rows that have both, in file order; on failure it reports the first offending row, with field 0 checked before field 1, and returns no values |
| CsvIngest.ColumnLength | host/src/main.rs:80-90 | every row with both fields pushes exactly one value |
| CsvIngest.ColumnsPair | host/src/main.rs:86-87 | the `x` and `y` vectors have equal length |
| CsvIngest.ColumnOfRow | host/src/main.rs:82-88 | a row missing field 0 or field 1 contributes nothing and is no error; a row with both contributes its parsed field |
| CsvIngest.ColumnAppend | host/src/main.rs:80-90 | the values of consecutive stretches of rows are concatenated in file order |

## Left out

- The host's `main` (host/src/main.rs:12-70) is left out: the file path, the executor environment, the prover, receipt verification, timing and printing are I/O or calls into the proving engine.
- Opening the file and the CSV reader are left out: the file is the sequence of rows the reader yields, each a record or a read error. The reader's own rules, such as rejecting records of unequal length, are part of that abstraction.
- Number parsing (`f64` from a string) is a parameter `parse`, because floating point is not modelled. The host's journal decode into `(f32, f32, usize)` is also left out.
- `unsafe_deserialize` and `include_bytes_aligned!` are left out, because they reinterpret embedded bytes in place, without a length check. The array is the sequence of samples passed to `TrainOnDataset`.
- `env::commit` is left out, because it is virtual-machine plumbing. `TrainOnDataset` returns the committed pair.
- The `println!` of the vector lengths in `read_csv_file` (host/src/main.rs:91-92) and in `interleave_vectors` (host/src/main.rs:124) is left out, because it is console output and does not change the returned values.
- The range check after the noise (methods/guest/src/main.rs:96-98) is left out, because it cannot fail on an `i64`.
- `i64` overflow is excluded by preconditions rather than modelled as a panic: the model says nothing about inputs on which the guest would overflow.
- LaplaceMechanism: it is stated through its bounds, sign and multiple-of-`SCALE / 2` property, without a closed form for every `n` and `alpha`. FirstSample gives its value for one sample.
- Regression.LinearRegression.Train: the precondition `StepInRange` asks that the new statistics keep the slope's denominator non-zero once `n > 1`, because the source panics there. DenominatorVanishes says which inputs that excludes.
