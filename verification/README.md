# Business process analyzer: a verified model

`BusinessProcessAnalyzer` stores business process records and fits a linear
model that forecasts how long a process takes from four features:
- the number of retries;
- the number of completed steps;
- the priority ordinal;
- whether the process is automated.

Training runs over the records whose status is `COMPLETED`. It works in four steps:
- build the design matrix X and the targets y (elapsed whole seconds);
- accumulate the normal equations XᵀX · w = Xᵀy;
- solve them by Gaussian elimination with partial pivoting on an n×(n+1) augmented matrix;
- back-substitute.

Predicting an ETA adds the forecast, truncated to whole seconds, to the record's start time.

The model has five modules:

- `ProcessRecords` (`process_records.dfy`): the record datatype, the priority
  ordinal and the two truncations to whole seconds. Time points are integer
  clock ticks, with one tick per nanosecond, as for the system clock.
- `LinearAlgebra` (`linear_algebra.dfy`): vectors and matrices of reals, and the
  partial dot product `DotRange` with its linearity lemmas.
- `Forecasting` (`forecasting.dfy`): the feature vector, the forecast and the ETA,
  as functions of the weights.
- `GaussianElimination` (`gaussian_elimination.dfy`): the solver.
  - One elimination step is specified on the matrix as a value (`PivotRow`, `SwapRows`, `EliminateColumn`, `Step`, `EliminateFrom`).
  - The methods run it in place on an `array<seq<real>>` of rows and are proved equal to that specification.
  - The specification is proved to keep the solution set and to produce an upper-triangular matrix with a nonzero diagonal.
  - Back-substitution is proved to return the unique solution.
- `Training` (`training.dfy`): the filter, the construction of X and y, the Gram
  matrix XᵀX and the moment vector Xᵀy, the augmented system, and `Fit`,
  which chains everything together.
- `Analyzer` (`analyzer.dfy`): the class `BusinessProcessAnalyzer`.
  - Its state is the record list, which only grows, and the weight vector, which starts at five zeros.
  - Its methods and functions correspond to `addProcess`, `forecastDuration`, `predictETA` and `trainForecastModel`.

Numbers are Dafny `real`, so the arithmetic is exact. Division by a zero pivot has no value over the reals. For that reason training requires that elimination never meets a zero pivot (`NonzeroPivots`). That predicate is defined by running the specification of the elimination.

## Model

| member | source | states |
|---|---|---|
| ProcessRecords.PriorityValue | BusinessProcessAnalyzer.cpp:38-42 | the ordinal is 3 exactly for "HIGH", 2 exactly for "MEDIUM", and always between 1 and 3, so every other label, unrecognised ones included, gets 1 |
| ProcessRecords.ToSeconds | BusinessProcessAnalyzer.cpp:34-36 | the elapsed whole seconds are the tick difference divided by the ticks per second and truncated toward zero: bounded from below for non-negative differences and from above for negative ones |
| ProcessRecords.ToSecondsAntisymmetric | BusinessProcessAnalyzer.cpp:34-36 | swapping start and end only flips the sign, which is what truncation toward zero, unlike flooring, gives |
| ProcessRecords.ToSecondsTruncatesNegative | BusinessProcessAnalyzer.cpp:34-36 | 1.5 seconds backwards count as -1 second, not -2 |
| ProcessRecords.TruncateToInt | BusinessProcessAnalyzer.cpp:63 | the conversion of the forecast to whole seconds drops the fractional part toward zero: n ≤ x < n+1 for x ≥ 0 and n-1 < x ≤ n for x < 0 |
| ProcessRecords.TruncateToIntOdd | BusinessProcessAnalyzer.cpp:63 | the truncation is odd, so a negative forecast rounds up rather than down |
| Forecasting.FeatureVector | BusinessProcessAnalyzer.cpp:51-54 | the feature vector has five entries: bias 1, retries, the number of completed steps, a priority ordinal between 1 and 3, and 1 if automated, otherwise 0 |
| Forecasting.Forecast | BusinessProcessAnalyzer.cpp:50-57 | the dot product of the features with the weights equals w0 + w1·retries + w2·steps + w3·priority + w4·automated |
| Forecasting.PriorityFallback | BusinessProcessAnalyzer.cpp:38-42 | a record with an unrecognised priority label is forecast exactly like one with LOW |
| Forecasting.PredictETA | BusinessProcessAnalyzer.cpp:60-64 | the ETA lies a whole number of seconds after the start time, and that number is the forecast truncated toward zero |
| Training.Completed | BusinessProcessAnalyzer.cpp:72-73 | the filter never yields more records than it was given |
| Training.CompletedExactly | BusinessProcessAnalyzer.cpp:72-73 | a record survives the filter if and only if it is stored and its status is COMPLETED |
| Training.CompletedAppend | BusinessProcessAnalyzer.cpp:72-73 | filtering a concatenation is the concatenation of the filtered parts, so record order is kept |
| Training.NonCompletedIgnored | BusinessProcessAnalyzer.cpp:72-73 | a record with any other status contributes nothing, wherever it stands |
| Training.TrainingRows | BusinessProcessAnalyzer.cpp:78-84 | X has one row per completed record, each row has five entries, and each bias entry is 1 |
| Training.TrainingTargets | BusinessProcessAnalyzer.cpp:75-76 | y has one target per completed record |
| Training.TrainingSetAppend | BusinessProcessAnalyzer.cpp:72-85 | appending a record adds a feature row and a duration target if and only if the record is completed |
| Training.BuildTrainingSet | BusinessProcessAnalyzer.cpp:72-85 | the filtering loop builds exactly the rows and targets of the completed records; X and y have equal length; every row has five entries with bias 1 |
| Training.GramSymmetric | BusinessProcessAnalyzer.cpp:94-101 | the Gram sums are symmetric in their two column indices over any prefix of the rows |
| Training.GramBias | BusinessProcessAnalyzer.cpp:94-101 | with the bias column all ones, the corner sum counts the rows and the first moment sums the targets |
| Training.ExactFitSolvesNormalEquations | BusinessProcessAnalyzer.cpp:90-101 | if every row's dot product with w is its target, then w satisfies every row of XᵀX·w = Xᵀy |
| Training.GramRowStep | BusinessProcessAnalyzer.cpp:97-99 | adding one more sample adds X[i][j] times that sample to row j of the Gram matrix |
| Training.AccumulateGramRow | BusinessProcessAnalyzer.cpp:97-99 | the innermost loop adds x[j]·x[k] to column k of the row, for every k |
| Training.AccumulateSample | BusinessProcessAnalyzer.cpp:95-100 | one pass of the j-loop turns the sums over the first i samples into the sums over the first i+1, in XtX and Xty together |
| Training.PartialSumsComplete | BusinessProcessAnalyzer.cpp:94-101 | once every sample is summed, the accumulators are XᵀX and Xᵀy |
| Training.NormalEquations | BusinessProcessAnalyzer.cpp:90-101 | the nested loops produce XtX[j][k] = Σᵢ X[i][j]·X[i][k] and Xty[j] = Σᵢ X[i][j]·y[i] |
| Training.GramMatrixSymmetric | BusinessProcessAnalyzer.cpp:90-101 | XᵀX is symmetric |
| Training.GramMatrixBias | BusinessProcessAnalyzer.cpp:90-101 | XᵀX[0][0] is the number of completed rows, and Xᵀy[0] is the sum of the targets |
| Training.Augment | BusinessProcessAnalyzer.cpp:104-108 | the augmented system is square with one extra right-hand-side column |
| Training.AugmentSolves | BusinessProcessAnalyzer.cpp:104-108 | w solves the augmented system exactly when XᵀX·w = Xᵀy |
| Training.AugmentedSystem | BusinessProcessAnalyzer.cpp:104-108 | the copy loop yields a fresh array whose row i is XtX[i] followed by Xty[i] |
| Training.Fit | BusinessProcessAnalyzer.cpp:90-133 | when no pivot is zero, the computed weights solve the normal equations, and every solution equals them |
| Training.NormalSystem | BusinessProcessAnalyzer.cpp:90-108 | the normal equations of the completed records form a 5×6 augmented system |
| Training.FitSystemIsNormalSystem | BusinessProcessAnalyzer.cpp:87-108 | the system assembled from a non-empty training set of the records is their normal system |
| Training.ExactDataRecovered | BusinessProcessAnalyzer.cpp:67-133 | if the durations are exactly linear in the features with weights w*, and no pivot is zero, then the solution of the normal equations is w* and it reproduces every training duration |
| GaussianElimination.PivotScan | BusinessProcessAnalyzer.cpp:113-116 | the running choice of the pivot scan stays within the rows from the current one to n |
| GaussianElimination.PivotScanMax | BusinessProcessAnalyzer.cpp:113-116 | the scan ends at a row of largest magnitude in column i, and no earlier row has that magnitude |
| GaussianElimination.PivotRow | BusinessProcessAnalyzer.cpp:113-116 | the pivot row lies in [i, n), has the largest \|A[r][i]\|, and is the first such row, because the comparison is strict |
| GaussianElimination.SelectPivot | BusinessProcessAnalyzer.cpp:113-116 | the pivot search loop returns PivotRow |
| GaussianElimination.SwapRows | BusinessProcessAnalyzer.cpp:117 | rows i and p are exchanged and every other row stays in place |
| GaussianElimination.SwapKeepsSolutions | BusinessProcessAnalyzer.cpp:117 | exchanging two rows keeps the set of solutions |
| GaussianElimination.SubtractRow | BusinessProcessAnalyzer.cpp:122-123 | the row update keeps the row's length |
| GaussianElimination.EliminateColumn | BusinessProcessAnalyzer.cpp:120-124 | clearing column i leaves rows 0 .. i untouched and keeps the augmented shape |
| GaussianElimination.DotRangeSubtractRow | BusinessProcessAnalyzer.cpp:120-124 | subtracting f times the pivot row from column i on subtracts f times its dot product, because the pivot row is zero before column i |
| GaussianElimination.SubtractRowKeepsResidual | BusinessProcessAnalyzer.cpp:120-124 | at any w that satisfies the pivot row, the row update leaves the residual of the updated row unchanged |
| GaussianElimination.SubtractRowResidual | BusinessProcessAnalyzer.cpp:120-124 | every row below the pivot row keeps its residual across step i, at any w that satisfies the pivot row |
| GaussianElimination.EliminateColumnKeepsSolutions | BusinessProcessAnalyzer.cpp:120-124 | once the earlier columns are clear below the diagonal, clearing column i keeps the set of solutions, although only columns i .. n are updated |
| GaussianElimination.EliminateColumnClears | BusinessProcessAnalyzer.cpp:120-124 | after step i, column i is zero below the diagonal, and the columns left of i are unchanged |
| GaussianElimination.SubtractPivotRow | BusinessProcessAnalyzer.cpp:121-123 | the j-loop turns row k into row k minus factor times row i on columns i .. n, and leaves every other row unchanged |
| GaussianElimination.EliminateBelow | BusinessProcessAnalyzer.cpp:120-124 | the in-place elimination loop of step i produces EliminateColumn |
| GaussianElimination.Step | BusinessProcessAnalyzer.cpp:111-125 | step i leaves the rows above i untouched and puts the pivot row in row i |
| GaussianElimination.EliminateFrom | BusinessProcessAnalyzer.cpp:111-125 | the steps from i on leave rows 0 .. i-1 untouched |
| GaussianElimination.StepProperties | BusinessProcessAnalyzer.cpp:111-125 | step i keeps the set of solutions, and extends by one column both the zeros below the diagonal and the nonzero diagonal |
| GaussianElimination.EliminationProperties | BusinessProcessAnalyzer.cpp:111-125 | with nonzero pivots, elimination yields an upper-triangular matrix with a nonzero diagonal and the same solutions |
| GaussianElimination.StepUnfold | BusinessProcessAnalyzer.cpp:111-125 | after step i, the remaining steps still meet no zero pivot and finish the same elimination |
| GaussianElimination.EliminationStep | BusinessProcessAnalyzer.cpp:112-124 | the pivot search, the swap and the clearing of one loop iteration equal Step |
| GaussianElimination.Eliminate | BusinessProcessAnalyzer.cpp:111-125 | the in-place elimination loop equals EliminateFrom from step 0 |
| GaussianElimination.RowFixesUnknown | BusinessProcessAnalyzer.cpp:128-133 | a row that is zero left of a nonzero diagonal entry fixes that unknown once the later unknowns are fixed |
| GaussianElimination.HeadDetermined | BusinessProcessAnalyzer.cpp:128-133 | two vectors that agree after position i and have the same partial dot product from i with such a row agree at i |
| GaussianElimination.TriangularSolutionUnique | BusinessProcessAnalyzer.cpp:128-133 | an upper-triangular system with a nonzero diagonal has at most one solution |
| GaussianElimination.SolutionUnique | BusinessProcessAnalyzer.cpp:103-133 | a system on which elimination meets no zero pivot has at most one solution |
| GaussianElimination.MovedRight | BusinessProcessAnalyzer.cpp:131-132 | moving unknown i to the right keeps the augmented shape |
| GaussianElimination.MoveTerm | BusinessProcessAnalyzer.cpp:132 | the update of the right-hand side keeps the row's length |
| GaussianElimination.MoveTermRight | BusinessProcessAnalyzer.cpp:131-132 | the k-loop subtracts A[k][i]·weights[i] from the right-hand side of every row above i, and changes nothing else |
| GaussianElimination.BackSubstituteStep | BusinessProcessAnalyzer.cpp:129-133 | setting unknown i to A[i][n] / A[i][i] and moving its term right keeps the back-substitution invariant, one row further up |
| GaussianElimination.SolveDiagonal | BusinessProcessAnalyzer.cpp:130 | the division by the diagonal entry solves the row's scalar equation |
| GaussianElimination.SolveRow | BusinessProcessAnalyzer.cpp:130 | the unknown computed from row i satisfies row i, given the later unknowns |
| GaussianElimination.SetUnknown | BusinessProcessAnalyzer.cpp:130 | setting unknown i changes no partial dot product after column i, and adds one term to each partial dot product from column i |
| GaussianElimination.Reduced | BusinessProcessAnalyzer.cpp:128-133 | the reduced matrix has the augmented shape |
| GaussianElimination.BackSubstituteDone | BusinessProcessAnalyzer.cpp:128-133 | after the last row, w solves the triangular system, and each reduced right-hand side is the diagonal entry times its unknown |
| GaussianElimination.BackSubstitute | BusinessProcessAnalyzer.cpp:128-133 | back-substitution returns a solution of the triangular system, and leaves A[k][n] reduced to A[k][k]·w[k] |
| LinearAlgebra.Zeros | BusinessProcessAnalyzer.cpp:32 | the vector of n zeros, used for the initial weights |
| LinearAlgebra.DotRangeCombine | BusinessProcessAnalyzer.cpp:94-101 | the partial dot product is linear in its first argument |
| LinearAlgebra.DotRangeAgree | BusinessProcessAnalyzer.cpp:56 | only the entries inside the range take part in the partial dot product |
| LinearAlgebra.DotRangeSkipZeros | BusinessProcessAnalyzer.cpp:128-133 | leading zero coefficients may be skipped |
| LinearAlgebra.DotRangeLast | BusinessProcessAnalyzer.cpp:56 | the last term splits off the partial dot product |
| LinearAlgebra.ResidualAsDot | BusinessProcessAnalyzer.cpp:120-124 | an equation's residual is the dot product of its row with the unknowns extended by -1 |
| Analyzer.BusinessProcessAnalyzer.constructor | BusinessProcessAnalyzer.cpp:31-32 | a new analyzer has no records and five zero weights |
| Analyzer.BusinessProcessAnalyzer.AddProcess | BusinessProcessAnalyzer.cpp:45-47 | the record is appended at the end, and the weights are unchanged |
| Analyzer.BusinessProcessAnalyzer.ForecastDuration | BusinessProcessAnalyzer.cpp:50-57 | the forecast under the current weights, which is 0 for every record while the weights are all zero |
| Analyzer.BusinessProcessAnalyzer.PredictETA | BusinessProcessAnalyzer.cpp:60-64 | the ETA under the current weights, which is the start time while the weights are all zero |
| Analyzer.BusinessProcessAnalyzer.TrainForecastModel | BusinessProcessAnalyzer.cpp:67-134 | the records are unchanged. With no completed record the weights are unchanged (the cold-start no-op). Otherwise the new five weights solve XᵀX·w = Xᵀy for the completed records, and they are the only solution |

## Left out

- Floating point: values are exact reals, so IEEE-754 rounding, overflow, and inf or NaN are not modelled. `std::abs` on doubles becomes `Abs` on reals.
- Analyzer.BusinessProcessAnalyzer.TrainForecastModel: requires that elimination meets no zero pivot whenever some record is completed. In the source, a zero pivot divides by zero and leaves inf or NaN in the weights, which has no counterpart over the reals.
  - A singular normal system falls outside this precondition, for example fewer completed records than the five unknowns, as in the demo driver's sample data.
  - Training.Fit, GaussianElimination.Eliminate and GaussianElimination.EliminationStep carry the same precondition.
- Forecasting.PredictETA: `static_cast<int>` of a forecast outside the range of `int` is undefined behaviour in C++. The model truncates without bound instead. `retries` and the step count are unbounded integers too.
- Time points: `system_clock::time_point` is modelled as an integer count of nanosecond ticks. The period of the clock is platform-defined, and nanoseconds is one choice of it. `system_clock::now` and `ctime` are not used by the analyzer and are not modelled.
- Analyzer.BusinessProcessAnalyzer.TrainForecastModel: back-substitution computes the solution in a local vector, which is then assigned to `weights` once. The source first resets `weights` to zeros and then writes `weights[i]` one at a time. Nothing can observe the object between those writes, so the resulting state is the same.
- Analyzer.BusinessProcessAnalyzer.TrainForecastModel: the matrices X, XᵀX and Xᵀy are Dafny sequences, rebuilt on each update, and not C++ vectors updated in place. The augmented matrix A is an array of rows updated in place, as in the source.
- `printWeights`, and all console output, are not modelled.
- main.cpp, the demo driver that builds sample records and prints results, is not modelled.
- The record fields `id`, `ownerId`, `type` and `metadata` are never read by the analyzer and are dropped. Step names do not matter either: only the number of completed steps does.
