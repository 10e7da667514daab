# Linear system solvers, modelled in Dafny

This project models the two solvers of LinearSystemSolvers, a program that times
direct and iterative solution of dense systems A·x = b. The same algorithms appear
twice in the program, once in Java (`GvGS.java`) and once with NumPy (`TP_num.py`):

- **Gaussian elimination without pivoting.** For each pivot row i, every row j below
  it loses `A[j][i] / A[i][i]` times row i. This applies on the columns from i on,
  and the same operation is applied to `b[j]`. Back-substitution then solves the
  upper-triangular system from the last row up.
- **The iterative solver**, called Gauss-Seidel in both sources. It starts at the
  zero vector and runs at most `maxIter` sweeps (1000 in Java). It returns early once
  the Euclidean distance between two successive iterates is below `tol` (1e-6 in Java).
- **The vector helpers** `dotProduct` (over a half-open index range), `subtract`
  and `norm`.
- **The NumPy generator** of diagonally dominant systems, taken as a function of its
  random draws.

The Java and NumPy versions of elimination, back-substitution and the sweep run the
same loops, so one member models both. The table below cites the Java lines for
these members; the NumPy counterparts are `gauss_elimination` (TP_num.py:5-18) and
the sweep of `gauss_seidel` (TP_num.py:24-26).

Vectors are `seq<real>` and matrices `seq<seq<real>>`, so arithmetic is exact. The
methods follow the source loops on local sequences. Each method is specified by
pure recursive functions and by lemmas that relate them.

The modules are:

- `LinAlg` (`linalg.dfy`): vectors, matrices, the system, and the helpers.
- `Direct` (`direct.dfy`): elimination and back-substitution.
- `Iterative` (`iterative.dfy`): the sweep, the iteration and the stopping test.
- `Generator` (`generator.dfy`): the NumPy input generator.
- `Benchmark` (`benchmark.dfy`): the averaging of trial times.
- `Scenarios` (`scenarios.dfy`): small worked systems.

Modelling decisions:

- **A sweep is a Jacobi sweep.** Every new entry reads the previous iterate on both
  sides of the diagonal. This holds for Java (`dotProduct(A[i], x, 0, i)`) and for
  NumPy (`x[:i]`). The sweep is therefore a Jacobi sweep, whatever the solver's name
  says. The model follows the code, and `Scenarios.FirstSweepReadsPreviousIterate`
  shows the difference on a 2×2 system.
- **The duplicated assignment is kept.** GvGS.java:183 repeats line 182 verbatim, and
  `SweepOnce` performs both assignments.
- **Zero pivots are reported.** Neither source checks a zero divisor; it lets infinities
  or NaN flow into the result. Here both solvers return `ZeroPivot(i)` at the first
  diagonal entry they would divide by while it is zero. On every input without such
  a zero, the result is the source's result. For elimination this includes the last
  pivot: step n-1 has no row below it, so GvGS.java:155-163 never divide by it, and
  the first division by it is back-substitution's at line 167. `Direct.Eliminate`
  reports it all the same.
- **Norms are squared.** The stopping test `norm(x' - x) < tol` is stated without the
  square root as `Below(DistSq(x', x), tol)`, that is `tol > 0 ∧ d² < tol²`.
  `Iterative.BelowMatchesNorm` shows the two tests agree.
- **Rows are collected, not overwritten.** The Java elimination rewrites rows of `A`
  in place. `Direct.EliminateBelow` collects the rewritten rows after the untouched
  ones instead. Each row is read before it is rewritten, so this gives the same
  matrix.
- **Elimination has a functional specification.** It is described by `EliminationStep`
  (one pivot step) and `Reduced` (the first m steps). `Reduced` skips a step whose
  pivot is zero, which keeps it total; the solver stops there instead.

## Model

| member | source | states |
|---|---|---|
| LinAlg.Zeros | TP_num.py:22 | the starting iterate has length n and every entry 0 |
| LinAlg.DotProduct | GvGS.java:193-199 | the loop returns Σ a[k]·b[k] over start ≤ k < end, and 0 when start ≥ end |
| LinAlg.DotSplit | GvGS.java:193-199 | a range sum splits at any middle index into the sums of the two sub-ranges |
| LinAlg.DotFrame | GvGS.java:193-199 | the dot product over [start, end) depends only on the entries inside that range |
| LinAlg.DotOfZeros | GvGS.java:193-199 | a range where the left vector is zero contributes nothing, whatever the right vector holds |
| LinAlg.DotLinear | GvGS.java:158-160 | if row c is row a minus f times row p, then c·x = a·x − f·(p·x) |
| LinAlg.DiffEntry | GvGS.java:201-207 | entry i of a − b is a[i] − b[i] |
| LinAlg.Subtract | GvGS.java:201-207 | the result has a's length and holds a[i] − b[i] at every index i |
| LinAlg.DiffCharacterised | GvGS.java:201-207 | any vector of a's length holding a[i] − b[i] at every index is the reference difference a − b |
| LinAlg.NormSquared | GvGS.java:209-214 | the loop returns the sum of the squares, which is never negative and is 0 for an all-zero vector |
| LinAlg.SumSquaresNonNegative | GvGS.java:209-214 | a sum of squares is never negative |
| LinAlg.AllZeroSumSquares | GvGS.java:209-214 | a vector of zeros has squared norm 0 |
| LinAlg.SumSquaresIsSelfDot | GvGS.java:193-214 | the squared norm of v equals the dot product of v with itself over its whole range |
| LinAlg.DistanceToSelf | GvGS.java:201-214 | subtract(x, x) is all zeros, so its squared norm is 0 |
| Direct.ReduceRowEntry | GvGS.java:158-160 | after row j loses f times the pivot row from column i on, columns before i are unchanged and column k ≥ i holds row[k] − f·pivot[k] |
| Direct.StepRow | GvGS.java:156-161 | after step i, rows and b-entries up to i are unchanged; each row j below i is its reduced row and b[j] becomes b[j] − factor·b[i] |
| Direct.StepFrame | GvGS.java:156-161 | step i leaves rows 0..i, b[0..i] and every column before i unchanged, and clears column i below the pivot |
| Direct.ReducedRowDot | GvGS.java:158-160 | when the pivot row is zero before column i, the reduced row's dot product is row·x − f·(pivot·x) |
| Direct.RowEquationKept | GvGS.java:158-161 | if the pivot row's equation holds, a row's equation holds after it loses f times the pivot equation exactly when it held before |
| Direct.StepPreservesSolutions | GvGS.java:155-163 | once the columns before i are cleared below the diagonal, x solves the system before step i exactly when it solves it after |
| Direct.ReducedZeroBelow | TP_num.py:7-12 | after m steps with non-zero pivots, every entry below the diagonal in the first m columns is zero |
| Direct.ReducedSameSolutions | TP_num.py:7-12 | after m steps with non-zero pivots, the reduced system has exactly the original system's solutions |
| Direct.ReducedFrame | GvGS.java:155-163 | steps i and later do not change rows 0..i, b[0..i], or the columns before i |
| Direct.PivotIsFinalDiagonal | GvGS.java:155-168 | the divisor of elimination step i equals the diagonal entry that back-substitution divides by |
| Direct.TriangularSolves | GvGS.java:165-168 | if each row's sum from the diagonal on matches b, then x solves the upper-triangular system |
| Direct.TriangularUnique | GvGS.java:165-168 | an upper-triangular system with a non-zero diagonal has at most one solution |
| Direct.SubtractScaledRow | GvGS.java:158-160 | the k loop subtracts factor·pivot[k] from row[k] exactly for k ≥ i, and leaves the earlier columns unchanged |
| Direct.ReduceBelowPivot | GvGS.java:157-161 | row j and b[j] become their values after step i, and A[j][i] becomes 0 |
| Direct.EliminateBelow | GvGS.java:156-162 | one pass of the j loop yields the system after elimination step i |
| Direct.Eliminate | GvGS.java:155-163 | succeeds exactly when every pivot is non-zero; then yields the system the row operations of all n steps produce (`Reduced(System(A, b), n)`), which is n×n upper-triangular with a non-zero diagonal and has exactly the original system's solutions; otherwise reports the first zero pivot |
| Direct.BackSubstitute | GvGS.java:165-170 | returns x of length n with Σ_{k ≥ i} U[i][k]·x[k] = c[i] for every row i |
| Direct.GaussElimination | GvGS.java:153-171 | succeeds exactly when no pivot is zero; then x solves the original A·x = b and is its only solution, and otherwise the first zero pivot is reported |
| Iterative.BelowMatchesNorm | GvGS.java:185 | for a norm ≥ 0, norm < tol holds exactly when the squared norm is below tol² with tol > 0 |
| Iterative.FirstZeroOnDiagonal | GvGS.java:182 | finds the first i with A[i][i] = 0, the first divisor a sweep would meet as zero, or n if there is none |
| Iterative.SweepOnce | GvGS.java:180-184 | every new entry satisfies A[i][i]·xNew[i] = b[i] − Σ_{k<i} A[i][k]·x[k] − Σ_{k>i} A[i][k]·x[k], with x the previous iterate |
| Iterative.SweepCharacterised | GvGS.java:181-184 | a vector whose every entry satisfies A[i][i]·v[i] = b[i] − (the two partial sums over x) is the reference sweep of x |
| Iterative.SweepAndMeasure | GvGS.java:180-186 | for any x, one loop body yields the sweep of x, and decides to stop exactly when the two vectors are closer than tol |
| Iterative.GaussSeidel | TP_num.py:20-30 | does at most max_iter sweeps from the zero vector and returns the iterate reached; it returns early exactly at the first sweep whose iterate is within tol of the previous one, and a zero diagonal entry is reported |
| Iterative.GaussSeidelDefault | GvGS.java:173-191 | with the cap 1000 and tol 1e-6: returns Iterate(sweeps); it returns early exactly when that sweep is within (1e-6)² of the previous one, and no earlier sweep was; otherwise exactly 1000 sweeps are done; a zero diagonal entry is reported as the first one |
| Iterative.RowAroundDiagonal | GvGS.java:182 | the full row product is the lower partial sum, plus the diagonal term, plus the upper partial sum |
| Iterative.RowMatchesEntry | GvGS.java:182 | row i of A·x = b holds exactly when x[i] equals the entry the sweep computes from x |
| Iterative.SolutionIsFixedPoint | GvGS.java:180-184 | with a non-zero diagonal, x solves A·x = b exactly when one sweep maps x to itself |
| Iterative.SweepIgnoresOwnEntry | TP_num.py:26 | new entry i does not depend on x[i]: iterates that differ only at i give the same new entry |
| Iterative.ExactSolutionStops | GvGS.java:185-186 | once an iterate solves the system, the next sweep reproduces it, and any positive tol stops there |
| Generator.DiagonallyDominantSystem | TP_num.py:32-39 | A is n×n and b has length n; b is the third draw; off-diagonal entries are the draws; each diagonal entry is the full row's absolute sum plus the extra draw |
| Generator.AbsSumSplit | TP_num.py:35 | the full row's absolute sum is the off-diagonal sum plus \|A[i][i]\| |
| Generator.AbsSumExceptFrame | TP_num.py:37 | overwriting the diagonal does not change a row's off-diagonal absolute sum |
| Generator.AbsSumExceptNonNegative | TP_num.py:35 | an off-diagonal absolute sum is never negative |
| Generator.GeneratedIsDominant | TP_num.py:35-37 | with non-negative extra draws every diagonal entry is at least its row's off-diagonal absolute sum, strictly so where the extra draw is positive |
| Generator.GeneratedNonZeroDiagonal | TP_num.py:35-37 | with positive extra draws, no diagonal entry of the generated matrix is zero |
| Benchmark.AverageTime | GvGS.java:20-37 | the mean times the number of trials is the total, and the mean lies between the smallest and the largest sample |
| Benchmark.MeanWithinSamples | GvGS.java:36-37 | a value whose n-fold multiple is the total of n samples is at least one sample and at most another |
| Benchmark.ConstantSamples | GvGS.java:36-37 | equal samples total n times their value, so they average to it |
| Scenarios.SampleSolvedByElimination | GvGS.java:153-171 | on A = [[4, 1], [2, 3]] and b = [1, 2] no pivot is zero, and [0.1, 0.6] is the solution |
| Scenarios.FirstSweepReadsPreviousIterate | GvGS.java:182-183 | on the same system, the first sweep gives [1/4, 2/3], not the Gauss-Seidel value 1/2 for the second entry |
| Scenarios.SwapNeedsPivoting | GvGS.java:155-157 | A = [[0, 1], [1, 0]] with b = [1, 1] has a solution, yet elimination without pivoting meets a zero pivot at step 0 |

## Left out

- The Swing chart (GvGS.java:46-131) and the matplotlib plot: they only present results.
- The clock readings, the loops over sizes and trials, the result maps and the printing:
  they are clock I/O. Only the average of a size's trial times is modelled, in
  `Benchmark.AverageTime`, and the trial times arrive as its argument.
- `java.util.Random` and `np.random`: the draws are parameters of
  `Generator.DiagonallyDominantSystem`. The Java generators `generateRandomMatrix` and
  `generateRandomVector` only copy draws into arrays and are not modelled.
- IEEE-754 double rounding: the model computes over exact reals.
- NaN and infinities after a division by a zero diagonal entry: both solvers report
  `ZeroPivot` instead of producing them.
- The early zero check in `Iterative.GaussSeidel`: the diagonal is scanned before the
  first sweep. The source would instead produce infinities or NaN during that sweep
  and carry on.
- `Math.sqrt` and `np.linalg.norm`: squared norms are compared with tol².
- The shallow `A.clone()` in the Java benchmark: it copies only row references, so
  `gaussSeidel` sees rows already rewritten by `gaussElimination`. Each solver here
  receives its own values.
- In-place mutation of the caller's `A` and `b`: the methods return new values
  instead.
- Convergence of the iteration, for diagonally dominant or any other matrices: the
  source promises only the iteration cap.
- Inputs that are not n×n with n = |b|: every solver requires exactly that shape. The
  source does not check it. Java and NumPy `gauss_elimination` fail with an index error
  on smaller arrays and read only the leading n×n block of larger ones; NumPy
  `gauss_seidel` raises a shape error whenever the rows of A are not n long, because
  the upper partial dot product pairs a row slice with a slice of x of another length.
- LinAlg.NormSquared: the converse, that a zero squared norm means a zero vector, is
  not stated.
- Iterative.GaussSeidel: besides the vector the source returns, the result records
  the number of sweeps done and whether the loop returned early.
- Generator.DiagonallyDominantSystem: the source's comment says the row sums cover the
  off-diagonal entries, but the code sums the whole row, diagonal included. The
  model follows the code. The result is still diagonally dominant, by a margin of
  |draws[i][i]| (the drawn diagonal entry before it is overwritten) plus the extra draw.
- The defaults `max_iter=1000` and `tol=1e-6` of the NumPy `gauss_seidel` are not a
  separate member. They equal the Java constants used by
  `Iterative.GaussSeidelDefault`.
