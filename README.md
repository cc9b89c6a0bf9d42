# Dense linear systems: elimination, inversion, tridiagonal sweep, Jacobi iteration

This project models, in Dafny, the `LinearSystem` class of a small Java
numerical-methods library. A `LinearSystem` holds three things:

- a coefficient `Matrix`;
- a right-hand-side array `column`;
- the number of equations, `size`.

It offers:

- four lockstep row operations. Each changes one matrix row and the matching `column` entry together.
- forward elimination with pivoting (`diagonalize`). It returns the sign `(-1)^swaps`, although its comment promises the determinant.
- Gaussian elimination on a copy, followed by back-substitution.
- inversion, by solving once per unit vector.
- the Thomas sweep for tridiagonal systems.
- the Jacobi rewriting `x = C x + d` and the fixed-point iteration over it.
- a max-norm helper.

The model follows the Java code step by step. `LinearSystems.LinearSystem` is a class:

- its matrix is a `Matrices.Matrix` over an `array2<real>`;
- its right-hand side is an `array<real>`;
- every loop of the Java code is a `while`/`for` loop with invariants, or a helper method that holds one loop body.

Each method is specified against value functions applied to the system's abstract state `State()`, a `Systems.System(m, c)`. The pure modules are:

- `Algebra`: vectors, matrices, row products, the max-norm;
- `Systems`: the row operations on values and what it means to solve a system;
- `Elimination`: forward elimination, back-substitution and inversion;
- `Tridiagonal`: the sweep coefficients and the backward recurrence;
- `Iteration`: the Jacobi rewriting, its sweeps and iterates.

What is proved about those functions:

- Every row operation keeps the solution set (for a non-zero factor and distinct lines), and each has an inverse.
- A completed elimination leaves a unit upper-triangular system with the same solutions.
- Back-substitution solves that system, and nothing else does.
- When elimination stops early, the matrix sends a non-zero vector to zero; when it completes, only the zero vector goes to zero.
- The determinant, as `(-1)^swaps` times the product of the pivots, is zero exactly when the matrix is singular. On 1 by 1 and 2 by 2 matrices it equals the usual formulas `a` and `ad - bc`.
- The inverse's columns are the unit-system solutions. When elimination completes, they form a right inverse.
- The sweep reads only the three diagonals and the right-hand side. Its answer satisfies every row on those diagonals. Conversely, every vector that satisfies those rows obeys the sweep's recurrence. So a tridiagonal matrix the sweep can handle is regular. Elimination on it completes, and the sweep's answer solves the system and equals Gaussian elimination's answer.
- The Jacobi rewriting has the closed form `C[i][j] = -A[i][j] / A[i][i]`, `C[i][i] = 0` and `d[i] = b[i] / A[i][i]`.
- The rewriting's fixed points are exactly the original system's solutions. An iteration that stops moving has reached a solution.

Numbers are exact `real`s, so the zero test of the matrix is `== 0.0`.
`Matrix.java` is not part of this model. The `Matrix` class here has exactly the operations `LinearSystem` calls, with the behaviour those calls presuppose. Its pivot query `selectMainItem(col, from)` returns:

- the first row at or below `from` whose entry in `col` has the largest absolute value (partial pivoting);
- `-1` when that part of the column is zero.

`diagonalize` carries the comment `//also returns determinant` (line 95), and its code does not do that:

- it never multiplies anything into its variable `determinant` (line 97), so it returns only `(-1)^swaps` (line 115). "## Findings" gives an input. `Diagonalize` in the model returns that value as `sign`. Beside it, it returns `det`, the determinant accumulated as the comment intends.
- when no pivot exists it breaks out of its loop (lines 102-103) and still returns `(-1)^swaps`, although the determinant is then 0.
- `gaussianElimination` and `getInverse` then back-substitute on the partial result without failing. The model's solvers are total. Their "solves the system" guarantees are conditional on elimination completing (`Diagonalized(s).stop == |s.m|`).

## Model

| member | source | states |
|---|---|---|
| LinearSystems.LinearSystem.constructor | src/main/java/linearSystem/LinearSystem.java:10-18 | the new system has `a` equations and `b` columns; its matrix and right-hand side are all zero, in fresh storage |
| LinearSystems.LinearSystem.Copy | src/main/java/linearSystem/LinearSystem.java:20-28 | a deep copy: same size and dimensions, the same state, and matrix, grid and column all freshly allocated, so later changes to the copy cannot reach the original |
| LinearSystems.LinearSystem.OfArrays | src/main/java/linearSystem/LinearSystem.java:30-37 | with matching lengths, the system holds a copy of the array's cells and of the column, in fresh storage, with `size` = number of array rows |
| LinearSystems.LinearSystem.FromArrays | src/main/java/linearSystem/LinearSystem.java:30-37 | fails exactly when the array and the column differ in length; otherwise a fresh, unaliased system holding copies of both |
| LinearSystems.LinearSystem.SwapLines | src/main/java/linearSystem/LinearSystem.java:60-68 | succeeds exactly when both line numbers are in `[0, size)`; then the state is `SwapLines` of the old state (rows and right-hand-side entries exchanged together); otherwise nothing changes |
| LinearSystems.LinearSystem.MultiplyLine | src/main/java/linearSystem/LinearSystem.java:70-76 | succeeds exactly when the line is in range; then only row r and `column[r]` are scaled by k; otherwise nothing changes |
| LinearSystems.LinearSystem.SumLines | src/main/java/linearSystem/LinearSystem.java:78-84 | succeeds exactly when both lines are in range; then row t is added into row s and `column[t]` into `column[s]`; otherwise nothing changes |
| LinearSystems.LinearSystem.MultiplyAndSumLines | src/main/java/linearSystem/LinearSystem.java:86-92 | succeeds exactly when both lines are in range; then k times row t is added into row s and `k * column[t]` into `column[s]`; otherwise nothing changes |
| Systems.SwapLinesPreserves | src/main/java/linearSystem/LinearSystem.java:60-68 | swapping two lines keeps x a solution exactly when it was one |
| Systems.MultiplyLinePreserves | src/main/java/linearSystem/LinearSystem.java:70-76 | scaling a line by a non-zero factor keeps the solution set |
| Systems.SumLinesPreserves | src/main/java/linearSystem/LinearSystem.java:78-84 | adding one line into a different line keeps the solution set |
| Systems.MultiplyAndSumLinesPreserves | src/main/java/linearSystem/LinearSystem.java:86-92 | adding a multiple of one line into a different line keeps the solution set |
| Systems.SwapLinesInvolution | src/main/java/linearSystem/LinearSystem.java:60-68 | swapping the same two lines twice restores the system |
| Systems.MultiplyLineInverse | src/main/java/linearSystem/LinearSystem.java:70-76 | scaling by k and then by 1/k restores the system |
| Systems.MultiplyAndSumLinesInverse | src/main/java/linearSystem/LinearSystem.java:86-92 | adding k times line t into line s and then -k times restores the system |
| Systems.SumLinesInverse | src/main/java/linearSystem/LinearSystem.java:78-84 | adding line t into line s is undone by adding -1 times line t |
| LinearSystems.SwapGuardAsWritten | src/main/java/linearSystem/LinearSystem.java:61 | the index guard of `swapLines` as written, accepting indices in `[0, size]` |
| LinearSystems.SwapGuardAdmitsSize | src/main/java/linearSystem/LinearSystem.java:61 | for every system, the guard as written accepts line number `size`, which is out of range for that system |
| Matrices.Matrix.constructor | src/main/java/linearSystem/LinearSystem.java:11 | a fresh rows by cols grid of zeros |
| Matrices.Matrix.Copy | src/main/java/linearSystem/LinearSystem.java:21 | a deep copy: the same cells in a fresh grid |
| Matrices.Matrix.FromArray | src/main/java/linearSystem/LinearSystem.java:34 | a fresh grid holding the cells of the given array |
| Matrices.Matrix.CopyFrom | src/main/java/linearSystem/LinearSystem.java:21-34 | the grid's cells become those of the given array of equal dimensions |
| Matrices.Grid | src/main/java/linearSystem/LinearSystem.java:34 | the cells of a two-dimensional array, row by row, as a rows by cols matrix |
| Matrices.Matrix.SetZeroes | src/main/java/linearSystem/LinearSystem.java:14 | every cell becomes zero, dimensions unchanged |
| Matrices.Matrix.GetValue | src/main/java/linearSystem/LinearSystem.java:110-129 | the cell read of `getValue` at lines 110, 112 and 129 (and 159-168 in the sweep), indexed within the grid, without a contract of its own; CellQueries states its value |
| Matrices.Matrix.CheckZero | src/main/java/linearSystem/LinearSystem.java:100 | the zero test of `checkZero`, exact on `real`, without a contract of its own; CellQueries states its value |
| Matrices.Matrix.CellQueries | src/main/java/linearSystem/LinearSystem.java:100-129 | `getValue(i, j)` is cell (i, j) of the matrix, and `checkZero(i, j)` holds exactly when that cell is 0 |
| Matrices.Matrix.SetValue | src/main/java/linearSystem/LinearSystem.java:148 | exactly cell (i, j) becomes v |
| Matrices.Matrix.SwapRows | src/main/java/linearSystem/LinearSystem.java:64 | the cells become those with rows i and j exchanged |
| Matrices.Matrix.MultiplyRow | src/main/java/linearSystem/LinearSystem.java:74 | only row i is scaled by k |
| Matrices.Matrix.SumRows | src/main/java/linearSystem/LinearSystem.java:82 | row t is added into row s, the other rows unchanged |
| Matrices.Matrix.MultiplyAndSumRows | src/main/java/linearSystem/LinearSystem.java:90 | k times row t is added into row s, the other rows unchanged |
| Matrices.MainItem | src/main/java/linearSystem/LinearSystem.java:100-103 | -1 exactly when column `col` is zero from row `from` down; otherwise a row at or below `from` whose entry is non-zero and of the largest absolute value |
| Matrices.PivotScan | src/main/java/linearSystem/LinearSystem.java:101 | the scan of `selectMainItem` as a function without a contract of its own; PivotScanSpec states its result |
| Matrices.PivotScanSpec | src/main/java/linearSystem/LinearSystem.java:101 | the pivot scan keeps the best non-zero row seen so far and returns the specified pivot |
| Matrices.Matrix.SelectMainItem | src/main/java/linearSystem/LinearSystem.java:101 | the scanning loop returns `MainItem` of the cells |
| Elimination.PowMinusOne | src/main/java/linearSystem/LinearSystem.java:115 | `Math.pow(-1, count)` for a swap count; always 1 or -1 |
| Elimination.PowMinusOneParity | src/main/java/linearSystem/LinearSystem.java:115 | `(-1)^n` is 1 for even n and -1 for odd n |
| LinearSystems.LinearSystem.Diagonalize | src/main/java/linearSystem/LinearSystem.java:95-116 | the new state is the forward elimination of the old one; `sign`, the value returned as written, is `(-1)` to the number of swaps it made; `det` is the determinant of the old matrix's leading square block (the whole matrix when it is square) |
| LinearSystems.LinearSystem.EliminationLoop | src/main/java/linearSystem/LinearSystem.java:96-114 | the loop leaves the eliminated system, counts exactly the exchanges elimination makes, and multiplies up exactly its pivots |
| LinearSystems.LinearSystem.EliminationPass | src/main/java/linearSystem/LinearSystem.java:99-113 | one pass of the loop: either it finds a pivot, multiplies it into the running determinant and advances the elimination by one column, or it leaves the state alone, the determinant becomes 0 and the elimination stops there (the `break`) |
| LinearSystems.LinearSystem.Accumulate | src/main/java/linearSystem/LinearSystem.java:97 | the running determinant times the next pivot is the product of the pivots so far |
| LinearSystems.LinearSystem.Signed | src/main/java/linearSystem/LinearSystem.java:115 | `determinant * Math.pow(-1, count)` is `(-1)^count` times the pivot product; it only gives the final multiplication of `Diagonalize` a name, so that the loop's proof stays small |
| Elimination.Diagonalized | src/main/java/linearSystem/LinearSystem.java:95-116 | forward elimination from column 0 keeps the shape, stops at a pivot index within the row count, and makes no more exchanges than pivots it completes |
| Elimination.SwapsBound | src/main/java/linearSystem/LinearSystem.java:100-108 | each pivot step adds at most one exchange to `count` |
| Elimination.PivotStep | src/main/java/linearSystem/LinearSystem.java:100-113 | one pass of the loop body (exchange, normalise, clear below) keeps the shape of the system |
| Elimination.PivotsStep | src/main/java/linearSystem/LinearSystem.java:100-113 | a pass with a pivot contributes that non-zero pivot, and elimination goes on from the next column of the passed system |
| Elimination.PivotsZero | src/main/java/linearSystem/LinearSystem.java:99-114 | a zero appears among the pivots exactly when elimination breaks early |
| Elimination.Pivots | src/main/java/linearSystem/LinearSystem.java:100-110 | the pivots elimination divides by at line 110, in order, each read after the exchange, ending in a 0 at the `break`; PivotsStep and PivotsZero state this |
| Elimination.Product | src/main/java/linearSystem/LinearSystem.java:97 | the product of a list of reals, the running `determinant` of the intended code, without a contract of its own; ProductZero and ProductSnoc state its behaviour |
| Elimination.Determinant | src/main/java/linearSystem/LinearSystem.java:95-116 | `(-1)^swaps` times the product of the pivots, the value the comment at line 95 promises, for the leading square block; DeterminantZeroIffSingular, DeterminantOneByOne and DeterminantTwoByTwo state what it is |
| Elimination.ProductZero | src/main/java/linearSystem/LinearSystem.java:97 | a product of pivots is zero exactly when one of them is |
| Elimination.DeterminantZeroIffStopped | src/main/java/linearSystem/LinearSystem.java:95-116 | the determinant is zero exactly when elimination breaks early |
| Elimination.SingularIffStopped | src/main/java/linearSystem/LinearSystem.java:102-103 | the matrix sends a non-zero vector to zero exactly when elimination breaks early |
| Elimination.DeterminantZeroIffSingular | src/main/java/linearSystem/LinearSystem.java:95 | the determinant is zero exactly when the matrix is singular |
| Elimination.CompletedMeansRegular | src/main/java/linearSystem/LinearSystem.java:95-135 | when elimination completes, the only vector the matrix sends to zero is the zero vector |
| Elimination.LastPivot | src/main/java/linearSystem/LinearSystem.java:100-110 | at the last column the pivot is the diagonal entry itself and no exchange is made |
| Elimination.DeterminantOneByOne | src/main/java/linearSystem/LinearSystem.java:95 | the determinant of a 1 by 1 matrix is its entry |
| Elimination.DeterminantTwoByTwo | src/main/java/linearSystem/LinearSystem.java:95 | the determinant of a 2 by 2 matrix is `ad - bc`, with or without an exchange |
| Elimination.TwoByTwoPivots | src/main/java/linearSystem/LinearSystem.java:95-116 | on a 2 by 2 matrix with a first pivot, the determinant is the sign times the two pivots |
| Elimination.SecondPivot | src/main/java/linearSystem/LinearSystem.java:110-113 | after pass 0 on a 2 by 2 matrix, the second diagonal entry is `d - c b / a` of the exchanged rows |
| Elimination.DiagonalizeReturnsSignOnly | src/main/java/linearSystem/LinearSystem.java:95-115 | for the 1 by 1 matrix [2.0], the value `diagonalize` returns as written is 1.0 while the determinant is 2.0 |
| LinearSystems.LinearSystem.PivotRow | src/main/java/linearSystem/LinearSystem.java:100-108 | a pivot exists exactly when the diagonal entry is non-zero or the column below holds a non-zero entry; a swap happens exactly when the diagonal was zero; the state becomes `Pivot` of the old one |
| LinearSystems.LinearSystem.NormalizeAndClear | src/main/java/linearSystem/LinearSystem.java:110-113 | line i is divided by its pivot, then column i is cleared below it |
| LinearSystems.LinearSystem.ClearBelow | src/main/java/linearSystem/LinearSystem.java:111-113 | every row below i gets `-m[j][i]` times row i added; the state becomes `EliminateBelow` of the old one |
| Elimination.EliminateBelow | src/main/java/linearSystem/LinearSystem.java:111-113 | clearing a column keeps the shape of the system |
| Elimination.Pivot | src/main/java/linearSystem/LinearSystem.java:100-108 | after pivoting, the diagonal entry at i is non-zero |
| Elimination.DiagonalizeFrom | src/main/java/linearSystem/LinearSystem.java:99-114 | forward elimination keeps the shape, and its stopping pivot lies between the start and the row count |
| Elimination.DiagonalizeStep | src/main/java/linearSystem/LinearSystem.java:99-114 | when a pivot exists, the elimination from i is the elimination from i + 1 of the pivoted, normalised and cleared system |
| Elimination.DiagonalizeShape | src/main/java/linearSystem/LinearSystem.java:95-116 | elimination extends a reduced prefix of columns up to where it stops, and the column where it stops is zero from the diagonal down |
| Elimination.DiagonalizedTriangular | src/main/java/linearSystem/LinearSystem.java:95-116 | a completed elimination leaves 1 on every diagonal entry and 0 below the diagonal |
| Elimination.DiagonalizePreserves | src/main/java/linearSystem/LinearSystem.java:95-116 | elimination keeps x a solution exactly when it was one |
| Elimination.EliminateBelowPreserves | src/main/java/linearSystem/LinearSystem.java:111-113 | clearing a column keeps the solution set |
| Elimination.DiagonalizeIgnoresColumn | src/main/java/linearSystem/LinearSystem.java:95-116 | the eliminated matrix, the swap count and the stopping pivot depend only on the matrix, not on the right-hand side |
| Elimination.DiagonalizeKeepsZeroColumn | src/main/java/linearSystem/LinearSystem.java:95-116 | eliminating a homogeneous system leaves its right-hand side zero |
| Elimination.StoppedMeansSingular | src/main/java/linearSystem/LinearSystem.java:102-103 | when elimination breaks early, there is a non-zero vector that the original matrix sends to zero |
| LinearSystems.LinearSystem.GaussianElimination | src/main/java/linearSystem/LinearSystem.java:118-135 | the result is a freshly allocated array holding back-substitution on the eliminated copy; when elimination completes it solves the receiver's system; the receiver is not modified |
| LinearSystems.LinearSystem.BackSubstitute | src/main/java/linearSystem/LinearSystem.java:122-132 | the filled vector is a fresh array equal to `BackSubst` of the current state |
| LinearSystems.LinearSystem.TailSum | src/main/java/linearSystem/LinearSystem.java:127-130 | the inner loop computes the sum of `m[i][j] * x[j]` over `j > i` |
| Elimination.BackSubst | src/main/java/linearSystem/LinearSystem.java:122-132 | one value per equation, the last one the last right-hand-side entry (line 124); BackSubstRecurrence states the rest |
| Elimination.GaussSolve | src/main/java/linearSystem/LinearSystem.java:118-135 | one value per equation; GaussSolves states that it solves the system |
| Elimination.Fill | src/main/java/linearSystem/LinearSystem.java:122-132 | the partially filled back-substitution vector has one entry per equation |
| Elimination.BackSubstRecurrence | src/main/java/linearSystem/LinearSystem.java:122-132 | `x[n-1] = c[n-1]` and `x[i] = c[i] - sum over j > i of U[i][j] * x[j]` |
| Elimination.BackSubstSolves | src/main/java/linearSystem/LinearSystem.java:118-135 | back-substitution solves a unit upper-triangular system |
| Elimination.BackSubstUnique | src/main/java/linearSystem/LinearSystem.java:118-135 | every solution of a unit upper-triangular system is the back-substituted vector |
| Elimination.GaussSolves | src/main/java/linearSystem/LinearSystem.java:118-135 | when elimination completes, `gaussianElimination`'s answer solves the original system and is its only solution |
| Elimination.NullVectorSpec | src/main/java/linearSystem/LinearSystem.java:102-103 | a partly reduced system with a zero column from the pivot down has a non-zero null vector |
| LinearSystems.LinearSystem.GetInverse | src/main/java/linearSystem/LinearSystem.java:138-152 | the result is a fresh matrix over a fresh grid with the receiver's dimensions; column j is the elimination answer for the unit vector e_j; when elimination completes it is a right inverse; the receiver is not modified |
| LinearSystems.LinearSystem.UnitSolve | src/main/java/linearSystem/LinearSystem.java:141-146 | Gaussian elimination on a copy whose right-hand side is e_i |
| LinearSystems.LinearSystem.StoreColumn | src/main/java/linearSystem/LinearSystem.java:147-149 | column i of the result becomes the vector, every other cell unchanged |
| Elimination.UnitSystem | src/main/java/linearSystem/LinearSystem.java:141-145 | the same matrix with the i-th unit vector as right-hand side |
| Elimination.UnitSystemSolved | src/main/java/linearSystem/LinearSystem.java:141-146 | once elimination of the matrix completes, every unit system is solved by its elimination answer |
| Elimination.UnitSolutionColumns | src/main/java/linearSystem/LinearSystem.java:147-149 | a matrix filled entry by entry from the unit solutions has them as its columns |
| Elimination.RightInverse | src/main/java/linearSystem/LinearSystem.java:138-152 | those columns form a right inverse: row i of A times column j is 1 when i == j and 0 otherwise |
| LinearSystems.LinearSystem.TridiagonalAlgorithm | src/main/java/linearSystem/LinearSystem.java:155-176 | the answer is a fresh array; it obeys the backward recurrence and satisfies every row on its three diagonals; on a tridiagonal matrix elimination completes, and the answer solves the system and equals Gaussian elimination's answer |
| LinearSystems.LinearSystem.SweepCoefficients | src/main/java/linearSystem/LinearSystem.java:156-168 | the arrays ps and qs hold exactly the forward coefficients p[0..n-2] and q[0..n-1] |
| LinearSystems.LinearSystem.ForwardStep | src/main/java/linearSystem/LinearSystem.java:161-166 | one pass of the forward loop extends the agreeing prefix of ps and qs by one |
| LinearSystems.LinearSystem.SweepFirstStep | src/main/java/linearSystem/LinearSystem.java:159-160 | p[0] and q[0] from row 0 |
| LinearSystems.LinearSystem.SweepStep | src/main/java/linearSystem/LinearSystem.java:162-165 | p[i] and q[i] from row i and the previous coefficients |
| LinearSystems.LinearSystem.SweepLastStep | src/main/java/linearSystem/LinearSystem.java:167-168 | q[n-1] from the last row and the previous coefficients |
| LinearSystems.LinearSystem.BackwardSweep | src/main/java/linearSystem/LinearSystem.java:170-174 | a fresh array with `xs[n-1] = qs[n-1]` and `xs[i] = ps[i] * xs[i+1] + qs[i]` |
| Tridiagonal.Denom | src/main/java/linearSystem/LinearSystem.java:163-168 | the denominator `-m[k][k] - m[k][k-1] * p[k-1]` of lines 163, 165 and 168, without a contract of its own; PStep and QStep use it |
| Tridiagonal.P | src/main/java/linearSystem/LinearSystem.java:159-163 | `p[0] = m[0][1] / m[0][0] / -1` and `p[k] = m[k][k+1] / Denom(k)`, without a contract of its own; PStep and SweepSolves state what it is for |
| Tridiagonal.Q | src/main/java/linearSystem/LinearSystem.java:160-168 | `q[0] = c[0] / m[0][0]` and `q[k] = (m[k][k-1] q[k-1] - c[k]) / Denom(k)`, without a contract of its own; QStep and SweepSolves state what it is for |
| Tridiagonal.Sweepable | src/main/java/linearSystem/LinearSystem.java:159-168 | the condition under which no division of the sweep is by zero: `m[0][0]` and every denominator are non-zero |
| Tridiagonal.Ps | src/main/java/linearSystem/LinearSystem.java:159-163 | n - 1 forward coefficients p |
| Tridiagonal.Qs | src/main/java/linearSystem/LinearSystem.java:160-168 | n forward coefficients q |
| Tridiagonal.PStep | src/main/java/linearSystem/LinearSystem.java:162-163 | p[k] is the super-diagonal entry over the step's denominator |
| Tridiagonal.QStep | src/main/java/linearSystem/LinearSystem.java:164-168 | q[k] is `(a_k q[k-1] - d_k)` over the step's denominator |
| Tridiagonal.Recurrence | src/main/java/linearSystem/LinearSystem.java:170-174 | `x[n-1] = q[n-1]` and `x[i] = p[i] x[i+1] + q[i]` over the sweep's coefficients, the relation the backward loop establishes; TriSolvesIffRecurrence states what it means |
| Tridiagonal.SweptRecurrence | src/main/java/linearSystem/LinearSystem.java:156-174 | arrays agreeing with the sweep's coefficients give vectors obeying the sweep's recurrence |
| Tridiagonal.SweepRow | src/main/java/linearSystem/LinearSystem.java:155-176 | a vector obeying the recurrence meets row i on the three diagonals |
| Tridiagonal.SweepSolves | src/main/java/linearSystem/LinearSystem.java:155-176 | a vector obeying the recurrence meets every row on the three diagonals |
| Tridiagonal.BandCoefficients | src/main/java/linearSystem/LinearSystem.java:159-168 | two systems that agree on the three diagonals and the right-hand side have the same p[k], q[k] and denominator at every step |
| Tridiagonal.BandSequences | src/main/java/linearSystem/LinearSystem.java:156-168 | such systems have equal coefficient sequences ps and qs |
| Tridiagonal.BandSweepable | src/main/java/linearSystem/LinearSystem.java:159-168 | the sweep's denominators are all non-zero for one such system exactly when they are for the other |
| Tridiagonal.SweepReadsBand | src/main/java/linearSystem/LinearSystem.java:155-176 | the sweep reads only the three diagonals and the right-hand side: such systems have the same coefficients, the same applicability and exactly the same answers |
| Tridiagonal.TriRowIsDot | src/main/java/linearSystem/LinearSystem.java:155-176 | on a tridiagonal matrix the three-diagonal row product is the whole row product |
| Tridiagonal.SweepSolvesTridiagonal | src/main/java/linearSystem/LinearSystem.java:155-176 | on a tridiagonal matrix the sweep's answer solves the system |
| Tridiagonal.SolutionStep | src/main/java/linearSystem/LinearSystem.java:159-166 | a vector meeting every row on the three diagonals has `x[k] = p[k] x[k+1] + q[k]` at every k < n - 1 |
| Tridiagonal.SolutionLast | src/main/java/linearSystem/LinearSystem.java:167-171 | such a vector ends in `q[n-1]` |
| Tridiagonal.SolutionObeysRecurrence | src/main/java/linearSystem/LinearSystem.java:155-176 | every vector meeting every row on the three diagonals obeys the backward recurrence |
| Tridiagonal.TriSolvesIffRecurrence | src/main/java/linearSystem/LinearSystem.java:155-176 | meeting every row on the three diagonals and obeying the recurrence are equivalent |
| Tridiagonal.RecurrenceUnique | src/main/java/linearSystem/LinearSystem.java:170-174 | two vectors obeying one backward recurrence are equal entry by entry |
| Tridiagonal.PIgnoresColumn | src/main/java/linearSystem/LinearSystem.java:159-163 | the p coefficients do not depend on the right-hand side |
| Tridiagonal.QHomogeneous | src/main/java/linearSystem/LinearSystem.java:160-168 | with a zero right-hand side every q coefficient is 0 |
| Tridiagonal.SweepableCompletes | src/main/java/linearSystem/LinearSystem.java:155-176 | on a tridiagonal matrix with non-zero sweep denominators, elimination never breaks early |
| Tridiagonal.SweepConclusions | src/main/java/linearSystem/LinearSystem.java:155-176 | everything the sweep's answer satisfies: every band row, and on a tridiagonal matrix the whole system, completed elimination and Gaussian elimination's answer |
| Tridiagonal.SweepAgreesWithGauss | src/main/java/linearSystem/LinearSystem.java:155-176 | on a tridiagonal matrix the sweep can handle, elimination completes, and the sweep and Gaussian elimination give the same vector |
| LinearSystems.LinearSystem.GetRepresentation | src/main/java/linearSystem/LinearSystem.java:179-188 | a fresh system of the same size whose state is the Jacobi rewriting of the receiver's, which is not modified |
| LinearSystems.LinearSystem.RewriteRows | src/main/java/linearSystem/LinearSystem.java:182-186 | rewriting every line in turn yields `Representation` of the old state |
| LinearSystems.LinearSystem.RewriteRow | src/main/java/linearSystem/LinearSystem.java:183-185 | line i is scaled by `-1 / a_ii`, its diagonal entry set to 0 and its right-hand side negated |
| Iteration.Representation | src/main/java/linearSystem/LinearSystem.java:179-188 | the rewriting keeps the shape of the system; RepresentationClosedForm states its entries |
| Iteration.RepStep | src/main/java/linearSystem/LinearSystem.java:183-185 | one rewriting step changes only line i |
| Iteration.RepresentationFrom | src/main/java/linearSystem/LinearSystem.java:182-186 | the rewriting keeps the shape of the system |
| Iteration.RepresentationStep | src/main/java/linearSystem/LinearSystem.java:182-186 | the rewriting from i is the rewriting from i + 1 after step i |
| Iteration.RepresentationRows | src/main/java/linearSystem/LinearSystem.java:179-188 | row i of C is row i of A scaled by `-1 / a_ii` with its diagonal cleared, and `d[i] = b[i] / a_ii` |
| Iteration.RepresentationClosedForm | src/main/java/linearSystem/LinearSystem.java:179-188 | `C[i][i] = 0`, `C[i][j] = -A[i][j] / A[i][i]` for j != i, and `d[i] = b[i] / A[i][i]` |
| Iteration.StepRow | src/main/java/linearSystem/LinearSystem.java:213-221 | a sweep moves coordinate i by the residual of row i divided by `a_ii` |
| Iteration.JacobiFixedPoint | src/main/java/linearSystem/LinearSystem.java:179-230 | x is a fixed point of the sweep over the rewritten system exactly when x solves the original system |
| LinearSystems.LinearSystem.GetMaxFromVector | src/main/java/linearSystem/LinearSystem.java:190-200 | the result is the max-norm: non-negative, at least every `abs(x[i])`, and attained by some entry unless it is 0 |
| Algebra.MaxNorm | src/main/java/linearSystem/LinearSystem.java:190-200 | the max-norm is non-negative; MaxNormBounds states the rest |
| Algebra.MaxNormBounds | src/main/java/linearSystem/LinearSystem.java:190-200 | the max-norm is non-negative, bounds every absolute value and is attained unless it is 0 |
| Algebra.MaxNormZero | src/main/java/linearSystem/LinearSystem.java:190-200 | a vector whose max-norm is not positive is zero |
| LinearSystems.LinearSystem.FixedPointIteration | src/main/java/linearSystem/LinearSystem.java:202-230 | the result is a fresh array holding the k-th Jacobi iterate from zero; every earlier step moved more than eps; it reports convergence exactly when the last step moved at most eps; then every coordinate moved at most eps, and with eps <= 0 the result solves the system |
| LinearSystems.LinearSystem.Iterations | src/main/java/linearSystem/LinearSystem.java:209-227 | the do-while loop: the result is the iterate after `steps` sweeps, each earlier step exceeding eps, and it stops exactly at the first step that moves at most eps or when fuel runs out |
| LinearSystems.LinearSystem.IterationPass | src/main/java/linearSystem/LinearSystem.java:210-226 | one loop body: xSeconds advances from iterate k to iterate k + 1 and the returned change is `Delta` of step k + 1 |
| LinearSystems.LinearSystem.CopyVector | src/main/java/linearSystem/LinearSystem.java:210-212 | xFirsts becomes equal to xSeconds |
| LinearSystems.LinearSystem.Sweep | src/main/java/linearSystem/LinearSystem.java:213-221 | y becomes one Jacobi sweep of x |
| LinearSystems.LinearSystem.OffDiagonalSum | src/main/java/linearSystem/LinearSystem.java:214-219 | the sum of `m[i][j] * x[j]` over j != i |
| LinearSystems.LinearSystem.Difference | src/main/java/linearSystem/LinearSystem.java:223-225 | w becomes the entry-wise difference of the two iterates |
| Iteration.Step | src/main/java/linearSystem/LinearSystem.java:213-221 | a sweep yields a vector of the same length |
| Iteration.Iterate | src/main/java/linearSystem/LinearSystem.java:204-221 | each iterate has one entry per equation |
| Iteration.IterateStep | src/main/java/linearSystem/LinearSystem.java:209-226 | a sweep from iterate k is iterate k + 1, and its change is `Delta(k + 1)` |
| Iteration.ExactConvergenceSolves | src/main/java/linearSystem/LinearSystem.java:202-230 | an iterate whose last step moved nothing solves the original system |
| Iteration.Delta | src/main/java/linearSystem/LinearSystem.java:223-226 | the stopping quantity is non-negative; DeltaBounds states that it bounds every coordinate change |
| Iteration.DeltaBounds | src/main/java/linearSystem/LinearSystem.java:223-227 | the stopping quantity bounds the last change of every coordinate |
| Iteration.FixedPointAgreesWithGauss | src/main/java/linearSystem/LinearSystem.java:202-230 | a fixed point reached by the iteration equals Gaussian elimination's answer when elimination completes |

## Left out

- The constructor `LinearSystem(Matrix, double[], int)` (src/main/java/linearSystem/LinearSystem.java:39-46) is not modelled. It accepts any `size`, unrelated to the matrix, which breaks the invariant that every other operation relies on (one equation per matrix row).
- LinearSystems.LinearSystem.constructor takes natural numbers. Java's `LinearSystem(int a, int b)` with a negative `a` or `b` throws at its array allocations (lines 11-12); the model has no such input.
- LinearSystems.LinearSystem.OfArrays and Matrices.Matrix.FromArray take a rectangular `array2<real>`. Java's `double[][]` may be ragged, which the model cannot express. Whether `new Matrix(double[][])` copies the cells or keeps the caller's array is not visible, because `Matrix.java` is not part of this model; the model assumes a copy, consistent with the copy of `column` at line 35.
- The getters `getMatrix`, `getColumn` and `getSize` (48-58) are not modelled. They only expose fields, which the model reads directly.
- `toString` (232-243) is not modelled. It is text formatting only.
- `interpolation/task1.java` is not modelled. It is a floating-point series loop with printed output only.
- IEEE-754 `double` rounding, NaN and infinities are not modelled. Values are exact `real`s.
- `Matrix.checkZero` is modelled as an exact zero test, so any tolerance it has is missing.
- `Math.pow(-1, count)` is modelled as `Elimination.PowMinusOne`.
- The Java exception types are not modelled. Rejected line numbers of the row operations become an `ok = false` result with the state unchanged. The length mismatch of the array constructor becomes `None`.
- LinearSystems.LinearSystem.FixedPointIteration: Java's `do … while` has no cap. The model takes a `fuel` bound and reports `converged = false` when fuel runs out. With fuel 0 it performs no sweep, whereas Java always performs at least one. Convergence itself (spectral-radius conditions) is not proved.
- LinearSystems.LinearSystem.FixedPointIteration and LinearSystems.LinearSystem.GetRepresentation require every diagonal entry to be non-zero. Java would divide by zero there and continue with infinities.
- LinearSystems.LinearSystem.TridiagonalAlgorithm requires `size >= 2` and non-zero sweep denominators (`Sweepable`). For size 1 or 0, Java throws on its array accesses. At a zero denominator it divides into infinities.
- LinearSystems.LinearSystem.GaussianElimination requires `size >= 1`. Java throws an index exception on an empty system.
- LinearSystems.LinearSystem.GetInverse requires a square matrix (or size 0). For a matrix with more columns than rows, Java's inner loop over `getColumnsCount()` (line 147) reads the solution vector out of bounds. For a matrix with fewer columns than rows, `gaussianElimination` already throws: `diagonalize` reads the diagonal outside the matrix, or the back-substitution reads `getValue(i, j)` with `j` at or past the column count (line 129).
- LinearSystems.LinearSystem.GetInverse: the model proves only that the result is a right inverse (`A B = I`). That it is also a left inverse (`B A = I`), and that inverting the result again gives back `A`, are not proved. Both follow for square matrices from `A B = I` by linear algebra (a one-sided inverse of a square matrix is two-sided), which the model does not develop.
- LinearSystems.LinearSystem.Diagonalize requires at least as many columns as rows (`Fits`). Java's `diagonalize` also runs on a matrix with fewer columns than rows. There it returns normally when elimination breaks before column `getColumnsCount()`: a 2 by 1 zero matrix returns 1.0. It throws when it reads the diagonal entry of row `getColumnsCount()`. The model does not cover such matrices.
- LinearSystems.LinearSystem.GaussianElimination, LinearSystems.LinearSystem.TridiagonalAlgorithm, LinearSystems.LinearSystem.GetRepresentation and LinearSystems.LinearSystem.FixedPointIteration require `Fits` too. On a matrix with fewer columns than rows, each Java method reads an entry at or past the column count and throws. `gaussianElimination` does so in `diagonalize` or, at the latest, in the back-substitution read `getValue(i, x.length - 1)` (line 129). `tridiagonalAlgorithm` does so at line 168 at the latest. `getRepresentation`, which `fixedPointIteration` calls first, does so at line 183.
- Matrices.Matrix.SelectMainItem: which non-zero row `selectMainItem` picks is not visible in this source. The model picks the first row of largest absolute value. The proofs use only that the row is non-zero and at or below `from`, and that -1 means the column is zero there.
- The Java methods `multiplyLine` and friends check `size`, while the model checks the number of matrix rows. The two are equal under the class invariant `Valid()`.

## Findings

| source | as written | input that shows it | evidently intended | confidence | as-written member | corrected member |
|---|---|---|---|---|---|---|
| src/main/java/linearSystem/LinearSystem.java:95-115 | `diagonalize` is commented `//also returns determinant`, but `determinant` stays 1 (line 97), so it returns only `Math.pow(-1, count)` | the 1 by 1 system `[2.0] x = [c]`: no exchange, so it returns 1.0, while the determinant is 2.0 | multiply `determinant` by each pivot before normalising its line, set it to 0 at the `break`, and return `determinant * Math.pow(-1, count)` | not executed | Elimination.DiagonalizeReturnsSignOnly | LinearSystems.LinearSystem.Diagonalize |
| src/main/java/linearSystem/LinearSystem.java:61 | the guard of `swapLines` rejects `l > size` and `j > size`, so it accepts line number `size` | `swapLines(size, 0)` passes the guard; the row swap and `column[size]` then fail with an index error instead of the guard's own rejection | reject every line number outside `[0, size - 1]`, as `multiplyLine`, `sumLines` and `multiplyAndSumLines` do | not executed | LinearSystems.SwapGuardAdmitsSize | LinearSystems.LinearSystem.SwapLines |
