# Gauss–Jordan linear-system solver, modelled in Dafny

The system solves a linear system given as an augmented coefficient matrix: a list
of equations, each a list of coefficients of X0 .. X(n-1) followed by the constant.
It validates the shape of the input, brings the matrix in place to row-echelon form
(sort the rows by pivot column, clear each pivot column below its row), then to
reduced row-echelon form (from the bottom row up, scale each pivot to 1 and clear
its column above), and reads a parametric solution set off the reduced rows: each
variable is either free or a constant plus a combination of free variables; an
equation `0 = c` with `c` non-zero makes the answer empty.

The model keeps that shape:

- `rows.dfy` (module `Rows`): an equation as `seq<real>`, the pivot finder (the
  counter loop as a method, specified by the recursive function `FirstNonZero`), the
  row arithmetic the two row operations perform, and what it means for an assignment
  to satisfy an equation.
- `matrix.dfy` (module `Matrix`): the system as an `array<Row>` whose rows are
  replaced wholesale, as the source replaces list elements; `SumRows` and `ScaleRow`
  as in-place methods; the echelon and reduced echelon forms; the solution set of a
  system and its preservation by each row operation.
- `sorting.dfy` (module `Sorting`): the stable sort by pivot column. The source uses
  its language's built-in stable sort; its result is given by `SortByPivot`, an
  insertion sort proved ordered, a permutation of its input and stable.
- `elimination.dfy` (module `Elimination`): the forward pass `RowEchelon` and the
  backward pass `ReducedRowEchelon`, each proved to reach its form while keeping
  the solution set of the system.
- `solver.dfy` (module `Solver`): the validator `AssertSystem`, the read-off loop
  `ReadOff` (specified by `SolveRows`), and `Solve`, proved to return exactly the
  solutions of its input.

Entries are exact `real`s. A solution-set entry is the structure the source prints:
`Free(i)` for the label `Xi`, and `Expr(terms, constant)` for a pivot variable,
where each term holds the negated coefficient and the entry the solution list held
for that column when the term was written (in reduced form always `Free(k)`).

## Model

| member | source | states |
|---|---|---|
| Rows.FirstNonZeroIsFirst | main.py:45-57 | every entry before the returned index is zero, the entry at it is non-zero, and it equals the row length exactly when the row is all zero |
| Rows.FindNonzeroElement | main.py:45-57 | the counter loop returns the first non-zero index, or the row length for an all-zero row |
| Rows.PivotAt | main.py:45-57 | an index with only zeros before it and a non-zero entry at it is the pivot |
| Rows.ScaledKeepsPivot | main.py:30-42 | scaling a row by a non-zero value keeps its pivot column |
| Rows.CombinedKeepsPivot | main.py:11-27 | adding a multiple of a row whose pivot is further right keeps the target's pivot column |
| Rows.EliminationClearsColumn | main.py:88-95 | adding -target[c]/pivot[c] times the pivot row clears every column up to c, so the pivot moves strictly right |
| Rows.ScaledSatisfies | main.py:30-42 | an assignment satisfies a row scaled by a non-zero value exactly when it satisfies the row |
| Rows.CombinedSatisfies | main.py:11-27 | where the source row holds, the combined row holds exactly when the target row holds |
| Matrix.SumRows | main.py:11-27 | row r becomes row r plus s times row n entry by entry, every other row is unchanged, and for distinct rows of equal width the solution set is kept |
| Matrix.ScaleRow | main.py:30-42 | row n becomes s times row n entry by entry, every other row is unchanged, and for non-zero s the solution set is kept |
| Matrix.CombinedSameSolutions | main.py:11-27 | replacing a row by itself plus a multiple of another row keeps the set of solutions of the system |
| Matrix.ScaledSameSolutions | main.py:30-42 | scaling one row by a non-zero value keeps the set of solutions of the system |
| Matrix.PermutedSameSolutions | main.py:60-69 | reordering the rows keeps the set of solutions |
| Matrix.EchelonZeroBelowPivot | main.py:72-97 | in echelon form every row below a non-zero row is zero in that row's pivot column |
| Sorting.SortRows | main.py:60-69 | the rows are reordered in place into pivot order: the result is the stable sort of the old rows, a permutation of them, ordered, and keeps the relative order of rows with equal pivot column |
| Sorting.SortByPivotSortedPermutation | main.py:68 | the sort's output has the input's length, is a permutation of it and is ordered by pivot column |
| Sorting.SortByPivotStable | main.py:68 | for every pivot column the rows with that pivot column keep their relative order |
| Sorting.SortByPivotIdempotent | main.py:96 | sorting rows already in pivot order leaves them as they are |
| Sorting.SortKeepsPrefix | main.py:81-82 | a sorted prefix whose pivots are at most those of all later rows stays in place; only the rest is reordered |
| Sorting.SortedZeroRowsLast | main.py:68 | in sorted rows of one width, all-zero rows come after every row with a pivot |
| Elimination.SortAfterFinishedRows | main.py:81-82 | the sort at the top of each forward step keeps the rows already finished, the shape, and the permutation |
| Elimination.ZeroRowEndsEchelon | main.py:85-87 | when the current row of the sorted matrix is all zero, the matrix is already in echelon form, so stopping is sound |
| Elimination.FinishStep | main.py:81-95 | once the pivot column of row i is cleared below it, rows 0 .. i are finished |
| Elimination.EliminateBelow | main.py:88-95 | the new matrix is `ClearedBelow` of the old one: each row below row i whose entry in the pivot column is non-zero gets -entry/pivot times row i added, every other row is unchanged; the width and the solution set are kept |
| Elimination.EliminatedRowPivot | main.py:91-95 | eliminating a row whose pivot is at or after column c against a row with pivot c moves its pivot strictly past c |
| Elimination.ClearedBelowFinishes | main.py:81-95 | on sorted rows, clearing the pivot column of row i below it leaves rows 0 .. i finished: every lower row's pivot is strictly further right |
| Elimination.ClearedBelowEchelon | main.py:89-95 | on a matrix already in echelon form, clearing below a pivot changes nothing, since every row below is zero in that column |
| Elimination.ForwardStep | main.py:82-95 | one pass of the forward loop: the rows are first replaced by their stable sort by pivot column; it reports an all-zero row exactly when row i of the sorted rows has no pivot, and then the matrix is the sorted rows and already in echelon form; otherwise the new matrix is `ClearedBelow` of the sorted rows at row i's pivot column and rows 0 .. i are finished; the width and the solution set are kept, and a matrix in echelon form is left unchanged |
| Elimination.RowEchelon | main.py:72-97 | the result has the same width, is in echelon form (pivots strictly move right, zero rows at the bottom) and has the same solutions as the input; an input already in echelon form comes back unchanged |
| Elimination.NormalizedPivot | main.py:115-116 | scaling a non-zero row by the inverse of its pivot entry keeps its width and pivot column and makes the pivot entry 1 |
| Elimination.EliminateAbove | main.py:117-124 | every row above row i has its entry in row i's pivot column cleared by subtracting that entry times row i; rows i and below are unchanged; the solution set is kept |
| Elimination.BackStep | main.py:109-124 | one backward step on an echelon matrix with rows below i reduced keeps echelon form and leaves rows i and below reduced |
| Elimination.ReducedStepIdentity | main.py:110-124 | on a matrix already in reduced form, scaling a pivot row by the inverse of its pivot and clearing its column above change nothing |
| Elimination.BackwardStep | main.py:110-124 | one pass of the backward loop: an all-zero row i leaves the matrix unchanged; otherwise the new matrix is the old one with row i scaled by the inverse of its pivot entry and then `ClearedAbove` at row i's pivot column; it keeps echelon form, extends the reduced rows to row i, keeps the solution set, and leaves a matrix already in reduced form unchanged |
| Elimination.ReducedRowEchelon | main.py:100-125 | the result is in reduced row-echelon form (echelon, each pivot 1, each pivot column zero in every other row) and has the same solutions as the input; an input already in reduced form comes back unchanged |
| Solver.AssertSystem | main.py:128-152 | the system passes exactly when it has an equation and all equations share a width of at least 2; otherwise the first failing check names the error: no equation, too few entries in the first equation, unequal lengths |
| Solver.SolveRows | main.py:163-183 | the read-off either comes back empty or gives one entry per variable |
| Solver.ReadOff | main.py:161-184 | the bottom-up read-off loop returns exactly the solution set `SolveRows` describes |
| Solver.SolveRowsEmpty | main.py:166-168 | the read-off is empty exactly when some row is an equation 0 = c with c non-zero |
| Solver.ConstantRowUnsatisfiable | main.py:166-168 | an equation with zero coefficients and a non-zero constant has no solution |
| Solver.InconsistentHasNoSolution | main.py:166-168 | a system with such an equation has no solution |
| Solver.ZeroRowSatisfied | main.py:169-171 | an all-zero equation holds for every assignment, so skipping it loses nothing |
| Solver.NotAPivotColumn | main.py:173-180 | in reduced form a column with a non-zero entry right of a row's pivot is no row's pivot column, so the label the term uses is still the free variable's |
| Solver.ResolvedStep | main.py:163-183 | reading one row with a pivot sets its pivot variable to the row's expression over free variables and leaves every other entry as it was |
| Solver.ResolvedSkip | main.py:169-171 | skipping an all-zero row leaves every entry of the solution set as it was |
| Solver.ResolvedNext | main.py:163-183 | reading one row of a consistent reduced system keeps every read pivot variable at its row's expression and every other variable free |
| Solver.ReadOffValues | main.py:163-183 | for a consistent reduced system: one entry per variable; a pivot variable holds its row's constant plus its later non-zero coefficients negated, on free variables; every other variable is free |
| Solver.RowSatisfiesIff | main.py:173-182 | an equation with pivot 1 holds exactly when its pivot variable equals the expression the solver writes for it |
| Solver.ReadOffSolutions | main.py:155-184 | for a consistent reduced system an assignment satisfies every equation exactly when it agrees with the read-off solution set |
| Solver.EchelonRank | main.py:72-97 | in echelon form the equations with a pivot are exactly the first `Rank` rows, the all-zero ones follow |
| Solver.UnusedColumn | main.py:163-183 | in echelon form with fewer pivot rows than variables, some variable column is no row's pivot |
| Solver.FewerEquationsLeaveFree | main.py:163-183 | a consistent reduced system with fewer independent equations than variables leaves at least one variable at its initial free label |
| Solver.PivotVariableAtConstant | main.py:173-182 | with every free variable at 0, the expression written for a pivot variable evaluates to its row's constant |
| Solver.ConsistentHasSolution | main.py:155-184 | a consistent reduced system has a solution (free variables 0, pivot variables their constants) |
| Solver.ReadOffDescribes | main.py:155-184 | the read-off of a reduced system with the same solutions as the input is empty exactly when the input has no solution, and otherwise describes exactly the input's solutions |
| Solver.Solve | main.py:155-184 | an invalid system yields the validator's error and is left as it was; a valid one is reduced in place, and the answer is empty exactly when the system has no solution, and otherwise has one entry per variable and describes exactly the solutions of the input |

## Left out

- Floating point: entries are exact reals, so rounding, near-zero pivots misread as
  non-zero under the exact `== 0` tests, overflow and the float value of `1/elem`
  are not modelled.
- Runtime type checks: the validator's checks that the system and its rows are lists
  and that the entries are numbers are not modelled; the model's input is already a
  sequence of sequences of reals.
- The per-entry check `map(assert_row, system)` at main.py:146 is a lazy iterator
  that is never consumed, so it never runs; the model does not reject anything for
  it.
- String rendering: the labels `"Xi"`, the `"{0:+}"` formatting and the output
  tuple's text are represented by the structures `Free`, `Expr` and `Term`, and the
  empty tuple by the empty sequence.
- Sorting.SortRows: the built-in list sort is modelled by its result (a stable sort
  by pivot column), not by the sorting algorithm the language runtime uses.
- Elimination.RowEchelon, Elimination.ReducedRowEchelon: require a non-empty system
  whose rows share one width, as the validator guarantees before they run; their
  behaviour on ragged or empty input (an index error or a partial update) is not
  modelled.
- Matrix.SumRows: with both row indices equal the source computes (1 + s) times the
  row, and the model does the same; the solution set is claimed kept only for
  distinct rows, as the elimination passes always use. A target row longer than
  the source row makes the source fail with an index error; the model requires the
  target to be no longer, as every call site passes rows of equal width. The model
  also requires both row indices to lie in the system: the source's wrap-around of a
  negative index and its index error for an index out of range are not modelled, as
  no call site passes either.
- Matrix.ScaleRow: requires the row index to lie in the system; the source's
  wrap-around of a negative index and its index error for an index out of range are
  not modelled, as no call site passes either.
- Solver.Solve: the source raises the validator's error as an exception; the model
  returns it as `Raised(error)`.
