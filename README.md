# Tableau simplex solver (BigM Streamlit app) in Dafny

The application solves a small linear program. It maximises profit over two kinds of buildings, subject to a labour constraint and a budget constraint. It does this with the tableau simplex method; despite the name, no Big-M phase is implemented. This project models its computational core in Dafny and proves properties of that model:

- **Layout.** The initial tableau has row 0 holding the negated profits. Each constraint row holds its coefficients, a 1 in its slack column and its right-hand side.
- **Engine (`simplex`).** Each iteration runs:
  - the optimality test on row 0;
  - Dantzig's entering-column rule with first-index ties;
  - the unboundedness test;
  - the min-ratio test, with `inf` for rows that are excluded;
  - an in-place Gauss-Jordan pivot.

  It stops after at most 100 iterations and flags the limit.
- **Extraction.** A two-pass test reads the value of each variable off the final tableau, with tolerance 1e-10. Then comes the revenue.

The two-variable, two-constraint problem is generalised to N variables and M `<=` constraints.

Modules:

- `Tableau` (`tableau.dfy`):
  - the matrix type;
  - the snapshot of a 2-D array as a matrix;
  - extended reals for `inf`;
  - the first-minimum scan used as numpy's `argmin`;
  - the initial layout.
- `Engine` (`engine.dfy`):
  - the engine as functions: `Iteration` is one pass of the loop body. `Run` and `Solve` are the whole loop.
  - the lemmas about those functions;
  - the in-place methods on `array2<real>` (`Simplex`, `Iterate`, `PivotInPlace`, …). These are proved to compute exactly what `Solve` describes.
- `Extraction` (`extraction.dfy`):
  - the unit-column test;
  - the value of a variable;
  - the revenue;
  - the two passes as methods over the array, proved against those definitions.
- `App` (`app.dfy`):
  - the page's own flow: build the tableau in place, solve, extract;
  - the `Report` it ends with, and lemmas about that report.
- `Scenarios` (`scenario.dfy`): the problem "maximise 3x + 5y subject to x <= 4, 2y <= 12 and 3x + 2y <= 18", carried through the model. It takes two pivots and reports x = 2, y = 6, revenue 36.

Three places where the model follows the code exactly:

- **Exact comparisons in the engine.** The optimality, unboundedness and ratio tests compare against a literal 0 (lines 11, 16, 22). Only the extraction uses the tolerance 1e-10.
- **The limit flag.** The warning "Maximum iterations reached. Solution may not be optimal." (line 41) is guarded by `iterations >= max_iterations` after the loop (line 40). It is therefore also shown when optimality is detected on the 100th iteration. `Engine.RunOutcomeMeaning` states this case.
- **`NoPivot` cannot happen in exact arithmetic.** The error "No feasible pivot found." (line 28) can never be reached once the test at line 16 has passed. `Engine.LeavingRowExists` and `Engine.RunNeverReportsNoPivot` prove this for exact reals.

## Model

| member | source | states |
|---|---|---|
| Tableau.InitialTableau | streamlit_app.py:67-81 | The layout has M+1 rows and N+M+1 columns. Row 0 is the negated profits, then zeros. Row i+1 holds constraint i's coefficients, 1 in slack column N+i, 0 in the other slack columns, and b[i] as its right-hand side. |
| Tableau.InitialTableauFeasible | streamlit_app.py:67-81 | The initial tableau is feasible (every constraint right-hand side >= 0) exactly when every b[i] >= 0. |
| Tableau.IndexOfMinimum | streamlit_app.py:31 | The scan over `ratios` returns its first minimum: no entry is below it, and every earlier entry is strictly above it. |
| Tableau.FirstMinimumUnique | streamlit_app.py:31 | A sequence has only one first minimum, so the index `argmin` returns is determined. |
| Engine.Simplex | streamlit_app.py:4-43 | Run in place, the loop returns the outcome of `Solve` on the array's initial contents. The array ends holding the final tableau of `Solve`. |
| Engine.Iterate | streamlit_app.py:9-38 | One pass of the loop body on the array. When `Iteration` of the old contents stops, it returns that outcome and leaves the array unchanged; the array is then the run's final tableau. When `Iteration` pivots, the array afterwards holds exactly the pivoted tableau, and the run from it ends the same way. Optimality is flagged exactly when the counter has reached 100. |
| Engine.IsOptimal | streamlit_app.py:11 | True exactly when every row-0 entry except the right-hand side is >= 0. |
| Engine.EnteringColumn | streamlit_app.py:14 | Returns a column other than the right-hand side that is the first minimum of row 0 without the right-hand side. On a non-optimal tableau this is `EnteringCol`. |
| Engine.ColumnIsNonPositive | streamlit_app.py:16 | True exactly when no constraint row has a positive entry in the column. |
| Engine.FillRatios | streamlit_app.py:20-25 | A fresh array of M ratios. Entry i-1 is rhs(i) / entry(i) when the row's entry is > 0, and `inf` otherwise. |
| Engine.ChooseLeavingRow | streamlit_app.py:20-31 | Fills the ratios and takes their first minimum. It gives no row when that minimum is `inf`, and otherwise the minimum's index + 1. This is exactly `LeavingRow`. |
| Engine.PivotInPlace | streamlit_app.py:32-38 | The array afterwards holds `Pivot` of its old contents. |
| Engine.DivideRow | streamlit_app.py:32-34 | The pivot value is read once, then the pivot row is divided by it. No other row changes. |
| Engine.EliminateRow | streamlit_app.py:36-38 | Row r's pivot-column entry is read before the row is overwritten. The row becomes itself minus that factor times the divided pivot row. No other row changes. |
| Engine.PivotEntries | streamlit_app.py:32-38 | Every entry of `Pivot` is the pivot row divided by the pivot value, or the row minus its pivot-column entry times the divided pivot row. |
| Engine.FirstMinColumn | streamlit_app.py:14 | The left-to-right scan of row 0 that moves only on a strictly smaller coefficient returns an index below n. Its first-minimum property is `FirstMinColumnIsFirstMinimum`. |
| Engine.EnteringCol | streamlit_app.py:14 | `np.argmin(tableau[0, :-1])`: on a non-optimal tableau (`Optimal`, line 11) it is never the right-hand-side column. |
| Engine.FirstMinRatioRow | streamlit_app.py:20-31 | The scan of the ratios (`RatioAt`: rhs over entry when the entry is > 0, `inf` otherwise) returns a constraint row among 1..n. |
| Engine.LeavingRow | streamlit_app.py:20-31 | No row when the first minimum ratio is `inf`, otherwise that row. A row it returns is a constraint row with a positive entry in the column, so the pivot value is never 0. |
| Engine.Pivot | streamlit_app.py:32-38 | The tableau after dividing the pivot row and eliminating the pivot column from every other row; it keeps the dimensions. Its entries are `PivotEntries`. |
| Engine.Iteration | streamlit_app.py:9-38 | One pass of the loop body: stop on `Optimal`, stop `Unbounded` on `ColumnNonPositive` of the entering column, stop `NoPivot` when `LeavingRow` gives none, else continue with `Pivot`. A pivoting pass keeps the dimensions. What each verdict means is `IterationMeaning`. |
| Engine.Run | streamlit_app.py:5-43 | The loop from iteration k: stop when the counter reaches 100 (line 8), otherwise run `Iteration` and go on after a pivot. It pivots at most 100 - k times. |
| Engine.Solve | streamlit_app.py:4-43 | The whole run: the dimensions kept, at most 100 pivots, and the input tableau returned when no pivot was made. |
| Engine.OptimalIsReturnedUnchanged | streamlit_app.py:11-12 | An optimal tableau is returned unchanged, with outcome `Done(false)` and zero pivots. |
| Engine.OneVariableUnbounded | streamlit_app.py:14-18 | One variable and one constraint, with a negative objective coefficient and a constraint coefficient <= 0. The run reports `Unbounded` on the unchanged tableau after no pivot. |
| Engine.FirstMinColumnIsFirstMinimum | streamlit_app.py:14 | The row-0 scan over the first n columns returns their first minimum (`IsFirstMinimum`): no coefficient is below it, and every earlier one is strictly above it. |
| Engine.EnteringColIsFirstMostNegative | streamlit_app.py:14 | On a non-optimal tableau the entering column is not the right-hand side. Its coefficient is negative and it is the first minimum of row 0 without the right-hand side. |
| Engine.FirstMinRatioRowIsFirstMinimum | streamlit_app.py:20-31 | The row scan over rows 1..n returns the first minimum of their ratios, in the same sense as `argmin` over `ratios`. |
| Engine.LeavingRowFromRatios | streamlit_app.py:20-31 | `argmin` of the `ratios` array, followed by the `inf` test, gives exactly `LeavingRow`. |
| Engine.LeavingRowExists | streamlit_app.py:16-29 | A leaving row exists exactly when some constraint row has a positive entry in the entering column. So in exact arithmetic, once line 16 passes, lines 27-29 cannot fire. |
| Engine.LeavingRowIsFirstMinimumRatio | streamlit_app.py:20-32 | The leaving row has a positive entry. Its ratio is <= that of every row with a positive entry, and strictly below that of every earlier such row. |
| Engine.PivotClearsColumn | streamlit_app.py:32-38 | After a pivot the dimensions are unchanged. The pivot entry is 1 and every other row, row 0 included, has 0 in the pivot column. |
| Engine.PivotRhsNonNegative | streamlit_app.py:20-38 | A row whose ratio is not below the pivot row's keeps a non-negative right-hand side after the pivot. |
| Engine.PivotPreservesFeasibility | streamlit_app.py:20-38 | Pivoting a feasible tableau on the ratio test's row leaves it feasible. |
| Engine.IterationMeaning | streamlit_app.py:8-40 | One iteration stops with a tableau only when row 0 is optimal, flagged exactly when the counter is >= 100. It stops with `Unbounded` only when the entering column has no positive constraint entry. It never stops with `NoPivot`. |
| Engine.IterationPreservesFeasibility | streamlit_app.py:20-38 | An iteration that pivots keeps a feasible tableau feasible. |
| Engine.RunStops | streamlit_app.py:8-18 | A run whose next iteration stops ends there, with that outcome, the current tableau and no pivot. |
| Engine.RunContinues | streamlit_app.py:8-38 | A run whose next iteration pivots ends as the run from the pivoted tableau does, with one pivot more. |
| Engine.RunKeepsShape | streamlit_app.py:8-38 | A run keeps the dimensions, and a run that makes no pivot ends on the tableau it started from. |
| Engine.RunUsingAllIterations | streamlit_app.py:8-41 | A run that pivots on every remaining iteration reports `Done(true)`, the limit warning of line 41. |
| Engine.RunStopsOnFinal | streamlit_app.py:8-38 | A run that stops before its iterations are used up stops because the iteration after its last pivot stopped on the final tableau with the reported outcome. |
| Engine.RunNeverReportsNoPivot | streamlit_app.py:16-29 | No run ends with `NoPivot`. |
| Engine.RunOutcomeMeaning | streamlit_app.py:8-43 | `Done(false)` means the final tableau is optimal. `Done(true)` means either every iteration pivoted, or optimality was found on the 100th. `Unbounded` means row 0 is not optimal and the entering column has no positive constraint entry. |
| Engine.RunPreservesFeasibility | streamlit_app.py:8-38 | A run keeps the dimensions. A feasible starting tableau ends feasible. |
| Extraction.CountPassValue | streamlit_app.py:94-110 | The first pass's value for a column: the right-hand side of a row `CountPassRow` accepts (the only constraint row near 1, no other above 1e-10), or 0 when it accepts none. |
| Extraction.VariableValue | streamlit_app.py:112-125 | The value of a variable: the right-hand side of a row its column is a unit column for (`IsUnitAt`: near 1 there, near 0 in every other constraint row), or 0 when there is none. |
| Extraction.Values | streamlit_app.py:94-125 | The first N variables' values, one `VariableValue` per column in order. |
| Extraction.Revenue | streamlit_app.py:127 | The sum of profit times value. With two variables it is line 127's c0 * x0 + c1 * x1. |
| Extraction.NotNearOneAndZero | streamlit_app.py:99-116 | No entry is within 1e-10 of both 1 and 0. An entry near 1 is above the tolerance. |
| Extraction.UnitRowUnique | streamlit_app.py:113-119 | A column is a unit column for at most one constraint row. |
| Extraction.CountPassRowUnique | streamlit_app.py:94-107 | The first pass settles on at most one row. |
| Extraction.ValueOfColumn | streamlit_app.py:112-125 | A unit column's value is its row's right-hand side. A column that is a unit column for no row has value 0. |
| Extraction.CountPassValueOfColumn | streamlit_app.py:94-110 | The first pass leaves the right-hand side of the row it settles on, and 0 when it settles on none. |
| Extraction.TwoPassesGiveValue | streamlit_app.py:94-125 | A unit column is also accepted by the first pass, which therefore has already stored the right value. The two passes together give the unit-column value. |
| Extraction.SecondPassValue | streamlit_app.py:112-125 | Keeping the first pass's value for a unit column and resetting any other column to 0 gives exactly `VariableValue`. |
| Extraction.PassesDisagreeOnlyAtTolerance | streamlit_app.py:99-118 | When the first pass accepts a row that the second rejects, some other constraint entry has absolute value exactly 1e-10. |
| Extraction.DegenerateColumnIsZero | streamlit_app.py:112-125 | A column with entries not near 0 in two different constraint rows is a unit column for no row, and its value is 0. |
| Extraction.ValueIgnoresObjectiveRow | streamlit_app.py:94-125 | Tableaux that agree on rows 1..M give every variable the same value. Row 0 is never read. |
| Extraction.ValueNonNegative | streamlit_app.py:106-125 | On a feasible tableau every value is >= 0. |
| Extraction.InitialSlackValue | streamlit_app.py:73-81 | In the initial layout, slack variable i has the value b[i]. |
| Extraction.RevenueNonNegative | streamlit_app.py:127 | Non-negative profits and values give a non-negative revenue. |
| Extraction.RevenueOfZeroValues | streamlit_app.py:127 | All values 0 give revenue 0. |
| Extraction.OthersNearZero | streamlit_app.py:116-117 | True exactly when every constraint row other than i is within 1e-10 of 0 in the column. |
| Extraction.CountOnes | streamlit_app.py:95-107 | The count ends at 1 exactly when the first pass's condition holds for some row, and the remembered row is then one where it holds. |
| Extraction.IsUnitColumn | streamlit_app.py:113-119 | True exactly when the column is a unit column for some constraint row. |
| Extraction.CountPass | streamlit_app.py:94-110 | A fresh array of N values, each the first pass's value for its column. |
| Extraction.UnitPass | streamlit_app.py:112-125 | Given the first pass's values, leaves every variable's unit-column value. |
| Extraction.Extract | streamlit_app.py:90-125 | Reading only the tableau, returns N values. Each is the right-hand side of the row its column is a unit column for, or 0. |
| Extraction.ExtractTwice | streamlit_app.py:90-125 | Extracting twice from the same tableau gives identical values. |
| App.ReportFrom | streamlit_app.py:87-134 | No solution exactly when the loop did not hand back a tableau (lines 18, 29, 134). Otherwise the N final values, their revenue, and the limit flag of line 41. |
| App.ReportFor | streamlit_app.py:87-134 | The page's report for profits c and a starting tableau: `ReportFrom` of `Solve`. It is no solution exactly when the run ends `Unbounded`, and a solution holds N values. |
| App.ReportMeaning | streamlit_app.py:87-134 | No solution is reported exactly when the run ends `Unbounded`. The final tableau is then not optimal and its entering column has no positive constraint entry. A solution holds the final tableau's unit-column values. It is optimal when it is not flagged. |
| App.SolutionNonNegative | streamlit_app.py:90-127 | From a feasible tableau every reported value is >= 0. With non-negative profits, so is the revenue. |
| App.NonNegativeRhsGivesNonNegativeValues | streamlit_app.py:67-127 | With every b[i] >= 0, every reported value is >= 0. |
| App.NothingToGain | streamlit_app.py:69-70 | When no profit is positive, the initial tableau is returned at once, unflagged and after no pivot. |
| App.ReportOfOptimal | streamlit_app.py:87-127 | From an optimal tableau the report is the values read off that same tableau, unflagged. |
| App.ZeroProblemGivesZero | streamlit_app.py:90-127 | With all profits and all right-hand sides 0, every reported value is 0 and the revenue is 0, unflagged. |
| App.ZeroRhsGivesZeroValues | streamlit_app.py:94-125 | When every constraint right-hand side is 0, every extracted value is 0. |
| App.BuildTableau | streamlit_app.py:67-81 | Builds a fresh array holding exactly the initial layout. |
| App.FillConstraintRow | streamlit_app.py:72-81 | Writes row i+1 of the layout into a row that is still zero, leaving every other row unchanged. |
| App.SolveProblem | streamlit_app.py:61-134 | Returns the report for the initial layout: no solution on `None`, otherwise the final tableau's values, their revenue and the limit flag. |
| Scenarios.ExampleLayout | streamlit_app.py:67-81 | The example's layout is the stated 4 x 6 tableau. |
| Scenarios.FirstPivot | streamlit_app.py:32-38 | Pivoting the example on row 2, column y gives the stated tableau. |
| Scenarios.SecondPivot | streamlit_app.py:32-38 | Pivoting again on row 3, column x gives the stated tableau. |
| Scenarios.FirstIteration | streamlit_app.py:11-38 | Iteration 1 picks column y and row 2 (ratios inf, 6, 9) and pivots. |
| Scenarios.SecondIteration | streamlit_app.py:11-38 | Iteration 2 picks column x and row 3 (ratios 4, inf, 2) and pivots. |
| Scenarios.ThirdIteration | streamlit_app.py:11-12 | Iteration 3 finds row 0 non-negative and stops, unflagged. |
| Scenarios.TwoPivotRun | streamlit_app.py:8-43 | Two pivoting iterations followed by an optimal one make the whole run end `Done(false)` after two pivots. |
| Scenarios.ExampleRun | streamlit_app.py:4-43 | The example's run ends optimal after two pivots. |
| Scenarios.ExampleValues | streamlit_app.py:90-125 | The final tableau gives x = 2 and y = 6. |
| Scenarios.ExampleReport | streamlit_app.py:61-134 | The page reports x = 2, y = 6 and revenue 36, unflagged. |

## Left out

- **Streamlit input and output** (lines 1-2, 45-59, 83-84, 129-134).
  - The eight number inputs become the parameters `c`, `a` and `b`.
  - The success and failure texts become the `Report` datatype.
- **The messages inside the loop.** These are `st.error` at lines 17 and 28 and `st.warning` at line 41. They become the outcome variants `Unbounded`, `NoPivot` and `Done(true)`.
- **The `big_m` parameter** (lines 4 and 87) is never read, so it is not modelled. No Big-M or two-phase method exists for `>=` or `=` constraints.
- **Floating point.** Every quantity is an exact real. IEEE rounding, overflow and `nan` are not modelled; `inf` is the `Infinite` case of `Extended`. Feasibility, the exact 0/1 entries after a pivot and the unreachability of `NoPivot` are proved in exact arithmetic. In the program, overflow or `nan` can reach "No feasible pivot found." (line 28) after line 16 passes. An entry 1e-20 with right-hand side 1e300 gives the ratio `inf`, and a `nan` entry fails both `<= 0` and `> 0`.
- Engine.PivotPreservesFeasibility: holds in exact arithmetic. Under floating point, right-hand sides can drift to small negative values, which this model cannot express.
- **`np.min(ratios) == np.inf`** (line 27) is modelled as a test of the element at `argmin`. That element is the minimum, so the value is the same.
- **The hardcoded shape.** Lines 62-64 fix two variables and two constraints. They, and the `j == 0` / `j == 1` dispatch of lines 107-110 and 122-125, become N and M with an array indexed by j.
- **Each method's requirement of at least one row and one column.** The layout always has both. With zero rows numpy fails at line 11. With rows but zero columns line 11's empty `.all()` is true and the tableau comes back unchanged; the model does not cover that case, which the layout never produces.
- **Linear-programming optimality is not proved.** The model does not prove that the final tableau is row-equivalent to the initial system. So it also does not prove that the extracted values satisfy the original constraints or maximise the objective. What is proved is about the tableau: the outcomes, the pivot rule, feasibility of the right-hand sides and the extraction rule.
- **Cycling under degenerate pivots** is bounded only by the iteration cap, as in streamlit_app.py. No anti-cycling rule is modelled.
