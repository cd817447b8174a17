/** The tableau simplex engine of streamlit_app.py:4-43: Dantzig's rule with
    first-index tie-breaks, the unboundedness check, the min-ratio test and an in-place
    Gauss-Jordan pivot, repeated at most 100 times.

    `Run` is the engine as a function of the tableau; the methods at the end of the
    module work in place on a 2-D array, as streamlit_app.py does, and are proved to compute
    exactly what `Run` describes. */
module Engine {
  import opened Tableau

  /** The safety limit on loop iterations (line 6). */
  const MaxIterations: nat := 100

  /** How the engine stops: the two hard failures, for which `simplex` returns `None`,
      or with the tableau, flagged when the iteration counter has reached the limit. */
  datatype Outcome = Unbounded | NoPivot | Done(hitLimit: bool)

  /** What a run ends with: its outcome, the tableau as it then stands and the number of
      pivots performed on the way. */
  datatype Final = Final(outcome: Outcome, tableau: Matrix, pivots: nat)

  /** No coefficient of row 0 is negative, the right-hand side excluded (line 11). */
  predicate Optimal(m: Matrix)
    requires Rectangular(m)
  {
    forall j :: 0 <= j < Cols(m) - 1 ==> m[0][j] >= 0.0
  }

  /** The first n coefficients of row 0 as extended reals: the array `tableau[0, :-1]`
      that line 14's `argmin` scans when n is the number of columns but one. */
  function ObjectiveRow(m: Matrix, n: nat): (s: seq<Extended>)
    requires Rectangular(m) && n <= Cols(m)
    ensures |s| == n && forall j :: 0 <= j < n ==> s[j] == Finite(m[0][j])
  {
    seq(n, j requires 0 <= j < n => Finite(m[0][j]))
  }

  /** Index of the first smallest of m[0][0..n-1]: a left-to-right scan that moves only on
      a strictly smaller value, which is how numpy's `argmin` breaks ties. */
  function FirstMinColumn(m: Matrix, n: nat): (k: nat)
    requires Rectangular(m) && 1 <= n <= Cols(m)
    ensures k < n
  {
    if n == 1 then 0
    else
      var k := FirstMinColumn(m, n - 1);
      if m[0][n - 1] < m[0][k] then n - 1 else k
  }

  /** The entering column: the first most negative coefficient of row 0 (line 14). */
  function EnteringCol(m: Matrix): (c: nat)
    requires Rectangular(m) && !Optimal(m)
    ensures c < Cols(m) - 1
  {
    FirstMinColumn(m, Cols(m) - 1)
  }

  /** No constraint row has a positive entry in column c (line 16). */
  predicate ColumnNonPositive(m: Matrix, c: nat)
    requires Rectangular(m) && c < Cols(m)
  {
    forall i :: 1 <= i < |m| ==> m[i][c] <= 0.0
  }

  /** The ratio of constraint row i for entering column c (lines 22-25). */
  function RatioAt(m: Matrix, i: nat, c: nat): Extended
    requires Rectangular(m) && 1 <= i < |m| && c < Cols(m)
  {
    if m[i][c] > 0.0 then Finite(Rhs(m, i) / m[i][c]) else Infinite
  }

  /** The ratios of rows 1..n for entering column c, as the `ratios` array of lines 20-25
      holds them: entry k belongs to row k + 1. */
  function Ratios(m: Matrix, c: nat, n: nat): (s: seq<Extended>)
    requires Rectangular(m) && c < Cols(m) && n < |m|
    ensures |s| == n && forall k :: 0 <= k < n ==> s[k] == RatioAt(m, k + 1, c)
  {
    seq(n, k requires 0 <= k < n => RatioAt(m, k + 1, c))
  }

  /** The constraint row among 1..n with the first smallest ratio, scanned as numpy's
      `argmin` scans `ratios`. */
  function FirstMinRatioRow(m: Matrix, c: nat, n: nat): (r: nat)
    requires Rectangular(m) && c < Cols(m) && 1 <= n < |m|
    ensures 1 <= r <= n
  {
    if n == 1 then 1
    else
      var k := FirstMinRatioRow(m, c, n - 1);
      if Less(RatioAt(m, n, c), RatioAt(m, k, c)) then n else k
  }

  /** The leaving row: none when the smallest ratio is `inf` (lines 27-29), otherwise the
      row of the first smallest ratio (line 31). */
  function LeavingRow(m: Matrix, c: nat): (r: Option<nat>)
    requires Rectangular(m) && |m| >= 2 && c < Cols(m)
    ensures r.Some? ==> 1 <= r.value < |m| && m[r.value][c] > 0.0
  {
    var k := FirstMinRatioRow(m, c, |m| - 1);
    if RatioAt(m, k, c) == Infinite then None else Some(k)
  }

  /** Entry (i, j) after pivoting on (pr, pc): the pivot row is divided by the pivot value
      (line 34); every other row loses its own pivot-column entry, read before the row is
      overwritten, times the divided pivot row (lines 36-38). */
  function PivotEntry(m: Matrix, pr: nat, pc: nat, i: nat, j: nat): real
    requires Rectangular(m) && pr < |m| && pc < Cols(m) && i < |m| && j < Cols(m)
    requires m[pr][pc] != 0.0
  {
    if i == pr then m[pr][j] / m[pr][pc]
    else m[i][j] - m[i][pc] * (m[pr][j] / m[pr][pc])
  }

  /** The tableau after one pivot on (pr, pc). */
  function Pivot(m: Matrix, pr: nat, pc: nat): (r: Matrix)
    requires Rectangular(m) && pr < |m| && pc < Cols(m) && m[pr][pc] != 0.0
    ensures Rectangular(r) && |r| == |m| && Cols(r) == Cols(m)
  {
    PivotRows(m, pr, pc, |m|)
  }

  /** Rows 0..n-1 of the pivoted tableau. */
  function PivotRows(m: Matrix, pr: nat, pc: nat, n: nat): (r: Matrix)
    requires Rectangular(m) && pr < |m| && pc < Cols(m) && m[pr][pc] != 0.0 && n <= |m|
    ensures |r| == n && forall i :: 0 <= i < n ==> |r[i]| == Cols(m)
  {
    if n == 0 then [] else PivotRows(m, pr, pc, n - 1) + [PivotRow(m, pr, pc, n - 1)]
  }

  /** Row i of the pivoted tableau. */
  function PivotRow(m: Matrix, pr: nat, pc: nat, i: nat): (r: seq<real>)
    requires Rectangular(m) && pr < |m| && pc < Cols(m) && m[pr][pc] != 0.0 && i < |m|
    ensures |r| == Cols(m)
  {
    seq(Cols(m), j requires 0 <= j < Cols(m) => PivotEntry(m, pr, pc, i, j))
  }

  lemma {:induction false} PivotRowsEntries(m: Matrix, pr: nat, pc: nat, n: nat)
    requires Rectangular(m) && pr < |m| && pc < Cols(m) && m[pr][pc] != 0.0 && n <= |m|
    ensures forall i, j :: 0 <= i < n && 0 <= j < Cols(m) ==> PivotRows(m, pr, pc, n)[i][j] == PivotEntry(m, pr, pc, i, j)
  {
    if n > 0 {
      PivotRowsEntries(m, pr, pc, n - 1);
    }
  }

  /** Every entry of the pivoted tableau is the PivotEntry of its position. */
  lemma PivotEntries(m: Matrix, pr: nat, pc: nat)
    requires Rectangular(m) && pr < |m| && pc < Cols(m) && m[pr][pc] != 0.0
    ensures forall i, j :: 0 <= i < |m| && 0 <= j < Cols(m) ==> Pivot(m, pr, pc)[i][j] == PivotEntry(m, pr, pc, i, j)
  {
    PivotRowsEntries(m, pr, pc, |m|);
  }

  /** What one pass of the loop body does (lines 11-38): stop with an outcome, or go on
      with the pivoted tableau. */
  datatype Step = Stop(outcome: Outcome) | Continue(next: Matrix)

  /** The loop body once the counter has been incremented to `count` (line 9): stop on
      optimality (lines 11-12, reporting the limit as line 40 does), fail when the entering
      column has no positive constraint entry (lines 16-18) or when no ratio is finite
      (lines 27-29), and otherwise pivot (lines 31-38). */
  function Iteration(m: Matrix, count: nat): (s: Step)
    requires Rectangular(m)
    ensures s.Continue? ==> Rectangular(s.next) && |s.next| == |m| && Cols(s.next) == Cols(m)
  {
    if Optimal(m) then Stop(Done(count >= MaxIterations))
    else
      var pc := EnteringCol(m);
      if ColumnNonPositive(m, pc) then Stop(Unbounded)
      else
        match LeavingRow(m, pc)
        case None => Stop(NoPivot)
        case Some(pr) => Continue(Pivot(m, pr, pc))
  }

  /** The engine's loop from the point where `iterations` iterations have run (lines 8-43);
      a loop that runs out of iterations reports the limit (line 40). */
  function Run(m: Matrix, iterations: nat): (f: Final)
    requires Rectangular(m) && iterations <= MaxIterations
    ensures f.pivots <= MaxIterations - iterations
    decreases MaxIterations - iterations
  {
    if iterations == MaxIterations then Final(Done(true), m, 0)
    else
      match Iteration(m, iterations + 1)
      case Stop(outcome) => Final(outcome, m, 0)
      case Continue(next) =>
        var f := Run(next, iterations + 1);
        Final(f.outcome, f.tableau, f.pivots + 1)
  }

  /** A run whose next iteration stops ends there, on the tableau it has. */
  lemma RunStops(m: Matrix, iterations: nat)
    requires Rectangular(m) && iterations < MaxIterations
    requires Iteration(m, iterations + 1).Stop?
    ensures Run(m, iterations) == Final(Iteration(m, iterations + 1).outcome, m, 0)
  {
  }

  /** A run whose next iteration pivots to `next` ends as the run from `next` does, with
      one pivot more. */
  lemma RunContinues(m: Matrix, iterations: nat, next: Matrix)
    requires Rectangular(m) && iterations < MaxIterations
    requires Iteration(m, iterations + 1) == Continue(next)
    ensures Rectangular(next)
    ensures Run(m, iterations) ==
      Final(Run(next, iterations + 1).outcome, Run(next, iterations + 1).tableau, Run(next, iterations + 1).pivots + 1)
  {
  }

  /** The engine's whole run on a tableau: at most 100 pivots, the dimensions kept, and
      the tableau handed back untouched when no pivot was made. */
  function Solve(m: Matrix): (f: Final)
    requires Rectangular(m)
    ensures Rectangular(f.tableau) && |f.tableau| == |m| && Cols(f.tableau) == Cols(m)
    ensures f.pivots <= MaxIterations
    ensures f.pivots == 0 ==> f.tableau == m
  {
    RunKeepsShape(m, 0, Run(m, 0));
    Run(m, 0)
  }

  // ---------------------------------------------------------------------------
  // Properties of one iteration

  /** A tableau that is already optimal is returned unchanged, after no pivot and
      without the limit flag (lines 11-12). */
  lemma OptimalIsReturnedUnchanged(m: Matrix)
    requires Rectangular(m) && Optimal(m)
    ensures Solve(m) == Final(Done(false), m, 0)
  {
  }

  /** One variable x and one constraint q*x + s <= r: with a negative objective
      coefficient p and q <= 0 the first iteration reports Unbounded, without a pivot. */
  lemma OneVariableUnbounded(p: real, q: real, r: real)
    requires p < 0.0 && q <= 0.0
    ensures Solve([[p, 0.0, 0.0], [q, 1.0, r]]) == Final(Unbounded, [[p, 0.0, 0.0], [q, 1.0, r]], 0)
  {
    var m := [[p, 0.0, 0.0], [q, 1.0, r]];
    assert Cols(m) == 3 && m[0][0] < 0.0;
    assert EnteringCol(m) == 0;
  }

  /** The row-0 scan returns the first minimum of the first n coefficients, the index
      numpy's `argmin` returns. */
  lemma {:induction false} FirstMinColumnIsFirstMinimum(m: Matrix, n: nat)
    requires Rectangular(m) && 1 <= n <= Cols(m)
    ensures IsFirstMinimum(ObjectiveRow(m, n), FirstMinColumn(m, n))
  {
    if n > 1 {
      FirstMinColumnIsFirstMinimum(m, n - 1);
      assert forall j :: 0 <= j < n - 1 ==> ObjectiveRow(m, n)[j] == ObjectiveRow(m, n - 1)[j];
    }
  }

  /** The entering column is never the right-hand-side column, its coefficient is
      negative, and it is the first minimum of row 0 (line 14). */
  lemma EnteringColIsFirstMostNegative(m: Matrix)
    requires Rectangular(m) && !Optimal(m)
    ensures EnteringCol(m) < Cols(m) - 1
    ensures m[0][EnteringCol(m)] < 0.0
    ensures IsFirstMinimum(ObjectiveRow(m, Cols(m) - 1), EnteringCol(m))
  {
    var row := ObjectiveRow(m, Cols(m) - 1);
    FirstMinColumnIsFirstMinimum(m, Cols(m) - 1);
    var j :| 0 <= j < Cols(m) - 1 && m[0][j] < 0.0;
    assert !Less(row[j], row[EnteringCol(m)]);
  }

  /** The ratio scan returns, as an index into `ratios`, the first minimum ratio among
      rows 1..n. */
  lemma {:induction false} FirstMinRatioRowIsFirstMinimum(m: Matrix, c: nat, n: nat)
    requires Rectangular(m) && c < Cols(m) && 1 <= n < |m|
    ensures IsFirstMinimum(Ratios(m, c, n), FirstMinRatioRow(m, c, n) - 1)
  {
    if n > 1 {
      FirstMinRatioRowIsFirstMinimum(m, c, n - 1);
      assert forall k :: 0 <= k < n - 1 ==> Ratios(m, c, n)[k] == Ratios(m, c, n - 1)[k];
    }
  }

  /** numpy's `argmin` of the `ratios` array (entry k belonging to row k + 1), followed by
      the test against `inf`, is the leaving-row rule (lines 20-31). */
  lemma LeavingRowFromRatios(m: Matrix, c: nat, ratios: seq<Extended>, k: nat)
    requires Rectangular(m) && |m| >= 2 && c < Cols(m)
    requires |ratios| == |m| - 1 && forall i :: 0 <= i < |ratios| ==> ratios[i] == RatioAt(m, i + 1, c)
    requires IsFirstMinimum(ratios, k)
    ensures LeavingRow(m, c) == if ratios[k] == Infinite then None else Some(k + 1)
  {
    var r := FirstMinRatioRow(m, c, |m| - 1);
    FirstMinRatioRowIsFirstMinimum(m, c, |m| - 1);
    assert ratios == Ratios(m, c, |m| - 1);
    FirstMinimumUnique(ratios, k, r - 1);
  }

  /** A leaving row exists exactly when some constraint row has a positive entry in the
      entering column, so in exact arithmetic, once the unboundedness check of line 16 has
      passed, the "no feasible pivot" branch of lines 27-29 cannot be taken. */
  lemma LeavingRowExists(m: Matrix, c: nat)
    requires Rectangular(m) && |m| >= 2 && c < Cols(m)
    ensures LeavingRow(m, c).Some? <==> !ColumnNonPositive(m, c)
  {
    FirstMinRatioRowIsFirstMinimum(m, c, |m| - 1);
    var r := FirstMinRatioRow(m, c, |m| - 1);
    if !ColumnNonPositive(m, c) {
      var i :| 1 <= i < |m| && m[i][c] > 0.0;
      assert !Less(Ratios(m, c, |m| - 1)[i - 1], Ratios(m, c, |m| - 1)[r - 1]);
    }
  }

  /** The leaving row has a positive entry in the pivot column, its ratio is the smallest
      among the rows with a positive entry, and every earlier such row has a strictly
      larger ratio (lines 20-32). */
  lemma LeavingRowIsFirstMinimumRatio(m: Matrix, c: nat)
    requires Rectangular(m) && |m| >= 2 && c < Cols(m)
    requires LeavingRow(m, c).Some?
    ensures var r := LeavingRow(m, c).value;
      1 <= r < |m| && m[r][c] > 0.0 &&
      (forall i :: 1 <= i < |m| && m[i][c] > 0.0 ==> Rhs(m, r) / m[r][c] <= Rhs(m, i) / m[i][c]) &&
      (forall i :: 1 <= i < r && m[i][c] > 0.0 ==> Rhs(m, r) / m[r][c] < Rhs(m, i) / m[i][c])
  {
    FirstMinRatioRowIsFirstMinimum(m, c, |m| - 1);
    var r := LeavingRow(m, c).value;
    forall i | 1 <= i < |m| && m[i][c] > 0.0
      ensures Rhs(m, r) / m[r][c] <= Rhs(m, i) / m[i][c]
      ensures i < r ==> Rhs(m, r) / m[r][c] < Rhs(m, i) / m[i][c]
    {
      assert Ratios(m, c, |m| - 1)[i - 1] == RatioAt(m, i, c);
    }
  }

  /** After a pivot the pivot entry is exactly 1 and every other row, row 0 included, has 0
      in the pivot column; the dimensions do not change (lines 34-38). */
  lemma PivotClearsColumn(m: Matrix, pr: nat, pc: nat)
    requires Rectangular(m) && pr < |m| && pc < Cols(m) && m[pr][pc] != 0.0
    ensures |Pivot(m, pr, pc)| == |m| && Cols(Pivot(m, pr, pc)) == Cols(m)
    ensures Pivot(m, pr, pc)[pr][pc] == 1.0
    ensures forall i :: 0 <= i < |m| && i != pr ==> Pivot(m, pr, pc)[i][pc] == 0.0
  {
    PivotEntries(m, pr, pc);
    var p := m[pr][pc];
    assert p / p == 1.0;
  }

  /** One constraint row after the pivot: if the pivot row's ratio theta does not exceed
      this row's own ratio whenever its entry a is positive, its right-hand side stays
      non-negative. */
  lemma RowStaysFeasible(rhs: real, a: real, theta: real)
    requires rhs >= 0.0 && theta >= 0.0
    requires a > 0.0 ==> theta <= rhs / a
    ensures rhs - a * theta >= 0.0
  {
    if a > 0.0 {
      assert a * theta <= a * (rhs / a);
      assert a * (rhs / a) == rhs;
    } else {
      assert a * theta <= 0.0;
    }
  }

  /** One constraint row's right-hand side after the pivot: the pivot row's becomes the
      ratio theta >= 0, any other row i loses m[i][pc] * theta, which the ratio test keeps
      non-negative. */
  lemma PivotRhsNonNegative(m: Matrix, pr: nat, pc: nat, i: nat)
    requires Rectangular(m) && 1 <= pr < |m| && 1 <= i < |m| && pc < Cols(m)
    requires m[pr][pc] > 0.0 && Rhs(m, pr) >= 0.0 && Rhs(m, i) >= 0.0
    requires m[i][pc] > 0.0 ==> Rhs(m, pr) / m[pr][pc] <= Rhs(m, i) / m[i][pc]
    ensures PivotEntry(m, pr, pc, i, Cols(m) - 1) >= 0.0
  {
    var theta := Rhs(m, pr) / m[pr][pc];
    assert theta >= 0.0;
    if i != pr {
      RowStaysFeasible(Rhs(m, i), m[i][pc], theta);
    }
  }

  /** A pivot on the row the ratio test chooses keeps every constraint row's right-hand
      side non-negative (lines 20-38, in exact arithmetic). */
  lemma PivotPreservesFeasibility(m: Matrix, pc: nat)
    requires Rectangular(m) && |m| >= 2 && pc < Cols(m) && Feasible(m)
    requires LeavingRow(m, pc).Some?
    ensures Feasible(Pivot(m, LeavingRow(m, pc).value, pc))
  {
    var pr := LeavingRow(m, pc).value;
    LeavingRowIsFirstMinimumRatio(m, pc);
    var r := Pivot(m, pr, pc);
    PivotEntries(m, pr, pc);
    forall i | 1 <= i < |r|
      ensures Rhs(r, i) >= 0.0
    {
      PivotRhsNonNegative(m, pr, pc, i);
    }
  }

  /** What one iteration's verdict says about the tableau: it stops with the (possibly
      flagged) tableau only when row 0 is optimal, with Unbounded only when the entering
      column has no positive constraint entry, and never with NoPivot. */
  lemma IterationMeaning(m: Matrix, count: nat)
    requires Rectangular(m)
    ensures var s := Iteration(m, count);
      (s.Stop? && s.outcome.Done? ==> Optimal(m) && s.outcome.hitLimit == (count >= MaxIterations)) &&
      (s == Stop(Unbounded) ==> !Optimal(m) && ColumnNonPositive(m, EnteringCol(m))) &&
      s != Stop(NoPivot)
  {
    if !Optimal(m) && |m| >= 2 {
      LeavingRowExists(m, EnteringCol(m));
    }
  }

  /** An iteration that pivots does so on the ratio test's row, which keeps a feasible
      tableau feasible. */
  lemma IterationPreservesFeasibility(m: Matrix, count: nat)
    requires Rectangular(m) && Feasible(m)
    ensures Iteration(m, count).Continue? ==> Feasible(Iteration(m, count).next)
  {
    if !Optimal(m) && !ColumnNonPositive(m, EnteringCol(m)) && |m| >= 2 {
      var pc := EnteringCol(m);
      if LeavingRow(m, pc).Some? {
        PivotPreservesFeasibility(m, pc);
      }
    }
  }

  // ---------------------------------------------------------------------------
  // Properties of the whole loop

  /** A run that pivots on every remaining iteration reports the limit (line 40). */
  lemma {:induction false} RunUsingAllIterations(m: Matrix, iterations: nat, f: Final)
    requires Rectangular(m) && iterations <= MaxIterations && f == Run(m, iterations)
    ensures f.pivots == MaxIterations - iterations ==> f.outcome == Done(true)
    decreases MaxIterations - iterations
  {
    if iterations < MaxIterations {
      match Iteration(m, iterations + 1)
      case Stop(_) =>
      case Continue(next) => RunUsingAllIterations(next, iterations + 1, Run(next, iterations + 1));
    }
  }

  /** A run that stops before using up its iterations stops because the iteration after
      its last pivot stopped on the final tableau with the reported outcome. */
  lemma {:induction false} RunStopsOnFinal(m: Matrix, iterations: nat, f: Final)
    requires Rectangular(m) && iterations <= MaxIterations && f == Run(m, iterations)
    ensures Rectangular(f.tableau)
    ensures f.pivots < MaxIterations - iterations ==>
      Iteration(f.tableau, iterations + f.pivots + 1) == Stop(f.outcome)
    decreases MaxIterations - iterations
  {
    RunKeepsShape(m, iterations, f);
    if iterations < MaxIterations {
      match Iteration(m, iterations + 1)
      case Stop(_) =>
      case Continue(next) => RunStopsOnFinal(next, iterations + 1, Run(next, iterations + 1));
    }
  }

  /** The "no feasible pivot" failure is never the outcome (lines 16-18 and 27-29). */
  lemma RunNeverReportsNoPivot(m: Matrix, iterations: nat)
    requires Rectangular(m) && iterations <= MaxIterations
    ensures Run(m, iterations).outcome != NoPivot
  {
    var f := Run(m, iterations);
    RunUsingAllIterations(m, iterations, f);
    RunStopsOnFinal(m, iterations, f);
    if f.pivots < MaxIterations - iterations {
      IterationMeaning(f.tableau, iterations + f.pivots + 1);
    }
  }

  /** What each outcome means for the tableau the run ends with. Without the limit flag the
      tableau is optimal. With it, either every remaining iteration pivoted, or optimality
      was detected on the last allowed iteration (line 40). Unbounded means row 0 still has
      a negative entry whose column has no positive constraint entry (line 16). */
  lemma RunOutcomeMeaning(m: Matrix, iterations: nat)
    requires Rectangular(m) && iterations <= MaxIterations
    ensures var f := Run(m, iterations);
      Rectangular(f.tableau) &&
      (f.outcome == Done(false) ==> Optimal(f.tableau) && f.pivots < MaxIterations - iterations - 1) &&
      (f.outcome == Done(true) ==>
        f.pivots == MaxIterations - iterations ||
        (Optimal(f.tableau) && f.pivots == MaxIterations - iterations - 1)) &&
      (f.outcome == Unbounded ==>
        !Optimal(f.tableau) && ColumnNonPositive(f.tableau, EnteringCol(f.tableau)))
  {
    var f := Run(m, iterations);
    RunUsingAllIterations(m, iterations, f);
    RunStopsOnFinal(m, iterations, f);
    if f.pivots < MaxIterations - iterations {
      IterationMeaning(f.tableau, iterations + f.pivots + 1);
    }
  }

  /** A run keeps the tableau's dimensions, and a run that makes no pivot ends on the
      tableau it started from. */
  lemma {:induction false} RunKeepsShape(m: Matrix, iterations: nat, f: Final)
    requires Rectangular(m) && iterations <= MaxIterations && f == Run(m, iterations)
    ensures Rectangular(f.tableau) && |f.tableau| == |m| && Cols(f.tableau) == Cols(m)
    ensures f.pivots == 0 ==> f.tableau == m
    decreases MaxIterations - iterations
  {
    if iterations < MaxIterations {
      match Iteration(m, iterations + 1)
      case Stop(_) =>
      case Continue(next) => RunKeepsShape(next, iterations + 1, Run(next, iterations + 1));
    }
  }

  /** Starting from a feasible tableau, a run ends with a feasible one (every right-hand
      side of rows 1..M stays non-negative). */
  lemma {:induction false} RunPreservesFeasibility(m: Matrix, iterations: nat, f: Final)
    requires Rectangular(m) && iterations <= MaxIterations && f == Run(m, iterations)
    ensures Rectangular(f.tableau) && |f.tableau| == |m| && Cols(f.tableau) == Cols(m)
    ensures Feasible(m) ==> Feasible(f.tableau)
    decreases MaxIterations - iterations
  {
    RunKeepsShape(m, iterations, f);
    if iterations < MaxIterations {
      match Iteration(m, iterations + 1)
      case Stop(_) =>
      case Continue(next) =>
        if Feasible(m) {
          IterationPreservesFeasibility(m, iterations + 1);
        }
        RunPreservesFeasibility(next, iterations + 1, Run(next, iterations + 1));
    }
  }

  // ---------------------------------------------------------------------------
  // The engine in place on a 2-D array

  /** The optimality test of line 11. */
  method IsOptimal(t: array2<real>) returns (b: bool)
    requires t.Length0 >= 1 && t.Length1 >= 1
    ensures b <==> forall j :: 0 <= j < t.Length1 - 1 ==> t[0, j] >= 0.0
    ensures b == Optimal(Snapshot(t))
  {
    b := true;
    var j := 0;
    while j < t.Length1 - 1
      invariant 0 <= j <= t.Length1 - 1
      invariant b <==> forall k :: 0 <= k < j ==> t[0, k] >= 0.0
    {
      if t[0, j] < 0.0 {
        b := false;
      }
      j := j + 1;
    }
  }

  /** `np.argmin(tableau[0, :-1])` (line 14). */
  method EnteringColumn(t: array2<real>) returns (col: nat)
    requires t.Length0 >= 1 && t.Length1 >= 2
    ensures col < t.Length1 - 1
    ensures IsFirstMinimum(ObjectiveRow(Snapshot(t), t.Length1 - 1), col)
    ensures !Optimal(Snapshot(t)) ==> col == EnteringCol(Snapshot(t))
  {
    ghost var m := Snapshot(t);
    col := 0;
    var j := 1;
    while j < t.Length1 - 1
      invariant 1 <= j <= t.Length1 - 1
      invariant col == FirstMinColumn(m, j)
    {
      if t[0, j] < t[0, col] {
        col := j;
      }
      j := j + 1;
    }
    FirstMinColumnIsFirstMinimum(m, t.Length1 - 1);
  }

  /** The unboundedness test of line 16. */
  method ColumnIsNonPositive(t: array2<real>, c: nat) returns (b: bool)
    requires t.Length0 >= 1 && c < t.Length1
    ensures b <==> forall i :: 1 <= i < t.Length0 ==> t[i, c] <= 0.0
    ensures b == ColumnNonPositive(Snapshot(t), c)
  {
    b := true;
    var i := 1;
    while i < t.Length0
      invariant 1 <= i <= t.Length0
      invariant b <==> forall k :: 1 <= k < i ==> t[k, c] <= 0.0
    {
      if t[i, c] > 0.0 {
        b := false;
      }
      i := i + 1;
    }
  }

  /** The ratio test of lines 20-31: fill `ratios`, then give up when its minimum is `inf`
      and otherwise take the row of its first minimum. */
  method ChooseLeavingRow(t: array2<real>, c: nat) returns (r: Option<nat>)
    requires t.Length0 >= 2 && c < t.Length1
    ensures r == LeavingRow(Snapshot(t), c)
  {
    var ratios := FillRatios(t, c);
    var k := IndexOfMinimum(ratios);
    LeavingRowFromRatios(Snapshot(t), c, ratios[..], k);
    if ratios[k] == Infinite {
      r := None;
    } else {
      r := Some(k + 1);
    }
  }

  /** The loop of lines 20-25: `ratios[i-1]` is row i's ratio, or `inf` when its entry in
      column c is not positive. */
  method FillRatios(t: array2<real>, c: nat) returns (ratios: array<Extended>)
    requires t.Length0 >= 2 && c < t.Length1
    ensures fresh(ratios) && ratios.Length == t.Length0 - 1
    ensures forall k :: 0 <= k < ratios.Length ==> ratios[k] == RatioAt(Snapshot(t), k + 1, c)
  {
    ghost var m := Snapshot(t);
    ratios := new Extended[t.Length0 - 1];
    var i := 1;
    while i < t.Length0
      invariant 1 <= i <= t.Length0
      invariant forall k :: 0 <= k < i - 1 ==> ratios[k] == RatioAt(m, k + 1, c)
    {
      if t[i, c] > 0.0 {
        ratios[i - 1] := Finite(t[i, t.Length1 - 1] / t[i, c]);
      } else {
        ratios[i - 1] := Infinite;
      }
      i := i + 1;
    }
  }

  /** The pivot of lines 32-38, in place: divide the pivot row by the pivot value, then
      subtract from every other row its pivot-column entry times the divided pivot row. */
  method PivotInPlace(t: array2<real>, pr: nat, pc: nat)
    requires pr < t.Length0 && pc < t.Length1 && t[pr, pc] != 0.0
    modifies t
    ensures Snapshot(t) == Pivot(old(Snapshot(t)), pr, pc)
  {
    ghost var m := Snapshot(t);
    DivideRow(t, pr, pc, m);
    var r := 0;
    while r < t.Length0
      invariant 0 <= r <= t.Length0
      invariant forall i, k :: 0 <= i < t.Length0 && (i == pr || i < r) && 0 <= k < t.Length1 ==>
        t[i, k] == PivotEntry(m, pr, pc, i, k)
      invariant forall i, k :: r <= i < t.Length0 && i != pr && 0 <= k < t.Length1 ==> t[i, k] == m[i][k]
    {
      if r != pr {
        EliminateRow(t, r, pr, pc, m);
      }
      r := r + 1;
    }
    SnapshotIsPivot(t, m, pr, pc);
  }

  /** An array holding every entry of the pivoted tableau holds the pivoted tableau. */
  lemma SnapshotIsPivot(t: array2<real>, m: Matrix, pr: nat, pc: nat)
    requires Rectangular(m) && |m| == t.Length0 && Cols(m) == t.Length1
    requires pr < |m| && pc < Cols(m) && m[pr][pc] != 0.0
    requires forall i, k :: 0 <= i < t.Length0 && 0 <= k < t.Length1 ==> t[i, k] == PivotEntry(m, pr, pc, i, k)
    ensures Snapshot(t) == Pivot(m, pr, pc)
  {
    PivotEntries(m, pr, pc);
    Extensionality(Snapshot(t), Pivot(m, pr, pc));
  }

  /** `tableau[pivot_row, :] /= pivot_value` (line 34) on an array holding m: the pivot
      value is read once, before the row is overwritten, and only the pivot row changes. */
  method DivideRow(t: array2<real>, pr: nat, pc: nat, ghost m: Matrix)
    requires Rectangular(m) && |m| == t.Length0 && Cols(m) == t.Length1
    requires pr < |m| && pc < Cols(m) && m[pr][pc] != 0.0
    requires forall i, k :: 0 <= i < t.Length0 && 0 <= k < t.Length1 ==> t[i, k] == m[i][k]
    modifies t
    ensures forall k :: 0 <= k < t.Length1 ==> t[pr, k] == PivotEntry(m, pr, pc, pr, k)
    ensures forall i, k :: 0 <= i < t.Length0 && i != pr && 0 <= k < t.Length1 ==> t[i, k] == m[i][k]
  {
    var pivotValue := t[pr, pc];
    var j := 0;
    while j < t.Length1
      invariant 0 <= j <= t.Length1
      invariant forall k :: 0 <= k < j ==> t[pr, k] == m[pr][k] / pivotValue
      invariant forall k :: j <= k < t.Length1 ==> t[pr, k] == m[pr][k]
      invariant forall i, k :: 0 <= i < t.Length0 && i != pr && 0 <= k < t.Length1 ==> t[i, k] == m[i][k]
    {
      t[pr, j] := t[pr, j] / pivotValue;
      j := j + 1;
    }
  }

  /** `tableau[r, :] -= tableau[r, pivot_col] * tableau[pivot_row, :]` (line 38) once the
      pivot row has been divided: the factor is read before row r is overwritten, row r
      becomes its pivoted form and no other row changes. */
  method EliminateRow(t: array2<real>, r: nat, pr: nat, pc: nat, ghost m: Matrix)
    requires Rectangular(m) && |m| == t.Length0 && Cols(m) == t.Length1
    requires r < |m| && pr < |m| && r != pr && pc < Cols(m) && m[pr][pc] != 0.0
    requires forall k :: 0 <= k < t.Length1 ==> t[pr, k] == PivotEntry(m, pr, pc, pr, k)
    requires forall k :: 0 <= k < t.Length1 ==> t[r, k] == m[r][k]
    modifies t
    ensures forall k :: 0 <= k < t.Length1 ==> t[r, k] == PivotEntry(m, pr, pc, r, k)
    ensures forall i, k :: 0 <= i < t.Length0 && i != r && 0 <= k < t.Length1 ==> t[i, k] == old(t[i, k])
  {
    var factor := t[r, pc];
    var j := 0;
    while j < t.Length1
      invariant 0 <= j <= t.Length1 && factor == m[r][pc]
      invariant forall k :: 0 <= k < j ==> t[r, k] == PivotEntry(m, pr, pc, r, k)
      invariant forall k :: j <= k < t.Length1 ==> t[r, k] == m[r][k]
      invariant forall i, k :: 0 <= i < t.Length0 && i != r && 0 <= k < t.Length1 ==> t[i, k] == old(t[i, k])
    {
      t[r, j] := t[r, j] - factor * t[pr, j];
      j := j + 1;
    }
  }

  /** Two runs that end the same way: same outcome and same final tableau. */
  predicate SameEnd(a: Final, b: Final) {
    a.outcome == b.outcome && a.tableau == b.tableau
  }

  /** One pass of the loop body (lines 11-38) on the array, after the counter has been
      incremented to `count`: it either reports why the loop stops, leaving the array
      alone, or pivots it in place; either way the run still ends as `goal` says. */
  method Iterate(t: array2<real>, count: nat, ghost goal: Final) returns (stop: Option<Outcome>)
    requires t.Length0 >= 1 && t.Length1 >= 1 && 1 <= count <= MaxIterations
    requires SameEnd(Run(Snapshot(t), count - 1), goal)
    modifies t
    ensures stop == Some(Done(count >= MaxIterations)) || stop == Some(Unbounded) || stop == Some(NoPivot) || stop == None
    ensures stop.Some? ==> stop.value == goal.outcome && Snapshot(t) == goal.tableau
    ensures stop.None? ==> SameEnd(Run(Snapshot(t), count), goal)
    ensures stop.None? && count == MaxIterations ==> goal.outcome == Done(true) && goal.tableau == Snapshot(t)
    ensures stop.Some? ==> Snapshot(t) == old(Snapshot(t)) && Iteration(old(Snapshot(t)), count) == Stop(stop.value)
    ensures stop.None? ==> Iteration(old(Snapshot(t)), count) == Continue(Snapshot(t))
  {
    ghost var m := Snapshot(t);
    var optimal := IsOptimal(t);
    if optimal {
      RunStops(m, count - 1);
      return Some(Done(count >= MaxIterations));
    }
    var pc := EnteringColumn(t);
    var unbounded := ColumnIsNonPositive(t, pc);
    if unbounded {
      RunStops(m, count - 1);
      return Some(Unbounded);
    }
    var leaving := ChooseLeavingRow(t, pc);
    if leaving.None? {
      RunStops(m, count - 1);
      return Some(NoPivot);
    }
    PivotInPlace(t, leaving.value, pc);
    RunContinues(m, count - 1, Snapshot(t));
    stop := None;
  }

  /** `simplex(tableau, big_m)` (lines 4-43): runs the loop in place and reports how it
      stopped; the array then holds the tableau reached, also on the failure paths. */
  method Simplex(t: array2<real>) returns (outcome: Outcome)
    requires t.Length0 >= 1 && t.Length1 >= 1
    modifies t
    ensures outcome == Solve(old(Snapshot(t))).outcome
    ensures Snapshot(t) == Solve(old(Snapshot(t))).tableau
  {
    ghost var goal := Solve(Snapshot(t));
    var iterations: nat := 0;
    while iterations < MaxIterations
      invariant iterations <= MaxIterations
      invariant SameEnd(Run(Snapshot(t), iterations), goal)
      invariant iterations == MaxIterations ==> goal.outcome == Done(true) && goal.tableau == Snapshot(t)
      decreases MaxIterations - iterations
    {
      iterations := iterations + 1;
      var stop := Iterate(t, iterations, goal);
      if stop.Some? {
        if stop.value.Done? {
          break;
        }
        return stop.value;
      }
    }
    outcome := Done(iterations >= MaxIterations);
  }
}
