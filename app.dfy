/** The solver as the page runs it (streamlit_app.py:61-134), with the two-variable,
    two-constraint problem generalised to N variables and M `<=` constraints: lay out the
    initial tableau, run the simplex loop on it in place, and, when the loop hands back a
    tableau, read off the variable values and the revenue. */
module App {
  import opened Tableau
  import opened Engine
  import opened Extraction

  /** What the page ends with: the solution, flagged when the iteration cap was reached
      (line 41), or the message that no solution was found (line 134). */
  datatype Report = Solution(values: seq<real>, revenue: real, mayNotBeOptimal: bool) | NoSolution

  /** Profits c (one per variable), constraint rows a (one coefficient per variable) and
      right-hand sides b (one per constraint). */
  predicate WellShaped(c: seq<real>, a: seq<seq<real>>, b: seq<real>) {
    |a| == |b| && forall i :: 0 <= i < |a| ==> |a[i]| == |c|
  }

  /** The report on a finished run f: no solution when the loop returned `None`,
      otherwise the values of the first N columns of the final tableau and their revenue. */
  ghost function ReportFrom(c: seq<real>, f: Final): (r: Report)
    requires Rectangular(f.tableau) && |c| <= Cols(f.tableau)
    ensures r.NoSolution? <==> !f.outcome.Done?
    ensures r.Solution? ==>
      |r.values| == |c| && r.mayNotBeOptimal == f.outcome.hitLimit &&
      (forall j :: 0 <= j < |c| ==> r.values[j] == VariableValue(f.tableau, j)) &&
      r.revenue == Revenue(c, r.values)
  {
    match f.outcome
    case Done(hitLimit) =>
      var x := Values(f.tableau, |c|);
      Solution(x, Revenue(c, x), hitLimit)
    case _ => NoSolution
  }

  /** The report for profits c and a starting tableau m. */
  ghost function ReportFor(c: seq<real>, m: Matrix): (r: Report)
    requires Rectangular(m) && |c| <= Cols(m)
    ensures r.NoSolution? <==> Solve(m).outcome == Unbounded
    ensures r.Solution? ==> |r.values| == |c|
  {
    var f := Solve(m);
    RunPreservesFeasibility(m, 0, f);
    RunNeverReportsNoPivot(m, 0);
    ReportFrom(c, f)
  }

  /** The page reports no solution exactly when the final tableau is not optimal and its
      entering column has no positive constraint entry; an unflagged solution comes from an optimal final
      tableau, and its values are those of the final tableau's unit columns. */
  lemma ReportMeaning(c: seq<real>, m: Matrix, f: Final)
    requires Rectangular(m) && |c| <= Cols(m) && f == Solve(m)
    ensures Rectangular(f.tableau) && Cols(f.tableau) == Cols(m)
    ensures ReportFrom(c, f) == NoSolution <==> f.outcome == Unbounded
    ensures ReportFrom(c, f) == NoSolution ==>
      !Optimal(f.tableau) && ColumnNonPositive(f.tableau, EnteringCol(f.tableau))
    ensures ReportFrom(c, f).Solution? ==>
      |ReportFrom(c, f).values| == |c| &&
      (forall j :: 0 <= j < |c| ==> ReportFrom(c, f).values[j] == VariableValue(f.tableau, j)) &&
      (!ReportFrom(c, f).mayNotBeOptimal ==> Optimal(f.tableau))
  {
    RunPreservesFeasibility(m, 0, f);
    RunNeverReportsNoPivot(m, 0);
    RunOutcomeMeaning(m, 0);
  }

  /** From a feasible tableau every reported value is non-negative, and with non-negative
      profits as well so is the revenue. */
  lemma SolutionNonNegative(c: seq<real>, m: Matrix, f: Final)
    requires Rectangular(m) && |c| <= Cols(m) && Feasible(m) && f == Solve(m)
    ensures Rectangular(f.tableau) && Cols(f.tableau) == Cols(m)
    ensures var r := ReportFrom(c, f);
      r.Solution? ==> |r.values| == |c| && forall j :: 0 <= j < |c| ==> r.values[j] >= 0.0
    ensures var r := ReportFrom(c, f);
      r.Solution? && (forall j :: 0 <= j < |c| ==> c[j] >= 0.0) ==> r.revenue >= 0.0
  {
    RunPreservesFeasibility(m, 0, f);
    forall j | 0 <= j < |c|
      ensures VariableValue(f.tableau, j) >= 0.0
    {
      ValueNonNegative(f.tableau, j);
    }
    if forall j :: 0 <= j < |c| ==> c[j] >= 0.0 {
      RevenueNonNegative(c, Values(f.tableau, |c|));
    }
  }

  /** Non-negative right-hand sides make the initial tableau feasible, so the report's
      values are non-negative. */
  lemma NonNegativeRhsGivesNonNegativeValues(c: seq<real>, a: seq<seq<real>>, b: seq<real>)
    requires WellShaped(c, a, b)
    requires forall i :: 0 <= i < |b| ==> b[i] >= 0.0
    ensures var r := ReportFor(c, InitialTableau(c, a, b));
      r.Solution? ==> forall j :: 0 <= j < |r.values| ==> r.values[j] >= 0.0
  {
    var m := InitialTableau(c, a, b);
    InitialTableauFeasible(c, a, b);
    SolutionNonNegative(c, m, Solve(m));
  }

  /** When no profit is positive the initial tableau is already optimal, so the loop
      returns it at once, with no pivot and no limit flag. */
  lemma NothingToGain(c: seq<real>, a: seq<seq<real>>, b: seq<real>)
    requires WellShaped(c, a, b)
    requires forall j :: 0 <= j < |c| ==> c[j] <= 0.0
    ensures Solve(InitialTableau(c, a, b)) == Final(Done(false), InitialTableau(c, a, b), 0)
  {
    var m := InitialTableau(c, a, b);
    assert Optimal(m);
    OptimalIsReturnedUnchanged(m);
  }

  /** From an optimal tableau the page reports, unflagged, the values read off that very
      tableau. */
  lemma ReportOfOptimal(c: seq<real>, m: Matrix)
    requires Rectangular(m) && |c| <= Cols(m) && Optimal(m)
    ensures var x := Values(m, |c|);
      ReportFor(c, m) == Solution(x, Revenue(c, x), false)
  {
    OptimalIsReturnedUnchanged(m);
  }

  /** With every profit and every right-hand side 0, the page reports every value 0 and
      revenue 0, unflagged, whatever the constraint coefficients. */
  lemma ZeroProblemGivesZero(c: seq<real>, a: seq<seq<real>>, b: seq<real>)
    requires WellShaped(c, a, b)
    requires forall j :: 0 <= j < |c| ==> c[j] == 0.0
    requires forall i :: 0 <= i < |b| ==> b[i] == 0.0
    ensures ReportFor(c, InitialTableau(c, a, b)) == Solution(seq(|c|, _ => 0.0), 0.0, false)
  {
    var m := InitialTableau(c, a, b);
    NothingToGain(c, a, b);
    ReportOfOptimal(c, m);
    forall i | 1 <= i < |m|
      ensures Rhs(m, i) == 0.0
    {
      assert Rhs(m, (i - 1) + 1) == b[i - 1];
    }
    ZeroRhsGivesZeroValues(m, |c|);
    RevenueOfZeroValues(c, Values(m, |c|));
  }

  /** When every constraint row's right-hand side is 0, so is every variable's value. */
  lemma ZeroRhsGivesZeroValues(m: Matrix, n: nat)
    requires Rectangular(m) && n <= Cols(m)
    requires forall i :: 1 <= i < |m| ==> Rhs(m, i) == 0.0
    ensures Values(m, n) == seq(n, _ => 0.0)
  {
    var x := Values(m, n);
    forall j | 0 <= j < n
      ensures x[j] == 0.0
    {
      assert x[j] == VariableValue(m, j);
    }
  }

  /** Lines 67-81: a zero matrix of M+1 rows and N+M+1 columns, the negated profits in
      row 0, and for constraint i its coefficients, a 1 in slack column N+i and its
      right-hand side in row i+1. */
  method BuildTableau(c: seq<real>, a: seq<seq<real>>, b: seq<real>) returns (t: array2<real>)
    requires WellShaped(c, a, b)
    ensures fresh(t) && Snapshot(t) == InitialTableau(c, a, b)
  {
    ghost var m := InitialTableau(c, a, b);
    var n, rows := |c|, |b|;
    t := new real[rows + 1, n + rows + 1]((i, j) => 0.0);
    for j := 0 to n
      invariant forall p, q :: 0 <= p < t.Length0 && 0 <= q < t.Length1 ==>
        t[p, q] == if p == 0 && q < j then m[0][q] else 0.0
    {
      t[0, j] := -c[j];
    }
    for i := 0 to rows
      invariant forall p, q :: 0 <= p < t.Length0 && 0 <= q < t.Length1 ==>
        t[p, q] == if p <= i then m[p][q] else 0.0
    {
      FillConstraintRow(t, c, a, b, i, m);
    }
    Extensionality(Snapshot(t), m);
  }

  /** Row i+1 of the layout: constraint i's coefficients, its slack 1 and its right-hand
      side, written into a row that is still zero. */
  method FillConstraintRow(t: array2<real>, c: seq<real>, a: seq<seq<real>>, b: seq<real>, i: nat, ghost m: Matrix)
    requires WellShaped(c, a, b) && i < |b| && m == InitialTableau(c, a, b)
    requires t.Length0 == |b| + 1 && t.Length1 == |c| + |b| + 1
    requires forall p, q :: 0 <= p < t.Length0 && 0 <= q < t.Length1 ==> p == i + 1 ==> t[p, q] == 0.0
    modifies t
    ensures forall p, q :: 0 <= p < t.Length0 && 0 <= q < t.Length1 ==>
      t[p, q] == if p == i + 1 then m[p][q] else old(t[p, q])
  {
    var n := |c|;
    for j := 0 to n
      invariant forall p, q :: 0 <= p < t.Length0 && 0 <= q < t.Length1 ==>
        t[p, q] == if p == i + 1 && q < j then m[p][q] else old(t[p, q])
    {
      t[i + 1, j] := a[i][j];
    }
    t[i + 1, n + i] := 1.0;
    t[i + 1, t.Length1 - 1] := b[i];
  }

  /** The whole page: build the tableau, run the simplex loop on it, and on a returned
      tableau extract the N values and the revenue of line 127. */
  method SolveProblem(c: seq<real>, a: seq<seq<real>>, b: seq<real>) returns (report: Report)
    requires WellShaped(c, a, b)
    ensures report == ReportFor(c, InitialTableau(c, a, b))
  {
    var t := BuildTableau(c, a, b);
    ghost var m := Snapshot(t);
    var outcome := Simplex(t);
    ghost var f := Solve(m);
    RunPreservesFeasibility(m, 0, f);
    match outcome
    case Done(hitLimit) =>
      var x := Extract(t, |c|);
      assert x == Values(f.tableau, |c|);
      report := Solution(x, Revenue(c, x), hitLimit);
    case _ =>
      report := NoSolution;
  }
}
