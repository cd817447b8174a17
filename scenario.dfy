/** A worked problem run through the model end to end: maximise 3x + 5y subject to
    x <= 4, 2y <= 12 and 3x + 2y <= 18. The engine pivots twice (y enters on the second
    constraint, then x on the third) and the page reports x = 2, y = 6, revenue 36. */
module Scenarios {
  import opened Tableau
  import opened Engine
  import opened Extraction
  import opened App

  function Profits(): seq<real> { [3.0, 5.0] }
  function Coefficients(): seq<seq<real>> { [[1.0, 0.0], [0.0, 2.0], [3.0, 2.0]] }
  function Limits(): seq<real> { [4.0, 12.0, 18.0] }

  /** Columns x, y, three slacks and the right-hand side. */
  function Start(): Matrix {
    [[-3.0, -5.0, 0.0, 0.0, 0.0, 0.0],
     [1.0, 0.0, 1.0, 0.0, 0.0, 4.0],
     [0.0, 2.0, 0.0, 1.0, 0.0, 12.0],
     [3.0, 2.0, 0.0, 0.0, 1.0, 18.0]]
  }

  /** After pivoting on row 2, column y. */
  function AfterFirstPivot(): Matrix {
    [[-3.0, 0.0, 0.0, 2.5, 0.0, 30.0],
     [1.0, 0.0, 1.0, 0.0, 0.0, 4.0],
     [0.0, 1.0, 0.0, 0.5, 0.0, 6.0],
     [3.0, 0.0, 0.0, -1.0, 1.0, 6.0]]
  }

  /** After pivoting on row 3, column x: row 0 is non-negative. */
  function AfterSecondPivot(): Matrix {
    [[0.0, 0.0, 0.0, 1.5, 1.0, 36.0],
     [0.0, 0.0, 1.0, 1.0 / 3.0, -1.0 / 3.0, 2.0],
     [0.0, 1.0, 0.0, 0.5, 0.0, 6.0],
     [1.0, 0.0, 0.0, -1.0 / 3.0, 1.0 / 3.0, 2.0]]
  }

  /** The layout of lines 67-81 gives the starting tableau. */
  lemma ExampleLayout()
    ensures InitialTableau(Profits(), Coefficients(), Limits()) == Start()
  {
    var m := InitialTableau(Profits(), Coefficients(), Limits());
    Extensionality(m, Start());
  }

  /** Iteration 1: y has the most negative coefficient; the ratios are inf, 6 and 9, so
      row 2 leaves. */
  lemma FirstIteration(m: Matrix, next: Matrix)
    requires m == Start() && next == AfterFirstPivot()
    ensures Rectangular(m) && Iteration(m, 1) == Continue(next)
  {
    assert m[0][1] < 0.0;
    assert EnteringCol(m) == 1;
    assert m[2][1] > 0.0;
    assert FirstMinRatioRow(m, 1, 3) == 2;
    assert LeavingRow(m, 1) == Some(2);
    FirstPivot(m, next);
  }

  /** Row 2 divided by 2, and 5 times it added to row 0 and 2 times it taken from row 3. */
  lemma FirstPivot(m: Matrix, next: Matrix)
    requires m == Start() && next == AfterFirstPivot()
    ensures Rectangular(m) && m[2][1] != 0.0 && Pivot(m, 2, 1) == next
  {
    PivotEntries(m, 2, 1);
    Extensionality(Pivot(m, 2, 1), next);
  }

  /** Iteration 2: x enters; the ratios are 4, inf and 2, so row 3 leaves. */
  lemma SecondIteration(m: Matrix, next: Matrix)
    requires m == AfterFirstPivot() && next == AfterSecondPivot()
    ensures Rectangular(m) && Iteration(m, 2) == Continue(next)
  {
    assert m[0][0] < 0.0;
    assert EnteringCol(m) == 0;
    assert m[3][0] > 0.0;
    assert FirstMinRatioRow(m, 0, 3) == 3;
    assert LeavingRow(m, 0) == Some(3);
    SecondPivot(m, next);
  }

  /** Row 3 divided by 3, and 3 times it added to row 0 and once taken from row 1. */
  lemma SecondPivot(m: Matrix, next: Matrix)
    requires m == AfterFirstPivot() && next == AfterSecondPivot()
    ensures Rectangular(m) && m[3][0] != 0.0 && Pivot(m, 3, 0) == next
  {
    PivotEntries(m, 3, 0);
    Extensionality(Pivot(m, 3, 0), next);
  }

  /** Iteration 3 finds row 0 non-negative and stops, unflagged. */
  lemma ThirdIteration(m: Matrix)
    requires m == AfterSecondPivot()
    ensures Rectangular(m) && Iteration(m, 3) == Stop(Done(false))
  {
    assert Optimal(m);
  }

  /** A run that pivots from m0 to m1, then from m1 to m2, and then finds m2 optimal. */
  lemma TwoPivotRun(m0: Matrix, m1: Matrix, m2: Matrix)
    requires Rectangular(m0)
    requires Iteration(m0, 1) == Continue(m1)
    requires Iteration(m1, 2) == Continue(m2)
    requires Iteration(m2, 3) == Stop(Done(false))
    ensures Solve(m0) == Final(Done(false), m2, 2)
  {
    RunContinues(m0, 0, m1);
    RunContinues(m1, 1, m2);
    RunStops(m2, 2);
  }

  /** The run ends optimal after two pivots, well within the cap. */
  lemma ExampleRun(m: Matrix)
    requires m == Start()
    ensures Solve(m) == Final(Done(false), AfterSecondPivot(), 2)
  {
    var m1, m2 := AfterFirstPivot(), AfterSecondPivot();
    FirstIteration(m, m1);
    SecondIteration(m1, m2);
    ThirdIteration(m2);
    TwoPivotRun(m, m1, m2);
  }

  /** x's column is the unit column of row 3 and y's of row 2. */
  lemma ExampleValues()
    ensures Values(AfterSecondPivot(), 2) == [2.0, 6.0]
  {
    var m := AfterSecondPivot();
    assert IsUnitAt(m, 0, 3);
    assert IsUnitAt(m, 1, 2);
    ValueOfColumn(m, 0);
    ValueOfColumn(m, 1);
  }

  /** The page reports x = 2, y = 6 and revenue 36, without the limit warning. */
  lemma ExampleReport()
    ensures ReportFor(Profits(), InitialTableau(Profits(), Coefficients(), Limits())) == Solution([2.0, 6.0], 36.0, false)
  {
    ExampleLayout();
    ExampleRun(Start());
    ExampleValues();
  }
}
