/** Reading the solution off the final tableau (streamlit_app.py:90-127), generalised from
    two variables and two constraints to the first `numVars` columns and every constraint
    row. A variable is basic when its column is, within the tolerance 1e-10, a unit vector
    over the constraint rows; its value is then that row's right-hand side, and 0
    otherwise. streamlit_app.py decides this in two passes, modelled here as written. */
module Extraction {
  import opened Tableau

  /** The tolerance 1e-10 of lines 99, 102, 115 and 116. */
  const Tolerance: real := 0.0000000001

  function Abs(x: real): (r: real)
    ensures r >= 0.0 && (r == x || r == -x)
  {
    if x < 0.0 then -x else x
  }

  /** `abs(x - 1.0) < 1e-10` (lines 99 and 115). */
  predicate NearOne(x: real) {
    Abs(x - 1.0) < Tolerance
  }

  /** `abs(x) < 1e-10` (line 116). */
  predicate NearZero(x: real) {
    Abs(x) < Tolerance
  }

  /** `abs(x) > 1e-10` (line 102). */
  predicate AboveTolerance(x: real) {
    Abs(x) > Tolerance
  }

  /** Column j is a unit vector over the constraint rows with its 1 in row i: the test of
      the second pass (lines 114-118). Row 0 plays no part. */
  predicate IsUnitAt(m: Matrix, j: nat, i: nat)
    requires Rectangular(m) && j < Cols(m)
  {
    1 <= i < |m| && NearOne(m[i][j]) &&
    forall k :: 1 <= k < |m| && k != i ==> NearZero(m[k][j])
  }

  /** The first pass (lines 96-107) ends with `one_count == 1` and `one_row == i`: row i is
      the only constraint row near 1, and no other constraint row is above the tolerance. */
  predicate CountPassRow(m: Matrix, j: nat, i: nat)
    requires Rectangular(m) && j < Cols(m)
  {
    1 <= i < |m| && NearOne(m[i][j]) &&
    forall k :: 1 <= k < |m| && k != i ==> !NearOne(m[k][j]) && !AboveTolerance(m[k][j])
  }

  /** The value the first pass leaves for column j (lines 109-110, starting from 0). */
  ghost function CountPassValue(m: Matrix, j: nat): (v: real)
    requires Rectangular(m) && j < Cols(m)
    ensures v != 0.0 ==> exists i :: CountPassRow(m, j, i) && v == Rhs(m, i)
  {
    if exists i :: CountPassRow(m, j, i) then
      var i :| CountPassRow(m, j, i); Rhs(m, i)
    else 0.0
  }

  /** The value of variable j: the right-hand side of the row its unit column points at,
      or 0 when the column is not a unit column. */
  ghost function VariableValue(m: Matrix, j: nat): (v: real)
    requires Rectangular(m) && j < Cols(m)
    ensures v != 0.0 ==> exists i :: IsUnitAt(m, j, i) && v == Rhs(m, i)
  {
    if exists i :: IsUnitAt(m, j, i) then
      var i :| IsUnitAt(m, j, i); Rhs(m, i)
    else 0.0
  }

  /** The variable values from `Revenue`'s point of view: the first n columns. */
  ghost function Values(m: Matrix, n: nat): (x: seq<real>)
    requires Rectangular(m) && n <= Cols(m)
    ensures |x| == n && forall j :: 0 <= j < n ==> x[j] == VariableValue(m, j)
  {
    if n == 0 then [] else Values(m, n - 1) + [VariableValue(m, n - 1)]
  }

  /** Revenue = sum of profit coefficient times value, generalising line 127, whose
      two-variable expression it is when there are two variables. */
  function Revenue(c: seq<real>, x: seq<real>): (r: real)
    requires |c| == |x|
    ensures |c| == 2 ==> r == c[0] * x[0] + c[1] * x[1]
  {
    if |c| == 0 then 0.0
    else
      assert |c| == 2 ==> c[..1][..0] == [] && x[..1][..0] == [];
      assert |c| == 2 ==> Revenue(c[..1], x[..1]) == c[0] * x[0];
      Revenue(c[..|c| - 1], x[..|x| - 1]) + c[|c| - 1] * x[|x| - 1]
  }

  // ---------------------------------------------------------------------------
  // Properties of the unit-column test

  /** No entry is both near 1 and near 0. */
  lemma NotNearOneAndZero(x: real)
    ensures !(NearOne(x) && NearZero(x))
    ensures NearOne(x) ==> AboveTolerance(x)
  {
  }

  /** A column is a unit column for at most one row. */
  lemma UnitRowUnique(m: Matrix, j: nat, i1: nat, i2: nat)
    requires Rectangular(m) && j < Cols(m)
    requires IsUnitAt(m, j, i1) && IsUnitAt(m, j, i2)
    ensures i1 == i2
  {
    NotNearOneAndZero(m[i2][j]);
  }

  /** The first pass picks at most one row. */
  lemma CountPassRowUnique(m: Matrix, j: nat, i1: nat, i2: nat)
    requires Rectangular(m) && j < Cols(m)
    requires CountPassRow(m, j, i1) && CountPassRow(m, j, i2)
    ensures i1 == i2
  {
  }

  /** The value of a unit column is the right-hand side of its row; a column that is a
      unit column for no row has value 0. */
  lemma ValueOfColumn(m: Matrix, j: nat)
    requires Rectangular(m) && j < Cols(m)
    ensures forall i :: IsUnitAt(m, j, i) ==> VariableValue(m, j) == Rhs(m, i)
    ensures (forall i :: !IsUnitAt(m, j, i)) ==> VariableValue(m, j) == 0.0
  {
    forall i | IsUnitAt(m, j, i)
      ensures VariableValue(m, j) == Rhs(m, i)
    {
      var u :| IsUnitAt(m, j, u) && VariableValue(m, j) == Rhs(m, u);
      UnitRowUnique(m, j, i, u);
    }
  }

  /** The first pass stores the right-hand side of the row it settles on, and 0 when it
      settles on none. */
  lemma CountPassValueOfColumn(m: Matrix, j: nat)
    requires Rectangular(m) && j < Cols(m)
    ensures forall i :: CountPassRow(m, j, i) ==> CountPassValue(m, j) == Rhs(m, i)
    ensures (forall i :: !CountPassRow(m, j, i)) ==> CountPassValue(m, j) == 0.0
  {
    forall i | CountPassRow(m, j, i)
      ensures CountPassValue(m, j) == Rhs(m, i)
    {
      var u :| CountPassRow(m, j, u) && CountPassValue(m, j) == Rhs(m, u);
      CountPassRowUnique(m, j, i, u);
    }
  }

  /** Whenever the second pass accepts a column, the first pass has already stored that
      row's right-hand side: the two passes together give VariableValue. */
  lemma TwoPassesGiveValue(m: Matrix, j: nat)
    requires Rectangular(m) && j < Cols(m)
    ensures forall i :: IsUnitAt(m, j, i) ==> CountPassRow(m, j, i) && CountPassValue(m, j) == VariableValue(m, j)
  {
    ValueOfColumn(m, j);
    CountPassValueOfColumn(m, j);
    forall i | IsUnitAt(m, j, i)
      ensures CountPassRow(m, j, i)
    {
      forall k | 1 <= k < |m| && k != i
        ensures !NearOne(m[k][j]) && !AboveTolerance(m[k][j])
      {
        NotNearOneAndZero(m[k][j]);
      }
    }
  }

  /** The second pass's decision for column j: keep the first pass's value when the column
      is a unit column, reset it to 0 otherwise; either way the result is VariableValue. */
  lemma SecondPassValue(m: Matrix, j: nat, isUnit: bool)
    requires Rectangular(m) && j < Cols(m)
    requires isUnit <==> exists i :: IsUnitAt(m, j, i)
    ensures (if isUnit then CountPassValue(m, j) else 0.0) == VariableValue(m, j)
  {
    TwoPassesGiveValue(m, j);
    ValueOfColumn(m, j);
  }

  /** The second pass overrides the first only when some other constraint entry sits
      exactly at the tolerance, where `> 1e-10` and `< 1e-10` both fail. */
  lemma PassesDisagreeOnlyAtTolerance(m: Matrix, j: nat, i: nat)
    requires Rectangular(m) && j < Cols(m)
    requires CountPassRow(m, j, i) && !IsUnitAt(m, j, i)
    ensures exists k :: 1 <= k < |m| && k != i && Abs(m[k][j]) == Tolerance
  {
    var k :| 1 <= k < |m| && k != i && !NearZero(m[k][j]);
    assert !AboveTolerance(m[k][j]);
  }

  /** Extraction never reads row 0: tableaux that agree on the constraint rows give every
      variable the same value. */
  lemma ValueIgnoresObjectiveRow(m: Matrix, m': Matrix, j: nat)
    requires Rectangular(m) && Rectangular(m') && |m| == |m'| && Cols(m) == Cols(m') && j < Cols(m)
    requires forall i :: 1 <= i < |m| ==> m[i] == m'[i]
    ensures VariableValue(m, j) == VariableValue(m', j)
  {
    ValueOfColumn(m, j);
    ValueOfColumn(m', j);
    if exists i :: IsUnitAt(m, j, i) {
      var i :| IsUnitAt(m, j, i);
      assert IsUnitAt(m', j, i);
    } else {
      forall i
        ensures !IsUnitAt(m', j, i)
      {
        assert IsUnitAt(m', j, i) ==> IsUnitAt(m, j, i);
      }
    }
  }

  /** A column with entries that are not near 0 in two different constraint rows (a 1 in
      one row and anything non-zero in another, say) is a unit column for no row, so its
      variable is 0 rather than the right-hand side of the row holding the 1. */
  lemma DegenerateColumnIsZero(m: Matrix, j: nat, i: nat, k: nat)
    requires Rectangular(m) && j < Cols(m)
    requires 1 <= i < |m| && 1 <= k < |m| && i != k
    requires !NearZero(m[i][j]) && !NearZero(m[k][j])
    ensures forall u :: !IsUnitAt(m, j, u)
    ensures VariableValue(m, j) == 0.0
  {
    ValueOfColumn(m, j);
  }

  /** On a feasible tableau every variable value is non-negative. */
  lemma ValueNonNegative(m: Matrix, j: nat)
    requires Rectangular(m) && j < Cols(m) && Feasible(m)
    ensures VariableValue(m, j) >= 0.0
  {
  }

  /** In the initial layout slack column N+i is the unit column of row i+1, so the slack
      variable of constraint i starts at b[i]. */
  lemma InitialSlackValue(c: seq<real>, a: seq<seq<real>>, b: seq<real>, i: nat)
    requires |a| == |b| && forall r :: 0 <= r < |a| ==> |a[r]| == |c|
    requires i < |b|
    ensures VariableValue(InitialTableau(c, a, b), |c| + i) == b[i]
  {
    var m := InitialTableau(c, a, b);
    assert IsUnitAt(m, |c| + i, i + 1);
    ValueOfColumn(m, |c| + i);
  }

  // ---------------------------------------------------------------------------
  // Properties of the revenue

  /** All values 0 give revenue 0. */
  lemma {:induction false} RevenueOfZeroValues(c: seq<real>, x: seq<real>)
    requires |c| == |x| && forall j :: 0 <= j < |x| ==> x[j] == 0.0
    ensures Revenue(c, x) == 0.0
  {
    if |c| > 0 {
      RevenueOfZeroValues(c[..|c| - 1], x[..|x| - 1]);
    }
  }

  /** Non-negative profits and values give a non-negative revenue. */
  lemma {:induction false} RevenueNonNegative(c: seq<real>, x: seq<real>)
    requires |c| == |x|
    requires forall j :: 0 <= j < |c| ==> c[j] >= 0.0 && x[j] >= 0.0
    ensures Revenue(c, x) >= 0.0
  {
    if |c| > 0 {
      RevenueNonNegative(c[..|c| - 1], x[..|x| - 1]);
    }
  }

  // ---------------------------------------------------------------------------
  // The two passes on the array

  /** `all(abs(t[k, j]) < 1e-10 for k in 1..M if k != i)` (lines 116-117), stopping at the
      first entry that fails. */
  method OthersNearZero(t: array2<real>, j: nat, i: nat) returns (b: bool)
    requires t.Length0 >= 1 && j < t.Length1
    ensures b <==> forall k :: 1 <= k < t.Length0 && k != i ==> NearZero(t[k, j])
  {
    var k := 1;
    while k < t.Length0
      invariant 1 <= k <= t.Length0
      invariant forall q :: 1 <= q < k && q != i ==> NearZero(t[q, j])
    {
      if k != i && !(Abs(t[k, j]) < Tolerance) {
        return false;
      }
      k := k + 1;
    }
    return true;
  }

  /** The first pass for one column (lines 96-107): count the constraint rows near 1,
      remembering the last, and give up with -1 at the first other entry above the
      tolerance. */
  method CountOnes(t: array2<real>, j: nat) returns (oneCount: int, oneRow: int)
    requires t.Length0 >= 1 && j < t.Length1
    ensures oneCount == 1 <==> exists i :: CountPassRow(Snapshot(t), j, i)
    ensures oneCount == 1 ==> oneRow >= 1 && CountPassRow(Snapshot(t), j, oneRow)
  {
    ghost var m := Snapshot(t);
    ghost var otherRow := -1;
    oneCount, oneRow := 0, -1;
    var i := 1;
    while i < t.Length0
      invariant 1 <= i <= t.Length0
      invariant 0 <= oneCount
      invariant forall k :: 1 <= k < i ==> NearOne(m[k][j]) || !AboveTolerance(m[k][j])
      invariant oneCount == 0 ==> forall k :: 1 <= k < i ==> !NearOne(m[k][j])
      invariant oneCount >= 1 ==> 1 <= oneRow < i && NearOne(m[oneRow][j])
      invariant oneCount == 1 ==> forall k :: 1 <= k < i && k != oneRow ==> !NearOne(m[k][j])
      invariant oneCount >= 2 ==> 1 <= otherRow < i && otherRow != oneRow && NearOne(m[otherRow][j])
    {
      if Abs(t[i, j] - 1.0) < Tolerance {
        otherRow := oneRow;
        oneCount := oneCount + 1;
        oneRow := i;
      } else if Abs(t[i, j]) > Tolerance {
        oneCount := -1;
        assert !NearOne(m[i][j]) && AboveTolerance(m[i][j]);
        assert forall r :: !CountPassRow(m, j, r);
        break;
      }
      i := i + 1;
    }
    if oneCount == 1 {
      assert CountPassRow(m, j, oneRow);
    } else if oneCount == 0 {
      assert forall r :: !CountPassRow(m, j, r);
    } else if oneCount >= 2 {
      assert otherRow != oneRow && NearOne(m[otherRow][j]) && NearOne(m[oneRow][j]);
      assert forall r :: !CountPassRow(m, j, r);
    }
  }

  /** The second pass's test for one column (lines 113-119): is some constraint row near 1
      with every other constraint row near 0? */
  method IsUnitColumn(t: array2<real>, j: nat) returns (isUnit: bool)
    requires t.Length0 >= 1 && j < t.Length1
    ensures isUnit <==> exists i :: IsUnitAt(Snapshot(t), j, i)
  {
    ghost var m := Snapshot(t);
    isUnit := false;
    var i := 1;
    while i < t.Length0
      invariant 1 <= i <= t.Length0
      invariant forall u :: 1 <= u < i ==> !IsUnitAt(m, j, u)
    {
      if Abs(t[i, j] - 1.0) < Tolerance {
        var othersZero := OthersNearZero(t, j, i);
        if othersZero {
          assert IsUnitAt(m, j, i);
          isUnit := true;
          break;
        }
      }
      i := i + 1;
    }
  }

  /** The first pass (lines 94-110) over the first `numVars` columns: each value starts
      at 0 and takes the right-hand side of the row `CountOnes` settles on. */
  method CountPass(t: array2<real>, numVars: nat) returns (vals: array<real>)
    requires t.Length0 >= 1 && numVars <= t.Length1
    ensures fresh(vals) && vals.Length == numVars
    ensures forall j :: 0 <= j < numVars ==> vals[j] == CountPassValue(Snapshot(t), j)
  {
    ghost var m := Snapshot(t);
    vals := new real[numVars](_ => 0.0);
    var j := 0;
    while j < numVars
      invariant 0 <= j <= numVars
      invariant forall q :: 0 <= q < j ==> vals[q] == CountPassValue(m, q)
      invariant forall q :: j <= q < numVars ==> vals[q] == 0.0
    {
      var oneCount, oneRow := CountOnes(t, j);
      CountPassValueOfColumn(m, j);
      if oneCount == 1 {
        vals[j] := t[oneRow, t.Length1 - 1];
        assert vals[j] == Rhs(m, oneRow);
      } else {
        assert m == Snapshot(t);
        assert !exists i :: CountPassRow(Snapshot(t), j, i);
        assert forall i :: !CountPassRow(m, j, i);
      }
      assert vals[j] == CountPassValue(m, j);
      j := j + 1;
    }
  }

  /** The second pass (lines 112-125): reset to 0 every value whose column is not a unit
      column. */
  method UnitPass(t: array2<real>, vals: array<real>)
    requires t.Length0 >= 1 && vals.Length <= t.Length1
    requires forall j :: 0 <= j < vals.Length ==> vals[j] == CountPassValue(Snapshot(t), j)
    modifies vals
    ensures forall j :: 0 <= j < vals.Length ==> vals[j] == VariableValue(Snapshot(t), j)
  {
    ghost var m := Snapshot(t);
    var j := 0;
    while j < vals.Length
      invariant 0 <= j <= vals.Length
      invariant forall q :: 0 <= q < j ==> vals[q] == VariableValue(m, q)
      invariant forall q :: j <= q < vals.Length ==> vals[q] == CountPassValue(m, q)
    {
      var isUnit := IsUnitColumn(t, j);
      assert Snapshot(t) == m;
      SecondPassValue(m, j, isUnit);
      if !isUnit {
        vals[j] := 0.0;
      }
      j := j + 1;
    }
  }

  /** The extraction block (lines 90-125) for the first `numVars` columns. The tableau is
      only read. */
  method Extract(t: array2<real>, numVars: nat) returns (values: seq<real>)
    requires t.Length0 >= 1 && numVars <= t.Length1
    ensures |values| == numVars
    ensures forall j :: 0 <= j < numVars ==> values[j] == VariableValue(Snapshot(t), j)
  {
    var vals := CountPass(t, numVars);
    UnitPass(t, vals);
    values := vals[..];
  }

  /** Extraction only reads the tableau, so running it twice gives the same values. */
  method ExtractTwice(t: array2<real>, numVars: nat) returns (first: seq<real>, second: seq<real>)
    requires t.Length0 >= 1 && numVars <= t.Length1
    ensures first == second
  {
    first := Extract(t, numVars);
    second := Extract(t, numVars);
  }
}
