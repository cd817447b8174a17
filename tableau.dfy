/** The simplex tableau shared by the engine and the extractor: an (M+1) x (N+1)
    matrix of reals whose row 0 is the negated objective and whose last column is
    the right-hand side, together with the first minimum (numpy's `argmin`) that the
    engine's column choice takes over row 0 and its row choice over the `ratios` array. */
module Tableau {

  datatype Option<T> = None | Some(value: T)

  /** A tableau as a sequence of rows. */
  type Matrix = seq<seq<real>>

  /** At least the objective row and the right-hand-side column, every row as long as row 0. */
  predicate Rectangular(m: Matrix) {
    |m| >= 1 && |m[0]| >= 1 && forall i :: 0 <= i < |m| ==> |m[i]| == |m[0]|
  }

  function Cols(m: Matrix): nat
    requires |m| >= 1
  {
    |m[0]|
  }

  /** The right-hand side of row i (the last column). */
  function Rhs(m: Matrix, i: nat): real
    requires Rectangular(m) && i < |m|
  {
    m[i][Cols(m) - 1]
  }

  /** Every constraint row (rows 1..M) has a non-negative right-hand side. */
  predicate Feasible(m: Matrix)
    requires Rectangular(m)
  {
    forall i :: 1 <= i < |m| ==> Rhs(m, i) >= 0.0
  }

  /** Two matrices of the same shape that agree entry by entry are equal. */
  lemma Extensionality(a: Matrix, b: Matrix)
    requires |a| == |b|
    requires forall i :: 0 <= i < |a| ==> |a[i]| == |b[i]|
    requires forall i, j :: 0 <= i < |a| && 0 <= j < |a[i]| ==> a[i][j] == b[i][j]
    ensures a == b
  {
    forall i | 0 <= i < |a|
      ensures a[i] == b[i]
    {
    }
  }

  /** The contents of a 2-D array as a matrix value. */
  ghost function Snapshot(t: array2<real>): (m: Matrix)
    reads t
    ensures |m| == t.Length0
    ensures forall i :: 0 <= i < t.Length0 ==> |m[i]| == t.Length1
    ensures forall i, j :: 0 <= i < t.Length0 && 0 <= j < t.Length1 ==> m[i][j] == t[i, j]
  {
    RowsUpTo(t, t.Length0)
  }

  /** Rows 0..n-1 of a 2-D array. */
  ghost function RowsUpTo(t: array2<real>, n: nat): (m: Matrix)
    reads t
    requires n <= t.Length0
    ensures |m| == n
    ensures forall i :: 0 <= i < n ==> |m[i]| == t.Length1
    ensures forall i, j :: 0 <= i < n && 0 <= j < t.Length1 ==> m[i][j] == t[i, j]
  {
    if n == 0 then [] else RowsUpTo(t, n - 1) + [RowPrefix(t, n - 1, t.Length1)]
  }

  /** Entries 0..n-1 of row i of a 2-D array. */
  ghost function RowPrefix(t: array2<real>, i: nat, n: nat): (r: seq<real>)
    reads t
    requires i < t.Length0 && n <= t.Length1
    ensures |r| == n
    ensures forall j :: 0 <= j < n ==> r[j] == t[i, j]
  {
    if n == 0 then [] else RowPrefix(t, i, n - 1) + [t[i, n - 1]]
  }

  /** A real number or numpy's `inf`, the value the ratio test gives a row it excludes. */
  datatype Extended = Finite(value: real) | Infinite

  /** Strict order on extended reals: every finite value is below `inf`. */
  predicate Less(a: Extended, b: Extended) {
    a.Finite? && (b.Infinite? || a.value < b.value)
  }

  /** k is the first minimum of s: no element is below s[k], and every element before
      it is strictly above. This is the index numpy's `argmin` returns. */
  predicate IsFirstMinimum(s: seq<Extended>, k: nat) {
    k < |s| &&
    (forall j :: 0 <= j < |s| ==> !Less(s[j], s[k])) &&
    (forall j :: 0 <= j < k ==> Less(s[k], s[j]))
  }

  /** A sequence has at most one first minimum. */
  lemma FirstMinimumUnique(s: seq<Extended>, k1: nat, k2: nat)
    requires IsFirstMinimum(s, k1) && IsFirstMinimum(s, k2)
    ensures k1 == k2
  {
    assert !Less(s[k2], s[k1]) && !Less(s[k1], s[k2]);
  }

  /** numpy's `argmin` over an array of extended reals: a left-to-right scan that moves
      only on a strictly smaller value. */
  method IndexOfMinimum(a: array<Extended>) returns (k: nat)
    requires a.Length > 0
    ensures IsFirstMinimum(a[..], k)
  {
    k := 0;
    var i := 1;
    while i < a.Length
      invariant 1 <= i <= a.Length && k < i
      invariant forall j :: 0 <= j < i ==> !Less(a[j], a[k])
      invariant forall j :: 0 <= j < k ==> Less(a[k], a[j])
    {
      if Less(a[i], a[k]) {
        k := i;
      }
      i := i + 1;
    }
  }

  /** The initial layout, generalised from two variables and two constraints to N and M:
      row 0 holds the negated profits, row i+1 holds constraint i's coefficients, a 1
      in slack column N+i and the right-hand side b[i]; every other entry is 0. */
  function InitialTableau(c: seq<real>, a: seq<seq<real>>, b: seq<real>): (m: Matrix)
    requires |a| == |b|
    requires forall i :: 0 <= i < |a| ==> |a[i]| == |c|
    ensures Rectangular(m) && |m| == |b| + 1 && Cols(m) == |c| + |b| + 1
    ensures forall j :: 0 <= j < |c| ==> m[0][j] == -c[j]
    ensures forall j :: |c| <= j < Cols(m) ==> m[0][j] == 0.0
    ensures forall i, j :: 0 <= i < |b| && 0 <= j < |c| ==> m[i + 1][j] == a[i][j]
    ensures forall i, j :: 1 <= i < |m| && |c| <= j < Cols(m) - 1 ==> m[i][j] == if j == |c| + i - 1 then 1.0 else 0.0
    ensures forall i :: 0 <= i < |b| ==> Rhs(m, i + 1) == b[i]
  {
    var n, cols := |c|, |c| + |b| + 1;
    [seq(cols, j requires 0 <= j < cols => if j < n then -c[j] else 0.0)] +
    seq(|b|, i requires 0 <= i < |b| =>
      seq(cols, j requires 0 <= j < cols =>
        if j < n then a[i][j]
        else if j == cols - 1 then b[i]
        else if j == n + i then 1.0
        else 0.0))
  }

  /** The initial tableau is feasible exactly when every right-hand side is non-negative. */
  lemma InitialTableauFeasible(c: seq<real>, a: seq<seq<real>>, b: seq<real>)
    requires |a| == |b|
    requires forall i :: 0 <= i < |a| ==> |a[i]| == |c|
    ensures Feasible(InitialTableau(c, a, b)) <==> forall i :: 0 <= i < |b| ==> b[i] >= 0.0
  {
    var m := InitialTableau(c, a, b);
    if forall i :: 0 <= i < |b| ==> b[i] >= 0.0 {
      forall i | 1 <= i < |m|
        ensures Rhs(m, i) >= 0.0
      {
        assert Rhs(m, (i - 1) + 1) == b[i - 1];
      }
    }
  }
}
