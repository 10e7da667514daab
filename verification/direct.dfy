/** The direct solver: Gaussian elimination without pivoting, reducing A to
    upper-triangular form in place while applying the same row operations to
    b, followed by back-substitution. */
module Direct {
  import opened LinAlg

  // ---------------------------------------------------------------------------
  // Functional description of the elimination

  /** A row after subtracting f times the pivot row on the columns c >= i;
      the columns before i are not touched. Built column by column from the
      left; ReduceRowEntry gives each entry. */
  function ReduceRow(row: Vector, pivotRow: Vector, f: real, i: nat): (r: Vector)
    requires |pivotRow| == |row|
    ensures |r| == |row|
    decreases |row|
  {
    if |row| == 0 then []
    else
      var c := |row| - 1;
      ReduceRow(row[..c], pivotRow[..c], f, i) + [if c < i then row[c] else row[c] - f * pivotRow[c]]
  }

  /** The multiple of pivot row i that clears A[j][i]. */
  function Factor(s: System, i: nat, j: nat): real
    requires s.WellFormed() && i < s.Size() && j < s.Size() && s.A[i][i] != 0.0
  {
    s.A[j][i] / s.A[i][i]
  }

  /** Row j after step i: kept up to the pivot row, reduced below it. */
  function RowAfter(s: System, i: nat, j: nat): Vector
    requires s.WellFormed() && i < s.Size() && j < s.Size() && s.A[i][i] != 0.0
  {
    if j <= i then s.A[j] else ReduceRow(s.A[j], s.A[i], Factor(s, i, j), i)
  }

  /** b[j] after step i. */
  function RhsAfter(s: System, i: nat, j: nat): real
    requires s.WellFormed() && i < s.Size() && j < s.Size() && s.A[i][i] != 0.0
  {
    if j <= i then s.b[j] else s.b[j] - Factor(s, i, j) * s.b[i]
  }

  /** Rows 0 .. m-1 of elimination step i, built row by row; StepRowsEntry
      says what each row is. */
  function StepRows(s: System, i: nat, m: nat): (r: System)
    requires s.WellFormed() && i < s.Size() && s.A[i][i] != 0.0 && m <= s.Size()
    ensures |r.A| == m && |r.b| == m
    ensures forall j :: 0 <= j < m ==> |r.A[j]| == s.Size()
  {
    if m == 0 then System([], [])
    else
      var p := StepRows(s, i, m - 1);
      System(p.A + [RowAfter(s, i, m - 1)], p.b + [RhsAfter(s, i, m - 1)])
  }

  /** Elimination step i: rows up to the pivot row i are kept, and every row j
      below it loses (A[j][i] / A[i][i]) times row i, on A from column i
      onwards and on b. StepRow reads off a row; StepFrame says what the step
      leaves alone. */
  function EliminationStep(s: System, i: nat): (r: System)
    requires s.WellFormed() && i < s.Size() && s.A[i][i] != 0.0
    ensures r.WellFormed() && r.Size() == s.Size()
  {
    StepRows(s, i, s.Size())
  }

  /** The system after elimination steps 0 .. m-1. A step whose pivot is zero
      is skipped, which keeps the definition total; the solver stops there
      instead, so it never relies on the skipped case. */
  function Reduced(s: System, m: nat): (r: System)
    requires s.WellFormed() && m <= s.Size()
    ensures r.WellFormed() && r.Size() == s.Size()
  {
    if m == 0 then s
    else
      var p := Reduced(s, m - 1);
      if p.A[m - 1][m - 1] == 0.0 then p else EliminationStep(p, m - 1)
  }

  /** The diagonal entry step i divides by, as it stands when step i begins. */
  function Pivot(s: System, i: nat): real
    requires s.WellFormed() && i < s.Size()
  {
    Reduced(s, i).A[i][i]
  }

  /** Steps 0 .. m-1 all find a non-zero pivot. */
  predicate PivotsNonZero(s: System, m: nat)
    requires s.WellFormed() && m <= s.Size()
  {
    forall i :: 0 <= i < m ==> Pivot(s, i) != 0.0
  }

  /** Every entry below the diagonal in the first m columns is zero. */
  predicate ZeroBelow(A: Matrix, m: nat) {
    forall r, c :: 0 <= c < m && c < r < |A| && c < |A[r]| ==> A[r][c] == 0.0
  }

  predicate UpperTriangular(A: Matrix) {
    ZeroBelow(A, |A|)
  }

  // ---------------------------------------------------------------------------
  // What the elimination preserves

  /** A reduced row's dot product with x, when the pivot row vanishes before column i. */
  lemma {:induction false} ReducedRowDot(row: Vector, pivotRow: Vector, f: real, i: nat, x: Vector)
    requires |pivotRow| == |row| == |x|
    requires forall k :: 0 <= k < i && k < |row| ==> pivotRow[k] == 0.0
    ensures Dot(ReduceRow(row, pivotRow, f, i), x, 0, |row|) ==
      Dot(row, x, 0, |row|) - f * Dot(pivotRow, x, 0, |row|)
  {
    var r := ReduceRow(row, pivotRow, f, i);
    forall k | 0 <= k < |row|
      ensures r[k] == row[k] - f * pivotRow[k]
    {
      ReduceRowEntry(row, pivotRow, f, i, k);
      if k < i {
        ScaleZero(f, pivotRow[k]);
      }
    }
    DotLinear(r, row, pivotRow, f, x, 0, |row|);
  }

  lemma ScaleZero(f: real, z: real)
    requires z == 0.0
    ensures f * z == 0.0
  {
  }

  /** Entry c of a reduced row. */
  lemma {:induction false} ReduceRowEntry(row: Vector, pivotRow: Vector, f: real, i: nat, c: nat)
    requires |pivotRow| == |row| && c < |row|
    ensures ReduceRow(row, pivotRow, f, i)[c] == (if c < i then row[c] else row[c] - f * pivotRow[c])
    decreases |row|
  {
    var last := |row| - 1;
    if c < last {
      ReduceRowEntry(row[..last], pivotRow[..last], f, i, c);
    }
  }

  /** Row j of the first m rows of step i. */
  lemma {:induction false} StepRowsEntry(s: System, i: nat, m: nat, j: nat)
    requires s.WellFormed() && i < s.Size() && s.A[i][i] != 0.0 && j < m <= s.Size()
    ensures StepRows(s, i, m).A[j] ==
      if j <= i then s.A[j] else ReduceRow(s.A[j], s.A[i], Factor(s, i, j), i)
    ensures StepRows(s, i, m).b[j] ==
      if j <= i then s.b[j] else s.b[j] - Factor(s, i, j) * s.b[i]
  {
    if j < m - 1 {
      StepRowsEntry(s, i, m - 1, j);
    }
  }

  /** Up to the pivot row, step i copies the system. */
  lemma {:induction false} StepRowsPrefix(s: System, i: nat, m: nat)
    requires s.WellFormed() && i < s.Size() && s.A[i][i] != 0.0 && m <= i + 1
    ensures StepRows(s, i, m) == System(s.A[..m], s.b[..m])
  {
    if m > 0 {
      StepRowsPrefix(s, i, m - 1);
      assert s.A[..m] == s.A[..m - 1] + [s.A[m - 1]];
      assert s.b[..m] == s.b[..m - 1] + [s.b[m - 1]];
    }
  }

  /** Row j and b[j] after step i. */
  lemma {:induction false} StepRow(s: System, i: nat, j: nat)
    requires s.WellFormed() && i < s.Size() && j < s.Size() && s.A[i][i] != 0.0
    ensures EliminationStep(s, i).A[j] ==
      if j <= i then s.A[j] else ReduceRow(s.A[j], s.A[i], Factor(s, i, j), i)
    ensures EliminationStep(s, i).b[j] ==
      if j <= i then s.b[j] else s.b[j] - Factor(s, i, j) * s.b[i]
  {
    StepRowsEntry(s, i, s.Size(), j);
  }

  /** Step i keeps rows 0 .. i, b[0 .. i] and the columns before i, and clears
      column i below the pivot. */
  lemma {:induction false} StepFrame(s: System, i: nat)
    requires s.WellFormed() && i < s.Size() && s.A[i][i] != 0.0
    ensures var r := EliminationStep(s, i);
      && (forall j :: 0 <= j <= i ==> r.A[j] == s.A[j] && r.b[j] == s.b[j])
      && (forall j, k :: 0 <= j < s.Size() && 0 <= k < i ==> r.A[j][k] == s.A[j][k])
      && (forall j :: i < j < s.Size() ==> r.A[j][i] == 0.0)
  {
    var r := EliminationStep(s, i);
    var n := s.Size();
    forall j | 0 <= j < n
      ensures j <= i ==> r.A[j] == s.A[j] && r.b[j] == s.b[j]
      ensures forall k :: 0 <= k < i ==> r.A[j][k] == s.A[j][k]
      ensures i < j ==> r.A[j][i] == 0.0
    {
      StepRow(s, i, j);
      if i < j {
        forall k | 0 <= k <= i
          ensures r.A[j][k] == if k < i then s.A[j][k] else s.A[j][k] - Factor(s, i, j) * s.A[i][k]
        {
          ReduceRowEntry(s.A[j], s.A[i], Factor(s, i, j), i, k);
        }
        DivCancel(s.A[i][i], s.A[j][i]);
      }
    }
  }

  /** Once the columns before i are cleared below the diagonal, step i is a
      row operation: it keeps exactly the same solutions. */
  lemma {:induction false} StepPreservesSolutions(s: System, i: nat, x: Vector)
    requires s.WellFormed() && i < s.Size() && s.A[i][i] != 0.0
    requires ZeroBelow(s.A, i)
    requires |x| == s.Size()
    ensures Satisfies(s, x) <==> Satisfies(EliminationStep(s, i), x)
  {
    var t := EliminationStep(s, i);
    var n := s.Size();
    StepRow(s, i, i);
    if Satisfies(s, x) || Satisfies(t, x) {
      assert Dot(s.A[i], x, 0, n) == s.b[i];
      assert forall k :: 0 <= k < i && k < n ==> s.A[i][k] == 0.0;
      forall r | 0 <= r < n
        ensures Dot(t.A[r], x, 0, n) == t.b[r] <==> Dot(s.A[r], x, 0, n) == s.b[r]
      {
        StepRow(s, i, r);
        if r > i {
          RowEquationKept(s.A[r], s.A[i], s.b[r], s.b[i], Factor(s, i, r), i, x);
        }
      }
    }
  }

  /** Row j minus f times a pivot row whose equation holds, with b[j] reduced
      alike: the new equation holds exactly when the old one did. */
  lemma {:induction false} RowEquationKept(row: Vector, pivotRow: Vector, bj: real, bi: real, f: real, i: nat, x: Vector)
    requires |pivotRow| == |row| == |x|
    requires forall k :: 0 <= k < i && k < |row| ==> pivotRow[k] == 0.0
    requires Dot(pivotRow, x, 0, |row|) == bi
    ensures Dot(ReduceRow(row, pivotRow, f, i), x, 0, |row|) == bj - f * bi <==> Dot(row, x, 0, |row|) == bj
  {
    var n := |row|;
    ReducedRowDot(row, pivotRow, f, i, x);
    RowOperationEquation(Dot(ReduceRow(row, pivotRow, f, i), x, 0, n), Dot(row, x, 0, n), Dot(pivotRow, x, 0, n),
      bj - f * bi, bj, bi, f);
  }

  /** Subtracting f times a satisfied equation p = bp from d = bd gives an
      equation that holds exactly when d = bd does. */
  lemma RowOperationEquation(dt: real, d: real, p: real, bt: real, bd: real, bp: real, f: real)
    requires dt == d - f * p && bt == bd - f * bp && p == bp
    ensures dt == bt <==> d == bd
  {
  }

  /** After m steps with non-zero pivots the first m columns are clear below the diagonal. */
  lemma {:induction false} ReducedZeroBelow(s: System, m: nat)
    requires s.WellFormed() && m <= s.Size()
    requires PivotsNonZero(s, m)
    ensures ZeroBelow(Reduced(s, m).A, m)
  {
    if m > 0 {
      ReducedZeroBelow(s, m - 1);
      assert Pivot(s, m - 1) != 0.0;
      StepFrame(Reduced(s, m - 1), m - 1);
    }
  }

  /** Steps 0 .. m-1 with non-zero pivots change the system but not its solutions. */
  lemma {:induction false} ReducedSameSolutions(s: System, m: nat, x: Vector)
    requires s.WellFormed() && m <= s.Size() && |x| == s.Size()
    requires PivotsNonZero(s, m)
    ensures Satisfies(s, x) <==> Satisfies(Reduced(s, m), x)
  {
    if m > 0 {
      ReducedSameSolutions(s, m - 1, x);
      ReducedZeroBelow(s, m - 1);
      assert Pivot(s, m - 1) != 0.0;
      StepPreservesSolutions(Reduced(s, m - 1), m - 1, x);
    }
  }

  /** Steps i .. m-1 write only rows below i and columns from i on: rows 0 .. i,
      the columns before i, and b[0 .. i] are what step i began with. */
  lemma {:induction false} ReducedFrame(s: System, i: nat, m: nat)
    requires s.WellFormed() && i <= m <= s.Size()
    ensures forall r, c :: 0 <= r < s.Size() && 0 <= c < s.Size() && (r <= i || c < i) ==>
      Reduced(s, m).A[r][c] == Reduced(s, i).A[r][c]
    ensures forall r :: 0 <= r <= i && r < s.Size() ==> Reduced(s, m).b[r] == Reduced(s, i).b[r]
    decreases m
  {
    if m > i {
      ReducedFrame(s, i, m - 1);
      var p := Reduced(s, m - 1);
      if p.A[m - 1][m - 1] != 0.0 {
        StepFrame(p, m - 1);
      }
    }
  }

  /** The pivot of step i is the i-th diagonal entry of the fully reduced matrix. */
  lemma {:induction false} PivotIsFinalDiagonal(s: System, i: nat)
    requires s.WellFormed() && i < s.Size()
    ensures Pivot(s, i) == Reduced(s, s.Size()).A[i][i]
  {
    ReducedFrame(s, i, s.Size());
  }

  // ---------------------------------------------------------------------------
  // Triangular systems

  /** Rows whose tail sums match b solve an upper-triangular system outright. */
  lemma {:induction false} TriangularSolves(U: Matrix, c: Vector, x: Vector)
    requires IsSquare(U, |c|) && UpperTriangular(U) && |x| == |c|
    requires forall i :: 0 <= i < |c| ==> Dot(U[i], x, i, |c|) == c[i]
    ensures Satisfies(System(U, c), x)
  {
    var n := |c|;
    forall i | 0 <= i < n
      ensures Dot(U[i], x, 0, n) == c[i]
    {
      DotSplit(U[i], x, 0, i, n);
      DotOfZeros(U[i], x, 0, i);
    }
  }

  /** An upper-triangular system with a non-zero diagonal has at most one solution. */
  lemma {:induction false} TriangularUnique(U: Matrix, c: Vector, x: Vector, y: Vector)
    requires IsSquare(U, |c|) && UpperTriangular(U) && NonZeroDiagonal(U)
    requires Satisfies(System(U, c), x) && Satisfies(System(U, c), y)
    ensures x == y
  {
    AgreeFrom(U, c, x, y, 0);
  }

  lemma {:induction false} AgreeFrom(U: Matrix, c: Vector, x: Vector, y: Vector, i: nat)
    requires IsSquare(U, |c|) && UpperTriangular(U) && NonZeroDiagonal(U)
    requires Satisfies(System(U, c), x) && Satisfies(System(U, c), y)
    requires i <= |c|
    ensures forall k :: i <= k < |c| ==> x[k] == y[k]
    decreases |c| - i
  {
    var n := |c|;
    if i < n {
      AgreeFrom(U, c, x, y, i + 1);
      DotFrame(U[i], x, U[i], y, i + 1, n);
      TailSum(U[i], x, i, n);
      TailSum(U[i], y, i, n);
      SolveForEntry(U[i][i], x[i], y[i], c[i] - Dot(U[i], x, i + 1, n));
    }
  }

  /** Row i of an upper-triangular matrix: a·x = U[i][i]·x[i] + the sum past i. */
  lemma {:induction false} TailSum(row: Vector, x: Vector, i: nat, n: nat)
    requires i < n == |row| && |x| == n
    requires forall c :: 0 <= c < i ==> row[c] == 0.0
    ensures Dot(row, x, 0, n) == row[i] * x[i] + Dot(row, x, i + 1, n)
  {
    DotSplit(row, x, 0, i, n);
    DotOfZeros(row, x, 0, i);
    DotSplit(row, x, i, i + 1, n);
  }

  // ---------------------------------------------------------------------------
  // The solver

  /** The innermost loop: row j loses factor times the pivot row on columns i .. n-1. */
  method SubtractScaledRow(row: Vector, pivotRow: Vector, factor: real, i: nat) returns (r: Vector)
    requires |pivotRow| == |row|
    ensures |r| == |row|
    ensures forall k :: 0 <= k < |row| ==> r[k] == (if k < i then row[k] else row[k] - factor * pivotRow[k])
    ensures r == ReduceRow(row, pivotRow, factor, i)
  {
    r := row;
    var k := i;
    while k < |row|
      invariant |r| == |row|
      invariant i <= k
      invariant forall col :: 0 <= col < |row| ==>
        r[col] == (if i <= col < k then row[col] - factor * pivotRow[col] else row[col])
    {
      r := r[k := r[k] - factor * pivotRow[k]];
      k := k + 1;
    }
    forall col | 0 <= col < |row|
      ensures r[col] == ReduceRow(row, pivotRow, factor, i)[col]
    {
      ReduceRowEntry(row, pivotRow, factor, i, col);
    }
  }

  /** One pass of the middle loop: every row j below pivot row i, and b[j],
      lose (A[j][i] / A[i][i]) times row i and b[i]. Rows are visited top to
      bottom and each is read before it is rewritten, so collecting the
      rewritten rows after the untouched ones gives the in-place result. */
  method EliminateBelow(A: Matrix, b: Vector, i: nat) returns (M: Matrix, c: Vector)
    requires IsSquare(A, |b|) && i < |b| && A[i][i] != 0.0
    ensures System(M, c) == EliminationStep(System(A, b), i)
  {
    ghost var s := System(A, b);
    var n := |b|;
    M, c := A[..i + 1], b[..i + 1];
    StepRowsPrefix(s, i, i + 1);
    var j := i + 1;
    while j < n
      invariant i < j <= n
      invariant System(M, c) == StepRows(s, i, j)
    {
      var row, rhs := ReduceBelowPivot(A, b, i, j);
      M := M + [row];
      c := c + [rhs];
      j := j + 1;
    }
  }

  /** The body of the middle loop for row j: the factor A[j][i] / A[i][i],
      then row j and b[j] less that multiple of row i and b[i]. */
  method ReduceBelowPivot(A: Matrix, b: Vector, i: nat, j: nat) returns (row: Vector, rhs: real)
    requires IsSquare(A, |b|) && i < j < |b| && A[i][i] != 0.0
    ensures row == RowAfter(System(A, b), i, j) && rhs == RhsAfter(System(A, b), i, j)
    ensures row[i] == 0.0
  {
    var factor := A[j][i] / A[i][i];
    row := SubtractScaledRow(A[j], A[i], factor, i);
    rhs := b[j] - factor * b[i];
    DivCancel(A[i][i], A[j][i]);
  }

  /** The elimination loops: for each pivot row i in turn, clear column i
      below the diagonal. The model reports the first zero pivot instead of
      dividing by it. The last step has no row below its pivot, so there a
      zero is first divided by in back-substitution; it is reported all the
      same. */
  method Eliminate(A: Matrix, b: Vector) returns (r: Outcome<System>)
    requires IsSquare(A, |b|)
    ensures r.ZeroPivot? ==>
      r.row < |b| && PivotsNonZero(System(A, b), r.row) && Pivot(System(A, b), r.row) == 0.0
    ensures r.Solved? <==> PivotsNonZero(System(A, b), |b|)
    ensures r.Solved? ==> r.value.WellFormed() && r.value.Size() == |b|
    ensures r.Solved? ==> UpperTriangular(r.value.A) && NonZeroDiagonal(r.value.A)
    ensures r.Solved? ==> forall x :: Satisfies(r.value, x) <==> Satisfies(System(A, b), x)
    ensures r.Solved? ==> r.value == Reduced(System(A, b), |b|)
  {
    ghost var s := System(A, b);
    var n := |b|;
    var M, c := A, b;
    var i := 0;
    while i < n
      invariant i <= n
      invariant PivotsNonZero(s, i)
      invariant System(M, c) == Reduced(s, i)
    {
      if M[i][i] == 0.0 {
        return ZeroPivot(i);
      }
      assert Pivot(s, i) == M[i][i];
      M, c := EliminateBelow(M, c, i);
      assert System(M, c) == Reduced(s, i + 1);
      i := i + 1;
    }
    ReducedZeroBelow(s, n);
    forall q | 0 <= q < n
      ensures M[q][q] != 0.0
    {
      PivotIsFinalDiagonal(s, q);
    }
    forall x
      ensures Satisfies(System(M, c), x) <==> Satisfies(s, x)
    {
      if |x| == n {
        ReducedSameSolutions(s, n, x);
      }
    }
    return Solved(System(M, c));
  }

  /** The back-substitution loop: from the last row up, x[i] is b[i] minus the
      already-solved tail of row i, divided by the diagonal entry. */
  method BackSubstitute(U: Matrix, c: Vector) returns (x: Vector)
    requires IsSquare(U, |c|) && NonZeroDiagonal(U)
    ensures |x| == |c|
    ensures forall i :: 0 <= i < |c| ==> Dot(U[i], x, i, |c|) == c[i]
  {
    var n := |c|;
    x := Zeros(n);
    var i := n;
    while i > 0
      invariant 0 <= i <= n && |x| == n
      invariant forall q :: i <= q < n ==> Dot(U[q], x, q, n) == c[q]
    {
      i := i - 1;
      var d := DotProduct(U[i], x, i + 1, n);
      var x' := x[i := (c[i] - d) / U[i][i]];
      forall q | i < q < n
        ensures Dot(U[q], x', q, n) == Dot(U[q], x, q, n)
      {
        DotFrame(U[q], x', U[q], x, q, n);
      }
      DotSplit(U[i], x', i, i + 1, n);
      DotFrame(U[i], x', U[i], x, i + 1, n);
      DivCancel(U[i][i], c[i] - d);
      x := x';
    }
  }

  /** gaussElimination: eliminate, then back-substitute. When every pivot is
      non-zero the result solves the original system, and it is the only
      solution; otherwise the first zero pivot is reported. */
  method GaussElimination(A: Matrix, b: Vector) returns (r: Outcome<Vector>)
    requires IsSquare(A, |b|)
    ensures r.ZeroPivot? ==>
      r.row < |b| && PivotsNonZero(System(A, b), r.row) && Pivot(System(A, b), r.row) == 0.0
    ensures r.Solved? <==> PivotsNonZero(System(A, b), |b|)
    ensures r.Solved? ==> |r.value| == |b| && Satisfies(System(A, b), r.value)
    ensures r.Solved? ==> forall y :: Satisfies(System(A, b), y) ==> y == r.value
  {
    var e := Eliminate(A, b);
    if e.ZeroPivot? {
      return ZeroPivot(e.row);
    }
    var U := e.value;
    var x := BackSubstitute(U.A, U.b);
    TriangularSolves(U.A, U.b, x);
    forall y | Satisfies(System(A, b), y)
      ensures y == x
    {
      TriangularUnique(U.A, U.b, x, y);
    }
    return Solved(x);
  }
}
