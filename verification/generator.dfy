/** The NumPy input generator, as a pure function of its random draws: a
    matrix of draws whose diagonal is replaced by the row's absolute sum plus
    one more draw, and a right-hand side of draws. */
module Generator {
  import opened LinAlg

  function Abs(t: real): real {
    if t < 0.0 then -t else t
  }

  /** The sum of |row[c]| for c < end. */
  function AbsSum(row: Vector, end: nat): real
    requires end <= |row|
  {
    if end == 0 then 0.0 else AbsSum(row, end - 1) + Abs(row[end - 1])
  }

  /** The sum of |row[c]| for c < end and c != i: the off-diagonal weight of row i. */
  function AbsSumExcept(row: Vector, i: nat, end: nat): real
    requires end <= |row|
  {
    if end == 0 then 0.0
    else AbsSumExcept(row, i, end - 1) + (if end - 1 == i then 0.0 else Abs(row[end - 1]))
  }

  /** Every diagonal entry is at least the absolute sum of the rest of its row. */
  predicate DiagonallyDominant(A: Matrix)
    requires IsSquare(A, |A|)
  {
    forall i :: 0 <= i < |A| ==> A[i][i] >= AbsSumExcept(A[i], i, |A|)
  }

  /** generate_diagonally_dominant_system(n) with its draws passed in: `draws`
      is rand(n, n), `extra` the rand(n) added to the diagonal, `rhs` the
      rand(n) returned as b. The row sums are taken over the whole row,
      diagonal included, before the diagonal is overwritten. */
  function DiagonallyDominantSystem(draws: Matrix, extra: Vector, rhs: Vector): (s: System)
    requires IsSquare(draws, |extra|) && |rhs| == |extra|
    ensures s.WellFormed() && s.Size() == |extra| && s.b == rhs
    ensures forall i, j :: 0 <= i < |extra| && 0 <= j < |extra| && i != j ==> s.A[i][j] == draws[i][j]
    ensures forall i :: 0 <= i < |extra| ==> s.A[i][i] == AbsSum(draws[i], |extra|) + extra[i]
  {
    var n := |extra|;
    System(seq(n, i requires 0 <= i < n => draws[i][i := AbsSum(draws[i], n) + extra[i]]), rhs)
  }

  /** The full row's absolute sum is its off-diagonal sum plus |row[i]|. */
  lemma {:induction false} AbsSumSplit(row: Vector, i: nat, end: nat)
    requires end <= |row|
    ensures AbsSum(row, end) == AbsSumExcept(row, i, end) + (if i < end then Abs(row[i]) else 0.0)
  {
    if end > 0 {
      AbsSumSplit(row, i, end - 1);
    }
  }

  /** The off-diagonal sum of row i does not look at entry i. */
  lemma {:induction false} AbsSumExceptFrame(row: Vector, row': Vector, i: nat, end: nat)
    requires end <= |row| && end <= |row'|
    requires forall c :: 0 <= c < end && c != i ==> row[c] == row'[c]
    ensures AbsSumExcept(row, i, end) == AbsSumExcept(row', i, end)
  {
    if end > 0 {
      AbsSumExceptFrame(row, row', i, end - 1);
    }
  }

  lemma {:induction false} AbsSumExceptNonNegative(row: Vector, i: nat, end: nat)
    requires end <= |row|
    ensures AbsSumExcept(row, i, end) >= 0.0
  {
    if end > 0 {
      AbsSumExceptNonNegative(row, i, end - 1);
    }
  }

  /** With non-negative extra draws (rand gives values in [0, 1)) each
      diagonal entry is at least the absolute sum of its row's other entries;
      a positive extra draw makes the dominance strict. */
  lemma {:induction false} GeneratedIsDominant(draws: Matrix, extra: Vector, rhs: Vector)
    requires IsSquare(draws, |extra|) && |rhs| == |extra|
    requires forall i :: 0 <= i < |extra| ==> extra[i] >= 0.0
    ensures DiagonallyDominant(DiagonallyDominantSystem(draws, extra, rhs).A)
    ensures forall i :: 0 <= i < |extra| && extra[i] > 0.0 ==>
      DiagonallyDominantSystem(draws, extra, rhs).A[i][i] >
        AbsSumExcept(DiagonallyDominantSystem(draws, extra, rhs).A[i], i, |extra|)
  {
    var n := |extra|;
    var A := DiagonallyDominantSystem(draws, extra, rhs).A;
    forall i | 0 <= i < n
      ensures A[i][i] == AbsSumExcept(A[i], i, n) + Abs(draws[i][i]) + extra[i]
    {
      AbsSumSplit(draws[i], i, n);
      AbsSumExceptFrame(A[i], draws[i], i, n);
    }
  }

  /** Positive extra draws leave no zero on the diagonal, so neither solver
      reports a zero pivot at step 0 and the iterative one none at all. */
  lemma {:induction false} GeneratedNonZeroDiagonal(draws: Matrix, extra: Vector, rhs: Vector)
    requires IsSquare(draws, |extra|) && |rhs| == |extra|
    requires forall i :: 0 <= i < |extra| ==> extra[i] > 0.0
    ensures NonZeroDiagonal(DiagonallyDominantSystem(draws, extra, rhs).A)
  {
    var n := |extra|;
    forall i | 0 <= i < n
      ensures AbsSum(draws[i], n) >= 0.0
    {
      AbsSumSplit(draws[i], i, n);
      AbsSumExceptNonNegative(draws[i], i, n);
    }
  }
}
