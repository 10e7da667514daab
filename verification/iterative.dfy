/** The iterative solver. Both versions of the program call it Gauss-Seidel,
    but every entry of a sweep is computed from the previous iterate only, on
    both sides of the diagonal: it is a Jacobi sweep, and this model follows
    the code. The iteration starts at the zero vector, runs at most maxIter
    sweeps, and returns early once successive iterates are closer than tol. */
module Iterative {
  import opened LinAlg

  /** The Java version's fixed iteration cap and tolerance; the NumPy version's defaults. */
  const MaxSweeps: int := 1000
  const Tolerance: real := 0.000001

  // ---------------------------------------------------------------------------
  // The stopping test, without square roots

  /** sqrt(sq) < tol, for a squared norm sq >= 0, stated without the square root. */
  predicate Below(sq: real, tol: real) {
    tol > 0.0 && sq < tol * tol
  }

  /** Comparing the norm with tol is the same as comparing its square with tol². */
  lemma BelowMatchesNorm(norm: real, tol: real)
    requires norm >= 0.0
    ensures norm < tol <==> Below(norm * norm, tol)
  {
    if norm < tol {
      SquareLess(norm, tol);
    } else if tol > 0.0 {
      SquareAtLeast(norm, tol);
    }
  }

  lemma SquareLess(a: real, b: real)
    requires 0.0 <= a < b
    ensures a * a < b * b
  {
    ProductPositive(b - a, b + a);
    assert (b - a) * (b + a) == b * b - a * a;
  }

  lemma ProductPositive(u: real, v: real)
    requires 0.0 < u && 0.0 < v
    ensures 0.0 < u * v
  {
  }

  lemma SquareAtLeast(a: real, b: real)
    requires 0.0 <= b <= a
    ensures b * b <= a * a
  {
  }

  // ---------------------------------------------------------------------------
  // One sweep and the sequence of iterates

  /** New entry i: b[i] minus row i's products with the previous iterate on
      both sides of the diagonal, divided by the diagonal entry. */
  function SweepEntry(A: Matrix, b: Vector, x: Vector, i: nat): real
    requires IsSquare(A, |b|) && |x| == |b| && i < |b| && A[i][i] != 0.0
  {
    (b[i] - Dot(A[i], x, 0, i) - Dot(A[i], x, i + 1, |b|)) / A[i][i]
  }

  /** Entries 0 .. m-1 of a sweep, built from the left. */
  function SweepUpTo(A: Matrix, b: Vector, x: Vector, m: nat): (r: Vector)
    requires IsSquare(A, |b|) && |x| == |b| && NonZeroDiagonal(A) && m <= |b|
    ensures |r| == m
  {
    if m == 0 then [] else SweepUpTo(A, b, x, m - 1) + [SweepEntry(A, b, x, m - 1)]
  }

  /** One sweep: the next iterate, every entry computed from x alone;
      SweepAt gives each entry. */
  function Sweep(A: Matrix, b: Vector, x: Vector): (r: Vector)
    requires IsSquare(A, |b|) && |x| == |b| && NonZeroDiagonal(A)
    ensures |r| == |b|
  {
    SweepUpTo(A, b, x, |b|)
  }

  /** Entry i of the first m entries of a sweep. */
  lemma {:induction false} SweepUpToEntry(A: Matrix, b: Vector, x: Vector, m: nat, i: nat)
    requires IsSquare(A, |b|) && |x| == |b| && NonZeroDiagonal(A) && i < m <= |b|
    ensures SweepUpTo(A, b, x, m)[i] == SweepEntry(A, b, x, i)
  {
    if i < m - 1 {
      SweepUpToEntry(A, b, x, m - 1, i);
    }
  }

  /** Entry i of a sweep. */
  lemma {:induction false} SweepAt(A: Matrix, b: Vector, x: Vector, i: nat)
    requires IsSquare(A, |b|) && |x| == |b| && NonZeroDiagonal(A) && i < |b|
    ensures Sweep(A, b, x)[i] == SweepEntry(A, b, x, i)
  {
    SweepUpToEntry(A, b, x, |b|, i);
  }

  /** The iterate after k sweeps from the zero vector. */
  function Iterate(A: Matrix, b: Vector, k: nat): (r: Vector)
    requires IsSquare(A, |b|) && (k > 0 ==> NonZeroDiagonal(A))
    ensures |r| == |b|
  {
    if k == 0 then Zeros(|b|) else Sweep(A, b, Iterate(A, b, k - 1))
  }

  /** The early return after sweep k fires: iterates k-1 and k are closer than tol. */
  predicate StopsAfter(A: Matrix, b: Vector, k: nat, tol: real) {
    && IsSquare(A, |b|)
    && NonZeroDiagonal(A)
    && k >= 1
    && Below(DistSq(Iterate(A, b, k), Iterate(A, b, k - 1)), tol)
  }

  /** What the iteration ends with: the returned vector, the number of sweeps
      performed, and whether it returned early (the source returns only the vector). */
  datatype Iteration = Iteration(x: Vector, sweeps: nat, converged: bool)

  // ---------------------------------------------------------------------------
  // The solver

  /** Scans the diagonal for the first zero entry; n when there is none. */
  method FirstZeroOnDiagonal(A: Matrix, n: nat) returns (z: nat)
    requires IsSquare(A, n)
    ensures z <= n
    ensures forall i :: 0 <= i < z ==> A[i][i] != 0.0
    ensures z < n ==> A[z][z] == 0.0
  {
    z := 0;
    while z < n && A[z][z] != 0.0
      invariant z <= n
      invariant forall i :: 0 <= i < z ==> A[i][i] != 0.0
    {
      z := z + 1;
    }
  }

  /** The inner loop of one sweep. Each entry is computed from the previous
      iterate x through the two partial dot products; the source assigns it
      twice with the same expression, and so does this loop. */
  method SweepOnce(A: Matrix, b: Vector, x: Vector) returns (xNew: Vector)
    requires IsSquare(A, |b|) && |x| == |b| && NonZeroDiagonal(A)
    ensures |xNew| == |b|
    ensures forall i :: 0 <= i < |b| ==>
      A[i][i] * xNew[i] == b[i] - Dot(A[i], x, 0, i) - Dot(A[i], x, i + 1, |b|)
  {
    var n := |b|;
    xNew := Zeros(n);
    var i := 0;
    while i < n
      invariant i <= n && |xNew| == n
      invariant forall q :: 0 <= q < i ==> xNew[q] == SweepEntry(A, b, x, q)
    {
      var lower := DotProduct(A[i], x, 0, i);
      var upper := DotProduct(A[i], x, i + 1, n);
      xNew := xNew[i := (b[i] - lower - upper) / A[i][i]];
      lower := DotProduct(A[i], x, 0, i);
      upper := DotProduct(A[i], x, i + 1, n);
      xNew := xNew[i := (b[i] - lower - upper) / A[i][i]];
      i := i + 1;
    }
    forall q | 0 <= q < n
      ensures A[q][q] * xNew[q] == b[q] - Dot(A[q], x, 0, q) - Dot(A[q], x, q + 1, n)
    {
      DivCancel(A[q][q], b[q] - Dot(A[q], x, 0, q) - Dot(A[q], x, q + 1, n));
    }
  }

  /** gauss_seidel(A, b, max_iter, tol): sweeps from the zero vector until two
      successive iterates are closer than tol or max_iter sweeps are done. A
      zero diagonal entry is reported instead of being divided by. */
  method GaussSeidel(A: Matrix, b: Vector, maxIter: int, tol: real) returns (r: Outcome<Iteration>)
    requires IsSquare(A, |b|)
    ensures r.ZeroPivot? <==> maxIter > 0 && !NonZeroDiagonal(A)
    ensures r.ZeroPivot? ==>
      r.row < |b| && A[r.row][r.row] == 0.0 && forall i :: 0 <= i < r.row ==> A[i][i] != 0.0
    ensures r.Solved? ==> |r.value.x| == |b|
    ensures r.Solved? ==> r.value.sweeps <= (if maxIter > 0 then maxIter else 0)
    ensures r.Solved? && r.value.sweeps > 0 ==> NonZeroDiagonal(A)
    ensures r.Solved? ==> r.value.x == Iterate(A, b, r.value.sweeps)
    ensures r.Solved? ==> (r.value.converged <==> StopsAfter(A, b, r.value.sweeps, tol))
    ensures r.Solved? && !r.value.converged ==> r.value.sweeps == (if maxIter > 0 then maxIter else 0)
    ensures r.Solved? ==> forall k :: 1 <= k < r.value.sweeps ==> !StopsAfter(A, b, k, tol)
  {
    var n := |b|;
    if maxIter > 0 {
      var z := FirstZeroOnDiagonal(A, n);
      if z < n {
        return ZeroPivot(z);
      }
    }
    var x := Zeros(n);
    var iter := 0;
    while iter < maxIter
      invariant 0 <= iter && (iter <= maxIter || iter == 0)
      invariant maxIter > 0 ==> NonZeroDiagonal(A)
      invariant x == Iterate(A, b, iter)
      invariant forall k :: 1 <= k <= iter ==> !StopsAfter(A, b, k, tol)
    {
      var xNew, stop := SweepAndMeasure(A, b, x, tol);
      if stop {
        return Solved(Iteration(xNew, iter + 1, true));
      }
      x := xNew;
      iter := iter + 1;
    }
    return Solved(Iteration(x, iter, false));
  }

  /** One pass of the iteration's loop body: sweep from any x, then
      compare the squared distance between the two iterates with tol². */
  method SweepAndMeasure(A: Matrix, b: Vector, x: Vector, tol: real) returns (xNew: Vector, stop: bool)
    requires IsSquare(A, |b|) && |x| == |b| && NonZeroDiagonal(A)
    ensures xNew == Sweep(A, b, x)
    ensures stop <==> Below(DistSq(xNew, x), tol)
  {
    xNew := SweepOnce(A, b, x);
    SweepCharacterised(A, b, x, xNew);
    var d := Subtract(xNew, x);
    DiffCharacterised(xNew, x, d);
    var dist := NormSquared(d);
    stop := Below(dist, tol);
  }

  /** gaussSeidel(A, b): the same iteration with the cap fixed at 1000 sweeps
      and the tolerance at 1e-6. */
  method GaussSeidelDefault(A: Matrix, b: Vector) returns (r: Outcome<Iteration>)
    requires IsSquare(A, |b|)
    ensures r.ZeroPivot? <==> !NonZeroDiagonal(A)
    ensures r.Solved? ==> |r.value.x| == |b| && r.value.sweeps <= 1000
    ensures r.Solved? && r.value.sweeps > 0 ==> NonZeroDiagonal(A)
    ensures r.Solved? ==> r.value.x == Iterate(A, b, r.value.sweeps)
    ensures r.Solved? && r.value.converged ==>
      r.value.sweeps >= 1 &&
      DistSq(r.value.x, Iterate(A, b, r.value.sweeps - 1)) < 0.000001 * 0.000001
    ensures r.Solved? && !r.value.converged ==> r.value.sweeps == 1000
    ensures r.Solved? ==> (r.value.converged <==> StopsAfter(A, b, r.value.sweeps, Tolerance))
    ensures r.Solved? ==> forall k :: 1 <= k < r.value.sweeps ==> !StopsAfter(A, b, k, Tolerance)
    ensures r.ZeroPivot? ==>
      r.row < |b| && A[r.row][r.row] == 0.0 && forall i :: 0 <= i < r.row ==> A[i][i] != 0.0
  {
    r := GaussSeidel(A, b, MaxSweeps, Tolerance);
  }

  // ---------------------------------------------------------------------------
  // Properties of the sweep

  /** A vector whose every entry solves its row for the diagonal unknown, with
      the previous iterate x on both sides, is the sweep of x. */
  lemma {:induction false} SweepCharacterised(A: Matrix, b: Vector, x: Vector, v: Vector)
    requires IsSquare(A, |b|) && |x| == |b| && NonZeroDiagonal(A) && |v| == |b|
    requires forall i :: 0 <= i < |b| ==>
      A[i][i] * v[i] == b[i] - Dot(A[i], x, 0, i) - Dot(A[i], x, i + 1, |b|)
    ensures v == Sweep(A, b, x)
  {
    forall i | 0 <= i < |b|
      ensures v[i] == Sweep(A, b, x)[i]
    {
      var rhs := b[i] - Dot(A[i], x, 0, i) - Dot(A[i], x, i + 1, |b|);
      SweepAt(A, b, x, i);
      DivCancel(A[i][i], rhs);
      SolveForEntry(A[i][i], v[i], rhs / A[i][i], rhs);
    }
  }

  /** Row i of A·x = b holds exactly when x[i] is what the sweep would put there. */
  lemma {:induction false} RowMatchesEntry(A: Matrix, b: Vector, x: Vector, i: nat)
    requires IsSquare(A, |b|) && |x| == |b| && i < |b| && A[i][i] != 0.0
    ensures Dot(A[i], x, 0, |b|) == b[i] <==> x[i] == SweepEntry(A, b, x, i)
  {
    var n := |b|;
    RowAroundDiagonal(A[i], x, i, n);
    SolveRow(Dot(A[i], x, 0, n), A[i][i], x[i], Dot(A[i], x, 0, i), Dot(A[i], x, i + 1, n), b[i]);
  }

  /** A row's dot product is the part before the diagonal, the diagonal term, and the part after. */
  lemma {:induction false} RowAroundDiagonal(row: Vector, x: Vector, i: nat, n: nat)
    requires i < n <= |row| && n <= |x|
    ensures Dot(row, x, 0, n) == Dot(row, x, 0, i) + row[i] * x[i] + Dot(row, x, i + 1, n)
  {
    DotSplit(row, x, 0, i, n);
    DotSplit(row, x, i, i + 1, n);
  }

  /** A row equation d = bi whose diagonal term is a·xi, solved for xi. */
  lemma SolveRow(d: real, a: real, xi: real, lo: real, hi: real, bi: real)
    requires a != 0.0 && d == lo + a * xi + hi
    ensures d == bi <==> xi == (bi - lo - hi) / a
  {
  }

  /** The exact solutions of A·x = b are exactly the fixed points of one sweep. */
  lemma {:induction false} SolutionIsFixedPoint(A: Matrix, b: Vector, x: Vector)
    requires IsSquare(A, |b|) && |x| == |b| && NonZeroDiagonal(A)
    ensures Satisfies(System(A, b), x) <==> Sweep(A, b, x) == x
  {
    var n := |b|;
    forall i | 0 <= i < n
      ensures Dot(A[i], x, 0, n) == b[i] <==> x[i] == Sweep(A, b, x)[i]
    {
      SweepAt(A, b, x, i);
      RowMatchesEntry(A, b, x, i);
    }
    if Sweep(A, b, x) == x {
      assert forall i :: 0 <= i < n ==> x[i] == Sweep(A, b, x)[i];
    }
  }

  /** Entry i of a sweep never reads x[i]: two iterates that differ only
      there give the same new entry i. */
  lemma {:induction false} SweepIgnoresOwnEntry(A: Matrix, b: Vector, x: Vector, y: Vector, i: nat)
    requires IsSquare(A, |b|) && |x| == |b| && |y| == |b| && NonZeroDiagonal(A)
    requires i < |b|
    requires forall k :: 0 <= k < |b| && k != i ==> x[k] == y[k]
    ensures Sweep(A, b, x)[i] == Sweep(A, b, y)[i]
  {
    SweepAt(A, b, x, i);
    SweepAt(A, b, y, i);
    DotFrame(A[i], x, A[i], y, 0, i);
    DotFrame(A[i], x, A[i], y, i + 1, |b|);
  }

  /** Once an iterate solves the system exactly, the next sweep reproduces it,
      so any positive tolerance stops the iteration right after. */
  lemma {:induction false} ExactSolutionStops(A: Matrix, b: Vector, k: nat, tol: real)
    requires IsSquare(A, |b|) && NonZeroDiagonal(A) && tol > 0.0
    requires Satisfies(System(A, b), Iterate(A, b, k))
    ensures Iterate(A, b, k + 1) == Iterate(A, b, k)
    ensures StopsAfter(A, b, k + 1, tol)
  {
    SolutionIsFixedPoint(A, b, Iterate(A, b, k));
    DistanceToSelf(Iterate(A, b, k));
    ProductPositive(tol, tol);
  }
}
