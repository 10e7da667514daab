/** Dense vectors and matrices over exact reals, the linear system they form,
    and the vector helpers both solvers share: a half-open dot product, an
    element-wise difference and a squared Euclidean norm. */
module LinAlg {

  type Vector = seq<real>
  type Matrix = seq<seq<real>>

  /** A has n rows of n entries each. */
  predicate IsSquare(A: Matrix, n: nat) {
    |A| == n && forall i :: 0 <= i < n ==> |A[i]| == n
  }

  /** The system A·x = b. Its size is the length of b, as in both solvers. */
  datatype System = System(A: Matrix, b: Vector) {
    function Size(): nat { |b| }
    predicate WellFormed() { IsSquare(A, |b|) }
  }

  /** What a solver returns: a value, or the index of the first diagonal
      entry it would have divided by while that entry was zero. */
  datatype Outcome<T> = Solved(value: T) | ZeroPivot(row: nat)

  /** Every diagonal entry of A is non-zero. */
  predicate NonZeroDiagonal(A: Matrix)
    requires forall i :: 0 <= i < |A| ==> |A[i]| == |A|
  {
    forall i :: 0 <= i < |A| ==> A[i][i] != 0.0
  }

  /** x solves A·x = b: every row's dot product with x equals its right-hand side. */
  predicate Satisfies(s: System, x: Vector) {
    && s.WellFormed()
    && |x| == s.Size()
    && forall r :: 0 <= r < s.Size() ==> Dot(s.A[r], x, 0, s.Size()) == s.b[r]
  }

  /** The zero vector of length n. */
  function Zeros(n: nat): (r: Vector)
    ensures |r| == n && forall i :: 0 <= i < n ==> r[i] == 0.0
  {
    if n == 0 then [] else Zeros(n - 1) + [0.0]
  }

  /** Dividing by a non-zero entry and multiplying back returns the numerator. */
  lemma DivCancel(a: real, y: real)
    requires a != 0.0
    ensures a * (y / a) == y
  {
  }

  /** Two values that a non-zero a maps to the same product are equal. */
  lemma SolveForEntry(a: real, u: real, v: real, rhs: real)
    requires a != 0.0 && a * u == rhs && a * v == rhs
    ensures u == v
  {
    assert u == rhs / a;
    assert v == rhs / a;
  }

  // ---------------------------------------------------------------------------
  // Dot product over a half-open index range

  /** The sum of a[k] * b[k] for start <= k < end, accumulated from the left;
      an empty range sums to zero. Indices are only demanded of a non-empty range. */
  function Dot(a: Vector, b: Vector, start: int, end: int): real
    requires start < end ==> 0 <= start && end <= |a| && end <= |b|
    decreases end - start
  {
    if end <= start then 0.0 else Dot(a, b, start, end - 1) + a[end - 1] * b[end - 1]
  }

  /** The loop of dotProduct: it accumulates a[i] * b[i] from start up to end. */
  method DotProduct(a: Vector, b: Vector, start: int, end: int) returns (r: real)
    requires start < end ==> 0 <= start && end <= |a| && end <= |b|
    ensures r == Dot(a, b, start, end)
    ensures end <= start ==> r == 0.0
  {
    r := 0.0;
    var i := start;
    while i < end
      invariant start <= i && (start < end ==> i <= end) && (end <= start ==> i == start)
      invariant r == Dot(a, b, start, i)
    {
      r := r + a[i] * b[i];
      i := i + 1;
    }
  }

  /** A sum over [start, end) splits at any middle point. */
  lemma {:induction false} DotSplit(a: Vector, b: Vector, start: int, mid: int, end: int)
    requires 0 <= start <= mid <= end <= |a| && end <= |b|
    ensures Dot(a, b, start, end) == Dot(a, b, start, mid) + Dot(a, b, mid, end)
    decreases end - mid
  {
    if end > mid {
      DotSplit(a, b, start, mid, end - 1);
    }
  }

  /** A sum over [start, end) reads only the entries inside that range. */
  lemma {:induction false} DotFrame(a: Vector, b: Vector, a': Vector, b': Vector, start: int, end: int)
    requires start < end ==> 0 <= start && end <= |a| && end <= |b| && end <= |a'| && end <= |b'|
    requires forall k :: start <= k < end ==> a[k] == a'[k] && b[k] == b'[k]
    ensures Dot(a, b, start, end) == Dot(a', b', start, end)
    decreases end - start
  {
    if start < end {
      DotFrame(a, b, a', b', start, end - 1);
    }
  }

  /** A range on which the left factor vanishes sums to zero, whatever the right factor holds. */
  lemma {:induction false} DotOfZeros(a: Vector, b: Vector, start: int, end: int)
    requires start < end ==> 0 <= start && end <= |a| && end <= |b|
    requires forall k :: start <= k < end ==> a[k] == 0.0
    ensures Dot(a, b, start, end) == 0.0
    decreases end - start
  {
    if start < end {
      DotOfZeros(a, b, start, end - 1);
    }
  }

  /** If c = a - f·p entry by entry on the range, then c·x = a·x - f·(p·x) there. */
  lemma {:induction false} DotLinear(c: Vector, a: Vector, p: Vector, f: real, x: Vector, start: int, end: int)
    requires start < end ==> 0 <= start && end <= |a| && end <= |p| && end <= |c| && end <= |x|
    requires forall k :: start <= k < end ==> c[k] == a[k] - f * p[k]
    ensures Dot(c, x, start, end) == Dot(a, x, start, end) - f * Dot(p, x, start, end)
    decreases end - start
  {
    if start < end {
      DotLinear(c, a, p, f, x, start, end - 1);
      var k := end - 1;
      calc {
        c[k] * x[k];
        (a[k] - f * p[k]) * x[k];
        a[k] * x[k] - f * (p[k] * x[k]);
      }
    }
  }

  // ---------------------------------------------------------------------------
  // Element-wise difference and squared norm

  /** a - b entry by entry, over the indices of a, built from the left;
      DiffEntry gives each entry. */
  function Diff(a: Vector, b: Vector): (r: Vector)
    requires |a| <= |b|
    ensures |r| == |a|
  {
    if |a| == 0 then [] else Diff(a[..|a| - 1], b) + [a[|a| - 1] - b[|a| - 1]]
  }

  /** Entry i of a - b. */
  lemma {:induction false} DiffEntry(a: Vector, b: Vector, i: nat)
    requires |a| <= |b| && i < |a|
    ensures Diff(a, b)[i] == a[i] - b[i]
  {
    if i < |a| - 1 {
      DiffEntry(a[..|a| - 1], b, i);
    }
  }

  /** The loop of subtract: a fresh vector of a's length holding a[i] - b[i]. */
  method Subtract(a: Vector, b: Vector) returns (r: Vector)
    requires |a| <= |b|
    ensures |r| == |a|
    ensures forall i :: 0 <= i < |a| ==> r[i] == a[i] - b[i]
  {
    r := [];
    var i := 0;
    while i < |a|
      invariant i <= |a| && |r| == i
      invariant forall k :: 0 <= k < i ==> r[k] == a[k] - b[k]
    {
      r := r + [a[i] - b[i]];
      i := i + 1;
    }
  }

  /** A vector of a's length holding a[i] - b[i] at every index is a - b. */
  lemma {:induction false} DiffCharacterised(a: Vector, b: Vector, r: Vector)
    requires |a| <= |b| && |r| == |a|
    requires forall i :: 0 <= i < |a| ==> r[i] == a[i] - b[i]
    ensures r == Diff(a, b)
  {
    forall i | 0 <= i < |a|
      ensures r[i] == Diff(a, b)[i]
    {
      DiffEntry(a, b, i);
    }
  }

  /** The sum of the squares of the entries, accumulated from the left. */
  function SumSquares(v: Vector): real
  {
    if |v| == 0 then 0.0 else SumSquares(v[..|v| - 1]) + v[|v| - 1] * v[|v| - 1]
  }

  /** The squared Euclidean distance between two vectors of a's length. */
  function DistSq(a: Vector, b: Vector): real
    requires |a| <= |b|
  {
    SumSquares(Diff(a, b))
  }

  /** The loop of norm, without its final square root: the sum of the squares. */
  method NormSquared(v: Vector) returns (r: real)
    ensures r == SumSquares(v)
    ensures r >= 0.0
    ensures (forall i :: 0 <= i < |v| ==> v[i] == 0.0) ==> r == 0.0
  {
    r := 0.0;
    var i := 0;
    while i < |v|
      invariant i <= |v|
      invariant r == SumSquares(v[..i])
    {
      assert v[..i + 1][..i] == v[..i];
      r := r + v[i] * v[i];
      i := i + 1;
    }
    assert v[..|v|] == v;
    SumSquaresNonNegative(v);
    if forall i :: 0 <= i < |v| ==> v[i] == 0.0 {
      AllZeroSumSquares(v);
    }
  }

  /** A sum of squares is never negative. */
  lemma {:induction false} SumSquaresNonNegative(v: Vector)
    ensures SumSquares(v) >= 0.0
  {
    if |v| > 0 {
      SumSquaresNonNegative(v[..|v| - 1]);
      SquareNonNegative(v[|v| - 1]);
    }
  }

  lemma SquareNonNegative(t: real)
    ensures t * t >= 0.0
  {
    if t < 0.0 {
      assert t * t == (-t) * (-t);
    }
  }

  /** The squared norm of the zero vector (of any length) is zero. */
  lemma {:induction false} AllZeroSumSquares(v: Vector)
    requires forall i :: 0 <= i < |v| ==> v[i] == 0.0
    ensures SumSquares(v) == 0.0
  {
    if |v| > 0 {
      AllZeroSumSquares(v[..|v| - 1]);
    }
  }

  /** The squared norm is the dot product of v with itself over its whole range. */
  lemma {:induction false} SumSquaresIsSelfDot(v: Vector)
    ensures SumSquares(v) == Dot(v, v, 0, |v|)
  {
    if |v| > 0 {
      var n := |v| - 1;
      SumSquaresIsSelfDot(v[..n]);
      DotFrame(v[..n], v[..n], v, v, 0, n);
    }
  }

  /** subtract(x, x) is the zero vector, so its squared norm is zero. */
  lemma {:induction false} DistanceToSelf(x: Vector)
    ensures forall i :: 0 <= i < |x| ==> Diff(x, x)[i] == 0.0
    ensures DistSq(x, x) == 0.0
  {
    forall i | 0 <= i < |x|
      ensures Diff(x, x)[i] == 0.0
    {
      DiffEntry(x, x, i);
    }
    AllZeroSumSquares(Diff(x, x));
  }
}
