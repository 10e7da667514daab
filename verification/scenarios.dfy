/** Small worked systems that pin down what the two solvers do on concrete input. */
module Scenarios {
  import opened LinAlg
  import opened Direct
  import opened Iterative

  /** A = [[4, 1], [2, 3]], b = [1, 2]. */
  function Sample(): System {
    System([[4.0, 1.0], [2.0, 3.0]], [1.0, 2.0])
  }

  /** Elimination needs no zero pivot on the sample, and [0.1, 0.6] is its solution. */
  lemma SampleSolvedByElimination()
    ensures PivotsNonZero(Sample(), 2)
    ensures Satisfies(Sample(), [0.1, 0.6])
  {
  }

  /** The first sweep from zero gives [1/4, 2/3]. A Gauss-Seidel sweep would use
      the fresh x[0] = 1/4 for x[1] and give 1/2; this one reads the previous
      iterate on both sides of the diagonal. */
  lemma FirstSweepReadsPreviousIterate()
    ensures Iterate(Sample().A, Sample().b, 1) == [0.25, 2.0 / 3.0]
    ensures Iterate(Sample().A, Sample().b, 1)[1] != (2.0 - 2.0 * 0.25) / 3.0
  {
  }

  /** The swap system [[0, 1], [1, 0]] has the solution [1, 1], yet elimination
      without pivoting meets a zero pivot at step 0. */
  lemma SwapNeedsPivoting()
    ensures Satisfies(System([[0.0, 1.0], [1.0, 0.0]], [1.0, 1.0]), [1.0, 1.0])
    ensures !PivotsNonZero(System([[0.0, 1.0], [1.0, 0.0]], [1.0, 1.0]), 1)
  {
    var s := System([[0.0, 1.0], [1.0, 0.0]], [1.0, 1.0]);
    assert Pivot(s, 0) == 0.0;
    assert Dot(s.A[0], [1.0, 1.0], 0, 2) == 1.0;
    assert Dot(s.A[1], [1.0, 1.0], 0, 2) == 1.0;
  }
}
