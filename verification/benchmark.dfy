/** The one pure computation in the Java timing loop: the average of a size's
    trial times, total / numTrials. The clock readings arrive as parameters. */
module Benchmark {
  import opened LinAlg

  /** The sum of the samples, accumulated from the left. */
  function Total(samples: seq<real>): real {
    if |samples| == 0 then 0.0 else Total(samples[..|samples| - 1]) + samples[|samples| - 1]
  }

  /** The timing loop for one size: add up the trial times, then divide by the
      number of trials. */
  method AverageTime(samples: seq<real>) returns (mean: real)
    requires |samples| > 0
    ensures (|samples| as real) * mean == Total(samples)
    ensures exists k :: 0 <= k < |samples| && samples[k] <= mean
    ensures exists k :: 0 <= k < |samples| && mean <= samples[k]
  {
    var total := 0.0;
    var t := 0;
    while t < |samples|
      invariant t <= |samples|
      invariant total == Total(samples[..t])
    {
      assert samples[..t + 1][..t] == samples[..t];
      total := total + samples[t];
      t := t + 1;
    }
    assert samples[..|samples|] == samples;
    mean := total / (|samples| as real);
    DivCancel(|samples| as real, total);
    MeanWithinSamples(samples, mean);
  }

  /** A value whose |s|-fold multiple is the total lies between the smallest
      and the largest sample. */
  lemma {:induction false} MeanWithinSamples(samples: seq<real>, mean: real)
    requires |samples| > 0
    requires (|samples| as real) * mean == Total(samples)
    ensures exists k :: 0 <= k < |samples| && samples[k] <= mean
    ensures exists k :: 0 <= k < |samples| && mean <= samples[k]
  {
    if forall k :: 0 <= k < |samples| ==> samples[k] > mean {
      TotalAbove(samples, mean);
      assert false;
    }
    if forall k :: 0 <= k < |samples| ==> samples[k] < mean {
      TotalBelow(samples, mean);
      assert false;
    }
  }

  /** Samples all above m total more than |s|·m. */
  lemma {:induction false} TotalAbove(samples: seq<real>, m: real)
    requires |samples| > 0
    requires forall k :: 0 <= k < |samples| ==> samples[k] > m
    ensures Total(samples) > (|samples| as real) * m
  {
    var n := |samples|;
    if n > 1 {
      TotalAbove(samples[..n - 1], m);
      Distribute((n - 1) as real, m);
    }
  }

  /** Samples all below m total less than |s|·m. */
  lemma {:induction false} TotalBelow(samples: seq<real>, m: real)
    requires |samples| > 0
    requires forall k :: 0 <= k < |samples| ==> samples[k] < m
    ensures Total(samples) < (|samples| as real) * m
  {
    var n := |samples|;
    if n > 1 {
      TotalBelow(samples[..n - 1], m);
      Distribute((n - 1) as real, m);
    }
  }

  lemma Distribute(c: real, m: real)
    ensures (c + 1.0) * m == c * m + m
  {
  }

  /** Equal trial times average to that time. */
  lemma {:induction false} ConstantSamples(samples: seq<real>, v: real)
    requires forall k :: 0 <= k < |samples| ==> samples[k] == v
    ensures Total(samples) == (|samples| as real) * v
  {
    var n := |samples|;
    if n > 0 {
      ConstantSamples(samples[..n - 1], v);
      Distribute((n - 1) as real, v);
    }
  }
}
