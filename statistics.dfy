/** The mean of the final scores, as reported after the adjustment. */
module Statistics {
  import opened Students

  /** Sum of the final scores, accumulated from the front like the loop. */
  function SumFinal(r: seq<Student>): real
  {
    if r == [] then 0.0 else SumFinal(r[..|r| - 1]) + r[|r| - 1].finalScore
  }

  /** Over the reals the sum also splits at the front: the first score plus
      the sum of the rest. */
  lemma {:induction false} SumFinalSplitFirst(r: seq<Student>)
    requires |r| > 0
    ensures SumFinal(r) == r[0].finalScore + SumFinal(r[1..])
    decreases |r|
  {
    if |r| > 1 {
      var init := r[..|r| - 1];
      SumFinalSplitFirst(init);
      assert init[1..] == r[1..][..|r[1..]| - 1];
    } else {
      assert r[..0] == [] && r[1..] == [];
    }
  }

  /** The sum of n scores that all lie in [lo, hi] lies in [n*lo, n*hi]. */
  lemma {:induction false} SumFinalBounds(r: seq<Student>, lo: real, hi: real)
    requires forall i :: 0 <= i < |r| ==> lo <= r[i].finalScore <= hi
    ensures |r| as real * lo <= SumFinal(r) <= |r| as real * hi
  {
    if r != [] {
      SumFinalBounds(r[..|r| - 1], lo, hi);
    }
  }

  /** calculateMean: the arithmetic mean of the final scores. The roster must
      not be empty (the program would divide zero by zero). */
  method CalculateMean(a: array<Student>) returns (mean: real)
    requires a.Length > 0
    ensures mean * a.Length as real == SumFinal(a[..])
  {
    var sum := 0.0;
    for i := 0 to a.Length
      invariant sum == SumFinal(a[..i])
    {
      assert a[..i + 1][..i] == a[..i];
      sum := sum + a[i].finalScore;
    }
    assert a[..a.Length] == a[..];
    mean := sum / a.Length as real;
  }

  /** The mean lies between the lowest and the highest final score, so after
      the adjustment (every final score at least 60) it is at least 60. */
  lemma MeanWithinBounds(r: seq<Student>, lo: real, hi: real)
    requires |r| > 0
    requires forall i :: 0 <= i < |r| ==> lo <= r[i].finalScore <= hi
    ensures lo <= SumFinal(r) / |r| as real <= hi
  {
    SumFinalBounds(r, lo, hi);
    var n := |r| as real;
    var mean := SumFinal(r) / n;
    assert n > 0.0;
    assert mean * n == SumFinal(r);
    assert (mean - lo) * n >= 0.0;
    assert mean - lo >= 0.0;
    assert (hi - mean) * n >= 0.0;
    assert hi - mean >= 0.0;
  }
}
