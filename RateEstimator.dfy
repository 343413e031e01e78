/**
 * The rate estimator: the output frame rate is one second divided by the mean
 * frame duration.
 */
module RateEstimator {
  import opened Wrappers

  /** Frame durations are given in milliseconds. */
  const MsInSecond: int := 1000

  /** Every duration is at least `least` milliseconds. */
  predicate AtLeast(s: seq<int>, least: int)
  {
    forall k :: 0 <= k < |s| ==> s[k] >= least
  }

  /** `sum(frame_times)` */
  function Sum(s: seq<int>): (total: int)
    ensures AtLeast(s, 0) ==> total >= 0
  {
    if s == [] then 0 else Sum(s[..|s| - 1]) + s[|s| - 1]
  }

  /**
   * `MS_IN_SECOND / (sum(frame_times) / len(frame_times))`, as an exact
   * rational. Python raises a division by zero for an empty list or a zero
   * total duration: `None`.
   */
  function Fps(frameTimes: seq<int>): (fps: Option<real>)
    ensures fps.None? <==> (|frameTimes| == 0 || Sum(frameTimes) == 0)
    ensures fps.Some? ==> fps.value * (Sum(frameTimes) as real) == (MsInSecond * |frameTimes|) as real
  {
    if |frameTimes| == 0 then None
    else
      var mean := Sum(frameTimes) as real / |frameTimes| as real;
      if mean == 0.0 then None else Some(MsInSecond as real / mean)
  }

  lemma {:induction false} SumOfUniform(s: seq<int>, d: int)
    requires forall k :: 0 <= k < |s| ==> s[k] == d
    ensures Sum(s) == |s| * d
  {
    if s != [] {
      var init := s[..|s| - 1];
      SumOfUniform(init, d);
      assert Sum(s) == Sum(init) + d;
      assert |s| * d == |init| * d + d;
    }
  }

  /** With every frame lasting `d` milliseconds the rate is `1000 / d`. */
  lemma UniformDurations(frameTimes: seq<int>, d: int)
    requires |frameTimes| > 0 && d != 0
    requires forall k :: 0 <= k < |frameTimes| ==> frameTimes[k] == d
    ensures Fps(frameTimes) == Some(MsInSecond as real / d as real)
  {
    SumOfUniform(frameTimes, d);
    MeanOfUniform(Sum(frameTimes), |frameTimes|, d);
  }

  /** `n` durations totalling `n * d` have mean `d`. */
  lemma MeanOfUniform(total: int, n: nat, d: int)
    requires n > 0 && total == n * d
    ensures total as real / n as real == d as real
  {
    assert total as real == n as real * d as real;
  }
}
