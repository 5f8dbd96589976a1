/** Definitions shared by both Go variants of the epsilon-greedy bandit:
    the 64-bit count type with its wrap-around increment, the incremental
    mean rule, the reference arithmetic mean of a reward history, and the
    exploit choice (an arm whose running mean is maximal). */
module Arms {

  const MinInt64: int := -0x8000_0000_0000_0000
  const MaxInt64: int := 0x7fff_ffff_ffff_ffff

  /** Go's `int` (64-bit targets) and `int64`. */
  type Int64 = x: int | MinInt64 <= x <= MaxInt64

  /** `c++` on a Go 64-bit integer: two's-complement wrap-around at the top. */
  function Inc64(c: Int64): (r: Int64)
    ensures (r - (c + 1)) % 0x1_0000_0000_0000_0000 == 0
  {
    if c == MaxInt64 then MinInt64 else c + 1
  }

  /** The update rule `(old*(n-1) + reward) / n`, where `n` is the count
      after the increment, converted to a floating-point number. */
  function IncMean(prev: real, n: int, reward: real): (r: real)
    requires n != 0
    ensures r == prev + (reward - prev) / n as real
    ensures n >= 1 && prev <= reward ==> prev <= r <= reward
    ensures n >= 1 && reward <= prev ==> reward <= r <= prev
  {
    (prev * (n as real - 1.0) + reward) / n as real
  }

  /** A fresh arm table: `make([]T, n)` gives zero values. */
  function ZeroCounts(n: nat): seq<Int64>
  {
    seq(n, _ => 0)
  }

  function ZeroMeans(n: nat): seq<real>
  {
    seq(n, _ => 0.0)
  }

  /** Reference definitions: the sum and arithmetic mean of a reward history. */
  ghost function Sum(h: seq<real>): real
  {
    if |h| == 0 then 0.0 else Sum(h[..|h| - 1]) + h[|h| - 1]
  }

  ghost function Mean(h: seq<real>): real
  {
    if |h| == 0 then 0.0 else Sum(h) / |h| as real
  }

  ghost predicate AllNonNegative(h: seq<real>)
  {
    forall k :: 0 <= k < |h| ==> h[k] >= 0.0
  }

  /** An arm's (count, running mean) pair summarises exactly the history h. */
  ghost predicate Summarises(count: int, mean: real, h: seq<real>)
  {
    count == |h| && mean == Mean(h)
  }

  lemma SumSnoc(h: seq<real>, x: real)
    ensures Sum(h + [x]) == Sum(h) + x
  {
  }

  /** The central identity: folding one more reward into the running mean
      with the incremental rule gives the arithmetic mean of the longer
      history. */
  lemma {:induction false} MeanStep(h: seq<real>, x: real)
    ensures Mean(h + [x]) == IncMean(Mean(h), |h| + 1, x)
  {
    SumSnoc(h, x);
  }

  lemma {:induction false} SumNonNegative(h: seq<real>)
    requires AllNonNegative(h)
    ensures Sum(h) >= 0.0
  {
    if |h| > 0 {
      SumNonNegative(h[..|h| - 1]);
    }
  }

  /** Non-negative rewards have a non-negative mean. */
  lemma MeanNonNegative(h: seq<real>)
    requires AllNonNegative(h)
    ensures Mean(h) >= 0.0
  {
    SumNonNegative(h);
  }

  /** `i` is an exploit choice: an arm whose running mean is at least every
      other arm's. Ties are not resolved. */
  predicate IsArgmax(means: seq<real>, i: int)
  {
    0 <= i < |means| && forall j :: 0 <= j < |means| ==> means[j] <= means[i]
  }

  lemma {:induction false} ArgmaxExists(means: seq<real>)
    requires |means| > 0
    ensures exists i :: IsArgmax(means, i)
  {
    if |means| > 1 {
      var init := means[..|means| - 1];
      ArgmaxExists(init);
      var i :| IsArgmax(init, i);
      var last := |means| - 1;
      if means[last] <= means[i] {
        assert IsArgmax(means, i);
      } else {
        assert IsArgmax(means, last);
      }
    } else {
      assert IsArgmax(means, 0);
    }
  }

  /** The exploit branch of both variants (`maxMean` / `max`): some arm of
      maximal mean, chosen without committing to a tie-break. */
  method PickBest(means: seq<real>) returns (i: int)
    requires |means| > 0
    ensures 0 <= i < |means|
    ensures forall j :: 0 <= j < |means| ==> means[j] <= means[i]
  {
    ArgmaxExists(means);
    i :| IsArgmax(means, i);
  }
}
