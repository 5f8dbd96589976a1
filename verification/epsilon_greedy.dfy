/** The validated epsilon-greedy bandit of epsilon_greedy.go: parameters
    are checked, errors are returned, and the explore/exploit draw is
    supplied by the caller. The Go struct is mutated in place under a lock;
    here every mutating operation returns the new state together with its
    error, and on error the returned state is the one passed in. */
module EpsilonGreedy {
  import opened Arms

  /** The sentinel errors the Go code returns. */
  datatype Error =
    | ErrInvalidArms
    | ErrInvalidEpsilon
    | ErrInvalidLength
    | ErrArmsIndexOutOfRange
    | ErrInvalidReward

  /** `Epsilon`, `Counts` and `Rewards` (the per-arm running means). */
  datatype Bandit = Bandit(epsilon: real, counts: seq<Int64>, rewards: seq<real>)

  /** The `error` a method returns: `nil` or one of the sentinels. */
  datatype Status = Ok | Failed(error: Error)

  /** The receiver's state after a mutating method, and what it returned. */
  datatype Outcome = Outcome(state: Bandit, status: Status)

  /** What `NewEpsilonGreedy` returns: a new bandit or an error. */
  datatype Created = Created(bandit: Bandit) | Rejected(error: Error)

  /** The shape every constructor accepts: epsilon in [0, 1] and one count
      per running mean. */
  predicate WellFormed(b: Bandit)
  {
    0.0 <= b.epsilon <= 1.0 && |b.counts| == |b.rewards|
  }

  /** Update's preconditions beyond its own checks, needed only once both
      checks pass: Go then panics when the arm is in range for `Rewards`
      but not for `Counts`, and a count of -1 turns into a division by
      zero. */
  predicate CanUpdate(b: Bandit, chosenArm: int, reward: real)
  {
    0 <= chosenArm < |b.rewards| && reward >= 0.0 ==> chosenArm < |b.counts| && b.counts[chosenArm] != -1
  }

  /** `(*EpsilonGreedy).Init`: replaces both tables with `nArms` zeroed
      arms, keeping epsilon; fewer than one arm is rejected. */
  function Init(b: Bandit, nArms: Int64): (r: Outcome)
    ensures nArms < 1 ==> r == Outcome(b, Failed(ErrInvalidArms))
    ensures nArms >= 1 ==> r.status == Ok && r.state.epsilon == b.epsilon
    ensures nArms >= 1 ==> |r.state.counts| == nArms && |r.state.rewards| == nArms
    ensures nArms >= 1 ==> forall i :: 0 <= i < nArms ==> r.state.counts[i] == 0 && r.state.rewards[i] == 0.0
  {
    if nArms < 1 then
      Outcome(b, Failed(ErrInvalidArms))
    else
      Outcome(Bandit(b.epsilon, ZeroCounts(nArms), ZeroMeans(nArms)), Ok)
  }

  /** `(*EpsilonGreedy).Update`: first the index check, then the reward
      check, then the count increment and the incremental mean for that
      arm alone. */
  function Update(b: Bandit, chosenArm: Int64, reward: real): (r: Outcome)
    requires CanUpdate(b, chosenArm, reward)
    ensures !(0 <= chosenArm < |b.rewards|) ==> r == Outcome(b, Failed(ErrArmsIndexOutOfRange))
    ensures 0 <= chosenArm < |b.rewards| && reward < 0.0 ==> r == Outcome(b, Failed(ErrInvalidReward))
    ensures r.status == Ok <==> 0 <= chosenArm < |b.rewards| && reward >= 0.0
    ensures r.status == Ok ==>
      && r.state.epsilon == b.epsilon
      && r.state.counts == b.counts[chosenArm := Inc64(b.counts[chosenArm])]
      && |r.state.rewards| == |b.rewards|
      && (forall j :: 0 <= j < |b.rewards| && j != chosenArm ==> r.state.rewards[j] == b.rewards[j])
      && r.state.rewards[chosenArm] * (r.state.counts[chosenArm] as real)
         == b.rewards[chosenArm] * (r.state.counts[chosenArm] as real - 1.0) + reward
  {
    if chosenArm < 0 || chosenArm >= |b.rewards| then
      Outcome(b, Failed(ErrArmsIndexOutOfRange))
    else if reward < 0.0 then
      Outcome(b, Failed(ErrInvalidReward))
    else
      var n := Inc64(b.counts[chosenArm]);
      var mean := IncMean(b.rewards[chosenArm], n, reward);
      Outcome(Bandit(b.epsilon, b.counts[chosenArm := n], b.rewards[chosenArm := mean]), Ok)
  }

  /** `(*EpsilonGreedy).SelectArm`: exploit exactly when the probability
      exceeds epsilon, otherwise explore. `draw` stands for the value of
      `rand.Intn(len(Rewards))`, consulted only when exploring. */
  method SelectArm(b: Bandit, probability: real, draw: int) returns (arm: int)
    requires probability <= b.epsilon ==> 0 <= draw < |b.rewards|
    requires probability > b.epsilon ==> |b.rewards| > 0
    ensures 0 <= arm < |b.rewards|
    ensures probability <= b.epsilon ==> arm == draw
    ensures probability > b.epsilon ==> forall j :: 0 <= j < |b.rewards| ==> b.rewards[j] <= b.rewards[arm]
  {
    if probability > b.epsilon {
      arm := PickBest(b.rewards);
    } else {
      arm := draw;
    }
  }

  /** `(*EpsilonGreedy).GetCounts`: an element-by-element copy. */
  method GetCounts(b: Bandit) returns (copy: seq<Int64>)
    ensures copy == b.counts
  {
    copy := [];
    var i := 0;
    while i < |b.counts|
      invariant 0 <= i <= |b.counts|
      invariant copy == b.counts[..i]
    {
      copy := copy + [b.counts[i]];
      i := i + 1;
    }
  }

  /** `(*EpsilonGreedy).GetRewards`: an element-by-element copy. */
  method GetRewards(b: Bandit) returns (copy: seq<real>)
    ensures copy == b.rewards
  {
    copy := [];
    var i := 0;
    while i < |b.rewards|
      invariant 0 <= i <= |b.rewards|
      invariant copy == b.rewards[..i]
    {
      copy := copy + [b.rewards[i]];
      i := i + 1;
    }
  }

  /** `NewEpsilonGreedy`: the epsilon check precedes the length check; the
      tables are stored as given (no arm-count check, so empty is fine). */
  function NewEpsilonGreedy(epsilon: real, counts: seq<Int64>, rewards: seq<real>): (r: Created)
    ensures epsilon < 0.0 || epsilon > 1.0 ==> r == Rejected(ErrInvalidEpsilon)
    ensures 0.0 <= epsilon <= 1.0 && |counts| != |rewards| ==> r == Rejected(ErrInvalidLength)
    ensures r.Created? ==> r.bandit == Bandit(epsilon, counts, rewards)
  {
    if epsilon < 0.0 || epsilon > 1.0 then
      Rejected(ErrInvalidEpsilon)
    else if |counts| != |rewards| then
      Rejected(ErrInvalidLength)
    else
      Created(Bandit(epsilon, counts, rewards))
  }

  // ----- Properties relating the operations to each other -----

  /** The constructor accepts exactly the well-formed states. */
  lemma NewAcceptsExactlyWellFormed(epsilon: real, counts: seq<Int64>, rewards: seq<real>)
    ensures NewEpsilonGreedy(epsilon, counts, rewards).Created?
            <==> WellFormed(Bandit(epsilon, counts, rewards))
  {
  }

  /** Init and Update keep a well-formed bandit well-formed, whether they
      succeed or fail. */
  lemma InitPreservesWellFormed(b: Bandit, nArms: Int64)
    requires WellFormed(b)
    ensures WellFormed(Init(b, nArms).state)
  {
  }

  lemma UpdatePreservesWellFormed(b: Bandit, chosenArm: Int64, reward: real)
    requires WellFormed(b) && CanUpdate(b, chosenArm, reward)
    ensures WellFormed(Update(b, chosenArm, reward).state)
  {
  }

  /** The ghost reward history: `hs[i]` lists the rewards folded into arm i.
      The state is explained by it when every arm's count and running mean
      are that arm's history length and arithmetic mean. */
  ghost predicate Explains(b: Bandit, hs: seq<seq<real>>)
  {
    && |hs| == |b.counts| == |b.rewards|
    && forall i :: 0 <= i < |hs| ==> Summarises(b.counts[i], b.rewards[i], hs[i])
  }

  /** A successful Init is explained by empty histories. */
  lemma InitExplained(b: Bandit, nArms: Int64)
    requires nArms >= 1
    ensures Explains(Init(b, nArms).state, seq(nArms, _ => []))
  {
  }

  /** The running-mean property for one call: a successful Update on arm i
      extends arm i's history by the reward and leaves every other history
      alone. */
  lemma {:induction false} UpdateExtendsHistory(b: Bandit, hs: seq<seq<real>>, chosenArm: Int64, reward: real)
    requires Explains(b, hs)
    requires 0 <= chosenArm < |b.rewards| && reward >= 0.0
    requires |hs[chosenArm]| < MaxInt64
    ensures Update(b, chosenArm, reward).status == Ok
    ensures Explains(Update(b, chosenArm, reward).state, hs[chosenArm := hs[chosenArm] + [reward]])
  {
    MeanStep(hs[chosenArm], reward);
  }

  /** Non-negative rewards keep every running mean non-negative, provided
      the counts are non-negative and the updated one does not wrap. */
  lemma {:induction false} UpdateKeepsMeansNonNegative(b: Bandit, chosenArm: Int64, reward: real)
    requires CanUpdate(b, chosenArm, reward)
    requires AllNonNegative(b.rewards)
    requires 0 <= chosenArm < |b.rewards| && reward >= 0.0 ==> 0 <= b.counts[chosenArm] < MaxInt64
    ensures AllNonNegative(Update(b, chosenArm, reward).state.rewards)
  {
  }

  /** The reward check comes before any use of `Counts`: a negative reward
      on an in-range arm is rejected with the state unchanged even when the
      arm's count is -1 or `Counts` is too short to hold the arm. */
  lemma NegativeRewardNeverTouchesCounts(b: Bandit, chosenArm: Int64, reward: real)
    requires 0 <= chosenArm < |b.rewards| && reward < 0.0
    ensures CanUpdate(b, chosenArm, reward)
    ensures Update(b, chosenArm, reward) == Outcome(b, Failed(ErrInvalidReward))
  {
  }

  /** A state explained by histories of non-negative rewards has only
      non-negative running means. */
  lemma {:induction false} ExplainedMeansNonNegative(b: Bandit, hs: seq<seq<real>>)
    requires Explains(b, hs)
    requires forall i :: 0 <= i < |hs| ==> AllNonNegative(hs[i])
    ensures AllNonNegative(b.rewards)
  {
    forall i | 0 <= i < |b.rewards|
      ensures b.rewards[i] >= 0.0
    {
      MeanNonNegative(hs[i]);
    }
  }

  /** A caller's loop `for _, r := range rs { if err := b.Update(arm, r); ... }`:
      stops at the first error and returns it. */
  function UpdateAll(b: Bandit, chosenArm: Int64, rs: seq<real>): (r: Outcome)
    requires 0 <= chosenArm < |b.counts| == |b.rewards|
    requires 0 <= b.counts[chosenArm] && b.counts[chosenArm] + |rs| <= MaxInt64
    ensures |r.state.counts| == |b.counts| && |r.state.rewards| == |b.rewards|
    ensures r.state.counts[chosenArm] <= b.counts[chosenArm] + |rs|
    ensures r.status == Ok ==> r.state.counts[chosenArm] == b.counts[chosenArm] + |rs|
    ensures 0 <= r.state.counts[chosenArm]
    ensures r.status == Ok <==> AllNonNegative(rs)
    ensures r.status != Ok ==> r.status == Failed(ErrInvalidReward)
  {
    if |rs| == 0 then
      Outcome(b, Ok)
    else
      var prev := UpdateAll(b, chosenArm, rs[..|rs| - 1]);
      if prev.status != Ok then prev else Update(prev.state, chosenArm, rs[|rs| - 1])
  }

  /** The loop stops at the first error: when `rs[k]` is the first negative
      reward, the result is the state after `rs[..k]` with
      `ErrInvalidReward`, and no later reward is applied. */
  lemma {:induction false} UpdateAllStopsAtFirstError(b: Bandit, chosenArm: Int64, rs: seq<real>, k: nat)
    requires 0 <= chosenArm < |b.counts| == |b.rewards|
    requires 0 <= b.counts[chosenArm] && b.counts[chosenArm] + |rs| <= MaxInt64
    requires k < |rs| && rs[k] < 0.0 && AllNonNegative(rs[..k])
    ensures UpdateAll(b, chosenArm, rs) == Outcome(UpdateAll(b, chosenArm, rs[..k]).state, Failed(ErrInvalidReward))
  {
    var init := rs[..|rs| - 1];
    if |rs| - 1 == k {
      assert init == rs[..k];
    } else {
      assert init[..k] == rs[..k];
      UpdateAllStopsAtFirstError(b, chosenArm, init, k);
    }
  }

  /** The running-mean property over many calls: from an arm that
      summarises h0, feeding non-negative rewards rs one by one succeeds
      and leaves the arm summarising h0 + rs; nothing else changes. */
  lemma {:induction false} UpdateAllSummarises(b: Bandit, chosenArm: Int64, h0: seq<real>, rs: seq<real>)
    requires 0 <= chosenArm < |b.counts| == |b.rewards|
    requires Summarises(b.counts[chosenArm], b.rewards[chosenArm], h0)
    requires |h0| + |rs| <= MaxInt64
    requires AllNonNegative(rs)
    ensures UpdateAll(b, chosenArm, rs).status == Ok
    ensures Summarises(UpdateAll(b, chosenArm, rs).state.counts[chosenArm],
                       UpdateAll(b, chosenArm, rs).state.rewards[chosenArm], h0 + rs)
    ensures UpdateAll(b, chosenArm, rs).state.epsilon == b.epsilon
    ensures forall j :: 0 <= j < |b.counts| && j != chosenArm ==>
              UpdateAll(b, chosenArm, rs).state.counts[j] == b.counts[j]
              && UpdateAll(b, chosenArm, rs).state.rewards[j] == b.rewards[j]
  {
    if |rs| == 0 {
      assert h0 + rs == h0;
    } else {
      var init := rs[..|rs| - 1];
      var x := rs[|rs| - 1];
      UpdateAllSummarises(b, chosenArm, h0, init);
      MeanStep(h0 + init, x);
      assert (h0 + init) + [x] == h0 + rs by {
        assert init + [x] == rs;
      }
    }
  }

  /** From a fresh arm, k non-negative rewards give count k and their
      arithmetic mean. */
  lemma FreshArmMean(b: Bandit, chosenArm: Int64, rs: seq<real>)
    requires 0 <= chosenArm < |b.counts| == |b.rewards|
    requires b.counts[chosenArm] == 0 && b.rewards[chosenArm] == 0.0
    requires |rs| <= MaxInt64 && AllNonNegative(rs)
    ensures UpdateAll(b, chosenArm, rs).status == Ok
    ensures UpdateAll(b, chosenArm, rs).state.counts[chosenArm] == |rs|
    ensures UpdateAll(b, chosenArm, rs).state.rewards[chosenArm] == Mean(rs)
    ensures UpdateAll(b, chosenArm, rs).state.epsilon == b.epsilon
    ensures forall j :: 0 <= j < |b.counts| && j != chosenArm ==>
              UpdateAll(b, chosenArm, rs).state.counts[j] == b.counts[j]
              && UpdateAll(b, chosenArm, rs).state.rewards[j] == b.rewards[j]
  {
    UpdateAllSummarises(b, chosenArm, [], rs);
    assert [] + rs == rs;
  }

  /** The worked example: reward 1.0 three times on a fresh arm gives count
      3 and mean 1.0. */
  lemma ThreeUnitRewards(nArms: Int64, chosenArm: Int64)
    requires 0 <= chosenArm < nArms
    ensures var b := Init(Bandit(0.1, [], []), nArms).state;
            UpdateAll(b, chosenArm, [1.0, 1.0, 1.0]) == Outcome(
              Bandit(0.1, b.counts[chosenArm := 3], b.rewards[chosenArm := 1.0]), Ok)
  {
    var b := Init(Bandit(0.1, [], []), nArms).state;
    var rs := [1.0, 1.0, 1.0];
    FreshArmMean(b, chosenArm, rs);
    assert Sum(rs) == 3.0 by {
      SumSnoc([], 1.0);
      assert [] + [1.0] == [1.0];
      SumSnoc([1.0], 1.0);
      assert [1.0] + [1.0] == [1.0, 1.0];
      SumSnoc([1.0, 1.0], 1.0);
      assert [1.0, 1.0] + [1.0] == rs;
    }
    var r := UpdateAll(b, chosenArm, rs);
    assert r.state.counts == b.counts[chosenArm := 3];
    assert r.state.rewards == b.rewards[chosenArm := 1.0];
  }
}
