/** The older, unvalidated epsilon-greedy bandit of greedy.go, modelled
    sequentially. Nothing is checked: out-of-range arms panic in Go and are
    preconditions here, epsilon is stored as given, and the setters replace
    whole tables without comparing lengths. Both random draws of
    `SelectArm` are parameters. */
module Greedy {
  import opened Arms

  /** `Epsilon`, `Counts`, `Rewards` (running means) and the arm count `N`. */
  datatype Bandit = Bandit(epsilon: real, counts: seq<Int64>, rewards: seq<real>, n: Int64)

  /** `NewEpsilonGreedy(nArms, epsilonDecay)`: zeroed tables of length
      `nArms`; epsilon is not validated. `make` panics on a negative
      length. */
  function NewEpsilonGreedy(nArms: Int64, epsilonDecay: real): (b: Bandit)
    requires nArms >= 0
    ensures b.n == nArms && b.epsilon == epsilonDecay
    ensures |b.counts| == nArms && |b.rewards| == nArms
    ensures forall i :: 0 <= i < nArms ==> b.counts[i] == 0 && b.rewards[i] == 0.0
  {
    Bandit(epsilonDecay, ZeroCounts(nArms), ZeroMeans(nArms), nArms)
  }

  /** `(*EpsilonGreedy).Update`: increments the arm's count and folds the
      reward into its running mean. The reward is not checked; the index
      must be valid for both tables, and a count of -1 would divide by
      zero. */
  function Update(b: Bandit, chosenArm: Int64, reward: real): (r: Bandit)
    requires 0 <= chosenArm < |b.counts| && chosenArm < |b.rewards|
    requires b.counts[chosenArm] != -1
    ensures r.epsilon == b.epsilon && r.n == b.n
    ensures r.counts == b.counts[chosenArm := Inc64(b.counts[chosenArm])]
    ensures |r.rewards| == |b.rewards|
    ensures forall j :: 0 <= j < |b.rewards| && j != chosenArm ==> r.rewards[j] == b.rewards[j]
    ensures r.rewards[chosenArm] * (r.counts[chosenArm] as real)
            == b.rewards[chosenArm] * (r.counts[chosenArm] as real - 1.0) + reward
  {
    var n := Inc64(b.counts[chosenArm]);
    var newValue := IncMean(b.rewards[chosenArm], n, reward);
    b.(counts := b.counts[chosenArm := n], rewards := b.rewards[chosenArm := newValue])
  }

  /** `(*EpsilonGreedy).SetRewards`: replaces the running means wholesale. */
  function SetRewards(b: Bandit, rewards: seq<real>): (r: Bandit)
    ensures r.rewards == rewards
    ensures r.counts == b.counts && r.epsilon == b.epsilon && r.n == b.n
  {
    b.(rewards := rewards)
  }

  /** `(*EpsilonGreedy).SetCounts`: replaces the counts wholesale. */
  function SetCounts(b: Bandit, counts: seq<Int64>): (r: Bandit)
    ensures r.counts == counts
    ensures r.rewards == b.rewards && r.epsilon == b.epsilon && r.n == b.n
  {
    b.(counts := counts)
  }

  /** `(*EpsilonGreedy).SelectArm`: `u` stands for `rand.Float64()` and
      `draw` for `rand.Intn(len(rewards))`. Exploit exactly when `u`
      exceeds epsilon. */
  method SelectArm(b: Bandit, u: real, draw: int) returns (arm: int)
    requires 0.0 <= u < 1.0
    requires u <= b.epsilon ==> 0 <= draw < |b.rewards|
    requires u > b.epsilon ==> |b.rewards| > 0
    ensures 0 <= arm < |b.rewards|
    ensures u <= b.epsilon ==> arm == draw
    ensures u > b.epsilon ==> forall j :: 0 <= j < |b.rewards| ==> b.rewards[j] <= b.rewards[arm]
  {
    var rewards := b.rewards;
    if u > b.epsilon {
      arm := PickBest(rewards);
    } else {
      arm := draw;
    }
  }

  // ----- Properties relating the operations to each other -----

  /** Restoring a snapshot: on a bandit with the same epsilon and `N`,
      setting a saved bandit's tables reproduces the saved bandit. */
  lemma RestoreRoundTrip(saved: Bandit, target: Bandit)
    requires target.epsilon == saved.epsilon && target.n == saved.n
    ensures SetCounts(SetRewards(target, saved.rewards), saved.counts) == saved
  {
  }

  /** No length check: after SetRewards on a fresh bandit, `N` no longer
      matches the number of running means. */
  lemma SetRewardsCanBreakN()
    ensures var b := SetRewards(NewEpsilonGreedy(2, 0.1), [0.5]);
            b.n != |b.rewards| && |b.counts| != |b.rewards|
  {
  }

  /** A fresh bandit has as many counts and means as `N` says, and Update
      keeps it that way. */
  predicate Consistent(b: Bandit)
  {
    |b.counts| == b.n && |b.rewards| == b.n
  }

  lemma UpdatePreservesConsistent(b: Bandit, chosenArm: Int64, reward: real)
    requires Consistent(b)
    requires 0 <= chosenArm < b.n && b.counts[chosenArm] != -1
    ensures Consistent(Update(b, chosenArm, reward))
  {
  }
}
