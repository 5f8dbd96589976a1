/** How the two Go variants relate: on the inputs the validated variant
    accepts, the unvalidated Update computes the same tables, so the
    running-mean property carries over. */
module Variants {
  import opened Arms
  import EpsilonGreedy
  import Greedy

  /** The validated variant's view of an unvalidated bandit (it has no `N`). */
  function AsValidated(g: Greedy.Bandit): EpsilonGreedy.Bandit
  {
    EpsilonGreedy.Bandit(g.epsilon, g.counts, g.rewards)
  }

  /** For an in-range arm and a non-negative reward, the unvalidated Update
      yields exactly the state a successful validated Update yields. */
  lemma UpdateAgrees(g: Greedy.Bandit, chosenArm: Int64, reward: real)
    requires 0 <= chosenArm < |g.counts| && chosenArm < |g.rewards|
    requires g.counts[chosenArm] != -1
    requires reward >= 0.0
    ensures EpsilonGreedy.Update(AsValidated(g), chosenArm, reward)
            == EpsilonGreedy.Outcome(AsValidated(Greedy.Update(g, chosenArm, reward)), EpsilonGreedy.Ok)
  {
  }

  /** A freshly constructed unvalidated bandit with epsilon in [0, 1] is
      one the validated constructor accepts with the same tables. */
  lemma FreshBanditsAgree(nArms: Int64, epsilon: real)
    requires nArms >= 0 && 0.0 <= epsilon <= 1.0
    ensures var g := Greedy.NewEpsilonGreedy(nArms, epsilon);
            EpsilonGreedy.NewEpsilonGreedy(epsilon, g.counts, g.rewards)
            == EpsilonGreedy.Created(AsValidated(g))
  {
  }

  /** The running-mean step for greedy.go, obtained from the validated
      variant's: an arm that summarises h summarises h + [reward] after an
      Update with a non-negative reward, and every other arm keeps its
      history. */
  lemma {:induction false} GreedyUpdateExtendsHistory(g: Greedy.Bandit, hs: seq<seq<real>>, chosenArm: Int64, reward: real)
    requires EpsilonGreedy.Explains(AsValidated(g), hs)
    requires 0 <= chosenArm < |g.rewards| && reward >= 0.0
    requires |hs[chosenArm]| < MaxInt64
    ensures EpsilonGreedy.Explains(AsValidated(Greedy.Update(g, chosenArm, reward)),
                                   hs[chosenArm := hs[chosenArm] + [reward]])
  {
    EpsilonGreedy.UpdateExtendsHistory(AsValidated(g), hs, chosenArm, reward);
    UpdateAgrees(g, chosenArm, reward);
  }
}
