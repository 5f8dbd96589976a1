# Epsilon-greedy bandit state, modelled in Dafny

This project models the bandit state of the Go package `bandit`. The state
holds an exploration parameter `Epsilon`, a per-arm trial count `Counts` and
a per-arm running mean `Rewards`. The package ships two variants that both
declare `type EpsilonGreedy`, and each gets its own module:

- `EpsilonGreedy` (epsilon_greedy.dfy) models epsilon_greedy.go. This is the
  validated variant. `Init`, `Update` and `NewEpsilonGreedy` check their
  inputs and return the package's sentinel errors. `SelectArm` takes the
  explore/exploit probability as an argument. The Go methods mutate the
  receiver. Here, each mutating method is a pure function that returns an
  `Outcome`: the receiver's new state plus the returned `error`. On every
  error path the returned state is the input state, so "all-or-nothing" is
  a stated property.
- `Greedy` (greedy.dfy) models greedy.go. This is the older, unvalidated
  variant, modelled sequentially. Its bandit also carries `N`.
- `Arms` (arms.dfy) holds what both variants share:
  - the 64-bit count type and the wrap-around of `Counts[i]++`;
  - the update rule `(old*(n-1) + reward) / n`;
  - the reference sum and arithmetic mean of a ghost reward history;
  - the exploit choice.
- `Variants` (variants.dfy) proves that the unvalidated `Update` agrees
  with a successful validated `Update`. This lets the running-mean result
  carry over to greedy.go.

Rewards, means, epsilon and probabilities are Dafny `real`, not IEEE
doubles. This makes it possible to prove that the incremental rule keeps
each arm's mean equal to the arithmetic mean of its reward history. The
history is a ghost `seq<seq<real>>`: `EpsilonGreedy.Explains` ties each
arm's count and mean to its history. `Init` establishes that link,
`Update` extends it, and `UpdateAll` (a caller's loop of `Update` calls)
keeps it.

Randomness is supplied by the caller:
- `rand.Intn(len(Rewards))` becomes the `draw` argument.
- `rand.Float64()` in greedy.go becomes the `u` argument.

The exploit helpers `maxMean` (epsilon_greedy.go:37) and `max`
(greedy.go:25) are defined elsewhere in package `bandit` and are not part
of this model. `Arms.PickBest` models them as an arbitrary argmax over the
running means, so their tie-break is left open.

Behaviour worth knowing, as the Go code has it:
- The error values are the package's `ErrInvalidArms`, `ErrInvalidEpsilon`,
  `ErrInvalidLength`, `ErrArmsIndexOutOfRange` and `ErrInvalidReward`.
- `NewEpsilonGreedy` in epsilon_greedy.go has no arm-count check, so empty
  tables are accepted.
- It also stores counts as given, so negative counts are accepted.
- greedy.go validates nothing, including epsilon.

## Model

| member | source | states |
|---|---|---|
| Arms.Inc64 | epsilon_greedy.go:57 | `Counts[i]++` on a 64-bit Go integer: the result is the unique 64-bit value congruent to count+1 modulo 2^64 (two's-complement wrap-around). |
| Arms.IncMean | epsilon_greedy.go:58-61 | The rule `(prev*(n-1)+reward)/n` equals the "moved divide" form `prev + (reward-prev)/n`; for `n >= 1` one step lands between the previous mean and the new reward (inclusive). |
| Arms.MeanStep | epsilon_greedy.go:57-61 | Folding one reward into the arithmetic mean of a history `h` with the rule `(old*(n-1)+r)/n` at `n = len(h)+1` gives the arithmetic mean of `h + [r]`. |
| Arms.ArgmaxExists | epsilon_greedy.go:37 | Every non-empty table of means has an index whose mean is at least every other mean, so the exploit branch always has a candidate. |
| Arms.PickBest | epsilon_greedy.go:36-38 | The exploit choice (`maxMean`, and `max` in greedy.go) returns an index in range whose mean is >= every arm's mean. The tie-break is unconstrained. |
| EpsilonGreedy.Init | epsilon_greedy.go:17-27 | `nArms < 1` returns `ErrInvalidArms` and leaves the state unchanged. Otherwise it succeeds with `nArms` zero counts and zero means, and epsilon is kept. |
| EpsilonGreedy.Update | epsilon_greedy.go:46-64 | An out-of-range arm returns `ErrArmsIndexOutOfRange`, checked before the reward. A negative reward then returns `ErrInvalidReward`. Both leave the state unchanged. It succeeds exactly when the arm is in range and the reward is >= 0. On success only arm i's count (incremented with 64-bit wrap) and mean change: `mean'*n == mean*(n-1) + reward`. Lengths and epsilon are kept. |
| EpsilonGreedy.SelectArm | epsilon_greedy.go:31-42 | Always returns an index in `[0, len(Rewards))`. If `probability <= Epsilon` (equality included) it returns the explore draw. If `probability > Epsilon` it returns an arm of maximal mean. |
| EpsilonGreedy.GetCounts | epsilon_greedy.go:67-74 | The element-by-element copy equals the current counts. |
| EpsilonGreedy.GetRewards | epsilon_greedy.go:77-84 | The element-by-element copy equals the current running means. |
| EpsilonGreedy.NewEpsilonGreedy | epsilon_greedy.go:87-100 | Epsilon outside [0,1] returns `ErrInvalidEpsilon`, checked first. Then unequal lengths return `ErrInvalidLength`. Otherwise the bandit stores exactly the given epsilon, counts and rewards, and empty tables are allowed. |
| EpsilonGreedy.NewAcceptsExactlyWellFormed | epsilon_greedy.go:87-100 | The constructor succeeds if and only if epsilon is in [0,1] and the two tables have equal length. |
| EpsilonGreedy.InitPreservesWellFormed | epsilon_greedy.go:17-27 | Init, whether it succeeds or fails, keeps epsilon in [0,1] and the tables of equal length. |
| EpsilonGreedy.UpdatePreservesWellFormed | epsilon_greedy.go:46-64 | Update, whether it succeeds or fails, keeps epsilon in [0,1] and the tables of equal length. |
| EpsilonGreedy.InitExplained | epsilon_greedy.go:24-25 | After a successful Init, every arm summarises the empty reward history (count 0, mean 0). |
| EpsilonGreedy.UpdateExtendsHistory | epsilon_greedy.go:50-61 | If the state matches per-arm histories and arm i's count is below 2^63-1, a valid Update on arm i succeeds. The new state then matches the histories with the reward appended to arm i only. |
| EpsilonGreedy.NegativeRewardNeverTouchesCounts | epsilon_greedy.go:50-55 | For an in-range arm, a negative reward is callable on any state, including a count of -1 or a too-short `Counts`, and returns `ErrInvalidReward` with the state unchanged. |
| EpsilonGreedy.ExplainedMeansNonNegative | epsilon_greedy.go:53-61 | A state whose arms summarise histories of non-negative rewards has only non-negative running means. |
| EpsilonGreedy.UpdateKeepsMeansNonNegative | epsilon_greedy.go:53-61 | With the updated arm's count in [0, 64-bit maximum) whenever the update would succeed, Update keeps every running mean >= 0 whether it succeeds or fails. |
| EpsilonGreedy.UpdateAll | epsilon_greedy.go:46-64 | A caller's loop of Updates on one arm succeeds if and only if every reward is non-negative, and otherwise returns `ErrInvalidReward`. It preserves both lengths, raises that arm's count by at most the number of rewards, and by exactly that number on success. |
| EpsilonGreedy.UpdateAllStopsAtFirstError | epsilon_greedy.go:53-55 | The loop stops at the first error: if `rs[k]` is the first negative reward, the result is exactly the state reached after `rs[..k]`, with `ErrInvalidReward`; no later reward is applied. |
| EpsilonGreedy.UpdateAllSummarises | epsilon_greedy.go:53-61 | Start from an arm that summarises history h0. Feeding non-negative rewards rs one by one, while the count stays at most 2^63-1 (`len(h0)+len(rs) <= 2^63-1`), succeeds, and the arm then summarises `h0 + rs`. Epsilon and every other arm are unchanged. |
| EpsilonGreedy.FreshArmMean | epsilon_greedy.go:53-61 | From count 0 and mean 0, k <= 2^63-1 non-negative rewards give count k and their arithmetic mean. Other arms and epsilon are unchanged. |
| EpsilonGreedy.ThreeUnitRewards | epsilon_greedy.go:57-61 | After Init, reward 1.0 applied three times to one arm gives that arm count 3 and mean 1.0. Nothing else changes. |
| Greedy.NewEpsilonGreedy | greedy.go:55-62 | The result has `N == nArms`, the given epsilon (not validated), and `nArms` zero counts and zero means. |
| Greedy.Update | greedy.go:33-42 | For an index valid in both tables, only arm i changes: its count is incremented and `mean'*n == mean*(n-1) + reward`. Lengths, `N` and epsilon are kept. The reward is not checked. |
| Greedy.SetRewards | greedy.go:45-47 | Replaces the means wholesale. Counts, epsilon and `N` are untouched. |
| Greedy.SetCounts | greedy.go:50-52 | Replaces the counts wholesale. Means, epsilon and `N` are untouched. |
| Greedy.SelectArm | greedy.go:19-29 | For a draw `u` in [0,1), it returns an index in `[0, len(Rewards))`. That is the explore draw when `u <= Epsilon`, and an arm of maximal mean when `u > Epsilon`. |
| Greedy.RestoreRoundTrip | greedy.go:45-52 | Setting a saved bandit's means and counts on a bandit with the same epsilon and `N` reproduces the saved bandit. |
| Greedy.SetRewardsCanBreakN | greedy.go:45-47 | There is no length check: SetRewards on a fresh two-arm bandit leaves `N` and `len(Counts)` disagreeing with `len(Rewards)`. |
| Greedy.UpdatePreservesConsistent | greedy.go:33-42 | If both tables have length `N`, they still do after an Update. |
| Variants.UpdateAgrees | greedy.go:33-42 | For an in-range arm and a non-negative reward, the greedy.go Update produces the same epsilon, counts and means as a successful epsilon_greedy.go Update. |
| Variants.FreshBanditsAgree | greedy.go:55-62 | For epsilon in [0,1], a fresh greedy.go bandit's tables are accepted by the validated constructor unchanged. |
| Variants.GreedyUpdateExtendsHistory | greedy.go:33-42 | The running-mean property carries over: while the arm's count stays below 2^63-1, a greedy.go Update with a non-negative reward appends that reward to the chosen arm's history and keeps every other history. |

## Left out

- Locking: the `sync.RWMutex` / `sync.Mutex` and every lock call are left out. This includes the lost-update race in greedy.go `Update`, which reads and increments before taking the lock. The model is sequential.
- Randomness: `rand.Intn` and `rand.Float64` are not modelled. Their results are caller-supplied arguments (`draw`, `u`), constrained only by the ranges those functions return.
- Floating point: rounding is not modelled, and neither are NaN or infinities. A NaN epsilon would pass the validated epsilon check. A NaN reward would pass the `reward < 0` check. `float64(count)` is exact here even above 2^53.
- EpsilonGreedy.SelectArm: the tie-break among arms of equal maximal mean is unconstrained. `maxMean` is defined elsewhere in package `bandit` and is not modelled, so its use of `Counts` is not modelled either. The exploit branch on an empty table is excluded by a precondition for the same reason. The explore branch on an empty table is excluded too: `draw` must lie in `[0, len(Rewards))`, and `rand.Intn(0)` panics in Go (epsilon_greedy.go:41).
- Greedy.SelectArm: the same as for EpsilonGreedy.SelectArm, with `max` in place of `maxMean`. The explore branch on an empty table is excluded because `rand.Intn(0)` panics (greedy.go:28).
- Arms.PickBest: returns some argmax, not the lowest-index one. The helper it stands for is not part of this model.
- EpsilonGreedy.Update: only on the success path (arm in range and reward >= 0), it requires `Counts[i] != -1`. Such a count makes `n` zero, and Go would produce an IEEE infinity or NaN. On that path it also requires the arm to be in range for `Counts`, since Go would panic otherwise. Both error paths are callable on every state.
- Greedy.Update: requires an index valid for both tables, because Go panics otherwise. It also requires `Counts[i] != -1`, for the same reason as the validated Update.
- Greedy.NewEpsilonGreedy: requires `nArms >= 0`, because `make` panics on a negative length. Allocation failure for huge `nArms` is not modelled in either variant.
- Aliasing: the Go constructors and setters store the caller's slice itself. Dafny sequences are values, so later mutation of that slice through the caller's alias is not modelled.
- JSON struct tags and serialisation are left out.
- Counts: Go `int` in epsilon_greedy.go is taken to be 64 bits wide, the same as greedy.go's `int64`. The increment wraps from the maximum to the minimum.
