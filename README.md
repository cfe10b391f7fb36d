# Value iteration and Q-learning agents

This project models the learning core of a reinforcement-learning assignment repository:

- the **offline planner** `ValueIterationAgent`. At construction it runs a fixed number of batch
  Bellman sweeps over a Markov decision process. Afterwards it answers value, Q-value, policy and
  action queries from the table it stored;
- the **tabular Q-learner** `QLearningAgent`. It keeps a table of Q(s, a) entries that default to 0,
  chooses actions ε-greedily, and applies the temporal-difference update
  Q(s, a) ← (1 − α)·Q(s, a) + α·(r + γ·max_a' Q(s', a')) after each observed transition;
- the **linear approximate Q-learner** `ApproximateQAgent`. Here Q(s, a) is the dot product of a weight
  vector with a feature vector, and the update moves every active feature's weight by
  α·correction·f_i(s, a).

Every agent appears twice. Pure specification functions (`Iterate`, `Sweep`, `QValue`, `Policy`,
`Updated`, `Dot`, `UpdatedWeights`, …) say what the agent computes. A `class` holds the fields the
Python object updates in place. Each method's loop is proved against the specification function,
and lemmas prove properties of those functions.

Modules:

- `Options` — `Option`. `None` stands for Python's `None` action. It also stands for the "−∞" seed of a
  running maximum, meaning "no candidate seen yet".
- `Counter` — `Get`, the default-0 lookup of the dictionary-with-default that stores values, Q-values
  and weights.
- `Greedy` — the maximum and tie-set loops shared by `getValue`, `getPolicy` and `getAction` of both
  Q-learners.
- `ValueIteration` — the MDP as a value (`Mdp`), the sweep and Q-value specification, monotonicity of
  the iteration, and the `ValueIterationAgent` class.
- `QLearning` — the tabular update, a replay of a trace of updates, and the `QLearningAgent` class.
- `ApproximateQLearning` — the dot product over the weight support, the weight update, and the
  `ApproximateQAgent` class.

Environment inputs are parameters:

- the MDP's state list, possible actions, transition list and reward;
- `getLegalActions`;
- the feature extractor;
- the outcome of the exploration coin.

The choice among tied best actions, and the uniform choice among legal actions, are nondeterministic
choices (`:|`). Every result they allow is proved to lie in the set the Python code samples from.

## Model

| member | source | states |
|---|---|---|
| ValueIteration.ValueIterationAgent.constructor | valueIterationAgents.py:24-52 | After construction the stored table is exactly `Iterate(mdp, discount, iterations)`, the result of that many batch sweeps started from the all-zero table; the MDP, discount and iteration count are kept |
| ValueIteration.ValueIterationAgent.SweepOnce | valueIterationAgents.py:41-52 | One pass over `getStates()` builds a fresh table equal to `Sweep` of the current one; every backup reads the previous table (batch, not in place) |
| ValueIteration.ValueIterationAgent.BestLookahead | valueIterationAgents.py:44-49 | The running maximum over the possible actions, seeded with "none yet" in place of −∞, is the maximum of the state's Q-values on the current table, or None when the state has no actions |
| ValueIteration.SweepOverValue | valueIterationAgents.py:43-51 | After writing the states of a list, a state outside the list or without actions reads 0; any other state holds the largest Q-value over its actions |
| ValueIteration.SweepValue | valueIterationAgents.py:41-52 | Bellman optimality of one sweep: a state that is not enumerated, or a terminal state, is worth 0; an enumerated state is worth at least every action's Q-value, and exactly some action's Q-value when it has actions |
| ValueIteration.ValueIterationAgent.GetValue | valueIterationAgents.py:54-58 | The stored value of a state: 0 after zero iterations or for a state without actions or outside the enumeration; otherwise the maximum over its actions of the Q-value on the table of the previous sweep |
| ValueIteration.ValueIterationAgent.GetQValue | valueIterationAgents.py:60-71 | Σ p·(R(s, a, s') + γ·V(s')) over the transition list, computed from the stored table, which is only read |
| ValueIteration.ValueIterationAgent.ExpectedValue | valueIterationAgents.py:84-86 | The inner loop of `getPolicy` computes Σ p·V(s') over the transition list, the quantity `Policy` compares, from the stored table |
| ValueIteration.ValueIterationAgent.GetPolicy | valueIterationAgents.py:73-90 | The result equals `Policy`: the first action whose expected successor value Σ p·V(s') is largest, with the reward left out as in the code; None when there are no actions |
| ValueIteration.Policy | valueIterationAgents.py:81-90 | None exactly when the state has no actions; otherwise a possible action whose Σ p·V(s') is at least every action's, and strictly greater than that of every action listed before it (strict `<` keeps the first maximiser) |
| ValueIteration.ValueIterationAgent.GetAction | valueIterationAgents.py:92-94 | The action is the policy's, with no exploration |
| ValueIteration.LookaheadMonotone | valueIterationAgents.py:47-48 | With non-negative rewards, probabilities and discount, a pointwise larger table gives a larger lookahead sum |
| ValueIteration.LookaheadNonNegative | valueIterationAgents.py:47-48 | With non-negative rewards, probabilities and discount, the lookahead sum from a non-negative table is non-negative |
| ValueIteration.SweepMonotone | valueIterationAgents.py:41-52 | Under the same conditions, a sweep maps pointwise-ordered tables to pointwise-ordered tables |
| ValueIteration.SweepNonNegative | valueIterationAgents.py:41-52 | Under the same conditions, a sweep of a non-negative table is non-negative |
| ValueIteration.IterateMonotone | valueIterationAgents.py:39-52 | Under the same conditions, the values after t sweeps are pointwise at most the values after t + 1 sweeps: iteration from the zero table never decreases a state's value |
| ValueIteration.LookaheadParts | valueIterationAgents.py:47-48 | For any transition list, the lookahead sum splits into its reward part Σ p·R(s, a, s') plus γ times the expected successor value Σ p·V(s') |
| ValueIteration.RewardSumConstant | valueIterationAgents.py:47-48 | When every transition of (s, a) earns the same reward c, the reward part is c·Σp |
| ValueIteration.LookaheadSplit | valueIterationAgents.py:47-48 | When every transition of (s, a) earns the same reward c, the lookahead equals c·Σp + γ·Σ p·V(s') |
| ValueIteration.QValueSplit | valueIterationAgents.py:60-71 | Under the same condition, and with probabilities summing to 1, Q(s, a) = c + γ·Σ p·V(s') |
| ValueIteration.QValueOrder | valueIterationAgents.py:60-71 | Under the same conditions, with γ ≥ 0, two actions' Q-values are ordered as their expected successor values are |
| ValueIteration.PolicyMaximizesQValue | valueIterationAgents.py:81-90 | When a state's reward does not depend on the action or successor, every action's probabilities sum to 1, and γ ≥ 0, the reward-free comparison of `getPolicy` still returns an action of greatest Q-value |
| Greedy.Max | qlearningAgents.py:57-60 | The running maximum seeded with −∞ is "none" exactly for no candidates; otherwise it is one of the candidates, and is at least all of them |
| Greedy.ValueOf | qlearningAgents.py:57-60 | The maximum with the "0 when nothing is legal" fallback: 0 for no candidates, otherwise one of the candidates and at least all of them |
| Greedy.MaxValue | qlearningAgents.py:57-60 | The loop computes `ValueOf` of its candidates |
| Greedy.Ties | qlearningAgents.py:68-76 | The tie list holds exactly the actions whose value equals the given value: each member is such an action, and each such action is a member |
| Greedy.BestActions | qlearningAgents.py:68-76 | The reset-on-strict-improvement and append-on-equality loop ends with the tie list at the maximum |
| Greedy.Policy | qlearningAgents.py:68-79 | None exactly when there are no actions; otherwise a member of the tie list at the maximum |
| Greedy.EpsilonGreedy | qlearningAgents.py:93-100 | No action gives None whatever the coin; an exploring coin gives some legal action; otherwise the result is a best action |
| Greedy.FirstArgmax | valueIterationAgents.py:81-89 | None exactly for no candidates; otherwise the index of a largest candidate, and no earlier candidate is as large |
| QLearning.QLearningAgent.constructor | qlearningAgents.py:37-40 | The Q-table starts empty, so every entry reads 0; the learning parameters are kept |
| QLearning.QLearningAgent.GetQValue | qlearningAgents.py:42-48 | A (state, action) pair never written reads 0.0; a written pair reads its stored entry |
| QLearning.QLearningAgent.GetValue | qlearningAgents.py:50-60 | 0 when no action is legal; otherwise the Q-value of some legal action, and at least the Q-value of every legal action |
| QLearning.QLearningAgent.GetPolicy | qlearningAgents.py:62-79 | None exactly when no action is legal; otherwise a legal action that is in the tie list and whose Q-value equals `getValue` |
| QLearning.QLearningAgent.GetAction | qlearningAgents.py:81-100 | None when nothing is legal, whatever the coin; with an exploring coin some legal action; otherwise a best action |
| QLearning.QLearningAgent.Update | qlearningAgents.py:102-114 | The new table is `Updated` of the old one: only entry (s, a) is written, from values read before the write |
| QLearning.Updated | qlearningAgents.py:111-114 | Entry (s, a) becomes (1 − α)·old + α·(r + γ·V(next)), with V read from the table before the write; the key set grows by (s, a) only; every other entry is unchanged |
| QLearning.UpdateExtremes | qlearningAgents.py:111-114 | α = 1 stores the target, α = 0 keeps the old value, and α = 1 with γ = 0 stores the reward |
| QLearning.UpdateBetween | qlearningAgents.py:111-114 | For 0 ≤ α ≤ 1, the updated entry lies between its old value and the target |
| QLearning.NeverUpdatedKeeps | qlearningAgents.py:42-48 | Replaying a trace of updates that never names (s, a) leaves Q(s, a) as it was; from the empty table it stays 0 |
| ApproximateQLearning.SumOverRemove | qlearningAgents.py:171-174 | The sum over a set of features does not depend on the order in which they are visited: any one feature can be taken out first |
| ApproximateQLearning.SumOverSupport | qlearningAgents.py:171-174 | Features missing from the weights or from the feature vector contribute nothing to the sum |
| ApproximateQLearning.DotSparse | qlearningAgents.py:165-174 | Summing over the weight keys, over the shared keys, or over the feature keys gives the same dot product; with no weights it is 0 |
| ApproximateQLearning.ApproximateQAgent.constructor | qlearningAgents.py:158-163 | The weights start empty; the extractor and learning parameters are kept |
| ApproximateQLearning.ApproximateQAgent.GetQValue | qlearningAgents.py:165-174 | The loop over the weight keys, taken in any order, returns the dot product w·φ(s, a) |
| ApproximateQLearning.ApproximateQAgent.QValues | qlearningAgents.py:50-60 | The row of dot products for the legal actions, in order |
| ApproximateQLearning.ApproximateQAgent.GetValue | qlearningAgents.py:50-60 | The inherited `getValue` on approximate Q-values: 0 when nothing is legal; otherwise one legal action's dot product, and at least every legal action's |
| ApproximateQLearning.ApproximateQAgent.GetPolicy | qlearningAgents.py:62-79 | The inherited `getPolicy`: None exactly when nothing is legal; otherwise a legal action in the tie list whose dot product equals `getValue` |
| ApproximateQLearning.ApproximateQAgent.GetAction | qlearningAgents.py:81-100 | The inherited `getAction`: None when nothing is legal; an exploring coin gives some legal action; otherwise a best action |
| ApproximateQLearning.ApproximateQAgent.Update | qlearningAgents.py:176-184 | The new weights are `UpdatedWeights` of the old ones, with the correction computed before any weight moves |
| ApproximateQLearning.ApproximateQAgent.MoveWeights | qlearningAgents.py:183-184 | After the loop over the feature keys, every feature of φ has moved by α·correction·φ_i, whatever the iteration order; no other weight changes |
| ApproximateQLearning.ShiftedStep | qlearningAgents.py:183-184 | Moving one more feature changes only that feature's weight, which had not moved before |
| ApproximateQLearning.UpdatedWeights | qlearningAgents.py:180-184 | Each active feature gets old weight + α·(r + γ·V(next) − w·φ(s, a))·φ_i. Inactive weights are unchanged. The key set grows by the active features only |
| ApproximateQLearning.SingleFeatureExample | qlearningAgents.py:176-184 | With a single feature of value 1, α = 1 and γ = 0, one update from empty weights to reward 5 sets that weight to 5, and the next Q-value is 5 |

## Left out

- `PacmanQAgent` (qlearningAgents.py:117-146): it only sets default parameters and reports the
  action to its parent (`doAction`). The agent lifecycle it belongs to is not part of this model.
- `ApproximateQAgent.final` (qlearningAgents.py:187-196): it delegates to the parent class and
  otherwise does nothing.
- The lookup of the extractor by name (qlearningAgents.py:159): the extractor is passed in as a
  function instead.
- Randomness: `util.flipCoin(epsilon)` is the boolean parameter `explore`, so `epsilon` is only
  stored. `random.choice` is a nondeterministic choice. The model says nothing about the
  probabilities of the choices.
- Greedy.EpsilonGreedy, QLearning.QLearningAgent.GetAction, ApproximateQLearning.ApproximateQAgent.GetAction:
  the Python code flips the coin before it checks for legal actions. With the coin as a parameter,
  that order cannot be seen.
- Floating point: values are `real`. Rounding, NaN and infinities are not modelled. The −∞ seed of a
  running maximum is `None`.
- Dictionary with default 0: `util.Counter` is not part of this model. Reads are the pure `Get`. A
  counter that inserts a 0 entry on every read would hold more keys than the maps here, but every
  value read would be the same.
- QLearning.QLearningAgent.GetValue, QLearning.QLearningAgent.GetPolicy, QLearning.QLearningAgent.GetAction,
  ApproximateQLearning.ApproximateQAgent.GetValue, ApproximateQLearning.ApproximateQAgent.GetPolicy,
  ApproximateQLearning.ApproximateQAgent.GetAction: they build the row of Q-values for the legal
  actions first, then run the Python maximum and tie loops over that row in the same order. On an
  exploring coin `getAction` computes no Q-value, while these members still build the row; the
  result is the same, only the amount of work differs.
- ValueIteration.ValueIterationAgent.constructor: the default arguments `discount=0.9` and
  `iterations=100` (valueIterationAgents.py:24) are not modelled; every caller passes both.
- The MDP, `getLegalActions` and the feature extractor are pure functions given as parameters
  (`getStates()` is a list). Their internals are not part of this model.
- ValueIteration.ValueIterationAgent.constructor: `iterations` is a natural number. A negative count
  runs no sweep in Python, which is the same as 0.
- ValueIteration.IterateMonotone: it holds only with non-negative rewards, probabilities and
  discount. The code does not require these.
- ValueIteration.PolicyMaximizesQValue: it assumes that each action's probabilities sum to 1 and
  that the reward at the state is a constant. For general rewards, `getPolicy` compares only
  Σ p·V(s'), which is exactly what `Policy` states.
- The docstring of `getPolicy` (valueIterationAgents.py:77) allows any tie-breaking. The value-iteration model follows the
  code, which keeps the first maximiser.
- Convergence of value iteration or Q-learning to an optimal value is not modelled. Only the
  finite-iteration behaviour is.
