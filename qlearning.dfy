/** Tabular Q-learning (`QLearningAgent`): a default-zero table from (state, action) to a Q-value,
    greedy and epsilon-greedy action selection, and the one-step TD update. */
module QLearning {
  import opened Options
  import opened Counter
  import Greedy

  /** The Q-values of the actions `acts` of `s` in the table `q`, in enumeration order. */
  function Row<S(==), A(==)>(q: map<(S, A), real>, s: S, acts: seq<A>): seq<real>
  {
    seq(|acts|, i requires 0 <= i < |acts| => Get(q, (s, acts[i])))
  }

  /** `getValue` on the table `q`: the best Q-value of a legal action of `s`, 0 when there is none. */
  function Value<S(==), A(==)>(q: map<(S, A), real>, legal: S -> seq<A>, s: S): real
  {
    Greedy.ValueOf(Row(q, s, legal(s)))
  }

  /** The convex combination (1 - α)·prev + α·target of the TD update. */
  function Blend(alpha: real, prev: real, target: real): real
  {
    (1.0 - alpha) * prev + alpha * target
  }

  /** The table after `update(s, a, next, reward)`: the entry (s, a) becomes the convex combination of
      its old value and the target reward + γ·getValue(next), both read from the table before the
      write (also when `next == s`); no other entry changes. */
  function Updated<S(==), A(==)>(q: map<(S, A), real>, legal: S -> seq<A>, alpha: real, discount: real,
                         s: S, a: A, next: S, reward: real): (q': map<(S, A), real>)
    ensures Get(q', (s, a)) == (1.0 - alpha) * Get(q, (s, a)) + alpha * (reward + discount * Value(q, legal, next))
    ensures q'.Keys == q.Keys + {(s, a)}
    ensures forall k | k in q && k != (s, a) :: q'[k] == q[k]
  {
    q[(s, a) := Blend(alpha, Get(q, (s, a)), reward + discount * Value(q, legal, next))]
  }

  /** A learning rate of 1 stores exactly the target, a learning rate of 0 leaves the entry's value as
      it was; with a discount of 0 as well, a learning rate of 1 stores exactly the reward. */
  lemma UpdateExtremes<S, A>(q: map<(S, A), real>, legal: S -> seq<A>, discount: real,
                             s: S, a: A, next: S, reward: real)
    ensures Get(Updated(q, legal, 1.0, discount, s, a, next, reward), (s, a)) == reward + discount * Value(q, legal, next)
    ensures Get(Updated(q, legal, 0.0, discount, s, a, next, reward), (s, a)) == Get(q, (s, a))
    ensures Get(Updated(q, legal, 1.0, 0.0, s, a, next, reward), (s, a)) == reward
  {
  }

  /** With 0 ≤ α ≤ 1 the blend lies between its two ends. */
  lemma BlendBetween(alpha: real, prev: real, target: real)
    requires 0.0 <= alpha <= 1.0
    ensures prev <= target ==> prev <= Blend(alpha, prev, target) <= target
    ensures target <= prev ==> target <= Blend(alpha, prev, target) <= prev
  {
    var d := target - prev;
    assert Blend(alpha, prev, target) == prev + alpha * d;
    if d >= 0.0 {
      assert 0.0 <= alpha * d <= d;
    } else {
      assert d <= alpha * d <= 0.0;
    }
  }

  /** With a learning rate in [0, 1], the updated entry lies between its old value and the target
      reward + γ·getValue(next), so one update never overshoots the sample it learns from. */
  lemma UpdateBetween<S, A>(q: map<(S, A), real>, legal: S -> seq<A>, alpha: real, discount: real,
                            s: S, a: A, next: S, reward: real)
    requires 0.0 <= alpha <= 1.0
    ensures var prev, target := Get(q, (s, a)), reward + discount * Value(q, legal, next);
      var v := Get(Updated(q, legal, alpha, discount, s, a, next, reward), (s, a));
      (prev <= target ==> prev <= v <= target) && (target <= prev ==> target <= v <= prev)
  {
    BlendBetween(alpha, Get(q, (s, a)), reward + discount * Value(q, legal, next));
  }

  /** One observed transition, as the agent lifecycle passes it to `update`. */
  datatype Transition<S, A> = Transition(state: S, action: A, next: S, reward: real)

  /** The table after `update` has been called on each transition of `trace` in turn. */
  ghost function Replay<S, A>(q: map<(S, A), real>, legal: S -> seq<A>, alpha: real, discount: real,
                        trace: seq<Transition<S, A>>): map<(S, A), real>
    decreases |trace|
  {
    if trace == [] then q
    else
      var t := trace[0];
      Replay(Updated(q, legal, alpha, discount, t.state, t.action, t.next, t.reward), legal, alpha, discount, trace[1..])
  }

  /** A pair that no transition of `trace` updated keeps its Q-value; from the empty table, it is 0. */
  lemma {:induction false} NeverUpdatedKeeps<S, A>(q: map<(S, A), real>, legal: S -> seq<A>, alpha: real,
                                                   discount: real, trace: seq<Transition<S, A>>, s: S, a: A)
    requires forall i | 0 <= i < |trace| :: (trace[i].state, trace[i].action) != (s, a)
    ensures Get(Replay(q, legal, alpha, discount, trace), (s, a)) == Get(q, (s, a))
    ensures q == map[] ==> Get(Replay(q, legal, alpha, discount, trace), (s, a)) == 0.0
    decreases |trace|
  {
    if trace != [] {
      var t := trace[0];
      var q1 := Updated(q, legal, alpha, discount, t.state, t.action, t.next, t.reward);
      assert forall i | 0 <= i < |trace[1..]| :: trace[1..][i] == trace[i + 1];
      NeverUpdatedKeeps(q1, legal, alpha, discount, trace[1..], s, a);
    }
  }

  class QLearningAgent<S(==), A(==)> {
    const alpha: real
    const epsilon: real
    const discount: real
    /** `getLegalActions`, supplied by the agent lifecycle. */
    const legalActions: S -> seq<A>
    var qValues: map<(S, A), real>

    /** A learner with an empty table. */
    constructor (alpha: real, epsilon: real, discount: real, legalActions: S -> seq<A>)
      ensures this.alpha == alpha && this.epsilon == epsilon && this.discount == discount
      ensures this.legalActions == legalActions
      ensures qValues == map[]
    {
      this.alpha := alpha;
      this.epsilon := epsilon;
      this.discount := discount;
      this.legalActions := legalActions;
      qValues := map[];
    }

    /** Q(state, action): the stored entry, 0 for a pair never seen. */
    function GetQValue(s: S, a: A): (q: real)
      reads this
      ensures (s, a) !in qValues ==> q == 0.0
      ensures (s, a) in qValues ==> q == qValues[(s, a)]
    {
      Get(qValues, (s, a))
    }

    /** The best Q-value over the legal actions of `s`, exactly 0 when it has none. */
    method GetValue(s: S) returns (v: real)
      ensures v == Value(qValues, legalActions, s)
      ensures legalActions(s) == [] ==> v == 0.0
      ensures forall a | a in legalActions(s) :: GetQValue(s, a) <= v
      ensures legalActions(s) != [] ==> exists a | a in legalActions(s) :: GetQValue(s, a) == v
    {
      var acts := legalActions(s);
      var qs := Row(qValues, s, acts);
      v := Greedy.MaxValue(qs);
      forall a | a in acts ensures GetQValue(s, a) <= v {
        var i :| 0 <= i < |acts| && acts[i] == a;
        assert qs[i] == GetQValue(s, a);
      }
      if acts != [] {
        var i :| 0 <= i < |qs| && qs[i] == v;
        assert acts[i] in acts;
      }
    }

    /** None when `s` has no legal action; otherwise one of the legal actions whose Q-value equals the
        maximum (the tie set, chosen from at random). */
    method GetPolicy(s: S) returns (r: Option<A>)
      ensures r.None? <==> legalActions(s) == []
      ensures r.Some? ==> r.value in Greedy.Ties(legalActions(s), Row(qValues, s, legalActions(s)), Value(qValues, legalActions, s))
      ensures r.Some? ==> r.value in legalActions(s) && GetQValue(s, r.value) == Value(qValues, legalActions, s)
    {
      var acts := legalActions(s);
      var qs := Row(qValues, s, acts);
      r := Greedy.Policy(acts, qs);
    }

    /** Epsilon-greedy: None when `s` has no legal action whatever the coin says; on a true coin (the
        outcome of `flipCoin(epsilon)`) some legal action; on a false coin a choice of `getPolicy`. */
    method GetAction(s: S, explore: bool) returns (r: Option<A>)
      ensures legalActions(s) == [] ==> r.None?
      ensures legalActions(s) != [] && explore ==> r.Some? && r.value in legalActions(s)
      ensures legalActions(s) != [] && !explore ==>
        r.Some? && r.value in Greedy.Ties(legalActions(s), Row(qValues, s, legalActions(s)), Value(qValues, legalActions, s))
    {
      var acts := legalActions(s);
      var qs := Row(qValues, s, acts);
      r := Greedy.EpsilonGreedy(acts, qs, explore);
    }

    /** The TD(0) update after observing `s` --`a`--> `next` with `reward`. */
    method Update(s: S, a: A, next: S, reward: real)
      modifies this
      ensures qValues == Updated(old(qValues), legalActions, alpha, discount, s, a, next, reward)
    {
      var prevVal := GetQValue(s, a);
      var maxNext := GetValue(next);
      var nextVal := reward + discount * maxNext;
      qValues := qValues[(s, a) := Blend(alpha, prevVal, nextVal)];
    }
  }
}
