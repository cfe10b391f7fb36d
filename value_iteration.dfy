/** Value iteration over a fully known finite MDP (`ValueIterationAgent`). */
module ValueIteration {
  import opened Options
  import opened Counter
  import Greedy

  /** The MDP the agent is constructed with: its state enumeration, the possible actions of a state,
      the successors of a state and action with their probabilities, and the reward of a transition. */
  datatype Mdp<!S, !A> = Mdp(
    states: seq<S>,
    actions: S -> seq<A>,
    trans: (S, A) -> seq<(S, real)>,
    reward: (S, A, S) -> real)

  /** The summand p·(R(s, a, s') + γ·V(s')) of one successor s' reached with probability p. */
  function Backup<S, A>(mdp: Mdp<S, A>, discount: real, values: map<S, real>, s: S, a: A, t: (S, real)): real
  {
    t.1 * (mdp.reward(s, a, t.0) + discount * Get(values, t.0))
  }

  /** Σ p·(R(s, a, s') + γ·V(s')) over the successor list `ts`, summed front to back. */
  function Lookahead<S, A>(mdp: Mdp<S, A>, discount: real, values: map<S, real>, s: S, a: A,
                           ts: seq<(S, real)>): real
  {
    if ts == [] then 0.0
    else Lookahead(mdp, discount, values, s, a, ts[..|ts| - 1]) + Backup(mdp, discount, values, s, a, ts[|ts| - 1])
  }

  /** The one-step lookahead Q(s, a) on the table `values`. */
  function QValue<S, A>(mdp: Mdp<S, A>, discount: real, values: map<S, real>, s: S, a: A): real
  {
    Lookahead(mdp, discount, values, s, a, mdp.trans(s, a))
  }

  /** The lookaheads of the actions `acts` of `s`, in order. */
  function QRow<S, A>(mdp: Mdp<S, A>, discount: real, values: map<S, real>, s: S, acts: seq<A>): seq<real>
  {
    seq(|acts|, i requires 0 <= i < |acts| => QValue(mdp, discount, values, s, acts[i]))
  }

  /** Σ p·V(s') over the successor list `ts`: what `getPolicy` compares, without the reward. */
  function Expected<S>(values: map<S, real>, ts: seq<(S, real)>): real
  {
    if ts == [] then 0.0
    else Expected(values, ts[..|ts| - 1]) + ts[|ts| - 1].1 * Get(values, ts[|ts| - 1].0)
  }

  /** The successor values Σ p·V(s') of the actions `acts` of `s`, in order. */
  function ExpectedRow<S, A>(mdp: Mdp<S, A>, values: map<S, real>, s: S, acts: seq<A>): seq<real>
  {
    seq(|acts|, i requires 0 <= i < |acts| => Expected(values, mdp.trans(s, acts[i])))
  }

  /** The fresh table a sweep has built after visiting the states `ss`, reading only `values`: a state
      with actions gets its best lookahead, a state without actions is not written. */
  function SweepOver<S, A>(mdp: Mdp<S, A>, discount: real, values: map<S, real>, ss: seq<S>): map<S, real>
  {
    if ss == [] then map[]
    else
      var s := ss[|ss| - 1];
      var partial := SweepOver(mdp, discount, values, ss[..|ss| - 1]);
      match Greedy.Max(QRow(mdp, discount, values, s, mdp.actions(s)))
      case None => partial
      case Some(m) => partial[s := m]
  }

  /** One synchronous Bellman-optimality sweep over every state of the MDP. */
  function Sweep<S, A>(mdp: Mdp<S, A>, discount: real, values: map<S, real>): map<S, real>
  {
    SweepOver(mdp, discount, values, mdp.states)
  }

  /** The table after `k` sweeps from the all-zero table. */
  function Iterate<S, A>(mdp: Mdp<S, A>, discount: real, k: nat): map<S, real>
  {
    if k == 0 then map[] else Sweep(mdp, discount, Iterate(mdp, discount, k - 1))
  }

  /** `getPolicy` on the table `values`: the first action, in enumeration order, whose successor value
      Σ p·V(s') is largest; None when `s` has no possible actions. */
  function Policy<S, A>(mdp: Mdp<S, A>, values: map<S, real>, s: S): (r: Option<A>)
    ensures r.None? <==> mdp.actions(s) == []
    ensures r.Some? ==> exists i | 0 <= i < |mdp.actions(s)| ::
      && mdp.actions(s)[i] == r.value
      && (forall j | 0 <= j < |mdp.actions(s)| ::
            Expected(values, mdp.trans(s, mdp.actions(s)[j])) <= Expected(values, mdp.trans(s, r.value)))
      && (forall j | 0 <= j < i ::
            Expected(values, mdp.trans(s, mdp.actions(s)[j])) < Expected(values, mdp.trans(s, r.value)))
  {
    var acts := mdp.actions(s);
    var row := ExpectedRow(mdp, values, s, acts);
    match Greedy.FirstArgmax(row)
    case None => None
    case Some(i) =>
      assert forall j | 0 <= j < |acts| :: row[j] == Expected(values, mdp.trans(s, acts[j]));
      Some(acts[i])
  }

  /** The value a sweep gives a state: 0 when it is not enumerated or has no actions, otherwise the
      largest lookahead of its actions on the previous table. */
  lemma {:induction false} SweepOverValue<S, A>(mdp: Mdp<S, A>, discount: real, values: map<S, real>,
                                                ss: seq<S>, s: S)
    ensures s !in ss || mdp.actions(s) == [] ==> Get(SweepOver(mdp, discount, values, ss), s) == 0.0
    ensures s in ss && mdp.actions(s) != [] ==>
      Get(SweepOver(mdp, discount, values, ss), s) == Greedy.ValueOf(QRow(mdp, discount, values, s, mdp.actions(s)))
  {
    if ss != [] {
      var last := ss[|ss| - 1];
      assert ss == ss[..|ss| - 1] + [last];
      SweepOverValue(mdp, discount, values, ss[..|ss| - 1], s);
    }
  }

  /** The Bellman-optimality backup of one sweep: a state outside the enumeration or without actions
      is 0; otherwise its new value is at least every action's lookahead on the previous table and
      equal to one of them. */
  lemma SweepValue<S, A>(mdp: Mdp<S, A>, discount: real, values: map<S, real>, s: S)
    ensures s !in mdp.states || mdp.actions(s) == [] ==> Get(Sweep(mdp, discount, values), s) == 0.0
    ensures s in mdp.states ==>
      forall a | a in mdp.actions(s) :: QValue(mdp, discount, values, s, a) <= Get(Sweep(mdp, discount, values), s)
    ensures s in mdp.states && mdp.actions(s) != [] ==>
      exists a | a in mdp.actions(s) :: QValue(mdp, discount, values, s, a) == Get(Sweep(mdp, discount, values), s)
  {
    SweepOverValue(mdp, discount, values, mdp.states, s);
    var acts := mdp.actions(s);
    var row := QRow(mdp, discount, values, s, acts);
    if s in mdp.states {
      forall a | a in acts
        ensures QValue(mdp, discount, values, s, a) <= Get(Sweep(mdp, discount, values), s)
      {
        var i :| 0 <= i < |acts| && acts[i] == a;
        assert row[i] == QValue(mdp, discount, values, s, a);
      }
      if acts != [] {
        var i :| 0 <= i < |row| && row[i] == Greedy.ValueOf(row);
        assert acts[i] in acts;
      }
    }
  }

  /** Rewards and probabilities are non-negative. */
  ghost predicate NonNegative<S(!new), A(!new)>(mdp: Mdp<S, A>)
  {
    && (forall s, a, next :: mdp.reward(s, a, next) >= 0.0)
    && (forall s, a, i | 0 <= i < |mdp.trans(s, a)| :: mdp.trans(s, a)[i].1 >= 0.0)
  }

  /** Every entry of `v` is at most the same entry of `w`. */
  ghost predicate Below<S(!new)>(v: map<S, real>, w: map<S, real>)
  {
    forall s :: Get(v, s) <= Get(w, s)
  }

  /** Scaling by a non-negative factor keeps an order. */
  lemma ScaleMonotone(c: real, x: real, y: real)
    requires c >= 0.0 && x <= y
    ensures c * x <= c * y
  {
  }

  /** One summand is monotone in the table it reads. */
  lemma BackupMonotone<S(!new), A(!new)>(mdp: Mdp<S, A>, discount: real, v: map<S, real>, w: map<S, real>,
                                         s: S, a: A, t: (S, real))
    requires NonNegative(mdp) && discount >= 0.0 && Below(v, w) && t.1 >= 0.0
    ensures Backup(mdp, discount, v, s, a, t) <= Backup(mdp, discount, w, s, a, t)
  {
    var r := mdp.reward(s, a, t.0);
    assert Get(v, t.0) <= Get(w, t.0);
    ScaleMonotone(discount, Get(v, t.0), Get(w, t.0));
    ScaleMonotone(t.1, r + discount * Get(v, t.0), r + discount * Get(w, t.0));
  }

  /** A lookahead is monotone in the table it reads. */
  lemma {:induction false} LookaheadMonotone<S(!new), A(!new)>(mdp: Mdp<S, A>, discount: real, v: map<S, real>,
                                                   w: map<S, real>, s: S, a: A, ts: seq<(S, real)>)
    requires NonNegative(mdp) && discount >= 0.0 && Below(v, w)
    requires forall i | 0 <= i < |ts| :: ts[i].1 >= 0.0
    ensures Lookahead(mdp, discount, v, s, a, ts) <= Lookahead(mdp, discount, w, s, a, ts)
  {
    if ts != [] {
      LookaheadMonotone(mdp, discount, v, w, s, a, ts[..|ts| - 1]);
      BackupMonotone(mdp, discount, v, w, s, a, ts[|ts| - 1]);
    }
  }

  /** A summand on a non-negative table is non-negative. */
  lemma BackupNonNegative<S(!new), A(!new)>(mdp: Mdp<S, A>, discount: real, v: map<S, real>, s: S, a: A, t: (S, real))
    requires NonNegative(mdp) && discount >= 0.0 && Below(map[], v) && t.1 >= 0.0
    ensures Backup(mdp, discount, v, s, a, t) >= 0.0
  {
    assert Get(map[], t.0) <= Get(v, t.0);
    ScaleMonotone(discount, 0.0, Get(v, t.0));
    ScaleMonotone(t.1, 0.0, mdp.reward(s, a, t.0) + discount * Get(v, t.0));
  }

  /** A lookahead on a non-negative table is non-negative. */
  lemma {:induction false} LookaheadNonNegative<S(!new), A(!new)>(mdp: Mdp<S, A>, discount: real, v: map<S, real>,
                                                      s: S, a: A, ts: seq<(S, real)>)
    requires NonNegative(mdp) && discount >= 0.0 && Below(map[], v)
    requires forall i | 0 <= i < |ts| :: ts[i].1 >= 0.0
    ensures Lookahead(mdp, discount, v, s, a, ts) >= 0.0
  {
    if ts != [] {
      LookaheadNonNegative(mdp, discount, v, s, a, ts[..|ts| - 1]);
      BackupNonNegative(mdp, discount, v, s, a, ts[|ts| - 1]);
    }
  }

  /** A sweep is monotone in the table it reads. */
  lemma SweepMonotone<S(!new), A(!new)>(mdp: Mdp<S, A>, discount: real, v: map<S, real>, w: map<S, real>)
    requires NonNegative(mdp) && discount >= 0.0 && Below(v, w)
    ensures Below(Sweep(mdp, discount, v), Sweep(mdp, discount, w))
  {
    forall s ensures Get(Sweep(mdp, discount, v), s) <= Get(Sweep(mdp, discount, w), s) {
      SweepValue(mdp, discount, v, s);
      SweepValue(mdp, discount, w, s);
      if s in mdp.states && mdp.actions(s) != [] {
        var a :| a in mdp.actions(s) && QValue(mdp, discount, v, s, a) == Get(Sweep(mdp, discount, v), s);
        LookaheadMonotone(mdp, discount, v, w, s, a, mdp.trans(s, a));
      }
    }
  }

  /** A sweep of a non-negative table is non-negative. */
  lemma SweepNonNegative<S(!new), A(!new)>(mdp: Mdp<S, A>, discount: real, v: map<S, real>)
    requires NonNegative(mdp) && discount >= 0.0 && Below(map[], v)
    ensures Below(map[], Sweep(mdp, discount, v))
  {
    forall s ensures Get(map[], s) <= Get(Sweep(mdp, discount, v), s) {
      SweepValue(mdp, discount, v, s);
      if s in mdp.states && mdp.actions(s) != [] {
        var a :| a in mdp.actions(s) && QValue(mdp, discount, v, s, a) == Get(Sweep(mdp, discount, v), s);
        LookaheadNonNegative(mdp, discount, v, s, a, mdp.trans(s, a));
      }
    }
  }

  /** With non-negative rewards, probabilities and discount, one more sweep never lowers a value. */
  lemma {:induction false} IterateMonotone<S(!new), A(!new)>(mdp: Mdp<S, A>, discount: real, t: nat)
    requires NonNegative(mdp) && discount >= 0.0
    ensures Below(Iterate(mdp, discount, t), Iterate(mdp, discount, t + 1))
  {
    if t == 0 {
      assert Below<S>(map[], map[]);
      SweepNonNegative(mdp, discount, map[]);
    } else {
      IterateMonotone(mdp, discount, t - 1);
      SweepMonotone(mdp, discount, Iterate(mdp, discount, t - 1), Iterate(mdp, discount, t));
    }
  }

  /** Σ p over the successor list `ts`. */
  function ProbabilitySum<S>(ts: seq<(S, real)>): real
  {
    if ts == [] then 0.0 else ProbabilitySum(ts[..|ts| - 1]) + ts[|ts| - 1].1
  }

  /** Σ p·R(s, a, s') over the successor list `ts`: the reward part of the lookahead. */
  function RewardSum<S, A>(mdp: Mdp<S, A>, s: S, a: A, ts: seq<(S, real)>): real
  {
    if ts == [] then 0.0
    else RewardSum(mdp, s, a, ts[..|ts| - 1]) + ts[|ts| - 1].1 * mdp.reward(s, a, ts[|ts| - 1].0)
  }

  /** Multiplication distributes over a sum `z` = x + y. */
  lemma Distribute(g: real, x: real, y: real, z: real)
    requires z == x + y
    ensures g * z == g * x + g * y
  {
  }

  /** One summand splits into its reward part and its discounted successor-value part. */
  lemma BackupParts<S, A>(mdp: Mdp<S, A>, discount: real, values: map<S, real>, s: S, a: A, t: (S, real))
    ensures Backup(mdp, discount, values, s, a, t) == t.1 * mdp.reward(s, a, t.0) + discount * (t.1 * Get(values, t.0))
  {
  }

  /** The lookahead is Σ p·R(s, a, s') + γ·Σ p·V(s'). */
  lemma {:induction false} LookaheadParts<S, A>(mdp: Mdp<S, A>, discount: real, values: map<S, real>, s: S, a: A,
                                                ts: seq<(S, real)>)
    ensures Lookahead(mdp, discount, values, s, a, ts) == RewardSum(mdp, s, a, ts) + discount * Expected(values, ts)
  {
    if ts != [] {
      var n := |ts| - 1;
      var pre, t := ts[..n], ts[n];
      LookaheadParts(mdp, discount, values, s, a, pre);
      BackupParts(mdp, discount, values, s, a, t);
      Distribute(discount, Expected(values, pre), t.1 * Get(values, t.0), Expected(values, ts));
    }
  }

  /** When every transition earns the same reward `c`, the reward part is c·Σp. */
  lemma {:induction false} RewardSumConstant<S, A>(mdp: Mdp<S, A>, s: S, a: A, ts: seq<(S, real)>, c: real)
    requires forall i | 0 <= i < |ts| :: mdp.reward(s, a, ts[i].0) == c
    ensures RewardSum(mdp, s, a, ts) == c * ProbabilitySum(ts)
  {
    if ts != [] {
      var n := |ts| - 1;
      var pre, t := ts[..n], ts[n];
      RewardSumConstant(mdp, s, a, pre, c);
      assert mdp.reward(s, a, t.0) == c;
      Distribute(c, ProbabilitySum(pre), t.1, ProbabilitySum(ts));
    }
  }

  /** Under the same condition the lookahead is c·Σp + γ·Σ p·V(s'). */
  lemma LookaheadSplit<S, A>(mdp: Mdp<S, A>, discount: real, values: map<S, real>, s: S, a: A,
                             ts: seq<(S, real)>, c: real)
    requires forall i | 0 <= i < |ts| :: mdp.reward(s, a, ts[i].0) == c
    ensures Lookahead(mdp, discount, values, s, a, ts) == c * ProbabilitySum(ts) + discount * Expected(values, ts)
  {
    LookaheadParts(mdp, discount, values, s, a, ts);
    RewardSumConstant(mdp, s, a, ts, c);
  }

  /** For one action whose transitions all earn `c` and whose probabilities sum to 1, the Q-value is
      c + γ·Σ p·V(s'). */
  lemma QValueSplit<S, A>(mdp: Mdp<S, A>, discount: real, values: map<S, real>, s: S, a: A, c: real)
    requires forall i | 0 <= i < |mdp.trans(s, a)| :: mdp.reward(s, a, mdp.trans(s, a)[i].0) == c
    requires ProbabilitySum(mdp.trans(s, a)) == 1.0
    ensures QValue(mdp, discount, values, s, a) == c + discount * Expected(values, mdp.trans(s, a))
  {
    LookaheadSplit(mdp, discount, values, s, a, mdp.trans(s, a), c);
  }

  /** Between two such actions, the Q-values are ordered like the expected successor values. */
  lemma QValueOrder<S, A>(mdp: Mdp<S, A>, discount: real, values: map<S, real>, s: S, a: A, b: A, c: real)
    requires discount >= 0.0
    requires forall i | 0 <= i < |mdp.trans(s, a)| :: mdp.reward(s, a, mdp.trans(s, a)[i].0) == c
    requires forall i | 0 <= i < |mdp.trans(s, b)| :: mdp.reward(s, b, mdp.trans(s, b)[i].0) == c
    requires ProbabilitySum(mdp.trans(s, a)) == 1.0 && ProbabilitySum(mdp.trans(s, b)) == 1.0
    requires Expected(values, mdp.trans(s, a)) <= Expected(values, mdp.trans(s, b))
    ensures QValue(mdp, discount, values, s, a) <= QValue(mdp, discount, values, s, b)
  {
    var ea, eb := Expected(values, mdp.trans(s, a)), Expected(values, mdp.trans(s, b));
    QValueSplit(mdp, discount, values, s, a, c);
    QValueSplit(mdp, discount, values, s, b, c);
    ScaleMonotone(discount, ea, eb);
  }

  /** `getPolicy` leaves the reward out of its comparison. When the reward of every transition out of
      `s` is the same constant and each action's probabilities sum to 1, the discount being
      non-negative, the action it returns still has the largest Q-value on the same table. */
  lemma PolicyMaximizesQValue<S, A>(mdp: Mdp<S, A>, discount: real, values: map<S, real>, s: S, c: real)
    requires discount >= 0.0
    requires forall a, i | a in mdp.actions(s) && 0 <= i < |mdp.trans(s, a)| :: mdp.reward(s, a, mdp.trans(s, a)[i].0) == c
    requires forall a | a in mdp.actions(s) :: ProbabilitySum(mdp.trans(s, a)) == 1.0
    ensures Policy(mdp, values, s).Some? ==> forall a | a in mdp.actions(s) ::
      QValue(mdp, discount, values, s, a) <= QValue(mdp, discount, values, s, Policy(mdp, values, s).value)
  {
    var r := Policy(mdp, values, s);
    if r.Some? {
      var b := r.value;
      var acts := mdp.actions(s);
      assert b in acts;
      forall a | a in acts
        ensures QValue(mdp, discount, values, s, a) <= QValue(mdp, discount, values, s, b)
      {
        var j :| 0 <= j < |acts| && acts[j] == a;
        assert Expected(values, mdp.trans(s, a)) <= Expected(values, mdp.trans(s, b));
        QValueOrder(mdp, discount, values, s, a, b, c);
      }
    }
  }

  class ValueIterationAgent<S(==), A> {
    const mdp: Mdp<S, A>
    const discount: real
    const iterations: nat
    var values: map<S, real>

    /** After construction the table is the result of `iterations` sweeps. */
    ghost predicate Valid()
      reads this
    {
      values == Iterate(mdp, discount, iterations)
    }

    /** Runs `iterations` synchronous sweeps: each one fills a fresh table from the previous one and
        only then replaces `values`. */
    constructor (mdp: Mdp<S, A>, discount: real, iterations: nat)
      ensures this.mdp == mdp && this.discount == discount && this.iterations == iterations
      ensures Valid()
    {
      this.mdp := mdp;
      this.discount := discount;
      this.iterations := iterations;
      values := map[];
      new;
      for t := 0 to iterations
        invariant values == Iterate(mdp, discount, t)
      {
        values := SweepOnce();
      }
    }

    /** One sweep of the constructor's loop: a fresh table built from `values`, which it only reads. */
    method SweepOnce() returns (newValues: map<S, real>)
      ensures newValues == Sweep(mdp, discount, values)
    {
      newValues := map[];
      var states := mdp.states;
      for i := 0 to |states|
        invariant newValues == SweepOver(mdp, discount, values, states[..i])
      {
        assert states[..i + 1][..i] == states[..i];
        var state := states[i];
        var maxVal := BestLookahead(state);
        if maxVal.Some? {
          newValues := newValues[state := maxVal.value];
        }
      }
      assert states[..|states|] == states;
    }

    /** The running maximum over the actions of `state`, seeded with `-inf` (None): None when it has no
        actions, otherwise the largest lookahead on `values`. */
    method BestLookahead(state: S) returns (maxVal: Option<real>)
      ensures maxVal == Greedy.Max(QRow(mdp, discount, values, state, mdp.actions(state)))
    {
      var acts := mdp.actions(state);
      ghost var row := QRow(mdp, discount, values, state, acts);
      maxVal := None;
      for j := 0 to |acts|
        invariant maxVal == Greedy.Max(row[..j])
      {
        assert row[..j + 1][..j] == row[..j];
        var total := GetQValue(state, acts[j]);
        assert total == row[j];
        maxVal := if maxVal.None? || maxVal.value < total then Some(total) else maxVal;
      }
      assert row[..|acts|] == row;
    }

    /** The stored value of `s` (0 when absent). It is 0 after no sweep, and 0 for a state outside the
        enumeration or without actions; otherwise it is the best lookahead on the previous sweep's table. */
    function GetValue(s: S): (v: real)
      reads this
      requires Valid()
      ensures iterations == 0 ==> v == 0.0
      ensures s !in mdp.states || mdp.actions(s) == [] ==> v == 0.0
      ensures iterations > 0 && s in mdp.states ==> forall a | a in mdp.actions(s) ::
        QValue(mdp, discount, Iterate(mdp, discount, iterations - 1), s, a) <= v
      ensures iterations > 0 && s in mdp.states && mdp.actions(s) != [] ==> exists a | a in mdp.actions(s) ::
        QValue(mdp, discount, Iterate(mdp, discount, iterations - 1), s, a) == v
    {
      if iterations > 0 then
        SweepValue(mdp, discount, Iterate(mdp, discount, iterations - 1), s);
        Get(values, s)
      else
        Get(values, s)
    }

    /** Q(s, a) recomputed from the stored table: Σ p·(R(s, a, s') + γ·V(s')); the table is only read. */
    method GetQValue(s: S, a: A) returns (total: real)
      ensures total == QValue(mdp, discount, values, s, a)
    {
      var ts := mdp.trans(s, a);
      total := 0.0;
      for k := 0 to |ts|
        invariant total == Lookahead(mdp, discount, values, s, a, ts[..k])
      {
        assert ts[..k + 1][..k] == ts[..k];
        var (next, p) := ts[k];
        total := total + p * (mdp.reward(s, a, next) + discount * Get(values, next));
        assert total == Lookahead(mdp, discount, values, s, a, ts[..k]) + Backup(mdp, discount, values, s, a, ts[k]);
      }
      assert ts[..|ts|] == ts;
    }

    /** Σ p·V(s') over the successors of `s` and `a`, as the inner loop of `getPolicy` sums it. */
    method ExpectedValue(s: S, a: A) returns (total: real)
      ensures total == Expected(values, mdp.trans(s, a))
    {
      var ts := mdp.trans(s, a);
      total := 0.0;
      for k := 0 to |ts|
        invariant total == Expected(values, ts[..k])
      {
        assert ts[..k + 1][..k] == ts[..k];
        var (next, p) := ts[k];
        total := total + p * Get(values, next);
      }
      assert ts[..|ts|] == ts;
    }

    /** The first action with the largest successor value (the reward is left out of the comparison);
        None when `s` has no possible actions. */
    method GetPolicy(s: S) returns (r: Option<A>)
      ensures r == Policy(mdp, values, s)
    {
      var acts := mdp.actions(s);
      ghost var row := ExpectedRow(mdp, values, s, acts);
      var maxVal: Option<real> := None;
      ghost var best: Option<nat> := None;
      r := None;
      for i := 0 to |acts|
        invariant best == Greedy.FirstArgmax(row[..i])
        invariant best.None? ==> maxVal.None? && r.None?
        invariant best.Some? ==> best.value < i && maxVal == Some(row[best.value]) && r == Some(acts[best.value])
      {
        assert row[..i + 1][..i] == row[..i];
        var total := ExpectedValue(s, acts[i]);
        if maxVal.None? || maxVal.value < total {
          maxVal := Some(total);
          best := Some(i);
          r := Some(acts[i]);
        }
      }
      assert row[..|acts|] == row;
    }

    /** No exploration: the action is the policy's. */
    method GetAction(s: S) returns (r: Option<A>)
      ensures r == Policy(mdp, values, s)
    {
      r := GetPolicy(s);
    }
  }
}
