/** Linear approximate Q-learning (`ApproximateQAgent`): the Q-table is replaced by a default-zero weight
    map, Q(s, a) is the sparse dot product of the weights with the extracted features, and the update
    moves every extracted feature's weight along the TD error. Action selection is the tabular
    learner's, over these Q-values. */
module ApproximateQLearning {
  import opened Options
  import opened Counter
  import Greedy

  /** The contribution w[f]·φ[f] of one feature, absent entries reading as 0. */
  function Term<F>(w: map<F, real>, phi: map<F, real>, f: F): real
  {
    Get(w, f) * Get(phi, f)
  }

  /** Σ w[f]·φ[f] over the features `keys`. */
  ghost function SumOver<F>(keys: set<F>, w: map<F, real>, phi: map<F, real>): real
    decreases keys
  {
    if keys == {} then 0.0
    else
      var f :| f in keys;
      Term(w, phi, f) + SumOver(keys - {f}, w, phi)
  }

  /** The sparse dot product of `getQValue`: the sum over the keys present in the weights. */
  ghost function Dot<F>(w: map<F, real>, phi: map<F, real>): real
  {
    SumOver(w.Keys, w, phi)
  }

  /** The sum does not depend on the order the features are taken in: any one of them can be split off. */
  lemma {:induction false} SumOverRemove<F>(keys: set<F>, w: map<F, real>, phi: map<F, real>, f: F)
    requires f in keys
    ensures SumOver(keys, w, phi) == Term(w, phi, f) + SumOver(keys - {f}, w, phi)
    decreases keys
  {
    var g :| g in keys && SumOver(keys, w, phi) == Term(w, phi, g) + SumOver(keys - {g}, w, phi);
    if g != f {
      SumOverRemove(keys - {g}, w, phi, f);
      SumOverRemove(keys - {f}, w, phi, g);
      assert keys - {g} - {f} == keys - {f} - {g};
    }
  }

  /** Only features that are both weighted and extracted contribute to the sum. */
  lemma {:induction false} SumOverSupport<F>(keys: set<F>, w: map<F, real>, phi: map<F, real>)
    ensures SumOver(keys, w, phi) == SumOver(keys * w.Keys * phi.Keys, w, phi)
    decreases keys
  {
    if keys != {} {
      var f :| f in keys;
      SumOverRemove(keys, w, phi, f);
      SumOverSupport(keys - {f}, w, phi);
      var both := keys * w.Keys * phi.Keys;
      if f in w && f in phi {
        SumOverRemove(both, w, phi, f);
        assert (keys - {f}) * w.Keys * phi.Keys == both - {f};
      } else {
        assert Term(w, phi, f) == 0.0;
        assert (keys - {f}) * w.Keys * phi.Keys == both;
      }
    }
  }

  /** Features missing from φ contribute 0: the weight-keyed sum equals the sum over the features both
      weighted and extracted, and the same sum keyed by φ; with no weights it is 0. */
  lemma DotSparse<F>(w: map<F, real>, phi: map<F, real>)
    ensures Dot(w, phi) == SumOver(w.Keys * phi.Keys, w, phi)
    ensures Dot(w, phi) == SumOver(phi.Keys, w, phi)
    ensures w == map[] ==> Dot(w, phi) == 0.0
  {
    SumOverSupport(w.Keys, w, phi);
    SumOverSupport(phi.Keys, w, phi);
    assert w.Keys * w.Keys * phi.Keys == w.Keys * phi.Keys;
    assert phi.Keys * w.Keys * phi.Keys == w.Keys * phi.Keys;
  }

  /** The Q-values of the actions `acts` of `s` under the weights `w`, in enumeration order. */
  ghost function Row<S, A, F>(w: map<F, real>, extractor: (S, A) -> map<F, real>, s: S, acts: seq<A>): seq<real>
  {
    seq(|acts|, i requires 0 <= i < |acts| => Dot(w, extractor(s, acts[i])))
  }

  /** `getValue` under the weights `w`: the best Q-value of a legal action, 0 when there is none. */
  ghost function Value<S, A, F>(w: map<F, real>, legal: S -> seq<A>, extractor: (S, A) -> map<F, real>, s: S): real
  {
    Greedy.ValueOf(Row(w, extractor, s, legal(s)))
  }

  /** The TD error reward + γ·getValue(next) − getQValue(s, a), from the weights before the update. */
  ghost function Correction<S, A, F>(w: map<F, real>, legal: S -> seq<A>, extractor: (S, A) -> map<F, real>,
                                     discount: real, s: S, a: A, next: S, reward: real): real
  {
    reward + discount * Value(w, legal, extractor, next) - Dot(w, extractor(s, a))
  }

  /** The weights after the features in `done` have each been moved by α·correction·φ[f]. */
  function Shifted<F>(w: map<F, real>, phi: map<F, real>, alpha: real, correction: real, done: set<F>): map<F, real>
  {
    w + map f | f in done && f in phi :: Get(w, f) + Increment(alpha, correction, phi[f])
  }

  /** The amount α·correction·φ[f] one feature's weight moves by. */
  function Increment(alpha: real, correction: real, x: real): real
  {
    alpha * correction * x
  }

  /** Moving one more feature is one more map write; a feature not yet moved keeps its weight. */
  lemma ShiftedStep<F>(w: map<F, real>, phi: map<F, real>, alpha: real, correction: real, done: set<F>, f: F)
    requires f in phi && f !in done
    ensures Get(Shifted(w, phi, alpha, correction, done), f) == Get(w, f)
    ensures Shifted(w, phi, alpha, correction, done + {f})
         == Shifted(w, phi, alpha, correction, done)[f := Get(w, f) + Increment(alpha, correction, phi[f])]
  {
  }

  /** The weights after `update(s, a, next, reward)`: one correction, computed before any weight
      changes, moves every extracted feature f by α·correction·φ[f]; every other weight is unchanged. */
  ghost function UpdatedWeights<S, A, F>(w: map<F, real>, legal: S -> seq<A>, extractor: (S, A) -> map<F, real>,
                                         alpha: real, discount: real, s: S, a: A, next: S, reward: real): (w': map<F, real>)
    ensures w'.Keys == w.Keys + extractor(s, a).Keys
    ensures forall f | f in extractor(s, a) ::
      w'[f] == Get(w, f) + Increment(alpha, Correction(w, legal, extractor, discount, s, a, next, reward), extractor(s, a)[f])
    ensures forall f | f in w && f !in extractor(s, a) :: w'[f] == w[f]
  {
    var phi := extractor(s, a);
    Shifted(w, phi, alpha, Correction(w, legal, extractor, discount, s, a, next, reward), phi.Keys)
  }

  /** One feature of value 1, no weights yet, α = 1, γ = 0 and reward 5: the weight becomes 5, and so
      does Q(s, a). */
  lemma SingleFeatureExample<S, A, F>(legal: S -> seq<A>, extractor: (S, A) -> map<F, real>,
                                      s: S, a: A, next: S, f: F)
    requires extractor(s, a) == map[f := 1.0]
    ensures UpdatedWeights(map[], legal, extractor, 1.0, 0.0, s, a, next, 5.0) == map[f := 5.0]
    ensures Dot(map[f := 5.0], extractor(s, a)) == 5.0
  {
    var phi := extractor(s, a);
    assert Dot(map[], phi) == 0.0;
    var w' := UpdatedWeights(map[], legal, extractor, 1.0, 0.0, s, a, next, 5.0);
    assert w'.Keys == {f};
    SumOverRemove({f}, map[f := 5.0], phi, f);
    assert {f} - {f} == {};
  }

  class ApproximateQAgent<S, A, F(==)> {
    const alpha: real
    const epsilon: real
    const discount: real
    /** `getLegalActions`, supplied by the agent lifecycle. */
    const legalActions: S -> seq<A>
    /** The feature extractor. */
    const extractor: (S, A) -> map<F, real>
    var weights: map<F, real>

    /** A learner whose weights are all 0. */
    constructor (alpha: real, epsilon: real, discount: real, legalActions: S -> seq<A>,
                 extractor: (S, A) -> map<F, real>)
      ensures this.alpha == alpha && this.epsilon == epsilon && this.discount == discount
      ensures this.legalActions == legalActions && this.extractor == extractor
      ensures weights == map[]
    {
      this.alpha := alpha;
      this.epsilon := epsilon;
      this.discount := discount;
      this.legalActions := legalActions;
      this.extractor := extractor;
      weights := map[];
    }

    /** Q(s, a): Σ weights[f]·φ(s, a)[f] over the weighted features. */
    method GetQValue(s: S, a: A) returns (total: real)
      ensures total == Dot(weights, extractor(s, a))
    {
      var featureValues := extractor(s, a);
      var w := weights;
      ghost var dot := Dot(w, featureValues);
      total := 0.0;
      var pending := w.Keys;
      while pending != {}
        invariant pending <= w.Keys
        invariant total + SumOver(pending, w, featureValues) == dot
        decreases pending
      {
        var f :| f in pending;
        SumOverRemove(pending, w, featureValues, f);
        total := total + Term(w, featureValues, f);
        pending := pending - {f};
      }
    }

    /** The Q-values of the legal actions of `s`, in enumeration order. */
    method QValues(s: S) returns (qs: seq<real>)
      ensures qs == Row(weights, extractor, s, legalActions(s))
    {
      var acts := legalActions(s);
      qs := [];
      for i := 0 to |acts|
        invariant |qs| == i
        invariant forall j | 0 <= j < i :: qs[j] == Dot(weights, extractor(s, acts[j]))
      {
        var q := GetQValue(s, acts[i]);
        qs := qs + [q];
      }
    }

    /** The best Q-value over the legal actions of `s`, exactly 0 when it has none. */
    method GetValue(s: S) returns (v: real)
      ensures v == Value(weights, legalActions, extractor, s)
      ensures legalActions(s) == [] ==> v == 0.0
      ensures forall i | 0 <= i < |legalActions(s)| :: Dot(weights, extractor(s, legalActions(s)[i])) <= v
      ensures legalActions(s) != [] ==>
        exists i | 0 <= i < |legalActions(s)| :: Dot(weights, extractor(s, legalActions(s)[i])) == v
    {
      var qs := QValues(s);
      v := Greedy.MaxValue(qs);
      assert forall i | 0 <= i < |qs| :: qs[i] == Dot(weights, extractor(s, legalActions(s)[i]));
    }

    /** None when `s` has no legal action; otherwise one of the legal actions whose Q-value equals the
        maximum. */
    method GetPolicy(s: S) returns (r: Option<A>)
      ensures r.None? <==> legalActions(s) == []
      ensures r.Some? ==>
        r.value in Greedy.Ties(legalActions(s), Row(weights, extractor, s, legalActions(s)), Value(weights, legalActions, extractor, s))
      ensures r.Some? ==> r.value in legalActions(s) && Dot(weights, extractor(s, r.value)) == Value(weights, legalActions, extractor, s)
    {
      var qs := QValues(s);
      r := Greedy.Policy(legalActions(s), qs);
    }

    /** Epsilon-greedy over these Q-values, as in the tabular learner. */
    method GetAction(s: S, explore: bool) returns (r: Option<A>)
      ensures legalActions(s) == [] ==> r.None?
      ensures legalActions(s) != [] && explore ==> r.Some? && r.value in legalActions(s)
      ensures legalActions(s) != [] && !explore ==>
        r.Some? && r.value in Greedy.Ties(legalActions(s), Row(weights, extractor, s, legalActions(s)), Value(weights, legalActions, extractor, s))
    {
      var qs := QValues(s);
      r := Greedy.EpsilonGreedy(legalActions(s), qs, explore);
    }

    /** The gradient step after observing `s` --`a`--> `next` with `reward`. */
    method Update(s: S, a: A, next: S, reward: real)
      modifies this
      ensures weights == UpdatedWeights(old(weights), legalActions, extractor, alpha, discount, s, a, next, reward)
    {
      var featureVals := extractor(s, a);
      var maxNext := GetValue(next);
      var q := GetQValue(s, a);
      var correction := reward + discount * maxNext - q;
      assert correction == Correction(weights, legalActions, extractor, discount, s, a, next, reward);
      MoveWeights(featureVals, correction);
    }

    /** The loop of `update`: every feature of `featureVals`, in any order, gains
        α·correction·featureVals[f] on top of its current (default-zero) weight. */
    method MoveWeights(featureVals: map<F, real>, correction: real)
      modifies this
      ensures weights == Shifted(old(weights), featureVals, alpha, correction, featureVals.Keys)
    {
      ghost var w0 := weights;
      var pending := featureVals.Keys;
      while pending != {}
        invariant pending <= featureVals.Keys
        invariant weights == Shifted(w0, featureVals, alpha, correction, featureVals.Keys - pending)
        decreases pending
      {
        var f :| f in pending;
        ghost var done := featureVals.Keys - pending;
        ShiftedStep(w0, featureVals, alpha, correction, done, f);
        ghost var moved := Get(w0, f) + Increment(alpha, correction, featureVals[f]);
        assert Get(weights, f) + alpha * correction * featureVals[f] == moved;
        weights := weights[f := Get(weights, f) + alpha * correction * featureVals[f]];
        assert weights == Shifted(w0, featureVals, alpha, correction, done)[f := moved];
        assert featureVals.Keys - (pending - {f}) == done + {f};
        pending := pending - {f};
      }
      assert featureVals.Keys - pending == featureVals.Keys;
    }
  }
}
