/** Greedy selection over the row of Q-values of a state's actions: the running maximum, the tie set,
    the first maximiser and the epsilon-greedy choice. The row `qs` lists the Q-value of each action of
    `acts` at the same index. */
module Greedy {
  import opened Options

  /** The maximum of `qs` as `max(max_next, q)` folds it from a `-inf` seed; None when `qs` is empty. */
  function Max(qs: seq<real>): (m: Option<real>)
    ensures m.None? <==> qs == []
    ensures m.Some? ==> forall i | 0 <= i < |qs| :: qs[i] <= m.value
    ensures m.Some? ==> exists i | 0 <= i < |qs| :: qs[i] == m.value
  {
    if qs == [] then None
    else
      var n := |qs| - 1;
      assert forall i | 0 <= i < n :: qs[..n][i] == qs[i];
      match Max(qs[..n])
      case None => Some(qs[n])
      case Some(prev) => Some(if prev < qs[n] then qs[n] else prev)
  }

  /** The value of a state: the largest Q-value of its actions, or exactly 0 when it has none. */
  function ValueOf(qs: seq<real>): (v: real)
    ensures qs == [] ==> v == 0.0
    ensures forall i | 0 <= i < |qs| :: qs[i] <= v
    ensures qs != [] ==> exists i | 0 <= i < |qs| :: qs[i] == v
  {
    match Max(qs)
    case None => 0.0
    case Some(m) => m
  }

  /** The actions whose Q-value equals `m`, in enumeration order. */
  function Ties<A>(acts: seq<A>, qs: seq<real>, m: real): (t: seq<A>)
    requires |acts| == |qs|
    ensures forall a | a in t :: exists i | 0 <= i < |acts| :: acts[i] == a && qs[i] == m
    ensures forall i | 0 <= i < |acts| && qs[i] == m :: acts[i] in t
  {
    if acts == [] then []
    else
      var n := |acts| - 1;
      assert forall i | 0 <= i < n :: acts[..n][i] == acts[i] && qs[..n][i] == qs[i];
      Ties(acts[..n], qs[..n], m) + (if qs[n] == m then [acts[n]] else [])
  }

  /** No action ties with a value above every Q-value. */
  lemma TiesAbove<A>(acts: seq<A>, qs: seq<real>, m: real)
    requires |acts| == |qs|
    requires forall i | 0 <= i < |qs| :: qs[i] < m
    ensures Ties(acts, qs, m) == []
  {
  }

  /** The index of the first maximal Q-value, as a scan that replaces its candidate only on a strict
      improvement over a `-inf` seed; None when `qs` is empty. */
  function FirstArgmax(qs: seq<real>): (r: Option<nat>)
    ensures r.None? <==> qs == []
    ensures r.Some? ==> r.value < |qs|
    ensures r.Some? ==> forall j | 0 <= j < |qs| :: qs[j] <= qs[r.value]
    ensures r.Some? ==> forall j | 0 <= j < r.value :: qs[j] < qs[r.value]
  {
    if qs == [] then None
    else
      var n := |qs| - 1;
      assert forall i | 0 <= i < n :: qs[..n][i] == qs[i];
      match FirstArgmax(qs[..n])
      case None => Some(n)
      case Some(i) => if qs[i] < qs[n] then Some(n) else Some(i)
  }

  /** The loop of `getValue`: a running maximum seeded with `-inf`, and 0 if nothing replaced it. */
  method MaxValue(qs: seq<real>) returns (v: real)
    ensures v == ValueOf(qs)
  {
    var maxNext: Option<real> := None;
    for i := 0 to |qs|
      invariant maxNext == Max(qs[..i])
    {
      assert qs[..i + 1][..i] == qs[..i];
      maxNext := if maxNext.None? || maxNext.value < qs[i] then Some(qs[i]) else maxNext;
    }
    assert qs[..|qs|] == qs;
    v := if maxNext.None? then 0.0 else maxNext.value;
  }

  /** The loop of `getPolicy` that collects `best_actions`: restart the list on a strict improvement,
      append on an exact tie. */
  method BestActions<A>(acts: seq<A>, qs: seq<real>) returns (best: seq<A>)
    requires |acts| == |qs|
    ensures best == Ties(acts, qs, ValueOf(qs))
  {
    var maxNext: Option<real> := None;
    best := [];
    for i := 0 to |acts|
      invariant maxNext == Max(qs[..i])
      invariant maxNext.None? ==> best == []
      invariant maxNext.Some? ==> best == Ties(acts[..i], qs[..i], maxNext.value)
    {
      assert acts[..i + 1][..i] == acts[..i];
      assert qs[..i + 1][..i] == qs[..i];
      var cur := qs[i];
      if maxNext.None? || maxNext.value < cur {
        TiesAbove(acts[..i], qs[..i], cur);
        maxNext := Some(cur);
        best := [acts[i]];
      } else if maxNext.value == cur {
        best := best + [acts[i]];
      }
    }
    assert acts[..|acts|] == acts;
    assert qs[..|qs|] == qs;
    if acts == [] {
      assert Ties(acts, qs, ValueOf(qs)) == [];
    }
  }

  /** `getPolicy`: None when there are no actions, otherwise one of the actions that tie for the maximum;
      which one stands for `random.choice(best_actions)`. */
  method Policy<A>(acts: seq<A>, qs: seq<real>) returns (r: Option<A>)
    requires |acts| == |qs|
    ensures r.None? <==> acts == []
    ensures r.Some? ==> r.value in Ties(acts, qs, ValueOf(qs))
  {
    var best := BestActions(acts, qs);
    if |best| == 0 {
      return None;
    }
    var k :| 0 <= k < |best|;
    r := Some(best[k]);
  }

  /** `getAction`: None when there are no actions whatever the coin says; a legal action when the coin
      `explore` (the outcome of `flipCoin(epsilon)`) came up true; `getPolicy` otherwise. */
  method EpsilonGreedy<A>(acts: seq<A>, qs: seq<real>, explore: bool) returns (r: Option<A>)
    requires |acts| == |qs|
    ensures acts == [] ==> r.None?
    ensures acts != [] && explore ==> r.Some? && r.value in acts
    ensures acts != [] && !explore ==> r.Some? && r.value in Ties(acts, qs, ValueOf(qs))
  {
    if |acts| == 0 {
      return None;
    }
    if explore {
      var k :| 0 <= k < |acts|;
      r := Some(acts[k]);
    } else {
      r := Policy(acts, qs);
    }
  }
}
