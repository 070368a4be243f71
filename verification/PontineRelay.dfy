/** The low-pass relay from the policy's context channels to the mossy fibres (pontine.rs). */
module PontineRelay {
  import opened Wrappers
  import opened Reals

  const NUM_CONTEXT: nat := 2

  /** A float as the relay looks at it: a number, or NaN or an infinity. */
  datatype Float = Finite(value: real) | NonFinite

  /** `dt / (tau + dt)`, or a pass-through without a time constant. */
  function Alpha(tau: real, dt: real): real
    requires dt >= 0.0
  {
    if tau > 0.0 then dt / (tau + dt) else 1.0
  }

  /** One channel's tick. */
  function Filter(tau: real, dt: real, state: real, x: Float): real
    requires dt >= 0.0
  {
    if x.Finite? then Mix(state, x.value, Alpha(tau, dt)) else state
  }

  class Relay {
    const tau: real
    const overrideValue: Option<seq<real>>
    const filtered: array<real>

    ghost predicate Valid()
      reads this
    {
      filtered.Length == NUM_CONTEXT && (overrideValue.Some? ==> |overrideValue.value| == NUM_CONTEXT)
    }

    constructor (tauMs: nat, overrideValue: Option<seq<real>>)
      requires overrideValue.Some? ==> |overrideValue.value| == NUM_CONTEXT
      ensures Valid() && fresh(filtered) && tau == tauMs as real / 1000.0 && this.overrideValue == overrideValue
      ensures filtered[..] == [0.0, 0.0]
    {
      tau := tauMs as real / 1000.0;
      this.overrideValue := overrideValue;
      filtered := new real[NUM_CONTEXT](_ => 0.0);
    }

    /** One tick; what the mossy fibres carry is the new state. */
    method Tick(fromPolicy: seq<Float>, dt: real) returns (out: seq<real>)
      requires Valid() && |fromPolicy| == NUM_CONTEXT && dt >= 0.0
      modifies filtered
      ensures out == filtered[..]
      ensures overrideValue.Some? ==> out == overrideValue.value
      ensures overrideValue.None? ==>
                forall i | 0 <= i < NUM_CONTEXT :: out[i] == Filter(tau, dt, old(filtered[i]), fromPolicy[i])
    {
      if overrideValue.Some? {
        for i := 0 to NUM_CONTEXT
          invariant forall j | 0 <= j < i :: filtered[j] == overrideValue.value[j]
        {
          filtered[i] := overrideValue.value[i];
        }
        return filtered[..];
      }
      var alpha := if tau > 0.0 then dt / (tau + dt) else 1.0;
      for i := 0 to NUM_CONTEXT
        invariant forall j | 0 <= j < NUM_CONTEXT ::
                    filtered[j] == if j < i then Filter(tau, dt, old(filtered[j]), fromPolicy[j]) else old(filtered[j])
      {
        if fromPolicy[i].Finite? {
          filtered[i] := filtered[i] + (fromPolicy[i].value - filtered[i]) * alpha;
        }
      }
      out := filtered[..];
    }
  }

  // ---- whole runs of one channel ----

  datatype Sample = Sample(x: Float, dt: real)

  ghost predicate Forward(run: seq<Sample>) {
    forall s | s in run :: s.dt >= 0.0
  }

  /** The channel's state after a run that starts at `state`. */
  function After(tau: real, state: real, run: seq<Sample>): real
    requires Forward(run)
  {
    if run == [] then state
    else
      var last := run[|run| - 1];
      Filter(tau, last.dt, After(tau, state, run[..|run| - 1]), last.x)
  }

  lemma AlphaIsAFraction(tau: real, dt: real)
    requires dt >= 0.0
    ensures 0.0 <= Alpha(tau, dt) <= 1.0
    ensures tau > 0.0 ==> 1.0 - Alpha(tau, dt) == tau / (tau + dt)
  {
    if tau > 0.0 {
      assert (tau + dt) / (tau + dt) == 1.0;
      assert tau / (tau + dt) + dt / (tau + dt) == (tau + dt) / (tau + dt);
    }
  }

  lemma NonNegative(x: real, y: real)
    requires x >= 0.0 && y >= 0.0
    ensures x * y >= 0.0
  {
  }

  /** Whatever arrives, the state stays inside any range that holds its start and the finite inputs:
      from the initial zero, the hull of zero and what was seen. */
  lemma {:induction false} StateStaysInTheHull(tau: real, state: real, run: seq<Sample>, lo: real, hi: real)
    requires Forward(run) && lo <= state <= hi
    requires forall s | s in run && s.x.Finite? :: lo <= s.x.value <= hi
    ensures lo <= After(tau, state, run) <= hi
  {
    if run != [] {
      var front, last := run[..|run| - 1], run[|run| - 1];
      assert last in run;
      StateStaysInTheHull(tau, state, front, lo, hi);
      FilterStaysBetween(tau, last, After(tau, state, front), lo, hi);
    }
  }

  lemma FilterStaysBetween(tau: real, s: Sample, state: real, lo: real, hi: real)
    requires s.dt >= 0.0 && lo <= state <= hi && (s.x.Finite? ==> lo <= s.x.value <= hi)
    ensures lo <= Filter(tau, s.dt, state, s.x) <= hi
  {
    AlphaIsAFraction(tau, s.dt);
    if s.x.Finite? {
      MixStaysBetween(state, s.x.value, Alpha(tau, s.dt));
    }
  }

  /** A non-finite sample leaves no trace: the run without it ends in the same state. */
  lemma {:induction false} NonFiniteLeavesNoTrace(
      tau: real, state: real, before: seq<Sample>, bad: Sample, after: seq<Sample>)
    requires Forward(before) && Forward(after) && bad.dt >= 0.0 && bad.x.NonFinite?
    requires Forward(before + [bad] + after) && Forward(before + after)
    ensures After(tau, state, before + [bad] + after) == After(tau, state, before + after)
    decreases |after|
  {
    if after == [] {
      assert before + [bad] + after == before + [bad] && before + after == before;
      assert (before + [bad])[..|before|] == before;
    } else {
      var front := after[..|after| - 1];
      assert (before + [bad] + after)[..|before| + |after|] == before + [bad] + front;
      assert (before + after)[..|before| + |after| - 1] == before + front;
      NonFiniteLeavesNoTrace(tau, state, before, bad, front);
    }
  }

  /** Without a time constant the relay passes its input through: it carries the last number it was
      given, at once and whatever it carried before. */
  lemma {:induction false} NoTimeConstantNoFilter(
      tau: real, state: real, before: seq<Sample>, good: Sample, after: seq<Sample>)
    requires tau <= 0.0 && good.x.Finite? && Forward(before + [good] + after)
    requires forall s | s in after :: s.x.NonFinite?
    ensures After(tau, state, before + [good] + after) == good.x.value
  {
    var run := before + [good] + after;
    if after == [] {
      assert run[..|run| - 1] == before && run[|run| - 1] == good;
    } else {
      var front := after[..|after| - 1];
      assert run[..|run| - 1] == before + [good] + front && run[|run| - 1] in after;
      NoTimeConstantNoFilter(tau, state, before, good, front);
    }
  }

  /** The product of tau / (tau + dt) over a run. */
  function Remaining(tau: real, run: seq<Sample>): real
    requires Forward(run) && tau > 0.0
  {
    if run == [] then 1.0
    else Remaining(tau, run[..|run| - 1]) * (tau / (tau + run[|run| - 1].dt))
  }

  /** `a` has closed in on `x` from `state` to the fraction `remaining`, without overshooting. */
  ghost predicate ClosedIn(a: real, x: real, state: real, remaining: real) {
    a - x == (state - x) * remaining && 0.0 < remaining <= 1.0
  }

  /** Under a constant input the distance to it is the starting distance times that product, which
      is positive and never above one: it closes in and never overshoots. */
  lemma {:induction false} ConstantInputIsApproached(tau: real, state: real, run: seq<Sample>, x: real)
    requires Forward(run) && tau > 0.0 && forall s | s in run :: s.x == Finite(x)
    ensures ClosedIn(After(tau, state, run), x, state, Remaining(tau, run))
  {
    if run != [] {
      var front, last := run[..|run| - 1], run[|run| - 1];
      assert last in run;
      ConstantInputIsApproached(tau, state, front, x);
      OneTick(tau, last, After(tau, state, front), x, state, Remaining(tau, front));
    }
  }

  lemma OneTick(tau: real, s: Sample, a: real, x: real, state: real, remaining: real)
    requires tau > 0.0 && s.dt >= 0.0 && s.x == Finite(x) && ClosedIn(a, x, state, remaining)
    ensures ClosedIn(Filter(tau, s.dt, a, s.x), x, state, remaining * (tau / (tau + s.dt)))
  {
    var keep := tau / (tau + s.dt);
    AlphaIsAFraction(tau, s.dt);
    assert keep > 0.0;
    MixCloses(a, x, state, remaining, Alpha(tau, s.dt), keep);
  }

  lemma MixCloses(a: real, x: real, state: real, remaining: real, alpha: real, keep: real)
    requires ClosedIn(a, x, state, remaining) && keep == 1.0 - alpha && 0.0 < keep <= 1.0
    ensures ClosedIn(Mix(a, x, alpha), x, state, remaining * keep)
  {
    assert Mix(a, x, alpha) - x == (a - x) * keep;
    assert (state - x) * remaining * keep == (state - x) * (remaining * keep);
    NonNegative(remaining, 1.0 - keep);
    assert remaining * keep > 0.0;
  }
}
