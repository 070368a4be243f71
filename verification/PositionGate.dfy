/** Corroborating admission of position batches (`PositionGate` in control.rs). */
module PositionGate {
  import opened Wrappers
  import opened Reals
  import opened Encoder

  const NUM_MOTORS := 6

  /** One motor that moved further than the budget, and how far. */
  datatype Step = Step(motor: nat, step: real)

  function Min(a: nat, b: nat): nat {
    if a < b then a else b
  }

  /** Every motor present in both batches moved at most `budget` around the circle. */
  ghost predicate Plausible(values: seq<int>, prev: seq<real>, budget: real) {
    forall i | 0 <= i < Min(|values|, |prev|) :: Distance(values[i] as real, prev[i]) <= budget
  }

  function FirstImplausibleFrom(values: seq<int>, prev: seq<real>, budget: real, i: nat): (r: Option<Step>)
    requires i <= Min(|values|, |prev|)
    ensures r.None? <==> forall j | i <= j < Min(|values|, |prev|) :: Distance(values[j] as real, prev[j]) <= budget
    ensures r.Some? ==>
              && i <= r.value.motor < Min(|values|, |prev|)
              && r.value.step == WrappedDelta(values[r.value.motor] as real, prev[r.value.motor])
              && Abs(r.value.step) > budget
              && forall j | i <= j < r.value.motor :: Distance(values[j] as real, prev[j]) <= budget
    decreases Min(|values|, |prev|) - i
  {
    if i == Min(|values|, |prev|) then None
    else
      var step := WrappedDelta(values[i] as real, prev[i]);
      if Abs(step) > budget then Some(Step(i, step))
      else FirstImplausibleFrom(values, prev, budget, i + 1)
  }

  /** `first_implausible_step`: the lowest-numbered motor over budget, with its wrapped step. */
  function FirstImplausibleStep(values: seq<int>, prev: seq<real>, budget: real): (r: Option<Step>)
    ensures r.None? <==> Plausible(values, prev, budget)
    ensures r.Some? ==>
              && r.value.motor < Min(|values|, |prev|)
              && r.value.step == WrappedDelta(values[r.value.motor] as real, prev[r.value.motor])
              && Abs(r.value.step) > budget
              && Plausible(values[..r.value.motor], prev, budget)
  {
    FirstImplausibleFrom(values, prev, budget, 0)
  }

  /** A batch as the gate stores it: one slot per motor, zero where the reply was short. */
  function Held(values: seq<int>): seq<real> {
    seq(NUM_MOTORS, i requires 0 <= i => if i < |values| then values[i] as real else 0.0)
  }

  datatype Verdict = Accepted | Rejected(motor: nat, step: real, corroborating: bool)

  /** What one offer does to `pending`, and the verdict. */
  function Decide(budget: real, pending: Option<seq<real>>, values: seq<int>, prev: Option<seq<real>>)
    : (Option<seq<real>>, Verdict)
  {
    if prev.None? then (None, Accepted)
    else
      var bad := FirstImplausibleStep(values, prev.value, budget);
      if bad.None? || (pending.Some? && FirstImplausibleStep(values, pending.value, budget).None?) then
        (None, Accepted)
      else
        (Some(Held(values)), Rejected(bad.value.motor, bad.value.step, pending.Some?))
  }

  /** The zero-filled copy the gate makes of a batch it holds back. */
  method CopyBatch(values: seq<int>) returns (held: seq<real>)
    ensures held == Held(values) && |held| == 6
    ensures forall i | 0 <= i < 6 :: held[i] == if i < |values| then values[i] as real else 0.0
  {
    var h := new real[NUM_MOTORS](_ => 0.0);
    var i := 0;
    while i < h.Length && i < |values|
      invariant 0 <= i <= h.Length
      invariant forall j | 0 <= j < h.Length :: h[j] == if j < i && j < |values| then values[j] as real else 0.0
    {
      h[i] := values[i] as real;
      i := i + 1;
    }
    held := h[..];
  }

  /** The gate object of the control loop. */
  class Gate {
    const budget: real
    var pending: Option<seq<real>>

    constructor (budget: real)
      ensures this.budget == budget && pending == None
    {
      this.budget := budget;
      pending := None;
    }

    method Accept(values: seq<int>, prev: Option<seq<real>>) returns (verdict: Verdict)
      modifies this
      ensures (pending, verdict) == Decide(budget, old(pending), values, prev)
    {
      if prev.None? {
        pending := None;
        return Accepted;
      }
      var bad := FirstImplausibleStep(values, prev.value, budget);
      match bad
      case None =>
        pending := None;
        verdict := Accepted;
      case Some(Step(motor, step)) =>
        if pending.Some? {
          var second := FirstImplausibleStep(values, pending.value, budget);
          if second.None? {
            pending := None;
            return Accepted;
          }
        }
        var held := CopyBatch(values);
        var corroborating := pending.Some?;
        pending := Some(held);
        verdict := Rejected(motor, step, corroborating);
    }
  }

  // ---- whole runs ----

  /** A run of offers: the batches, what the gate said, the gate's memory before each offer (and
      after the last), and the caller's `prev` at the same points. */
  datatype Run = Run(
    budget: real,
    batches: seq<seq<int>>,
    verdicts: seq<Verdict>,
    pendings: seq<Option<seq<real>>>,
    prevs: seq<Option<seq<real>>>)

  /** The caller keeps `prev` at the last accepted batch; it starts with none. */
  ghost predicate IsRun(run: Run) {
    && |run.verdicts| == |run.batches|
    && |run.pendings| == |run.prevs| == |run.batches| + 1
    && run.pendings[0] == None && run.prevs[0] == None
    && (forall i | 0 <= i < |run.batches| :: |run.batches[i]| == NUM_MOTORS)
    && (forall i | 0 <= i < |run.batches| ::
          (run.pendings[i + 1], run.verdicts[i])
          == Decide(run.budget, run.pendings[i], run.batches[i], run.prevs[i]))
    && (forall i | 0 <= i < |run.batches| ::
          run.prevs[i + 1] == if run.verdicts[i].Accepted? then Some(Held(run.batches[i])) else run.prevs[i])
  }

  /** Two batches in which no motor moved more than the budget. */
  ghost predicate Agree(a: seq<int>, b: seq<int>, budget: real)
    requires |a| == |b| == NUM_MOTORS
  {
    forall i | 0 <= i < NUM_MOTORS :: Distance(a[i] as real, b[i] as real) <= budget
  }

  lemma AgreeIsPlausible(a: seq<int>, b: seq<int>, budget: real)
    requires |a| == |b| == NUM_MOTORS
    ensures Agree(a, b, budget) <==> Plausible(a, Held(b), budget)
  {
    if Plausible(a, Held(b), budget) {
      forall i | 0 <= i < NUM_MOTORS
        ensures Distance(a[i] as real, b[i] as real) <= budget
      {
        assert Distance(a[i] as real, Held(b)[i]) <= budget;
      }
    }
  }

  /** The last accepted offer before offer `i`, or `None`. */
  ghost function LastAccepted(verdicts: seq<Verdict>, i: nat): (r: Option<nat>)
    requires i <= |verdicts|
    ensures r.Some? ==> r.value < i && verdicts[r.value].Accepted?
    ensures forall j | (if r.Some? then r.value + 1 else 0) <= j < i :: verdicts[j].Rejected?
  {
    if i == 0 then None
    else if verdicts[i - 1].Accepted? then Some(i - 1)
    else LastAccepted(verdicts, i - 1)
  }

  /** The gate's memory is exactly the offer just rejected, and nothing otherwise. */
  lemma PendingIsTheLastRejection(run: Run, i: nat)
    requires IsRun(run) && i <= |run.batches|
    ensures run.pendings[i]
            == if i > 0 && run.verdicts[i - 1].Rejected? then Some(Held(run.batches[i - 1])) else None
  {
    if i > 0 {
      var j := i - 1;
      assert (run.pendings[j + 1], run.verdicts[j])
             == Decide(run.budget, run.pendings[j], run.batches[j], run.prevs[j]);
    }
  }

  lemma {:induction false} PrevIsTheLastAccepted(run: Run, i: nat)
    requires IsRun(run) && i <= |run.batches|
    ensures var last := LastAccepted(run.verdicts, i);
            run.prevs[i] == if last.Some? then Some(Held(run.batches[last.value])) else None
  {
    if i > 0 {
      PrevIsTheLastAccepted(run, i - 1);
      assert run.prevs[(i - 1) + 1]
             == if run.verdicts[i - 1].Accepted? then Some(Held(run.batches[i - 1])) else run.prevs[i - 1];
    }
  }

  /** The admission rule over every run, both ways: an offer is accepted exactly when nothing has
      been accepted yet, or it is within budget of the last accepted batch, or the offer just
      before it was rejected and the two agree. */
  lemma AcceptedExactlyWhen(run: Run, i: nat)
    requires IsRun(run) && i < |run.batches|
    ensures run.verdicts[i].Accepted? <==>
            || LastAccepted(run.verdicts, i).None?
            || Agree(run.batches[i], run.batches[LastAccepted(run.verdicts, i).value], run.budget)
            || (i > 0 && run.verdicts[i - 1].Rejected? && Agree(run.batches[i], run.batches[i - 1], run.budget))
  {
    PrevIsTheLastAccepted(run, i);
    PendingIsTheLastRejection(run, i);
    var last := LastAccepted(run.verdicts, i);
    assert (run.pendings[i + 1], run.verdicts[i])
           == Decide(run.budget, run.pendings[i], run.batches[i], run.prevs[i]);
    if last.Some? {
      AgreeIsPlausible(run.batches[i], run.batches[last.value], run.budget);
    }
    if i > 0 {
      AgreeIsPlausible(run.batches[i], run.batches[i - 1], run.budget);
    }
  }

  /** A rejection names the lowest motor over budget against the last accepted batch, and says it
      is corroborating exactly when the offer before it was rejected too. */
  lemma RejectionIsNamed(run: Run, i: nat)
    requires IsRun(run) && i < |run.batches| && run.verdicts[i].Rejected?
    ensures var last := LastAccepted(run.verdicts, i);
            && last.Some?
            && var v := run.verdicts[i];
            && v.motor < NUM_MOTORS
            && v.step == WrappedDelta(run.batches[i][v.motor] as real, run.batches[last.value][v.motor] as real)
            && Abs(v.step) > run.budget
            && (forall m | 0 <= m < v.motor ::
                  Distance(run.batches[i][m] as real, run.batches[last.value][m] as real) <= run.budget)
            && (v.corroborating <==> i > 0 && run.verdicts[i - 1].Rejected?)
  {
    PrevIsTheLastAccepted(run, i);
    PendingIsTheLastRejection(run, i);
    assert (run.pendings[i + 1], run.verdicts[i])
           == Decide(run.budget, run.pendings[i], run.batches[i], run.prevs[i]);
    var last := LastAccepted(run.verdicts, i);
    var held := Held(run.batches[last.value]);
    var v := run.verdicts[i];
    forall m | 0 <= m < v.motor
      ensures Distance(run.batches[i][m] as real, run.batches[last.value][m] as real) <= run.budget
    {
      assert run.batches[i][..v.motor][m] == run.batches[i][m] && held[m] == run.batches[last.value][m] as real;
    }
  }

  /** A stream whose consecutive reads agree is never rejected twice in a row. */
  lemma SteadyStreamIsNeverRejectedTwice(run: Run, i: nat)
    requires IsRun(run) && i + 1 < |run.batches|
    requires Agree(run.batches[i + 1], run.batches[i], run.budget)
    ensures run.verdicts[i].Accepted? || run.verdicts[i + 1].Accepted?
  {
    AcceptedExactlyWhen(run, i + 1);
  }

  /** How many of the offers `lo..hi` were accepted. */
  ghost function Accepts(verdicts: seq<Verdict>, lo: nat, hi: nat): nat
    requires lo <= hi <= |verdicts|
  {
    if lo == hi then 0
    else Accepts(verdicts, lo, hi - 1) + if verdicts[hi - 1].Accepted? then 1 else 0
  }

  ghost predicate Shaped(batches: seq<seq<int>>, verdicts: seq<Verdict>) {
    |batches| == |verdicts| && forall k | 0 <= k < |batches| :: |batches[k]| == NUM_MOTORS
  }

  /** Every accepted offer in `(i, j]` was within budget of the last one accepted before it, that
      is, none was let in by corroboration alone. */
  ghost predicate AllDirect(batches: seq<seq<int>>, verdicts: seq<Verdict>, budget: real, i: nat, j: nat)
    requires Shaped(batches, verdicts) && j < |batches|
  {
    forall k | i < k <= j :: Direct(batches, verdicts, budget, k)
  }

  ghost predicate Direct(batches: seq<seq<int>>, verdicts: seq<Verdict>, budget: real, k: nat)
    requires Shaped(batches, verdicts) && k < |batches|
  {
    var last := LastAccepted(verdicts, k);
    verdicts[k].Accepted? ==> last.Some? && Agree(batches[k], batches[last.value], budget)
  }

  /** n budgets, added up. */
  ghost function Budgets(budget: real, n: nat): real {
    if n == 0 then 0.0 else Budgets(budget, n - 1) + budget
  }

  lemma {:induction false} BudgetsMultiply(budget: real, n: nat)
    ensures Budgets(budget, n) == budget * n as real
  {
    if n > 0 {
      BudgetsMultiply(budget, n - 1);
      assert budget * (n - 1) as real + budget == budget * n as real;
    }
  }

  ghost predicate DriftWithin(from: seq<int>, to: seq<int>, motor: nat, limit: real)
    requires motor < |from| && motor < |to|
  {
    Distance(to[motor] as real, from[motor] as real) <= limit
  }

  /** While no offer is let in by corroboration, a joint moves at most one budget around the circle
      per accepted offer, however many rejected ones lie between. */
  lemma DirectDriftIsBounded(run: Run, i: nat, j: nat, motor: nat)
    requires IsRun(run) && i <= j < |run.batches| && motor < NUM_MOTORS
    requires run.verdicts[i].Accepted? && AllDirect(run.batches, run.verdicts, run.budget, i, j)
    ensures var last := LastAccepted(run.verdicts, j + 1);
            last.Some? && Distance(run.batches[last.value][motor] as real, run.batches[i][motor] as real)
                          <= run.budget * Accepts(run.verdicts, i + 1, j + 1) as real
  {
    DriftIsBounded(run.batches, run.verdicts, run.budget, i, j, motor);
  }

  lemma DriftIsBounded(batches: seq<seq<int>>, verdicts: seq<Verdict>, budget: real, i: nat, j: nat, motor: nat)
    requires Shaped(batches, verdicts) && i <= j < |batches| && motor < NUM_MOTORS
    requires verdicts[i].Accepted? && AllDirect(batches, verdicts, budget, i, j)
    ensures var last := LastAccepted(verdicts, j + 1);
            last.Some? && Distance(batches[last.value][motor] as real, batches[i][motor] as real)
                          <= budget * Accepts(verdicts, i + 1, j + 1) as real
  {
    DriftAccumulates(batches, verdicts, budget, i, j, motor);
    var last := LastAccepted(verdicts, j + 1).value;
    InBudgets(budget, Accepts(verdicts, i + 1, j + 1),
              Distance(batches[last][motor] as real, batches[i][motor] as real));
  }

  lemma InBudgets(budget: real, n: nat, distance: real)
    requires distance <= Budgets(budget, n)
    ensures distance <= budget * n as real
  {
    BudgetsMultiply(budget, n);
  }

  /** The last batch accepted up to `j` is within as many budgets of batch `i` as were accepted since. */
  ghost predicate Drifted(batches: seq<seq<int>>, verdicts: seq<Verdict>, budget: real, i: nat, j: nat, motor: nat)
    requires Shaped(batches, verdicts) && i <= j < |batches| && motor < NUM_MOTORS
  {
    var last := LastAccepted(verdicts, j + 1);
    last.Some? && DriftWithin(batches[i], batches[last.value], motor, Budgets(budget, Accepts(verdicts, i + 1, j + 1)))
  }

  lemma {:induction false} DriftAccumulates(batches: seq<seq<int>>, verdicts: seq<Verdict>, budget: real,
                                            i: nat, j: nat, motor: nat)
    requires Shaped(batches, verdicts) && i <= j < |batches| && motor < NUM_MOTORS
    requires verdicts[i].Accepted? && AllDirect(batches, verdicts, budget, i, j)
    ensures Drifted(batches, verdicts, budget, i, j, motor)
    decreases j
  {
    if i == j {
      NoDrift(batches[i], motor);
    } else {
      assert AllDirect(batches, verdicts, budget, i, j - 1) by {
        forall k | i < k <= j - 1 ensures Direct(batches, verdicts, budget, k) {}
      }
      DriftAccumulates(batches, verdicts, budget, i, j - 1, motor);
      assert Direct(batches, verdicts, budget, j);
      if verdicts[j].Accepted? {
        AcceptedStep(batches, verdicts, budget, i, j, motor);
      } else {
        RejectedStep(batches, verdicts, budget, i, j, motor);
      }
    }
  }

  lemma AcceptedStep(batches: seq<seq<int>>, verdicts: seq<Verdict>, budget: real, i: nat, j: nat, motor: nat)
    requires Shaped(batches, verdicts) && i < j < |batches| && motor < NUM_MOTORS && verdicts[j].Accepted?
    requires Direct(batches, verdicts, budget, j) && Drifted(batches, verdicts, budget, i, j - 1, motor)
    ensures Drifted(batches, verdicts, budget, i, j, motor)
  {
    var before, n := LastAccepted(verdicts, j).value, Accepts(verdicts, i + 1, j);
    DriftAdds(batches[i], batches[before], batches[j], motor, budget, Budgets(budget, n));
  }

  lemma RejectedStep(batches: seq<seq<int>>, verdicts: seq<Verdict>, budget: real, i: nat, j: nat, motor: nat)
    requires Shaped(batches, verdicts) && i < j < |batches| && motor < NUM_MOTORS && verdicts[j].Rejected?
    requires Drifted(batches, verdicts, budget, i, j - 1, motor)
    ensures Drifted(batches, verdicts, budget, i, j, motor)
  {
    assert LastAccepted(verdicts, j + 1) == LastAccepted(verdicts, j);
    assert Accepts(verdicts, i + 1, j + 1) == Accepts(verdicts, i + 1, j);
  }

  lemma NoDrift(batch: seq<int>, motor: nat)
    requires motor < |batch|
    ensures DriftWithin(batch, batch, motor, 0.0)
  {
    var start := batch[motor] as real;
    CongruentEquivalence(start, start, start);
    ZeroDistance(start, start);
  }

  lemma DriftAdds(start: seq<int>, before: seq<int>, now: seq<int>, motor: nat, budget: real, limit: real)
    requires |start| == |before| == |now| == NUM_MOTORS && motor < NUM_MOTORS
    requires Agree(now, before, budget) && DriftWithin(start, before, motor, limit)
    ensures DriftWithin(start, now, motor, limit + budget)
  {
    TriangleInequality(now[motor] as real, before[motor] as real, start[motor] as real);
  }
}
