/** How the control loop turns position reads into the positions it acts on (main.rs): the travel
    check first, whose refusal is final, then the corroborating gate. */
module Admission {
  import opened Wrappers
  import PG = PositionGate
  import TE = TravelEnvelope

  /** One tick's read, with the envelopes and believed frames of that tick. */
  datatype Reading =
    | Failed
    | Batch(values: seq<int>, envelopes: seq<Option<TE.Envelope>>, frames: seq<Option<TE.PositionFrame>>)

  /** What the loop remembers: the gate's memory, the last admitted batch if any, and the number of
      ticks since then. */
  datatype Memory = Memory(pending: Option<seq<real>>, seen: Option<seq<real>>, blindTicks: nat)

  const START := Memory(None, None, 0)

  /** The batch passed the travel check and was put to the gate. */
  predicate Offered(r: Reading) {
    r.Batch? && TE.FirstOutsideTravel(r.values, r.envelopes, r.frames).None?
  }

  function Admit(budget: real, m: Memory, r: Reading): Memory {
    if !Offered(r) then m.(blindTicks := m.blindTicks + 1)
    else
      var (pending, verdict) := PG.Decide(budget, m.pending, r.values, m.seen);
      if verdict.Accepted? then Memory(pending, Some(PG.Held(r.values)), 0)
      else Memory(pending, m.seen, m.blindTicks + 1)
  }

  /** The part of the loop's state that position reads touch. */
  class PositionState {
    const gate: PG.Gate
    var prevPos: seq<real>
    var posSeeded: bool
    var blindTicks: nat

    ghost function Abstract(): Memory
      reads this, gate
    {
      Memory(gate.pending, if posSeeded then Some(prevPos) else None, blindTicks)
    }

    constructor (budget: real)
      ensures Abstract() == START && gate.budget == budget && fresh(gate)
      ensures prevPos == seq(PG.NUM_MOTORS, _ => 0.0)
    {
      gate := new PG.Gate(budget);
      prevPos := seq(PG.NUM_MOTORS, _ => 0.0);
      posSeeded := false;
      blindTicks := 0;
    }

    /** One tick. The positions acted on are the ones just admitted, else the last known ones. */
    method OnRead(r: Reading) returns (commsError: bool)
      requires r.Batch? ==> |r.values| == PG.NUM_MOTORS
      modifies this, gate
      ensures Abstract() == Admit(gate.budget, old(Abstract()), r)
      ensures commsError <==> blindTicks == old(blindTicks) + 1
      ensures commsError ==> prevPos == old(prevPos) && posSeeded == old(posSeeded)
    {
      commsError := true;
      match r
      case Failed =>
        blindTicks := blindTicks + 1;
      case Batch(values, envelopes, frames) =>
        var reject := TE.FirstOutsideTravel(values, envelopes, frames);
        if reject.Some? {
          blindTicks := blindTicks + 1;
        } else {
          var verdict := gate.Accept(values, if posSeeded then Some(prevPos) else None);
          if verdict.Rejected? {
            blindTicks := blindTicks + 1;
          } else {
            prevPos := PG.Held(values);
            blindTicks := 0;
            posSeeded := true;
            commsError := false;
          }
        }
    }
  }

  // ---- admission, from the readings alone ----

  /** On the encoder, and inside the travel of every joint that is checked. */
  ghost predicate InsideTravel(r: Reading)
    requires r.Batch?
  {
    TE.AllInTravel(r.values, r.envelopes, r.frames)
  }

  ghost predicate Complete(readings: seq<Reading>) {
    forall i | 0 <= i < |readings| && readings[i].Batch? :: |readings[i].values| == PG.NUM_MOTORS
  }

  /** A batch that passes the travel check, so that the gate gets to see it. */
  ghost predicate Sound(readings: seq<Reading>, i: nat)
    requires i < |readings|
  {
    readings[i].Batch? && InsideTravel(readings[i])
  }

  /** The last sound batch before tick `i`. */
  ghost function LastSound(readings: seq<Reading>, i: nat): (r: Option<nat>)
    requires i <= |readings|
    ensures r.Some? ==> r.value < i && Sound(readings, r.value)
    ensures forall j | (if r.Some? then r.value + 1 else 0) <= j < i :: !Sound(readings, j)
  {
    if i == 0 then None else if Sound(readings, i - 1) then Some(i - 1) else LastSound(readings, i - 1)
  }

  /** Tick `i` ought to admit its batch: it is sound, and it is the first, or agrees with the last one
      admitted, or agrees with the last sound one, which was turned down. */
  ghost predicate Admissible(budget: real, readings: seq<Reading>, i: nat)
    requires Complete(readings) && i < |readings|
    decreases i, 1
  {
    var (before, offer) := (LastAdmissible(budget, readings, i), LastSound(readings, i));
    && Sound(readings, i)
    && (|| before.None?
        || PG.Agree(readings[i].values, readings[before.value].values, budget)
        || (&& offer.Some? && !Admissible(budget, readings, offer.value)
            && PG.Agree(readings[i].values, readings[offer.value].values, budget)))
  }

  /** The last batch that ought to have been admitted before tick `i`. */
  ghost function LastAdmissible(budget: real, readings: seq<Reading>, i: nat): (r: Option<nat>)
    requires Complete(readings) && i <= |readings|
    ensures r.Some? ==> r.value < i && Admissible(budget, readings, r.value) && Sound(readings, r.value)
    ensures forall j | (if r.Some? then r.value + 1 else 0) <= j < i :: !Admissible(budget, readings, j)
    decreases i, 0
  {
    if i == 0 then None
    else if Admissible(budget, readings, i - 1) then Some(i - 1)
    else LastAdmissible(budget, readings, i - 1)
  }

  // ---- what a run of the loop remembers ----

  /** A run of ticks; `memories[i]` is what the loop remembers before tick `i`. */
  datatype Run = Run(budget: real, readings: seq<Reading>, memories: seq<Memory>)

  ghost predicate IsRun(run: Run) {
    && |run.memories| == |run.readings| + 1 && run.memories[0] == START && Complete(run.readings)
    && forall i | 0 <= i < |run.readings| ::
         run.memories[i + 1] == Admit(run.budget, run.memories[i], run.readings[i])
  }

  /** The memory before tick `i`, from the readings so far. */
  ghost predicate Remembers(budget: real, readings: seq<Reading>, i: nat, m: Memory)
    requires Complete(readings) && i <= |readings|
  {
    var (admitted, offer) := (LastAdmissible(budget, readings, i), LastSound(readings, i));
    && m.seen == (if admitted.None? then None else Some(PG.Held(readings[admitted.value].values)))
    && m.blindTicks == (if admitted.None? then i else i - 1 - admitted.value)
    && m.pending == (if offer.None? || Admissible(budget, readings, offer.value) then None
                     else Some(PG.Held(readings[offer.value].values)))
  }

  /** What one tick ought to do. */
  ghost predicate Outcome(budget: real, readings: seq<Reading>, i: nat, m: Memory, next: Memory)
    requires Complete(readings) && i < |readings|
  {
    if Admissible(budget, readings, i) then next.seen == Some(PG.Held(readings[i].values)) && next.blindTicks == 0
    else next.seen == m.seen && next.blindTicks == m.blindTicks + 1
  }

  lemma OfferedIsSound(readings: seq<Reading>, i: nat)
    requires i < |readings|
    ensures Offered(readings[i]) <==> Sound(readings, i)
  {
    if readings[i].Batch? {
      TE.AcceptedExactlyWhen(readings[i].values, readings[i].envelopes, readings[i].frames);
    }
  }

  /** The gate's verdict on a sound batch, in terms of agreement. */
  lemma VerdictOnSound(budget: real, readings: seq<Reading>, i: nat, m: Memory)
    requires Complete(readings) && i < |readings| && Sound(readings, i) && Remembers(budget, readings, i, m)
    ensures var (pending, verdict) := PG.Decide(budget, m.pending, readings[i].values, m.seen);
            && (verdict.Accepted? <==> Admissible(budget, readings, i))
            && pending == if verdict.Accepted? then None else Some(PG.Held(readings[i].values))
  {
    var (before, offer) := (LastAdmissible(budget, readings, i), LastSound(readings, i));
    if before.Some? {
      PG.AgreeIsPlausible(readings[i].values, readings[before.value].values, budget);
    }
    if offer.Some? {
      PG.AgreeIsPlausible(readings[i].values, readings[offer.value].values, budget);
    }
  }

  lemma TickStep(budget: real, readings: seq<Reading>, i: nat, m: Memory)
    requires Complete(readings) && i < |readings| && Remembers(budget, readings, i, m)
    ensures Remembers(budget, readings, i + 1, Admit(budget, m, readings[i]))
    ensures Outcome(budget, readings, i, m, Admit(budget, m, readings[i]))
  {
    OfferedIsSound(readings, i);
    if Sound(readings, i) { VerdictOnSound(budget, readings, i, m); }
  }

  /** What the loop remembers, over every run: the positions in use are exactly the last batch that
      ought to have been admitted, `blindTicks` counts the ticks since, and the gate holds exactly the
      last sound batch when that one was turned down, however many unreadable or refused ticks lie
      between. */
  lemma {:induction false} MemoryIsExact(run: Run, i: nat)
    requires IsRun(run) && i <= |run.readings|
    ensures Remembers(run.budget, run.readings, i, run.memories[i])
  {
    if i > 0 {
      var j := i - 1;
      MemoryIsExact(run, j);
      assert run.memories[j + 1] == Admit(run.budget, run.memories[j], run.readings[j]);
      TickStep(run.budget, run.readings, j, run.memories[j]);
    }
  }

  /** A batch is admitted if and only if it ought to be, by the readings alone; in every other case
      the positions in use stay and one more blind tick is counted. */
  lemma BatchIsAdmittedExactlyWhen(run: Run, i: nat)
    requires IsRun(run) && i < |run.readings|
    ensures var (m, next) := (run.memories[i], run.memories[i + 1]);
            && (Admissible(run.budget, run.readings, i) <==>
                  && run.readings[i].Batch? && next.blindTicks == 0
                  && next.seen == Some(PG.Held(run.readings[i].values)))
            && (!Admissible(run.budget, run.readings, i) ==>
                  next.seen == m.seen && next.blindTicks == m.blindTicks + 1)
  {
    MemoryIsExact(run, i);
    assert run.memories[i + 1] == Admit(run.budget, run.memories[i], run.readings[i]);
    TickStep(run.budget, run.readings, i, run.memories[i]);
  }

  /** So one misread costs two ticks at most: when two sound batches in a row agree, the second is
      admitted unless the first was. */
  lemma TwoSoundReadsAreEnough(run: Run, i: nat)
    requires IsRun(run) && i + 1 < |run.readings| && Sound(run.readings, i) && Sound(run.readings, i + 1)
    requires PG.Agree(run.readings[i + 1].values, run.readings[i].values, run.budget)
    ensures run.memories[i + 1].blindTicks == 0 || run.memories[i + 2].blindTicks == 0
  {
    BatchIsAdmittedExactlyWhen(run, i);
    BatchIsAdmittedExactlyWhen(run, i + 1);
    assert LastSound(run.readings, i + 1) == Some(i);
    var j := i + 1;
    assert run.memories[j + 1].blindTicks == run.memories[i + 2].blindTicks;
  }

  /** No bad read ever becomes a position: whatever the run, an admitted batch was on the encoder and
      inside every checked joint's travel when it was read, and it either moved no joint more than the
      budget from the batch admitted before it or was read again, to within the budget, as the very
      next batch put to the gate. */
  lemma AdmittedPositionsAreCorroborated(run: Run, i: nat)
    requires IsRun(run) && i < |run.readings| && run.memories[i + 1].blindTicks == 0
    ensures Sound(run.readings, i)
    ensures var (before, offer) := (LastAdmissible(run.budget, run.readings, i), LastSound(run.readings, i));
            || before.None?
            || PG.Agree(run.readings[i].values, run.readings[before.value].values, run.budget)
            || (&& offer.Some? && !Admissible(run.budget, run.readings, offer.value)
                && PG.Agree(run.readings[i].values, run.readings[offer.value].values, run.budget))
  {
    BatchIsAdmittedExactlyWhen(run, i);
  }
}
