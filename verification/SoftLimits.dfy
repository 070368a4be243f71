/** The soft position limits and the recovery they promise (control.rs, main.rs). */
module SoftLimits {
  import opened Wrappers
  import opened Reals
  import opened Encoder

  /** `f32::signum`: zero counts as positive, as +0.0 does. */
  function Signum(x: real): real {
    if x >= 0.0 then 1.0 else -1.0
  }

  /** `apply_soft_limits`. */
  function ApplySoftLimits(pwm: real, pos: real, posMin: real, posMax: real, lastInRange: Option<real>): real {
    var pastMin := pos <= posMin;
    var pastMax := pos >= posMax;
    if !pastMin && !pastMax then pwm
    else match lastInRange
      case Some(back) =>
        var escape := WrappedDelta(back, pos);
        if escape == 0.0 || Signum(pwm) == Signum(escape) then pwm else 0.0
      case None =>
        if (pastMin && pwm < 0.0) || (pastMax && pwm > 0.0) then 0.0 else pwm
  }

  /** How far `pos` is past the nearer limit, on the line; negative inside. */
  function Excess(pos: real, posMin: real, posMax: real): real {
    if posMin - pos > pos - posMax then posMin - pos else pos - posMax
  }

  /** Inside the limits every command passes. Outside them, with no legal position to appeal to, a
      command is stopped exactly when moving any distance its way leads further out. */
  lemma WithoutMemoryOnlyTheWayOutIsStopped(pwm: real, pos: real, posMin: real, posMax: real)
    requires posMin < posMax && pwm != 0.0
    ensures posMin < pos < posMax ==> forall back :: ApplySoftLimits(pwm, pos, posMin, posMax, back) == pwm
    ensures !(posMin < pos < posMax) ==>
              ApplySoftLimits(pwm, pos, posMin, posMax, None)
              == if LeadsOut(pos, Signum(pwm), posMin, posMax) then 0.0 else pwm
  {
    var d := Signum(pwm);
    if pos <= posMin && d > 0.0 {
      Shorter(pos, posMin, posMax, d, posMax - posMin);
    } else if pos >= posMax && d < 0.0 {
      Shorter(pos, posMin, posMax, d, posMax - posMin);
    }
  }

  ghost predicate LeadsOut(pos: real, direction: real, posMin: real, posMax: real) {
    forall step: real | step > 0.0 :: Excess(Moved(pos, direction, step), posMin, posMax) > Excess(pos, posMin, posMax)
  }

  function Moved(pos: real, direction: real, step: real): real {
    if direction > 0.0 then pos + step else pos - step
  }

  lemma Shorter(pos: real, posMin: real, posMax: real, direction: real, step: real)
    requires posMin < posMax && step == posMax - posMin
    requires (pos <= posMin && direction > 0.0) || (pos >= posMax && direction <= 0.0)
    ensures Excess(Moved(pos, direction, step), posMin, posMax) <= Excess(pos, posMin, posMax)
  {}

  /** One tick of a joint on the encoder circle: the duty asked for, and how far the joint moved. */
  datatype Tick = Tick(pwm: real, moved: real)

  /** The joint outside its limits, with a legal position to appeal to. */
  ghost predicate Lost(pos: real, back: real, posMin: real, posMax: real) {
    && 0.0 <= pos < RESOLUTION && 0.0 <= back < RESOLUTION
    && posMin < back < posMax && !(posMin < pos < posMax)
  }

  /** A plant that follows the command it is given: it moves the way the command points, or not at
      all, and never further than the remaining way back. */
  ghost predicate Obeys(tick: Tick, pos: real, back: real, posMin: real, posMax: real) {
    var command := ApplySoftLimits(tick.pwm, pos, posMin, posMax, Some(back));
    && (tick.moved > 0.0 ==> command > 0.0)
    && (tick.moved < 0.0 ==> command < 0.0)
    && Abs(tick.moved) <= Distance(back, pos)
  }

  /** The direction home is passed unchanged and the other one is stopped, whichever side of the
      seam home is on. */
  lemma OnlyTheWayHomeIsAllowed(pwm: real, pos: real, back: real, posMin: real, posMax: real)
    requires Lost(pos, back, posMin, posMax)
    ensures WrappedDelta(back, pos) != 0.0
    ensures ApplySoftLimits(pwm, pos, posMin, posMax, Some(back))
            == if (pwm >= 0.0) == (WrappedDelta(back, pos) > 0.0) then pwm else 0.0
  {
    ZeroDistance(back, pos);
    if WrappedDelta(back, pos) == 0.0 {
      CongruentAndClose(back, pos);
    }
  }

  /** One obeyed tick shortens the way home by exactly the distance moved. */
  lemma TickShortensTheWay(tick: Tick, pos: real, back: real, posMin: real, posMax: real)
    requires Lost(pos, back, posMin, posMax) && Obeys(tick, pos, back, posMin, posMax)
    ensures Distance(back, Fold(pos + tick.moved)) == Distance(back, pos) - Abs(tick.moved)
  {
    OnlyTheWayHomeIsAllowed(tick.pwm, pos, back, posMin, posMax);
    var escape := WrappedDelta(back, pos);
    var next := Fold(pos + tick.moved);
    DeltaRepresents(back, pos);
    FoldIsTheRepresentative(pos + tick.moved, next);
    StepTowards(back, pos, escape, tick.moved, next);
    DeltaIs(back, next, escape - tick.moved);
  }

  lemma StepTowards(back: real, pos: real, escape: real, moved: real, next: real)
    requires Congruent(back - pos, escape) && Congruent(pos + moved, next)
    ensures Congruent(back - next, escape - moved)
  {
    var k :| back - pos - escape == Turns(k);
    var j :| pos + moved - next == Turns(j);
    assert back - next - (escape - moved) == Turns(k + j);
  }

  /** Positions after each tick of a run that starts at `pos`. */
  function Positions(pos: real, ticks: seq<Tick>): seq<real>
    decreases |ticks|
  {
    if ticks == [] then [pos]
    else [pos] + Positions(Fold(pos + ticks[0].moved), ticks[1..])
  }

  function Travelled(ticks: seq<Tick>): real {
    if ticks == [] then 0.0 else Abs(ticks[0].moved) + Travelled(ticks[1..])
  }

  /** Every tick is obeyed, and the joint stays lost until at least the last one. */
  ghost predicate LostRun(pos: real, ticks: seq<Tick>, back: real, posMin: real, posMax: real)
    decreases |ticks|
  {
    ticks == [] ||
    (&& Lost(pos, back, posMin, posMax) && Obeys(ticks[0], pos, back, posMin, posMax)
     && LostRun(Fold(pos + ticks[0].moved), ticks[1..], back, posMin, posMax))
  }

  /** Over any run, even through the seam, the way home shrinks by exactly the distance travelled;
      in particular the joint is never further from home than where it started. */
  lemma {:induction false} RecoveryNeverLosesGround(pos: real, ticks: seq<Tick>, back: real, posMin: real, posMax: real)
    requires LostRun(pos, ticks, back, posMin, posMax)
    ensures |Positions(pos, ticks)| == |ticks| + 1
    ensures Distance(back, Positions(pos, ticks)[|ticks|]) == Distance(back, pos) - Travelled(ticks)
    ensures 0.0 <= Travelled(ticks)
    decreases |ticks|
  {
    if ticks != [] {
      TickShortensTheWay(ticks[0], pos, back, posMin, posMax);
      RecoveryNeverLosesGround(Fold(pos + ticks[0].moved), ticks[1..], back, posMin, posMax);
    }
  }
}
