/** Ramps that move along each joint's travel (measure_so101_cerebellum.py), against the daemon's
    envelope and its shortest-path error. */
module Ramps {
  import opened Reals
  import opened Encoder
  import TravelEnvelope

  /** One joint of the calibration file: homing offset and calibrated range. */
  datatype Travel = Travel(offset: real, rangeMin: real, rangeMax: real)

  type Pose = map<Motor, real>

  datatype Motor = ShoulderPan | ShoulderLift | ElbowFlex | WristFlex | WristRoll | Gripper

  const MOTOR_NAMES: seq<Motor> := [ShoulderPan, ShoulderLift, ElbowFlex, WristFlex, WristRoll, Gripper]

  /** Every motor has an entry; a missing one is a KeyError in the script. */
  ghost predicate Complete<T>(m: map<Motor, T>) {
    forall name: Motor :: name in m
  }

  /** `_along`: where a raw count sits on the joint rather than on the encoder. */
  function Along(raw: real, travel: Travel): real {
    Fold(raw - travel.offset)
  }

  /** One motor's target in `interpolate`. */
  function Target(a: real, b: real, frac: real, travel: Travel): real {
    Fold(Mix(Along(a, travel), Along(b, travel), frac) + travel.offset)
  }

  /** `interpolate`: fills one target per motor. */
  method Interpolate(a: Pose, b: Pose, frac: real, travel: map<Motor, Travel>) returns (out: Pose)
    requires Complete(a) && Complete(b) && Complete(travel)
    ensures Complete(out) && forall name: Motor :: out[name] == Target(a[name], b[name], frac, travel[name])
  {
    out := map[];
    for i := 0 to |MOTOR_NAMES|
      invariant forall j | 0 <= j < i :: MOTOR_NAMES[j] in out
      invariant forall name | name in out :: out[name] == Target(a[name], b[name], frac, travel[name])
    {
      var m := MOTOR_NAMES[i];
      out := out[m := Target(a[m], b[m], frac, travel[m])];
    }
    EveryMotorIsNamed();
    EveryNameIsEveryMotor(out, MOTOR_NAMES);
  }

  lemma EveryNameIsEveryMotor<T>(m: map<Motor, T>, names: seq<Motor>)
    requires forall j | 0 <= j < |names| :: names[j] in m
    requires forall name: Motor :: name in names
    ensures Complete(m)
  {
    forall name: Motor
      ensures name in m
    {
      assert name in names;
      var j :| 0 <= j < |names| && names[j] == name;
    }
  }

  lemma EveryMotorIsNamed()
    ensures forall name: Motor :: name in MOTOR_NAMES
  {
    forall name: Motor
      ensures name in MOTOR_NAMES
    {
      match name
      case ShoulderPan =>
      case ShoulderLift =>
      case ElbowFlex =>
      case WristFlex =>
      case WristRoll =>
      case Gripper =>
    }
  }

  function AlongError(target: real, present: real, travel: Travel): real {
    Along(target, travel) - Along(present, travel)
  }

  function LargestOf(a: Pose, b: Pose, travel: map<Motor, Travel>, names: seq<Motor>): (d: real)
    requires names != [] && forall name | name in names :: name in a && name in b && name in travel
    ensures forall name | name in names :: Abs(AlongError(b[name], a[name], travel[name])) <= d
    ensures exists name | name in names :: d == Abs(AlongError(b[name], a[name], travel[name]))
  {
    var head := Abs(AlongError(b[names[0]], a[names[0]], travel[names[0]]));
    if |names| == 1 then head else Max(head, LargestOf(a, b, travel, names[1..]))
  }

  /** `travel_distance`: how far the joint with furthest to go has to go. */
  function TravelDistance(a: Pose, b: Pose, travel: map<Motor, Travel>): (d: real)
    requires Complete(a) && Complete(b) && Complete(travel)
    ensures forall name: Motor :: Abs(AlongError(b[name], a[name], travel[name])) <= d
    ensures exists name: Motor :: d == Abs(AlongError(b[name], a[name], travel[name]))
  {
    EveryMotorIsNamed();
    LargestOf(a, b, travel, MOTOR_NAMES)
  }

  ghost predicate Between(x: real, y: real, z: real) {
    x <= y <= z || z <= y <= x
  }

  lemma SegmentStep(ca: real, cb: real, from: real, to: real)
    ensures Mix(ca, cb, to) - Mix(ca, cb, from) == (cb - ca) * (to - from)
  {
  }

  lemma Share(part: real, whole: real, frac: real)
    requires part <= whole && 0.0 <= frac
    ensures part * frac <= whole * frac
  {
  }

  lemma AbsOfProduct(x: real, y: real)
    ensures Abs(x * y) == Abs(x) * Abs(y)
  {
  }

  /** A raw target sits on the joint exactly where the ramp put it. */
  lemma TargetIsOnTheRamp(a: real, b: real, frac: real, travel: Travel)
    requires 0.0 <= frac <= 1.0
    ensures 0.0 <= Target(a, b, frac, travel) < RESOLUTION
    ensures Along(Target(a, b, frac, travel), travel) == Mix(Along(a, travel), Along(b, travel), frac)
    ensures Between(Along(a, travel), Along(Target(a, b, frac, travel), travel), Along(b, travel))
  {
    var ca, cb := Along(a, travel), Along(b, travel);
    MixStaysBetween(ca, cb, frac);
    FoldRange(a - travel.offset);
    FoldRange(b - travel.offset);
    UnfoldOffset(Mix(ca, cb, frac), travel.offset);
  }

  lemma UnfoldOffset(p: real, offset: real)
    requires 0.0 <= p < RESOLUTION
    ensures 0.0 <= Fold(p + offset) < RESOLUTION && Fold(Fold(p + offset) - offset) == p
  {
    var raw := Fold(p + offset);
    FoldIsTheRepresentative(p + offset, raw);
    var k :| p + offset - raw == Turns(k);
    assert raw - offset - p == Turns(-k);
    FoldIsTheRepresentative(raw - offset, p);
  }

  /** A raw count whose place on the joint is inside the calibrated range. */
  ghost predicate InsideRange(raw: real, travel: Travel) {
    travel.rangeMin <= Along(raw, travel) <= travel.rangeMax
  }

  /** Every target of a ramp between two poses inside a joint's range is inside the range, and
      inside the daemon's envelope in the raw frame, whatever margin it was built with. */
  lemma RampStaysInsideTheEnvelope(a: real, b: real, frac: real, travel: Travel, margin: real)
    requires 0.0 <= frac <= 1.0 && margin >= 0.0
    requires InsideRange(a, travel) && InsideRange(b, travel)
    ensures InsideRange(Target(a, b, frac, travel), travel)
    ensures var e := TravelEnvelope.New(travel.rangeMin, travel.rangeMax, travel.offset, margin);
            e.Some? ==> e.value.Contains(Target(a, b, frac, travel), TravelEnvelope.Raw)
  {
    TargetIsOnTheRamp(a, b, frac, travel);
    var raw := Target(a, b, frac, travel);
    var e := TravelEnvelope.New(travel.rangeMin, travel.rangeMax, travel.offset, margin);
    if e.Some? {
      BackToRaw(raw, travel.offset);
      TravelEnvelope.OnTheArcIsContained(e.value, raw, TravelEnvelope.Raw, Along(raw, travel));
    }
  }

  lemma BackToRaw(raw: real, offset: real)
    ensures Congruent(raw, Fold(raw - offset) + offset)
  {
    FoldIsTheRepresentative(raw - offset, 0.0);
    var k :| raw - offset - Fold(raw - offset) == Turns(k);
    assert raw - (Fold(raw - offset) + offset) == Turns(k);
  }

  /** The daemon's error is the error along the travel exactly when that is under half a turn, or is
      half a turn on the side the raw counts say. */
  lemma DaemonDrivesAlongTheTravel(target: real, present: real, travel: Travel)
    ensures var along := AlongError(target, present, travel);
            WrappedDelta(target, present) == along
            <==> Abs(along) < HALF || (Abs(along) == HALF && (target - present > 0.0) == (along > 0.0))
  {
    var along := AlongError(target, present, travel);
    SameDifference(target, present, travel.offset);
    DeltaRepresents(target, present);
    if Abs(along) <= HALF {
      DeltaIs(target, present, along);
    }
  }

  lemma SameDifference(target: real, present: real, offset: real)
    ensures Congruent(target - present, Fold(target - offset) - Fold(present - offset))
  {
    FoldIsTheRepresentative(target - offset, 0.0);
    FoldIsTheRepresentative(present - offset, 0.0);
    CongruentShift(target - offset, Fold(target - offset), present - offset, Fold(present - offset));
    assert target - offset - (present - offset) == target - present;
  }

  /** From one point of a ramp to another, each joint's step along its travel is its share of the
      ramp, and no joint's step is more than that share of `travel_distance`. */
  lemma RampStep(a: Pose, b: Pose, from: real, to: real, travel: map<Motor, Travel>, name: Motor)
    requires Complete(a) && Complete(b) && Complete(travel)
    requires 0.0 <= from <= 1.0 && 0.0 <= to <= 1.0
    ensures StepIsShared(a[name], b[name], from, to, travel[name], TravelDistance(a, b, travel))
  {
    NoJointIsFurther(a, b, travel, name);
    StepWithin(a[name], b[name], from, to, travel[name], TravelDistance(a, b, travel));
  }

  ghost predicate StepIsShared(a: real, b: real, from: real, to: real, travel: Travel, whole: real) {
    Shared(AlongError(Target(a, b, to, travel), Target(a, b, from, travel), travel),
           AlongError(b, a, travel), to - from, whole)
  }

  /** How far `frac` of a ramp that takes a joint at most `whole` counts takes it. */
  function Reach(whole: real, frac: real): real {
    whole * Abs(frac)
  }

  /** `step` is the fraction `frac` of the ramp, and no more than that of the whole. */
  predicate Shared(step: real, ramp: real, frac: real, whole: real) {
    step == ramp * frac && Abs(step) <= Reach(whole, frac)
  }

  lemma NoJointIsFurther(a: Pose, b: Pose, travel: map<Motor, Travel>, name: Motor)
    requires Complete(a) && Complete(b) && Complete(travel)
    ensures Abs(AlongError(b[name], a[name], travel[name])) <= TravelDistance(a, b, travel)
  {
  }

  lemma StepWithin(a: real, b: real, from: real, to: real, travel: Travel, whole: real)
    requires 0.0 <= from <= 1.0 && 0.0 <= to <= 1.0
    requires Abs(AlongError(b, a, travel)) <= whole
    ensures StepIsShared(a, b, from, to, travel, whole)
  {
    var p, q := Target(a, b, from, travel), Target(a, b, to, travel);
    StepAlong(a, b, from, to, travel, p, q);
    var step := AlongError(q, p, travel);
    StepShare(AlongError(b, a, travel), to - from, whole, step);
  }

  /** The step between two targets, named, is the ramp's whole step times the fraction between them. */
  lemma StepAlong(a: real, b: real, from: real, to: real, travel: Travel, p: real, q: real)
    requires 0.0 <= from <= 1.0 && 0.0 <= to <= 1.0
    requires p == Target(a, b, from, travel) && q == Target(a, b, to, travel)
    ensures AlongError(q, p, travel) == AlongError(b, a, travel) * (to - from)
  {
    TargetAlong(a, b, from, travel, p);
    TargetAlong(a, b, to, travel, q);
    MixStep(Along(a, travel), Along(b, travel), from, to, Along(p, travel), Along(q, travel));
  }

  lemma TargetAlong(a: real, b: real, frac: real, travel: Travel, target: real)
    requires 0.0 <= frac <= 1.0 && target == Target(a, b, frac, travel)
    ensures Along(target, travel) == Mix(Along(a, travel), Along(b, travel), frac)
  {
    TargetIsOnTheRamp(a, b, frac, travel);
  }

  lemma MixStep(ca: real, cb: real, from: real, to: real, cp: real, cq: real)
    requires cp == Mix(ca, cb, from) && cq == Mix(ca, cb, to)
    ensures cq - cp == (cb - ca) * (to - from)
  {
    SegmentStep(ca, cb, from, to);
  }

  lemma StepShare(ramp: real, frac: real, whole: real, step: real)
    requires Abs(ramp) <= whole && step == ramp * frac
    ensures Shared(step, ramp, frac, whole)
  {
    AbsOfProduct(ramp, frac);
    Share(Abs(ramp), whole, Abs(frac));
  }

  /** So between consecutive targets of a ramp whose steps are under half a turn, the daemon's
      shortest-path error is the step along the travel: the joint is driven along it. */
  lemma RampIsFollowedAlongTheTravel(a: Pose, b: Pose, from: real, to: real, travel: map<Motor, Travel>, name: Motor)
    requires Complete(a) && Complete(b) && Complete(travel)
    requires 0.0 <= from <= 1.0 && 0.0 <= to <= 1.0
    requires Reach(TravelDistance(a, b, travel), to - from) < HALF
    ensures var t := travel[name];
            var (p, q) := (Target(a[name], b[name], from, t), Target(a[name], b[name], to, t));
            WrappedDelta(q, p) == AlongError(q, p, t)
  {
    NoJointIsFurther(a, b, travel, name);
    JointIsDriven(a[name], b[name], from, to, travel[name], TravelDistance(a, b, travel));
  }

  lemma JointIsDriven(a: real, b: real, from: real, to: real, travel: Travel, whole: real)
    requires 0.0 <= from <= 1.0 && 0.0 <= to <= 1.0
    requires Abs(AlongError(b, a, travel)) <= whole && Reach(whole, to - from) < HALF
    ensures var (p, q) := (Target(a, b, from, travel), Target(a, b, to, travel));
            WrappedDelta(q, p) == AlongError(q, p, travel)
  {
    StepWithin(a, b, from, to, travel, whole);
    ShortStepIsDriven(a, b, from, to, travel, whole);
  }

  lemma ShortStepIsDriven(a: real, b: real, from: real, to: real, travel: Travel, whole: real)
    requires StepIsShared(a, b, from, to, travel, whole) && Reach(whole, to - from) < HALF
    ensures var (p, q) := (Target(a, b, from, travel), Target(a, b, to, travel));
            WrappedDelta(q, p) == AlongError(q, p, travel)
  {
    StepIsShort(a, b, from, to, travel, whole, Target(a, b, from, travel), Target(a, b, to, travel));
    ShortIsDriven(Target(a, b, to, travel), Target(a, b, from, travel), travel);
  }

  lemma StepIsShort(a: real, b: real, from: real, to: real, travel: Travel, whole: real, p: real, q: real)
    requires StepIsShared(a, b, from, to, travel, whole) && Reach(whole, to - from) < HALF
    requires p == Target(a, b, from, travel) && q == Target(a, b, to, travel)
    ensures Abs(AlongError(q, p, travel)) < HALF
  {
    SharedIsShort(AlongError(q, p, travel), AlongError(b, a, travel), to - from, whole);
  }

  lemma ShortIsDriven(target: real, present: real, travel: Travel)
    requires Abs(AlongError(target, present, travel)) < HALF
    ensures WrappedDelta(target, present) == AlongError(target, present, travel)
  {
    DaemonDrivesAlongTheTravel(target, present, travel);
  }

  lemma SharedIsShort(step: real, ramp: real, frac: real, whole: real)
    requires Shared(step, ramp, frac, whole) && Reach(whole, frac) < HALF
    ensures Abs(step) < HALF
  {
  }
}
