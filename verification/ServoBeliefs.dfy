/** What the daemon believes about a servo after a command, and when it is still true (main.rs, over
    the bus and the commands of control.rs). */
module ServoBeliefs {
  import opened Wrappers
  import opened ServoBus
  import TE = TravelEnvelope

  // ---- the position frame ----

  /** The position frame the loop believes after a SetOperatingMode: it moves only on status 0. */
  function BelievedFrame(before: Option<TE.PositionFrame>, o: Outcome, mode: nat): Option<TE.PositionFrame> {
    if o.Ok? then TE.FromOperatingMode(mode) else before
  }

  ghost predicate FrameBeliefIsRight(fates: Fates, l: Line, id: nat, mode: nat, before: Option<TE.PositionFrame>)
    requires LineOk(l)
  {
    var (t, o) := SetMode(fates, l, id, mode, OPERATING_MODE_ATTEMPTS);
    id in t.servos && BelievedFrame(before, o, mode) == TE.FromOperatingMode(t.servos[id][OperatingMode])
  }

  /** One run of the command: a belief that was right is right afterwards exactly when the command
      reported success, or no attempt changed the servo's mode, or the new mode has the same frame. */
  lemma FrameBeliefAfterwards(fates: Fates, l: Line, id: nat, mode: nat, before: Option<TE.PositionFrame>)
    requires LineOk(l) && id in l.servos && before == TE.FromOperatingMode(l.servos[id][OperatingMode])
    ensures FrameBeliefIsRight(fates, l, id, mode, before)
            <==> || SetMode(fates, l, id, mode, OPERATING_MODE_ATTEMPTS).1.Ok?
                 || !SomeAttemptTakes(fates, l, id, mode, OPERATING_MODE_ATTEMPTS)
                 || TE.FromOperatingMode(mode % Capacity(OperatingMode)) == before
  {
    ReportedModeIsTrue(fates, l, id, mode, OPERATING_MODE_ATTEMPTS);
    ModeAfterwards(fates, l, id, mode, OPERATING_MODE_ATTEMPTS);
  }

  /** Before the command is sent: a right belief is sure to stay right, whatever the bus will do,
      if and only if the mode asked for, as the register holds it, reports positions in the frame
      already believed. */
  lemma FrameBeliefStaysRightExactlyWhen(l: Line, id: nat, mode: nat, before: Option<TE.PositionFrame>)
    requires LineOk(l) && id in l.servos && before == TE.FromOperatingMode(l.servos[id][OperatingMode])
    ensures (forall fates: Fates :: FrameBeliefIsRight(fates, l, id, mode, before))
            <==> TE.FromOperatingMode(mode % Capacity(OperatingMode)) == before
  {
    if TE.FromOperatingMode(mode % Capacity(OperatingMode)) == before {
      forall fates: Fates
        ensures FrameBeliefIsRight(fates, l, id, mode, before)
      {
        FrameBeliefAfterwards(fates, l, id, mode, before);
      }
    } else {
      var fates := ReadBacksLost(l.clock);
      UnansweredAttempts(l.clock, l, id, mode, OPERATING_MODE_ATTEMPTS);
      assert !FrameBeliefIsRight(fates, l, id, mode, before);
    }
  }

  /** From transaction `from` on, everything lands and is acknowledged, except the read-back that ends
      each attempt to set the mode. */
  function ReadBacksLost(from: nat): Fates {
    (k: nat) => Fate(true, k < from || (k - from) % 4 != 3)
  }

  lemma {:induction false} UnansweredAttempts(from: nat, l: Line, id: nat, mode: nat, attempts: nat)
    requires LineOk(l) && id in l.servos && from <= l.clock && (l.clock - from) % 4 == 0 && attempts > 0
    ensures var (t, o) := SetMode(ReadBacksLost(from), l, id, mode, attempts);
            o == Err && id in t.servos && t.servos[id][OperatingMode] == mode % Capacity(OperatingMode)
    decreases attempts
  {
    UnansweredAttempt(from, l, id, mode);
    var l1 := AttemptMode(ReadBacksLost(from), l, id, mode).0;
    if attempts > 1 {
      UnansweredAttempts(from, l1, id, mode, attempts - 1);
    } else {
      assert SetMode(ReadBacksLost(from), l1, id, mode, 0) == (l1, Err);
    }
  }

  lemma UnansweredAttempt(from: nat, l: Line, id: nat, mode: nat)
    requires LineOk(l) && id in l.servos && from <= l.clock && (l.clock - from) % 4 == 0
    ensures var (t, o) := AttemptMode(ReadBacksLost(from), l, id, mode);
            && o == Err && t.clock == l.clock + 4
            && id in t.servos && t.servos[id][OperatingMode] == mode % Capacity(OperatingMode)
  {
    AcknowledgedModeWrites(ReadBacksLost(from), l, id, mode);
  }

  /** A servo in position mode, torque on and locked, everything else zero. */
  const HOLDING: Servo := map[
    TorqueEnable := 1, Lock := 1, OperatingMode := TE.OPERATING_MODE_POSITION, GoalPwm := 0, HomingOffset := 0,
    MinPositionLimit := 0, MaxPositionLimit := 0, PCoefficient := 0, ICoefficient := 0, DCoefficient := 0]

  /** That servo alone on the bus, as motor 1. */
  const HOLDING_LINE: Line := Line(map[1 := HOLDING], 0)

  lemma HoldingIsAServo()
    ensures ServoOk(HOLDING) && LineOk(HOLDING_LINE)
  {
    forall r: Register
      ensures r in HOLDING
    {
      assert r.TorqueEnable? || r.Lock? || r.OperatingMode? || r.GoalPwm? || r.HomingOffset?
             || r.MinPositionLimit? || r.MaxPositionLimit? || r.PCoefficient? || r.ICoefficient? || r.DCoefficient?;
    }
  }

  /** A failed SetOperatingMode can have switched the mode: every write lands, every read-back is
      lost. The position frame the loop goes on believing is then wrong. */
  lemma FailedReportCanHideASwitch() returns (fates: Fates, l: Line, id: nat, mode: nat)
    ensures LineOk(l) && id in l.servos && l.servos[id][OperatingMode] == TE.OPERATING_MODE_POSITION
    ensures var (t, o) := SetMode(fates, l, id, mode, OPERATING_MODE_ATTEMPTS);
            o == Err && id in t.servos && t.servos[id][OperatingMode] == mode == TE.OPERATING_MODE_PWM
  {
    HoldingIsAServo();
    l, id, mode := HOLDING_LINE, 1, TE.OPERATING_MODE_PWM;
    fates := HiddenSwitch(l, id, mode);
  }

  lemma HiddenSwitch(l: Line, id: nat, mode: nat) returns (fates: Fates)
    requires LineOk(l) && id in l.servos && mode < Capacity(OperatingMode)
    ensures var (t, o) := SetMode(fates, l, id, mode, OPERATING_MODE_ATTEMPTS);
            o == Err && id in t.servos && t.servos[id][OperatingMode] == mode
  {
    fates := ReadBacksLost(l.clock);
    UnansweredAttempts(l.clock, l, id, mode, OPERATING_MODE_ATTEMPTS);
  }

  // ---- the calibration ----

  /** What the soft limits and the travel envelope of a joint are made of. */
  datatype Calibration = Calibration(offset: real, rangeMin: real, rangeMax: real)

  function CalibrationOf(s: Servo): Calibration
    requires ServoOk(s)
  {
    Calibration(DecodeOffset(s[HomingOffset]) as real, s[MinPositionLimit] as real, s[MaxPositionLimit] as real)
  }

  /** What a servo that takes the whole command holds afterwards. */
  function AsWritten(sent: Calibration): Calibration {
    Calibration(DecodeOffset(EncodeOffset(Round(sent.offset))) as real,
                (ToU32(sent.rangeMin) % Capacity(MinPositionLimit)) as real,
                (ToU32(sent.rangeMax) % Capacity(MaxPositionLimit)) as real)
  }

  function SendCalibration(fates: Fates, l: Line, id: nat, sent: Calibration): (r: (Line, Outcome))
    requires LineOk(l)
    ensures LineOk(r.0)
  {
    SetCalibration(fates, l, id, sent.offset, ToU32(sent.rangeMin), ToU32(sent.rangeMax))
  }

  /** The loop takes the payload for the calibration on status 0, and changes nothing otherwise. */
  ghost predicate CalibrationBeliefIsRight(fates: Fates, l: Line, id: nat, sent: Calibration, before: Calibration)
    requires LineOk(l)
  {
    var (t, o) := SendCalibration(fates, l, id, sent);
    id in t.servos && (if o.Ok? then sent else before) == CalibrationOf(t.servos[id])
  }

  predicate OffsetFits(offset: real) {
    -SIGN_BIT < Round(offset) < SIGN_BIT
  }

  /** Before the command is sent: a right belief is sure to stay right, whatever the bus will do, if
      and only if the command would leave every register as it is and, should it succeed, the payload
      is literally what the servo already holds. */
  lemma CalibrationBeliefStaysRightExactlyWhen(l: Line, id: nat, sent: Calibration, before: Calibration)
    requires LineOk(l) && id in l.servos && before == CalibrationOf(l.servos[id])
    ensures (forall fates: Fates :: CalibrationBeliefIsRight(fates, l, id, sent, before))
            <==> AsWritten(sent) == before && (OffsetFits(sent.offset) ==> sent == before)
  {
    if AsWritten(sent) == before && (OffsetFits(sent.offset) ==> sent == before) {
      forall fates: Fates
        ensures CalibrationBeliefIsRight(fates, l, id, sent, before)
      {
        RewritingChangesNothing(fates, l, id, sent);
      }
    } else {
      var lost: Fates := k => Fate(true, k != l.clock + 5);
      var clean := LosesNothing();
      CalibrationLands(lost, l, id, sent);
      CalibrationLands(clean, l, id, sent);
      OffsetRoundTrip(Round(sent.offset));
      assert !CalibrationBeliefIsRight(lost, l, id, sent, before)
             || !CalibrationBeliefIsRight(clean, l, id, sent, before);
    }
  }

  /** Offset 100 sent to the servo above, on a bus that loses only the read-back: the command fails, the
      servo has the offset, and the loop goes on with 0. */
  lemma FailedReportCanHideACalibration() returns (fates: Fates, l: Line, sent: Calibration)
    ensures LineOk(l) && 1 in l.servos && l.servos[1] == HOLDING && ServoOk(HOLDING)
    ensures sent.offset == 100.0 && CalibrationOf(HOLDING).offset == 0.0
    ensures var (t, o) := SendCalibration(fates, l, 1, sent);
            o == Err && 1 in t.servos && CalibrationOf(t.servos[1]).offset == 100.0
    ensures !CalibrationBeliefIsRight(fates, l, 1, sent, CalibrationOf(HOLDING))
  {
    HoldingIsAServo();
    l, sent := HOLDING_LINE, Calibration(100.0, 0.0, 0.0);
    HundredFits(sent);
    fates := HiddenCalibration(l, 1, sent);
  }

  lemma HundredFits(sent: Calibration)
    requires sent.offset == 100.0
    ensures AsWritten(sent).offset == 100.0
  {
    OffsetRoundTrip(100);
  }

  lemma HiddenCalibration(l: Line, id: nat, sent: Calibration) returns (fates: Fates)
    requires LineOk(l) && id in l.servos
    ensures var (t, o) := SendCalibration(fates, l, id, sent);
            o == Err && id in t.servos && CalibrationOf(t.servos[id]) == AsWritten(sent)
  {
    fates := k => Fate(true, k != l.clock + 5);
    CalibrationLands(fates, l, id, sent);
  }

  /** A write that leaves the calibration as it reads. */
  predicate Rewrites(w: (Register, nat), c: Calibration) {
    match w.0
    case HomingOffset => DecodeOffset(w.1 % Capacity(HomingOffset)) as real == c.offset
    case MinPositionLimit => (w.1 % Capacity(MinPositionLimit)) as real == c.rangeMin
    case MaxPositionLimit => (w.1 % Capacity(MaxPositionLimit)) as real == c.rangeMax
    case _ => true
  }

  lemma {:induction false} RewritesChangeNothing(fates: Fates, l: Line, id: nat, writes: seq<(Register, nat)>)
    requires LineOk(l) && id in l.servos
    requires forall w | w in writes :: Rewrites(w, CalibrationOf(l.servos[id]))
    ensures var t := WriteAll(fates, l, id, writes).0;
            id in t.servos && CalibrationOf(t.servos[id]) == CalibrationOf(l.servos[id])
    decreases |writes|
  {
    if writes != [] {
      assert Rewrites(writes[0], CalibrationOf(l.servos[id]));
      RewritesChangeNothing(fates, WriteRegister(fates, l, id, writes[0].0, writes[0].1).0, id, writes[1..]);
    }
  }

  lemma WritesAsHeld(sent: Calibration, held: Calibration)
    requires AsWritten(sent) == held
    ensures forall w | w in CalibrationWrites(sent.offset, ToU32(sent.rangeMin), ToU32(sent.rangeMax)) ::
              Rewrites(w, held)
  {
    OffsetRoundTrip(Round(sent.offset));
  }

  lemma RewritingChangesNothing(fates: Fates, l: Line, id: nat, sent: Calibration)
    requires LineOk(l) && id in l.servos && AsWritten(sent) == CalibrationOf(l.servos[id])
    ensures var (t, o) := SendCalibration(fates, l, id, sent);
            id in t.servos && CalibrationOf(t.servos[id]) == CalibrationOf(l.servos[id])
            && (o.Ok? ==> OffsetFits(sent.offset))
  {
    var low, high := ToU32(sent.rangeMin), ToU32(sent.rangeMax);
    WritesAsHeld(sent, CalibrationOf(l.servos[id]));
    RewritesChangeNothing(fates, l, id, CalibrationWrites(sent.offset, low, high));
    ReportedOffsetIsTrue(fates, l, id, sent.offset, low, high);
  }

  /** When all five writes land and are acknowledged, the servo holds what was written, and the status
      is 0 exactly when the read-back arrives and the offset fits. */
  lemma CalibrationLands(fates: Fates, l: Line, id: nat, sent: Calibration)
    requires LineOk(l) && id in l.servos && HonestAcks(fates) && Clean(fates, l.clock, l.clock + 5)
    ensures var (t, o) := SendCalibration(fates, l, id, sent);
            id in t.servos && CalibrationOf(t.servos[id]) == AsWritten(sent)
            && (o.Ok? <==> fates(l.clock + 5) == Fate(true, true) && OffsetFits(sent.offset))
  {
    var off, low, high := EncodeOffset(Round(sent.offset)), ToU32(sent.rangeMin), ToU32(sent.rangeMax);
    OffsetRoundTrip(Round(sent.offset));
    CleanWritesAreAcknowledged(fates, l, id, CalibrationWrites(sent.offset, low, high));
    CalibrationWritesTaken(fates, l, id, sent.offset, low, high);
  }

  // ---- the PID coefficients ----

  function LosesNothing(): Fates { _ => Fate(true, true) }

  /** On a bus that loses nothing, the PID command reports success to a servo with torque on, which
      has dropped all three coefficients. */
  lemma PidStatusCanBeEmpty() returns (l: Line)
    ensures LineOk(l) && 1 in l.servos && l.servos[1] == HOLDING
    ensures var (t, o) := Execute(LosesNothing(), l, 1, SetPidCoefficients(16.0, 1.0, 32.0));
            o == Ok && 1 in t.servos && t.servos[1] == HOLDING
  {
    HoldingIsAServo();
    l := HOLDING_LINE;
    PidAfterwards(LosesNothing(), l, 1, 16.0, 1.0, 32.0);
  }
}
