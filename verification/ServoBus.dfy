/** The servos, the bus that may lose anything, and the daemon's command handler and shutdown
    sequence over them (control.rs, feetech.rs). */
module ServoBus {
  import opened Wrappers

  // ---- a servo ----

  datatype Register =
    | TorqueEnable | Lock | OperatingMode | GoalPwm
    | HomingOffset | MinPositionLimit | MaxPositionLimit
    | PCoefficient | ICoefficient | DCoefficient

  function Address(r: Register): nat {
    match r
    case MinPositionLimit => 9
    case MaxPositionLimit => 11
    case PCoefficient => 21
    case DCoefficient => 22
    case ICoefficient => 23
    case HomingOffset => 31
    case OperatingMode => 33
    case TorqueEnable => 40
    case GoalPwm => 44
    case Lock => 55
  }

  /** One past the largest value the register's bytes can hold. */
  function Capacity(r: Register): nat {
    match r
    case HomingOffset | MinPositionLimit | MaxPositionLimit | GoalPwm => 0x1_0000
    case _ => 0x100
  }

  /** Everything below address 40 is EPROM. */
  predicate Eprom(r: Register) {
    Address(r) < 40
  }

  type Servo = map<Register, nat>

  ghost predicate ServoOk(s: Servo) {
    forall r: Register :: r in s
  }

  /** What a servo does with a write that reaches it: an EPROM write is dropped unless torque is off
      and the lock is clear, and a duty write re-arms the torque. */
  function Take(s: Servo, r: Register, value: nat): Servo
    requires TorqueEnable in s && Lock in s
  {
    if Eprom(r) && (s[TorqueEnable] != 0 || s[Lock] != 0) then s
    else if r == GoalPwm then s[GoalPwm := value % Capacity(r)][TorqueEnable := 1]
    else s[r := value % Capacity(r)]
  }

  // ---- the bus ----

  /** What happens to one transaction: whether the request reaches the servo, and whether the reply
      comes back. They are independent, so a write may land without its ack, and an ack says nothing
      about whether the servo kept the value. */
  datatype Fate = Fate(landed: bool, replied: bool)

  /** Every servo on the bus, and how many transactions have been made. */
  datatype Line = Line(servos: map<nat, Servo>, clock: nat)

  ghost predicate LineOk(l: Line) {
    forall id | id in l.servos :: ServoOk(l.servos[id])
  }

  type Fates = nat -> Fate

  function WriteRegister(fates: Fates, l: Line, id: nat, r: Register, value: nat): (Line, Outcome)
    requires LineOk(l)
  {
    var fate := fates(l.clock);
    if id !in l.servos then (Line(l.servos, l.clock + 1), Err)
    else
      (Line(if fate.landed then l.servos[id := Take(l.servos[id], r, value)] else l.servos, l.clock + 1),
       if fate.replied then Ok else Err)
  }

  /** A read either fails or returns what the servo holds. */
  function ReadRegister(fates: Fates, l: Line, id: nat, r: Register): (Line, Option<nat>)
    requires LineOk(l)
  {
    (Line(l.servos, l.clock + 1),
     if id in l.servos && fates(l.clock).landed && fates(l.clock).replied then Some(l.servos[id][r]) else None)
  }

  // ---- what the daemon does, as functions of the bus's fates ----

  function WriteAll(fates: Fates, l: Line, id: nat, writes: seq<(Register, nat)>): (r: (Line, Outcome))
    requires LineOk(l)
    ensures LineOk(r.0)
    decreases |writes|
  {
    if writes == [] then (l, Ok)
    else
      var (l1, o) := WriteRegister(fates, l, id, writes[0].0, writes[0].1);
      if o.Err? then (l1, Err) else WriteAll(fates, l1, id, writes[1..])
  }

  /** Torque off, unlock, then the mode: `write_operating_mode`. */
  function ModeWrites(mode: nat): seq<(Register, nat)> {
    [(TorqueEnable, 0), (Lock, 0), (OperatingMode, mode)]
  }

  /** One attempt: the writes, stopping at the first error, then the read-back. */
  function AttemptMode(fates: Fates, l: Line, id: nat, mode: nat): (r: (Line, Outcome))
    requires LineOk(l)
    ensures LineOk(r.0)
  {
    var (l1, o) := WriteAll(fates, l, id, ModeWrites(mode));
    if o.Err? then (l1, Err)
    else
      var (l2, v) := ReadRegister(fates, l1, id, OperatingMode);
      (l2, if v == Some(mode) then Ok else Err)
  }

  const OPERATING_MODE_ATTEMPTS: nat := 3

  /** Up to `attempts` attempts, stopping at the first that verifies. */
  function SetMode(fates: Fates, l: Line, id: nat, mode: nat, attempts: nat): (r: (Line, Outcome))
    requires LineOk(l)
    ensures LineOk(r.0)
    decreases attempts
  {
    if attempts == 0 then (l, Err)
    else
      var (l1, o) := AttemptMode(fates, l, id, mode);
      if o.Ok? then (l1, Ok) else SetMode(fates, l1, id, mode, attempts - 1)
  }

  // ---- the other commands ----

  const SIGN_BIT: int := 2048

  /** Sign-magnitude at bit 11; the magnitude is cut to what fits. */
  function EncodeOffset(v: int): nat {
    (if v < 0 then -v else v) % SIGN_BIT + if v < 0 then SIGN_BIT else 0
  }

  function DecodeOffset(raw: nat): int {
    if raw / SIGN_BIT % 2 == 1 then -(raw % SIGN_BIT) else raw % SIGN_BIT
  }

  /** `f32::round`: halves away from zero. */
  function Round(x: real): int {
    if x >= 0.0 then (x + 0.5).Floor else -((-x + 0.5).Floor)
  }

  /** `as u32`: truncating, and saturating at both ends. */
  function ToU32(x: real): nat {
    if x < 0.0 then 0 else if x >= 4294967296.0 then 0xFFFF_FFFF else x.Floor
  }

  /** What a payload number becomes: nothing below zero, the largest word from 2^32 on, and the whole
      part of it in between; and for an offset the nearest integer, a half going away from zero. */
  lemma PayloadNumbers(x: real)
    ensures x < 0.0 ==> ToU32(x) == 0
    ensures x >= 4294967296.0 ==> ToU32(x) == 4294967295
    ensures 0.0 <= x < 4294967296.0 ==> ToU32(x) as real <= x < ToU32(x) as real + 1.0
    ensures x >= 0.0 ==> x - 0.5 < Round(x) as real <= x + 0.5
    ensures Round(-x) == -Round(x)
  {
  }

  function CalibrationWrites(offset: real, rangeMin: nat, rangeMax: nat): seq<(Register, nat)> {
    [(TorqueEnable, 0), (Lock, 0), (HomingOffset, EncodeOffset(Round(offset))),
     (MinPositionLimit, rangeMin), (MaxPositionLimit, rangeMax)]
  }

  /** `write_calibration`: the five writes, then the offset alone is read back. */
  function SetCalibration(fates: Fates, l: Line, id: nat, offset: real, rangeMin: nat, rangeMax: nat)
    : (r: (Line, Outcome))
    requires LineOk(l)
    ensures LineOk(r.0)
  {
    var (l1, o) := WriteAll(fates, l, id, CalibrationWrites(offset, rangeMin, rangeMax));
    if o.Err? then (l1, Err)
    else
      var (l2, v) := ReadRegister(fates, l1, id, HomingOffset);
      (l2, if v.Some? && DecodeOffset(v.value) == Round(offset) then Ok else Err)
  }

  function PidWrites(p: real, i: real, d: real): seq<(Register, nat)> {
    [(PCoefficient, ToU32(p)), (ICoefficient, ToU32(i)), (DCoefficient, ToU32(d))]
  }

  datatype Command =
    | NoCommand
    | SetOperatingMode(mode: real)
    | SetPidCoefficients(p: real, i: real, d: real)
    | SetTorqueEnable(enable: real)
    | SetCalibrationTo(offset: real, rangeMin: real, rangeMax: real)
    | Shutdown

  /** `apply_command`: what each kind does to the bus; `Ok` is status 0. */
  function Execute(fates: Fates, l: Line, id: nat, c: Command): (r: (Line, Outcome))
    requires LineOk(l)
    ensures LineOk(r.0)
  {
    match c
    case SetOperatingMode(mode) => SetMode(fates, l, id, ToU32(mode), OPERATING_MODE_ATTEMPTS)
    case SetTorqueEnable(enable) => WriteAll(fates, l, id, [(TorqueEnable, ToU32(enable)), (Lock, ToU32(enable))])
    case SetPidCoefficients(p, i, d) =>
      WriteAll(fates, l, id, PidWrites(p, i, d))
    case SetCalibrationTo(offset, rangeMin, rangeMax) =>
      SetCalibration(fates, l, id, offset, ToU32(rangeMin), ToU32(rangeMax))
    case _ => (l, Ok)
  }

  /** One write of `r := 0` to each motor in turn, errors only logged. */
  function ZeroPass(fates: Fates, l: Line, ids: seq<nat>, r: Register): (l': Line)
    requires LineOk(l)
    ensures LineOk(l')
  {
    if ids == [] then l
    else WriteRegister(fates, ZeroPass(fates, l, ids[..|ids| - 1], r), ids[|ids| - 1], r, 0).0
  }

  /** The motors whose torque does not read back as zero. */
  function ReadBackPass(fates: Fates, l: Line, ids: seq<nat>): (r: (Line, seq<nat>))
    requires LineOk(l)
    ensures r.0.servos == l.servos && r.0.clock == l.clock + |ids|
  {
    if ids == [] then (l, [])
    else
      var (l1, on) := ReadBackPass(fates, l, ids[..|ids| - 1]);
      var id := ids[|ids| - 1];
      var (l2, v) := ReadRegister(fates, l1, id, TorqueEnable);
      (l2, if v == Some(0) then on else on + [id])
  }

  /** `release_all`: every duty to zero, then every torque off, then the read-back. */
  function Release(fates: Fates, l: Line, ids: seq<nat>): (Line, seq<nat>)
    requires LineOk(l)
  {
    ReadBackPass(fates, ZeroPass(fates, ZeroPass(fates, l, ids, GoalPwm), ids, TorqueEnable), ids)
  }

  // ---- the daemon's own code ----

  class Bus {
    var line: Line
    const fates: Fates

    constructor (servos: map<nat, Servo>, fates: Fates)
      ensures line == Line(servos, 0) && this.fates == fates
    {
      line := Line(servos, 0);
      this.fates := fates;
    }

    method Write(id: nat, r: Register, value: nat) returns (o: Outcome)
      requires LineOk(line)
      modifies this
      ensures LineOk(line) && (line, o) == WriteRegister(fates, old(line), id, r, value)
    {
      var (l, out) := WriteRegister(fates, line, id, r, value);
      line := l;
      o := out;
    }

    method Read(id: nat, r: Register) returns (v: Option<nat>)
      requires LineOk(line)
      modifies this
      ensures LineOk(line) && (line, v) == ReadRegister(fates, old(line), id, r)
    {
      var (l, out) := ReadRegister(fates, line, id, r);
      line := l;
      v := out;
    }

    /** Writes in order, stopping at the first that is not acknowledged. */
    method WriteEach(id: nat, writes: seq<(Register, nat)>) returns (o: Outcome)
      requires LineOk(line)
      modifies this
      ensures LineOk(line) && (line, o) == WriteAll(fates, old(line), id, writes)
    {
      for i := 0 to |writes|
        invariant LineOk(line)
        invariant WriteAll(fates, line, id, writes[i..]) == WriteAll(fates, old(line), id, writes)
      {
        o := Write(id, writes[i].0, writes[i].1);
        assert writes[i..][1..] == writes[i + 1..];
        if o.Err? { return; }
      }
      o := Ok;
    }

    method VerifyOperatingMode(id: nat, expected: nat) returns (o: Outcome)
      requires LineOk(line)
      modifies this
      ensures LineOk(line)
      ensures var (l, v) := ReadRegister(fates, old(line), id, OperatingMode);
              line == l && (o.Ok? <==> v == Some(expected))
    {
      var v := Read(id, OperatingMode);
      o := if v == Some(expected) then Ok else Err;
    }

    method TryOperatingMode(id: nat, mode: nat) returns (o: Outcome)
      requires LineOk(line)
      modifies this
      ensures LineOk(line) && (line, o) == AttemptMode(fates, old(line), id, mode)
    {
      o := WriteEach(id, ModeWrites(mode));
      if o.Ok? {
        o := VerifyOperatingMode(id, mode);
      }
    }

    method SetOperatingMode(id: nat, mode: nat) returns (o: Outcome)
      requires LineOk(line)
      modifies this
      ensures LineOk(line) && (line, o) == SetMode(fates, old(line), id, mode, OPERATING_MODE_ATTEMPTS)
    {
      o := Err;
      for attempt := 1 to OPERATING_MODE_ATTEMPTS + 1
        invariant LineOk(line) && o.Err?
        invariant SetMode(fates, line, id, mode, OPERATING_MODE_ATTEMPTS + 1 - attempt)
                  == SetMode(fates, old(line), id, mode, OPERATING_MODE_ATTEMPTS)
      {
        o := TryOperatingMode(id, mode);
        if o.Ok? { return; }
      }
    }

    method ApplyCommand(id: nat, c: Command) returns (status: nat)
      requires LineOk(line)
      modifies this
      ensures LineOk(line)
      ensures var (l, o) := Execute(fates, old(line), id, c);
              line == l && status == if o.Ok? then 0 else 1
    {
      var o := Ok;
      match c {
        case SetOperatingMode(mode) =>
          o := SetOperatingMode(id, ToU32(mode));
        case SetTorqueEnable(enable) =>
          o := WriteEach(id, [(TorqueEnable, ToU32(enable)), (Lock, ToU32(enable))]);
        case SetPidCoefficients(p, i, d) =>
          o := WriteEach(id, PidWrites(p, i, d));
        case SetCalibrationTo(offset, rangeMin, rangeMax) =>
          o := WriteEach(id, CalibrationWrites(offset, ToU32(rangeMin), ToU32(rangeMax)));
          if o.Ok? {
            var v := Read(id, HomingOffset);
            o := if v.Some? && DecodeOffset(v.value) == Round(offset) then Ok else Err;
          }
        case _ =>
      }
      status := if o.Ok? then 0 else 1;
    }

    /** One pass of writes, errors only logged. */
    method ZeroAll(ids: seq<nat>, r: Register)
      requires LineOk(line)
      modifies this
      ensures LineOk(line) && line == ZeroPass(fates, old(line), ids, r)
    {
      for i := 0 to |ids|
        invariant LineOk(line) && line == ZeroPass(fates, old(line), ids[..i], r)
      {
        assert ids[..i + 1][..i] == ids[..i];
        var _ := Write(ids[i], r, 0);
      }
      assert ids[..|ids|] == ids;
    }

    method StillEnergised(ids: seq<nat>) returns (stillOn: seq<nat>)
      requires LineOk(line)
      modifies this
      ensures LineOk(line) && (line, stillOn) == ReadBackPass(fates, old(line), ids)
    {
      stillOn := [];
      for i := 0 to |ids|
        invariant LineOk(line) && (line, stillOn) == ReadBackPass(fates, old(line), ids[..i])
      {
        assert ids[..i + 1][..i] == ids[..i];
        var v := Read(ids[i], TorqueEnable);
        if v != Some(0) {
          stillOn := stillOn + [ids[i]];
        }
      }
      assert ids[..|ids|] == ids;
    }

    method ReleaseAll(ids: seq<nat>) returns (stillOn: seq<nat>)
      requires LineOk(line)
      modifies this
      ensures LineOk(line) && (line, stillOn) == Release(fates, old(line), ids)
    {
      ZeroAll(ids, GoalPwm);
      ZeroAll(ids, TorqueEnable);
      stillOn := StillEnergised(ids);
    }
  }

  // ---- what the reports are worth ----

  lemma {:induction false} WritesTouchOneServo(fates: Fates, l: Line, id: nat, writes: seq<(Register, nat)>)
    requires LineOk(l)
    ensures var t := WriteAll(fates, l, id, writes).0;
            && t.servos.Keys == l.servos.Keys && l.clock <= t.clock <= l.clock + |writes|
            && (forall other | other in l.servos && other != id :: t.servos[other] == l.servos[other])
            && (forall r: Register | id in l.servos && r != TorqueEnable && (forall w | w in writes :: w.0 != r) ::
                  t.servos[id][r] == l.servos[id][r])
    ensures WriteAll(fates, l, id, writes).1.Ok? && writes != [] ==> id in l.servos
    decreases |writes|
  {
    if writes != [] {
      var l1 := WriteRegister(fates, l, id, writes[0].0, writes[0].1).0;
      WritesTouchOneServo(fates, l1, id, writes[1..]);
    }
  }

  /** A reported mode is the servo's mode, whatever the bus lost on the way; at most three attempts
      are made, four transactions each; and nobody else's servo is touched. */
  lemma {:induction false} ReportedModeIsTrue(fates: Fates, l: Line, id: nat, mode: nat, attempts: nat)
    requires LineOk(l)
    ensures var (t, o) := SetMode(fates, l, id, mode, attempts);
            && (o.Ok? ==> id in t.servos && t.servos[id][OperatingMode] == mode)
            && t.servos.Keys == l.servos.Keys && t.clock <= l.clock + 4 * attempts
            && forall other | other in l.servos && other != id :: t.servos[other] == l.servos[other]
    decreases attempts
  {
    if attempts > 0 {
      WritesTouchOneServo(fates, l, id, ModeWrites(mode));
      var (l1, o) := AttemptMode(fates, l, id, mode);
      if o.Err? {
        ReportedModeIsTrue(fates, l1, id, mode, attempts - 1);
      }
    }
  }

  ghost predicate Clean(fates: Fates, from: nat, to: nat) {
    forall k: nat | from <= k < to :: fates(k) == Fate(true, true)
  }

  /** On a bus that loses nothing, the first attempt sets any mode the register can hold, from any
      starting state, torque on or locked. */
  lemma CleanBusSetsTheModeAtOnce(fates: Fates, l: Line, id: nat, mode: nat, attempts: nat)
    requires LineOk(l) && id in l.servos && mode < Capacity(OperatingMode) && attempts > 0
    requires Clean(fates, l.clock, l.clock + 4)
    ensures var (t, o) := SetMode(fates, l, id, mode, attempts);
            o == Ok && t.clock == l.clock + 4
  {
    assert fates(l.clock) == fates(l.clock + 1) == fates(l.clock + 2) == fates(l.clock + 3) == Fate(true, true);
    AcknowledgedModeWrites(fates, l, id, mode);
    assert mode % Capacity(OperatingMode) == mode;
  }

  /** An offset survives the register if and only if its magnitude is under 2048: sign in bit 11. */
  lemma OffsetRoundTrip(v: int)
    ensures DecodeOffset(EncodeOffset(v)) == v <==> -2048 < v < 2048
    ensures -2048 < v < 2048 ==> EncodeOffset(v) == if v < 0 then 2048 - v else v
    ensures EncodeOffset(v) < 4096
  {
  }

  /** A reported calibration means the servo holds the wanted homing offset, which is then one the
      register can hold. */
  lemma ReportedOffsetIsTrue(fates: Fates, l: Line, id: nat, offset: real, rangeMin: nat, rangeMax: nat)
    requires LineOk(l)
    ensures var (t, o) := SetCalibration(fates, l, id, offset, rangeMin, rangeMax);
            o.Ok? ==> id in t.servos && DecodeOffset(t.servos[id][HomingOffset]) == Round(offset)
                      && -SIGN_BIT < Round(offset) < SIGN_BIT
  {
    WritesTouchOneServo(fates, l, id, CalibrationWrites(offset, rangeMin, rangeMax));
  }

  /** Status 0 over every command: the mode or the homing offset really is in the servo, commands
      with nothing to do change nothing, and only the addressed servo is ever touched. */
  lemma StatusZeroIsTrue(fates: Fates, l: Line, id: nat, c: Command)
    requires LineOk(l)
    ensures var (t, o) := Execute(fates, l, id, c);
            && t.servos.Keys == l.servos.Keys
            && (forall other | other in l.servos && other != id :: t.servos[other] == l.servos[other])
            && (o.Ok? && c.SetOperatingMode? ==> id in t.servos && t.servos[id][OperatingMode] == ToU32(c.mode))
            && (o.Ok? && c.SetCalibrationTo? ==>
                  id in t.servos && DecodeOffset(t.servos[id][HomingOffset]) == Round(c.offset))
            && (c.NoCommand? || c.Shutdown? ==> t == l && o.Ok?)
            && (id !in l.servos && !c.NoCommand? && !c.Shutdown? ==> t.servos == l.servos && o.Err?)
  {
    match c {
      case SetOperatingMode(mode) =>
        ReportedModeIsTrue(fates, l, id, ToU32(mode), OPERATING_MODE_ATTEMPTS);
      case SetTorqueEnable(enable) =>
        WritesTouchOneServo(fates, l, id, [(TorqueEnable, ToU32(enable)), (Lock, ToU32(enable))]);
      case SetPidCoefficients(p, i, d) =>
        WritesTouchOneServo(fates, l, id, PidWrites(p, i, d));
      case SetCalibrationTo(offset, rangeMin, rangeMax) =>
        WritesTouchOneServo(fates, l, id, CalibrationWrites(offset, ToU32(rangeMin), ToU32(rangeMax)));
        ReportedOffsetIsTrue(fates, l, id, offset, ToU32(rangeMin), ToU32(rangeMax));
      case _ =>
    }
  }

  // ---- the mode, from the bus's fates alone ----

  /** The attempt that starts now changes the servo's mode: the two writes before the mode write are
      answered, the mode write arrives, and by then torque is off and the lock is clear. */
  predicate AttemptTakes(fates: Fates, l: Line, s: Servo)
    requires ServoOk(s)
  {
    && fates(l.clock).replied && fates(l.clock + 1).replied && fates(l.clock + 2).landed
    && (fates(l.clock).landed || s[TorqueEnable] == 0)
    && (fates(l.clock + 1).landed || s[Lock] == 0)
  }

  /** One of the attempts changes the servo's mode. */
  predicate SomeAttemptTakes(fates: Fates, l: Line, id: nat, mode: nat, attempts: nat)
    requires LineOk(l) && id in l.servos
    decreases attempts
  {
    attempts > 0 &&
    (|| AttemptTakes(fates, l, l.servos[id])
     || (var (l1, o) := AttemptMode(fates, l, id, mode);
         o.Err? && id in l1.servos && SomeAttemptTakes(fates, l1, id, mode, attempts - 1)))
  }

  /** The servo after the three writes, one fate at a time. */
  lemma ModeWritesUnfold(fates: Fates, l: Line, id: nat, mode: nat)
    requires LineOk(l) && id in l.servos
    ensures var (l1, o1) := WriteRegister(fates, l, id, TorqueEnable, 0);
            var (l2, o2) := WriteRegister(fates, l1, id, Lock, 0);
            var (l3, o3) := WriteRegister(fates, l2, id, OperatingMode, mode);
            WriteAll(fates, l, id, ModeWrites(mode))
            == if o1.Err? then (l1, Err) else if o2.Err? then (l2, Err) else (l3, o3)
  {
    ThreeWrites(fates, l, id, ModeWrites(mode));
  }

  lemma ThreeWrites(fates: Fates, l: Line, id: nat, writes: seq<(Register, nat)>)
    requires LineOk(l) && |writes| == 3
    ensures var (l1, o1) := WriteRegister(fates, l, id, writes[0].0, writes[0].1);
            var (l2, o2) := WriteRegister(fates, l1, id, writes[1].0, writes[1].1);
            var (l3, o3) := WriteRegister(fates, l2, id, writes[2].0, writes[2].1);
            WriteAll(fates, l, id, writes) == if o1.Err? then (l1, Err) else if o2.Err? then (l2, Err) else (l3, o3)
  {
    var w1 := writes[1..];
    var w2 := w1[1..];
    FirstWrite(fates, l, id, writes, w1);
    var l1 := WriteRegister(fates, l, id, writes[0].0, writes[0].1).0;
    FirstWrite(fates, l1, id, w1, w2);
    FirstWrite(fates, WriteRegister(fates, l1, id, w1[0].0, w1[0].1).0, id, w2, []);
  }

  lemma FirstWrite(fates: Fates, l: Line, id: nat, writes: seq<(Register, nat)>, rest: seq<(Register, nat)>)
    requires LineOk(l) && |writes| > 0 && writes[1..] == rest
    ensures var (l1, o) := WriteRegister(fates, l, id, writes[0].0, writes[0].1);
            LineOk(l1) && WriteAll(fates, l, id, writes) == if o.Err? then (l1, Err) else WriteAll(fates, l1, id, rest)
  {}

  lemma ModeAfterAnAttempt(fates: Fates, l: Line, id: nat, mode: nat)
    requires LineOk(l) && id in l.servos
    ensures var t := AttemptMode(fates, l, id, mode).0;
            id in t.servos && t.servos[id][OperatingMode]
                              == if AttemptTakes(fates, l, l.servos[id]) then mode % Capacity(OperatingMode)
                                 else l.servos[id][OperatingMode]
  {
    ModeWritesUnfold(fates, l, id, mode);
  }

  /** The mode after SetOperatingMode, from the bus's fates alone. */
  lemma {:induction false} ModeAfterwards(fates: Fates, l: Line, id: nat, mode: nat, attempts: nat)
    requires LineOk(l) && id in l.servos
    ensures var t := SetMode(fates, l, id, mode, attempts).0;
            id in t.servos && t.servos[id][OperatingMode]
                              == if SomeAttemptTakes(fates, l, id, mode, attempts) then mode % Capacity(OperatingMode)
                                 else l.servos[id][OperatingMode]
    decreases attempts
  {
    if attempts > 0 {
      ModeAfterAnAttempt(fates, l, id, mode);
      var (l1, o) := AttemptMode(fates, l, id, mode);
      if o.Err? { ModeAfterwards(fates, l1, id, mode, attempts - 1); }
    }
  }

  // ---- the status, from the bus's fates alone ----

  /** Every transaction in `from..to` is answered. */
  ghost predicate Answered(fates: Fates, from: nat, to: nat) {
    forall k: nat | from <= k < to :: fates(k).replied
  }

  /** A sequence of writes succeeds if and only if each of them is acknowledged. */
  lemma {:induction false} WritesSucceedExactlyWhen(fates: Fates, l: Line, id: nat, writes: seq<(Register, nat)>)
    requires LineOk(l) && id in l.servos
    ensures WriteAll(fates, l, id, writes).1.Ok? <==> Answered(fates, l.clock, l.clock + |writes|)
    decreases |writes|
  {
    if writes != [] {
      var (l1, o) := WriteRegister(fates, l, id, writes[0].0, writes[0].1);
      WritesSucceedExactlyWhen(fates, l1, id, writes[1..]);
    }
  }

  /** SetTorqueEnable on any bus: torque is as asked if the first write lands, the lock if the first is
      acknowledged and the second lands, nothing else changes, and the status is 0 if and only if both
      are acknowledged. */
  lemma TorqueAfterwards(fates: Fates, l: Line, id: nat, enable: real)
    requires LineOk(l)
    ensures var (t, o) := Execute(fates, l, id, SetTorqueEnable(enable));
            var first, second := fates(l.clock), fates(l.clock + 1);
            && (o.Ok? <==> id in l.servos && first.replied && second.replied)
            && t.clock == l.clock + (if id in l.servos && first.replied then 2 else 1)
            && t.servos == if id in l.servos
                           then l.servos[id := TorqueSet(l.servos[id], ToU32(enable) % 0x100, first.landed,
                                                         first.replied && second.landed)]
                           else l.servos
  {
    var writes := [(TorqueEnable, ToU32(enable)), (Lock, ToU32(enable))];
    FirstWrite(fates, l, id, writes, [writes[1]]);
    var l1 := WriteRegister(fates, l, id, TorqueEnable, ToU32(enable)).0;
    FirstWrite(fates, l1, id, [writes[1]], []);
    if id in l.servos {
      var s, e := l.servos[id], ToU32(enable) % 0x100;
      var s1 := TorqueSet(s, e, fates(l.clock).landed, false);
      TorqueSetIsTaken(s, ToU32(enable), fates(l.clock).landed);
      assert l1.servos == l.servos[id := s1];
      if fates(l.clock).replied {
        var s2 := TorqueSet(s, e, fates(l.clock).landed, fates(l.clock + 1).landed);
        assert WriteRegister(fates, l1, id, Lock, ToU32(enable)).0.servos == l.servos[id := s2];
      }
    }
  }

  /** A servo whose torque and lock, where set, are `e`. */
  function TorqueSet(s: Servo, e: nat, torque: bool, lock: bool): Servo
    requires ServoOk(s)
  {
    s[TorqueEnable := if torque then e else s[TorqueEnable]][Lock := if lock then e else s[Lock]]
  }

  lemma TorqueSetIsTaken(s: Servo, value: nat, torque: bool)
    requires ServoOk(s)
    ensures TorqueSet(s, value % 0x100, torque, false) == if torque then Take(s, TorqueEnable, value) else s
    ensures TorqueSet(s, value % 0x100, torque, true)
            == Take(TorqueSet(s, value % 0x100, torque, false), Lock, value)
  {
    assert s[TorqueEnable := s[TorqueEnable]] == s;
  }

  /** On a bus that loses nothing, SetTorqueEnable always answers 0, with both registers as asked. */
  lemma CleanBusSetsTheTorque(fates: Fates, l: Line, id: nat, enable: real)
    requires LineOk(l) && id in l.servos && Clean(fates, l.clock, l.clock + 2)
    ensures var (t, o) := Execute(fates, l, id, SetTorqueEnable(enable));
            var e := ToU32(enable) % 0x100;
            o.Ok? && id in t.servos && t.servos[id] == l.servos[id][TorqueEnable := e][Lock := e]
  {
    assert fates(l.clock) == fates(l.clock + 1) == Fate(true, true);
    TorqueAfterwards(fates, l, id, enable);
  }

  /** SetPidCoefficients on any bus: the status is 0 if and only if all three writes are acknowledged,
      and a coefficient is taken if and only if its write is sent and lands on a limp, unlocked servo. */
  lemma PidAfterwards(fates: Fates, l: Line, id: nat, p: real, i: real, d: real)
    requires LineOk(l) && id in l.servos
    ensures var (t, o) := Execute(fates, l, id, SetPidCoefficients(p, i, d));
            var (first, second, third) := (fates(l.clock), fates(l.clock + 1), fates(l.clock + 2));
            && (o.Ok? <==> first.replied && second.replied && third.replied)
            && id in t.servos
            && t.servos[id] == PidSet(l.servos[id], ToU32(p) % 0x100, ToU32(i) % 0x100, ToU32(d) % 0x100,
                                      first.landed, first.replied && second.landed,
                                      first.replied && second.replied && third.landed)
  {
    var s, v, w, x := l.servos[id], ToU32(p), ToU32(i), ToU32(d);
    var first, second := fates(l.clock), fates(l.clock + 1);
    ThreeWrites(fates, l, id, PidWrites(p, i, d));
    PidSetIsTaken(s, v, w, x, first.landed, second.landed);
    var l1 := WriteRegister(fates, l, id, PCoefficient, v).0;
    var s1 := PidSet(s, v % 0x100, w % 0x100, x % 0x100, first.landed, false, false);
    assert l1.servos == l.servos[id := s1];
    if first.replied {
      var l2 := WriteRegister(fates, l1, id, ICoefficient, w).0;
      var s2 := PidSet(s, v % 0x100, w % 0x100, x % 0x100, first.landed, second.landed, false);
      assert l2.servos == l.servos[id := s2];
    }
  }

  /** A servo that has taken those of the three coefficients that are set, if it is limp and unlocked. */
  function PidSet(s: Servo, p: nat, i: nat, d: nat, setP: bool, setI: bool, setD: bool): Servo
    requires ServoOk(s)
  {
    if s[TorqueEnable] != 0 || s[Lock] != 0 then s
    else s[PCoefficient := if setP then p else s[PCoefficient]][ICoefficient := if setI then i else s[ICoefficient]]
          [DCoefficient := if setD then d else s[DCoefficient]]
  }

  lemma PidSetIsTaken(s: Servo, p: nat, i: nat, d: nat, setP: bool, setI: bool)
    requires ServoOk(s)
    ensures ServoOk(PidSet(s, p % 0x100, i % 0x100, d % 0x100, setP, setI, false))
    ensures PidSet(s, p % 0x100, i % 0x100, d % 0x100, false, false, false) == s
    ensures PidSet(s, p % 0x100, i % 0x100, d % 0x100, true, false, false) == Take(s, PCoefficient, p)
    ensures PidSet(s, p % 0x100, i % 0x100, d % 0x100, setP, true, false)
            == Take(PidSet(s, p % 0x100, i % 0x100, d % 0x100, setP, false, false), ICoefficient, i)
    ensures PidSet(s, p % 0x100, i % 0x100, d % 0x100, setP, setI, true)
            == Take(PidSet(s, p % 0x100, i % 0x100, d % 0x100, setP, setI, false), DCoefficient, d)
  {
    assert s[PCoefficient := s[PCoefficient]] == s;
  }

  /** One attempt at the mode succeeds if and only if its three writes are acknowledged, its read-back
      comes through, and the servo holds the mode: because this attempt set it, the mode being one the
      register can hold, or because it had it already. */
  lemma AttemptSucceedsExactlyWhen(fates: Fates, l: Line, id: nat, mode: nat)
    requires LineOk(l) && id in l.servos
    ensures AttemptMode(fates, l, id, mode).1.Ok?
            <==> && fates(l.clock).replied && fates(l.clock + 1).replied && fates(l.clock + 2).replied
                 && fates(l.clock + 3) == Fate(true, true)
                 && if AttemptTakes(fates, l, l.servos[id]) then mode < 0x100
                    else l.servos[id][OperatingMode] == mode
  {
    ModeWritesUnfold(fates, l, id, mode);
  }

  /** The line after `k` attempts at the mode, whatever came of them. */
  ghost function AfterAttempts(fates: Fates, l: Line, id: nat, mode: nat, k: nat): (t: Line)
    requires LineOk(l)
    ensures LineOk(t)
  {
    if k == 0 then l else AttemptMode(fates, AfterAttempts(fates, l, id, mode, k - 1), id, mode).0
  }

  /** The attempt after the first `k` succeeds. */
  ghost predicate AttemptWorks(fates: Fates, l: Line, id: nat, mode: nat, k: nat)
    requires LineOk(l)
  {
    AttemptMode(fates, AfterAttempts(fates, l, id, mode, k), id, mode).1.Ok?
  }

  ghost predicate SomeAttemptWorks(fates: Fates, l: Line, id: nat, mode: nat, from: nat, to: nat)
    requires LineOk(l)
  {
    exists k: nat :: from <= k < to && AttemptWorks(fates, l, id, mode, k)
  }

  lemma {:induction false} AttemptsInARow(fates: Fates, l: Line, id: nat, mode: nat, k: nat)
    requires LineOk(l) && k > 0
    ensures AfterAttempts(fates, l, id, mode, k)
            == AfterAttempts(fates, AttemptMode(fates, l, id, mode).0, id, mode, k - 1)
  {
    if k > 1 { AttemptsInARow(fates, l, id, mode, k - 1); }
  }

  /** The command makes up to `attempts` attempts, and succeeds if and only if one of them does. */
  lemma {:induction false} ModeIsSetExactlyWhen(fates: Fates, l: Line, id: nat, mode: nat, attempts: nat)
    requires LineOk(l)
    ensures SetMode(fates, l, id, mode, attempts).1.Ok?
            <==> SomeAttemptWorks(fates, l, id, mode, 0, attempts)
    decreases attempts
  {
    if attempts > 0 {
      FirstAttempt(fates, l, id, mode, attempts);
      var l1 := AttemptMode(fates, l, id, mode).0;
      ModeIsSetExactlyWhen(fates, l1, id, mode, attempts - 1);
      LaterAttempts(fates, l, id, mode, attempts);
    }
  }

  lemma FirstAttempt(fates: Fates, l: Line, id: nat, mode: nat, attempts: nat)
    requires LineOk(l) && attempts > 0
    ensures SomeAttemptWorks(fates, l, id, mode, 0, attempts)
            <==> AttemptMode(fates, l, id, mode).1.Ok? || SomeAttemptWorks(fates, l, id, mode, 1, attempts)
  {
    assert AttemptWorks(fates, l, id, mode, 0) <==> AttemptMode(fates, l, id, mode).1.Ok?;
  }

  lemma LaterAttempts(fates: Fates, l: Line, id: nat, mode: nat, attempts: nat)
    requires LineOk(l) && attempts > 0
    ensures var l1 := AttemptMode(fates, l, id, mode).0;
            SomeAttemptWorks(fates, l1, id, mode, 0, attempts - 1)
            <==> SomeAttemptWorks(fates, l, id, mode, 1, attempts)
  {
    var l1 := AttemptMode(fates, l, id, mode).0;
    forall k: nat | 0 < k < attempts
      ensures AttemptWorks(fates, l, id, mode, k) <==> AttemptWorks(fates, l1, id, mode, k - 1)
    {
      AttemptsInARow(fates, l, id, mode, k);
    }
    if k: nat :| k < attempts - 1 && AttemptWorks(fates, l1, id, mode, k) {
      assert AttemptWorks(fates, l, id, mode, k + 1);
    }
  }

  /** SetOperatingMode as a command makes three attempts. */
  lemma ModeCommandSucceedsExactlyWhen(fates: Fates, l: Line, id: nat, mode: real)
    requires LineOk(l)
    ensures Execute(fates, l, id, SetOperatingMode(mode)).1.Ok?
            <==> exists k: nat :: k < 3 && AttemptWorks(fates, l, id, ToU32(mode), k)
  {
    ModeIsSetExactlyWhen(fates, l, id, ToU32(mode), 3);
  }

  /** One attempt that the bus spares is enough, however the ones before it were spoiled. */
  lemma OneSparedAttemptIsEnough(fates: Fates, l: Line, id: nat, mode: real, k: nat)
    requires LineOk(l) && id in l.servos && ToU32(mode) < 0x100 && k < 3
    requires var c := AfterAttempts(fates, l, id, ToU32(mode), k).clock; Clean(fates, c, c + 4)
    ensures var (t, o) := Execute(fates, l, id, SetOperatingMode(mode));
            o.Ok? && id in t.servos && t.servos[id][OperatingMode] == ToU32(mode)
  {
    var m := ToU32(mode);
    var lk := AfterAttempts(fates, l, id, m, k);
    AttemptsKeepTheServo(fates, l, id, m, k);
    CleanBusSetsTheModeAtOnce(fates, lk, id, m, 1);
    assert AttemptWorks(fates, l, id, m, k);
    ModeIsSetExactlyWhen(fates, l, id, m, 3);
    ReportedModeIsTrue(fates, l, id, m, 3);
  }

  lemma {:induction false} AttemptsKeepTheServo(fates: Fates, l: Line, id: nat, mode: nat, k: nat)
    requires LineOk(l)
    ensures AfterAttempts(fates, l, id, mode, k).servos.Keys == l.servos.Keys
  {
    if k > 0 {
      AttemptsKeepTheServo(fates, l, id, mode, k - 1);
      WritesTouchOneServo(fates, AfterAttempts(fates, l, id, mode, k - 1), id, ModeWrites(mode));
    }
  }

  lemma {:induction false} WritesInTwoParts(
      fates: Fates, l: Line, id: nat, first: seq<(Register, nat)>, second: seq<(Register, nat)>)
    requires LineOk(l)
    ensures var (l1, o) := WriteAll(fates, l, id, first);
            WriteAll(fates, l, id, first + second) == if o.Err? then (l1, Err) else WriteAll(fates, l1, id, second)
    decreases |first|
  {
    if first == [] {
      assert first + second == second;
    } else {
      assert (first + second)[1..] == first[1..] + second;
      WritesInTwoParts(fates, WriteRegister(fates, l, id, first[0].0, first[0].1).0, id, first[1..], second);
    }
  }

  /** SetCalibration on any bus: the status is 0 if and only if the five writes are acknowledged, the
      read-back comes through, and the servo holds the wanted offset: because this command set it, the
      offset being one the register can hold, or because it had it already. */
  lemma CalibrationSucceedsExactlyWhen(
      fates: Fates, l: Line, id: nat, offset: real, rangeMin: real, rangeMax: real)
    requires LineOk(l) && id in l.servos
    ensures Execute(fates, l, id, SetCalibrationTo(offset, rangeMin, rangeMax)).1.Ok?
            <==> && Answered(fates, l.clock, l.clock + 5) && fates(l.clock + 5) == Fate(true, true)
                 && if AttemptTakes(fates, l, l.servos[id]) then -2048 < Round(offset) < 2048
                    else DecodeOffset(l.servos[id][HomingOffset]) == Round(offset)
  {
    var low, high, off := ToU32(rangeMin), ToU32(rangeMax), EncodeOffset(Round(offset));
    var first := [(TorqueEnable, 0), (Lock, 0), (HomingOffset, off)];
    var second := [(MinPositionLimit, low), (MaxPositionLimit, high)];
    assert CalibrationWrites(offset, low, high) == first + second;
    WritesSucceedExactlyWhen(fates, l, id, first + second);
    OffsetRoundTrip(Round(offset));
    if Answered(fates, l.clock, l.clock + 5) {
      AnsweredWritesTakeTime(fates, l, id, first + second);
      WritesInTwoParts(fates, l, id, first, second);
      WritesSucceedExactlyWhen(fates, l, id, first);
      OffsetAfterwards(fates, l, id, off);
      OffsetIsLeftAlone(fates, WriteAll(fates, l, id, first).0, id, low, high);
    }
  }

  lemma OffsetIsLeftAlone(fates: Fates, l: Line, id: nat, low: nat, high: nat)
    requires LineOk(l) && id in l.servos
    ensures var t := WriteAll(fates, l, id, [(MinPositionLimit, low), (MaxPositionLimit, high)]).0;
            id in t.servos && t.servos[id][HomingOffset] == l.servos[id][HomingOffset]
  {
    WritesTouchOneServo(fates, l, id, [(MinPositionLimit, low), (MaxPositionLimit, high)]);
  }

  lemma OffsetAfterwards(fates: Fates, l: Line, id: nat, off: nat)
    requires LineOk(l) && id in l.servos && off < 4096
    ensures var t := WriteAll(fates, l, id, [(TorqueEnable, 0), (Lock, 0), (HomingOffset, off)]).0;
            id in t.servos && t.servos[id][HomingOffset] == if AttemptTakes(fates, l, l.servos[id]) then off
                                                           else l.servos[id][HomingOffset]
  {
    ThreeWrites(fates, l, id, [(TorqueEnable, 0), (Lock, 0), (HomingOffset, off)]);
  }

  lemma {:induction false} AnsweredWritesTakeTime(fates: Fates, l: Line, id: nat, writes: seq<(Register, nat)>)
    requires LineOk(l) && id in l.servos && Answered(fates, l.clock, l.clock + |writes|)
    ensures WriteAll(fates, l, id, writes).0.clock == l.clock + |writes|
    decreases |writes|
  {
    if writes != [] {
      assert fates(l.clock).replied;
      AnsweredWritesTakeTime(fates, WriteRegister(fates, l, id, writes[0].0, writes[0].1).0, id, writes[1..]);
    }
  }

  // ---- honest acknowledgements ----

  /** A servo after taking writes in order. */
  ghost function TakeAll(s: Servo, writes: seq<(Register, nat)>): (t: Servo)
    requires ServoOk(s)
    ensures ServoOk(t)
    decreases |writes|
  {
    if writes == [] then s else TakeAll(Take(s, writes[0].0, writes[0].1), writes[1..])
  }

  /** No acknowledgement comes from a request that never arrived. */
  ghost predicate HonestAcks(fates: Fates) {
    forall k: nat :: fates(k).replied ==> fates(k).landed
  }

  /** With honest acknowledgements, an acknowledged sequence leaves what the servo takes from it. */
  lemma {:induction false} AcknowledgedWrites(fates: Fates, l: Line, id: nat, writes: seq<(Register, nat)>)
    requires LineOk(l) && id in l.servos && HonestAcks(fates)
    ensures var (t, o) := WriteAll(fates, l, id, writes);
            o.Ok? ==> t == Line(l.servos[id := TakeAll(l.servos[id], writes)], l.clock + |writes|)
    decreases |writes|
  {
    if writes == [] {
      assert l.servos[id := l.servos[id]] == l.servos;
    } else {
      var (l1, o) := WriteRegister(fates, l, id, writes[0].0, writes[0].1);
      if o.Ok? {
        AcknowledgedWrites(fates, l1, id, writes[1..]);
        assert fates(l.clock).replied && fates(l.clock).landed;
        assert l1.servos[id := TakeAll(l1.servos[id], writes[1..])] == l.servos[id := TakeAll(l.servos[id], writes)];
      }
    }
  }

  lemma TwoTaken(s: Servo, a: (Register, nat), b: (Register, nat))
    requires ServoOk(s)
    ensures TakeAll(s, [a, b]) == Take(Take(s, a.0, a.1), b.0, b.1)
  {
    var w0 := [a, b];
    var w1 := w0[1..];
    assert w1[0] == b && |w1| == 1;
    var s1 := Take(s, a.0, a.1);
    assert TakeAll(s1, w1) == Take(s1, b.0, b.1);
  }

  lemma {:induction false} TakenInTurn(s: Servo, first: seq<(Register, nat)>, second: seq<(Register, nat)>)
    requires ServoOk(s)
    ensures TakeAll(s, first + second) == TakeAll(TakeAll(s, first), second)
    decreases |first|
  {
    if first == [] {
      assert first + second == second;
    } else {
      assert (first + second)[1..] == first[1..] + second;
      TakenInTurn(Take(s, first[0].0, first[0].1), first[1..], second);
    }
  }

  lemma ThreeTaken(s: Servo, a: (Register, nat), b: (Register, nat), c: (Register, nat))
    requires ServoOk(s)
    ensures TakeAll(s, [a, b, c]) == Take(Take(Take(s, a.0, a.1), b.0, b.1), c.0, c.1)
  {
    var w0 := [a, b, c];
    var w1 := w0[1..];
    var w2 := w1[1..];
    assert w1[0] == b && w2[0] == c && |w2| == 1;
    var s2 := Take(Take(s, a.0, a.1), b.0, b.1);
    assert TakeAll(s2, w2) == Take(s2, c.0, c.1);
  }

  /** With honest acknowledgements, status 0 of SetTorqueEnable means torque and lock are as asked. */
  lemma TorqueStatusIsTrue(fates: Fates, l: Line, id: nat, enable: real)
    requires LineOk(l) && id in l.servos && HonestAcks(fates)
    ensures var (t, o) := Execute(fates, l, id, SetTorqueEnable(enable));
            var e := ToU32(enable) % 0x100;
            o.Ok? ==> id in t.servos && t.servos[id] == l.servos[id][TorqueEnable := e][Lock := e]
  {
    var writes := [(TorqueEnable, ToU32(enable)), (Lock, ToU32(enable))];
    AcknowledgedWrites(fates, l, id, writes);
    TwoTaken(l.servos[id], (TorqueEnable, ToU32(enable)), (Lock, ToU32(enable)));
  }

  /** A servo left limp and unlocked, with these values in its calibration registers. */
  function Calibrated(s: Servo, offset: nat, low: nat, high: nat): Servo {
    s[TorqueEnable := 0][Lock := 0][HomingOffset := offset]
      [MinPositionLimit := low % 0x1_0000][MaxPositionLimit := high % 0x1_0000]
  }

  /** With honest acknowledgements, status 0 of SetCalibration means that the range limits, which are
      not read back, are in the servo too, and that it is left limp and unlocked. */
  lemma CalibrationStatusIsTrue(fates: Fates, l: Line, id: nat, offset: real, rangeMin: real, rangeMax: real)
    requires LineOk(l) && id in l.servos && HonestAcks(fates)
    ensures var (t, o) := Execute(fates, l, id, SetCalibrationTo(offset, rangeMin, rangeMax));
            o.Ok? ==>
              id in t.servos
              && t.servos[id]
                 == Calibrated(l.servos[id], EncodeOffset(Round(offset)), ToU32(rangeMin), ToU32(rangeMax))
  {
    CalibrationWritesTaken(fates, l, id, offset, ToU32(rangeMin), ToU32(rangeMax));
  }

  lemma CalibrationWritesTaken(fates: Fates, l: Line, id: nat, offset: real, low: nat, high: nat)
    requires LineOk(l) && id in l.servos && HonestAcks(fates)
    ensures var (t, o) := WriteAll(fates, l, id, CalibrationWrites(offset, low, high));
            o.Ok? ==>
              t == Line(l.servos[id := Calibrated(l.servos[id], EncodeOffset(Round(offset)), low, high)], l.clock + 5)
  {
    var off := EncodeOffset(Round(offset));
    var first := [(TorqueEnable, 0), (Lock, 0), (HomingOffset, off)];
    var second := [(MinPositionLimit, low), (MaxPositionLimit, high)];
    assert CalibrationWrites(offset, low, high) == first + second;
    AcknowledgedWrites(fates, l, id, first + second);
    TakenInTurn(l.servos[id], first, second);
    ThreeTaken(l.servos[id], first[0], first[1], first[2]);
    TwoTaken(TakeAll(l.servos[id], first), second[0], second[1]);
    CalibrationTaken(l.servos[id], off, low, high);
  }

  lemma CalibrationTaken(s: Servo, off: nat, low: nat, high: nat)
    requires ServoOk(s) && off < Capacity(HomingOffset)
    ensures Take(Take(Take(Take(Take(s, TorqueEnable, 0), Lock, 0), HomingOffset, off), MinPositionLimit, low),
                 MaxPositionLimit, high) == Calibrated(s, off, low, high)
  {}

  /** With honest acknowledgements, status 0 of SetPidCoefficients means the coefficients are in the
      servo exactly when its torque was off and its lock clear; otherwise all three were dropped. */
  lemma PidTakesExactlyWhen(fates: Fates, l: Line, id: nat, p: real, i: real, d: real)
    requires LineOk(l) && id in l.servos && HonestAcks(fates)
    ensures var (t, o) := Execute(fates, l, id, SetPidCoefficients(p, i, d));
            o.Ok? ==> id in t.servos
                      && t.servos[id] == if l.servos[id][TorqueEnable] == 0 && l.servos[id][Lock] == 0
                                         then l.servos[id][PCoefficient := ToU32(p) % 0x100]
                                              [ICoefficient := ToU32(i) % 0x100][DCoefficient := ToU32(d) % 0x100]
                                         else l.servos[id]
  {
    AcknowledgedWrites(fates, l, id, PidWrites(p, i, d));
    ThreeTaken(l.servos[id], (PCoefficient, ToU32(p)), (ICoefficient, ToU32(i)), (DCoefficient, ToU32(d)));
  }

  /** On a clean bus every write of a sequence is acknowledged. */
  lemma {:induction false} CleanWritesAreAcknowledged(fates: Fates, l: Line, id: nat, writes: seq<(Register, nat)>)
    requires LineOk(l) && id in l.servos && Clean(fates, l.clock, l.clock + |writes|)
    ensures WriteAll(fates, l, id, writes).1 == Ok
    decreases |writes|
  {
    if writes != [] {
      assert fates(l.clock) == Fate(true, true);
      CleanWritesAreAcknowledged(fates, WriteRegister(fates, l, id, writes[0].0, writes[0].1).0, id, writes[1..]);
    }
  }

  /** Three acknowledged writes that all land set the mode, from any starting state. */
  lemma AcknowledgedModeWrites(fates: Fates, l: Line, id: nat, mode: nat)
    requires LineOk(l) && id in l.servos
    requires Clean(fates, l.clock, l.clock + 3)
    ensures var (t, o) := WriteAll(fates, l, id, ModeWrites(mode));
            o == Ok && t.clock == l.clock + 3 && id in t.servos
            && t.servos[id][OperatingMode] == mode % Capacity(OperatingMode)
  {
    ModeWritesUnfold(fates, l, id, mode);
    DanceOpensTheMode(l.servos[id], mode);
  }

  lemma DanceOpensTheMode(s: Servo, mode: nat)
    requires ServoOk(s)
    ensures ServoOk(Take(s, TorqueEnable, 0)) && ServoOk(Take(Take(s, TorqueEnable, 0), Lock, 0))
    ensures Take(Take(Take(s, TorqueEnable, 0), Lock, 0), OperatingMode, mode)
            == s[TorqueEnable := 0][Lock := 0][OperatingMode := mode % Capacity(OperatingMode)]
    ensures s[TorqueEnable] != 0 || s[Lock] != 0 ==> Take(s, OperatingMode, mode) == s
  {
  }

  // ---- shutdown ----

  /** Every transaction in `from..to` reached its servo. */
  ghost predicate AllLand(fates: Fates, from: nat, to: nat) {
    forall k: nat | from <= k < to :: fates(k).landed
  }

  /** One pass over the motors: a transaction each, nobody else touched, and the other registers of
      those that are, apart from the torque a duty write re-arms, left alone. */
  lemma {:induction false} ZeroPassTouches(fates: Fates, l: Line, ids: seq<nat>, r: Register)
    requires LineOk(l)
    ensures var t := ZeroPass(fates, l, ids, r);
            && t.servos.Keys == l.servos.Keys && t.clock == l.clock + |ids|
            && (forall id | id in l.servos && id !in ids :: t.servos[id] == l.servos[id])
            && forall id, q: Register | id in l.servos && q != r && (r == GoalPwm ==> q != TorqueEnable) ::
                 t.servos[id][q] == l.servos[id][q]
  {
    if ids != [] {
      ZeroPassTouches(fates, l, ids[..|ids| - 1], r);
      assert ids == ids[..|ids| - 1] + [ids[|ids| - 1]];
    }
  }

  /** A pass whose writes all land zeroes a RAM register on every motor. */
  lemma {:induction false} ZeroPassLands(fates: Fates, l: Line, ids: seq<nat>, r: Register, id: nat)
    requires LineOk(l) && !Eprom(r) && id in ids && id in l.servos
    requires AllLand(fates, l.clock, l.clock + |ids|)
    ensures var t := ZeroPass(fates, l, ids, r);
            && id in t.servos && t.servos[id][r] == 0
            && (r == GoalPwm ==> t.servos[id][TorqueEnable] == 1)
  {
    var front, last := ids[..|ids| - 1], ids[|ids| - 1];
    assert ids == front + [last];
    ZeroPassTouches(fates, l, front, r);
    if id in front {
      ZeroPassLands(fates, l, front, r, id);
    }
  }

  lemma {:induction false} ReadBackIsExact(fates: Fates, l: Line, ids: seq<nat>, id: nat)
    requires LineOk(l)
    ensures var on := ReadBackPass(fates, l, ids).1;
            id in on <==>
            exists k: nat ::
              && k < |ids| && ids[k] == id
              && !(id in l.servos && l.servos[id][TorqueEnable] == 0 && fates(l.clock + k) == Fate(true, true))
  {
    if ids != [] {
      var n := |ids| - 1;
      ReadBackIsExact(fates, l, ids[..n], id);
      var on := ReadBackPass(fates, l, ids[..n]).1;
      assert forall k: nat | k < n :: ids[..n][k] == ids[k];
      if id in on {
        var k: nat :| k < n && ids[..n][k] == id
                      && !(id in l.servos && l.servos[id][TorqueEnable] == 0 && fates(l.clock + k) == Fate(true, true));
        assert k < |ids| && ids[k] == id;
      }
      assert ids[n] == ids[|ids| - 1];
    }
  }

  /** After `release_all`: any motor not reported still on has its torque off, whatever was lost;
      if all the writes land, every motor has zero duty and torque off; a motor with torque off
      whose read-back gets through is not reported; and no other motor is touched. */
  lemma ReleaseIsSafe(fates: Fates, l: Line, ids: seq<nat>, id: nat)
    requires LineOk(l) && id in l.servos
    ensures var (t, stillOn) := Release(fates, l, ids);
            && id in t.servos && t.clock == l.clock + 3 * |ids|
            && (id in ids && id !in stillOn ==> t.servos[id][TorqueEnable] == 0)
            && (id in ids && AllLand(fates, l.clock, l.clock + 2 * |ids|) ==>
                  t.servos[id][GoalPwm] == 0 && t.servos[id][TorqueEnable] == 0)
            && (id in stillOn && Clean(fates, l.clock + 2 * |ids|, l.clock + 3 * |ids|) ==>
                  id in ids && t.servos[id][TorqueEnable] != 0)
            && (id !in ids ==> t.servos[id] == l.servos[id] && id !in stillOn)
  {
    var dutyDown := ZeroPass(fates, l, ids, GoalPwm);
    var torqueDown := ZeroPass(fates, dutyDown, ids, TorqueEnable);
    ZeroPassTouches(fates, l, ids, GoalPwm);
    ZeroPassTouches(fates, dutyDown, ids, TorqueEnable);
    ReadBackIsExact(fates, torqueDown, ids, id);
    if id in ids && AllLand(fates, l.clock, l.clock + 2 * |ids|) {
      ZeroPassLands(fates, l, ids, GoalPwm, id);
      ZeroPassLands(fates, dutyDown, ids, TorqueEnable, id);
    }
  }

  /** The order is the point: torque off first and duty to zero after leaves every motor energised,
      even when nothing is lost. */
  lemma ReversedReleaseLeavesTorqueOn(fates: Fates, l: Line, ids: seq<nat>, id: nat)
    requires LineOk(l) && id in ids && id in l.servos && AllLand(fates, l.clock, l.clock + 2 * |ids|)
    ensures var t := ZeroPass(fates, ZeroPass(fates, l, ids, TorqueEnable), ids, GoalPwm);
            id in t.servos && t.servos[id][TorqueEnable] == 1
  {
    ZeroPassTouches(fates, l, ids, TorqueEnable);
    ZeroPassLands(fates, ZeroPass(fates, l, ids, TorqueEnable), ids, GoalPwm, id);
  }
}
