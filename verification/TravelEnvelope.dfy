/** A joint's calibrated travel and the check that refuses positions outside it (control.rs). */
module TravelEnvelope {
  import opened Wrappers
  import opened Encoder

  /** Which frame a servo reports positions in: with the homing offset applied, or raw counts. */
  datatype PositionFrame = Corrected | Raw {
    function Other(): PositionFrame {
      if Corrected? then Raw else Corrected
    }
  }

  const OPERATING_MODE_POSITION := 0
  const OPERATING_MODE_PWM := 2

  /** Modes nobody has measured get no frame. */
  function FromOperatingMode(mode: int): Option<PositionFrame> {
    if mode == OPERATING_MODE_POSITION then Some(Corrected)
    else if mode == OPERATING_MODE_PWM then Some(Raw)
    else None
  }

  const UNCONSTRAINED_TRAVEL: real := 4000.0

  /** The travel in the corrected frame, margin included, beside the joint's homing offset. */
  datatype Envelope = Envelope(min: real, max: real, homingOffset: real) {
    function Shift(frame: PositionFrame): real {
      match frame
      case Corrected => 0.0
      case Raw => homingOffset
    }

    /** The two ends as the servo reports them in `frame`; `low > high` when the seam is inside. */
    function Band(frame: PositionFrame): (real, real) {
      (Fold(min + Shift(frame)), Fold(max + Shift(frame)))
    }

    predicate Contains(value: real, frame: PositionFrame) {
      Fold(value - Band(frame).0) <= max - min
    }
  }

  /** `TravelEnvelope::new`. */
  function New(rangeMin: real, rangeMax: real, homingOffset: real, margin: real): Option<Envelope> {
    if rangeMax <= rangeMin || rangeMax - rangeMin + 2.0 * margin >= UNCONSTRAINED_TRAVEL then None
    else Some(Envelope(rangeMin - margin, rangeMax + margin, homingOffset))
  }

  /** Every envelope `New` can build; nothing else is assumed of one below. */
  ghost predicate Built(e: Envelope) {
    exists rangeMin, rangeMax, margin :: New(rangeMin, rangeMax, e.homingOffset, margin) == Some(e)
  }

  lemma BuiltArc(e: Envelope)
    requires Built(e)
    ensures e.max - e.min < UNCONSTRAINED_TRAVEL
  {
  }

  /** The servo shows the corrected count `x` as `value`, give or take whole turns. */
  ghost predicate ShowsAs(e: Envelope, x: real, value: real, frame: PositionFrame) {
    Congruent(value, x + e.Shift(frame))
  }

  /** Independent meaning of the check: the reading is where the servo puts some point of the arc. */
  ghost predicate ReportsAPointOfTheArc(e: Envelope, value: real, frame: PositionFrame) {
    exists x: real :: e.min <= x <= e.max && ShowsAs(e, x, value, frame)
  }

  /** `contains` is exact, in either frame, wherever the seam falls. */
  lemma ContainsIsExact(e: Envelope, value: real, frame: PositionFrame)
    requires Built(e)
    ensures e.Contains(value, frame) <==> ReportsAPointOfTheArc(e, value, frame)
  {
    if e.Contains(value, frame) {
      ContainedIsOnTheArc(e, value, frame);
    }
    if ReportsAPointOfTheArc(e, value, frame) {
      var x :| e.min <= x <= e.max && ShowsAs(e, x, value, frame);
      OnTheArcIsContained(e, value, frame, x);
    }
  }

  lemma ContainedIsOnTheArc(e: Envelope, value: real, frame: PositionFrame)
    requires Built(e) && e.Contains(value, frame)
    ensures ReportsAPointOfTheArc(e, value, frame)
  {
    var low := e.Band(frame).0;
    var u := Fold(value - low);
    FoldIsTheRepresentative(e.min + e.Shift(frame), low);
    FoldIsTheRepresentative(value - low, u);
    ArcPoint(value, low, u, e.min + e.Shift(frame));
    assert e.min + u + e.Shift(frame) == u + (e.min + e.Shift(frame));
    assert ShowsAs(e, e.min + u, value, frame);
  }

  lemma OnTheArcIsContained(e: Envelope, value: real, frame: PositionFrame, x: real)
    requires Built(e) && e.min <= x <= e.max && ShowsAs(e, x, value, frame)
    ensures e.Contains(value, frame)
  {
    BuiltArc(e);
    var low := e.Band(frame).0;
    FoldIsTheRepresentative(e.min + e.Shift(frame), low);
    OffsetFromLow(value, low, x + e.Shift(frame), e.min + e.Shift(frame));
    assert x + e.Shift(frame) - (e.min + e.Shift(frame)) == x - e.min;
    FoldIsTheRepresentative(value - low, x - e.min);
  }

  lemma ArcPoint(value: real, low: real, u: real, anchor: real)
    requires Congruent(value - low, u) && Congruent(anchor, low)
    ensures Congruent(value, u + anchor)
  {
    var k :| value - low - u == Turns(k);
    var j :| anchor - low == Turns(j);
    assert value - (u + anchor) == Turns(k - j);
  }

  lemma OffsetFromLow(value: real, low: real, point: real, anchor: real)
    requires Congruent(value, point) && Congruent(anchor, low)
    ensures Congruent(value - low, point - anchor)
  {
    var k :| value - point == Turns(k);
    var j :| anchor - low == Turns(j);
    assert value - low - (point - anchor) == Turns(k + j);
  }

  /** Membership in the reported band, which runs through the seam when `low > high`. */
  predicate InBand(value: real, band: (real, real)) {
    if band.0 <= band.1 then band.0 <= value <= band.1
    else value >= band.0 || value <= band.1
  }

  /** On the encoder, `contains` is membership in the band. */
  lemma ContainsIsTheBand(e: Envelope, value: real, frame: PositionFrame)
    requires Built(e) && e.min <= e.max && 0.0 <= value < RESOLUTION
    ensures e.Contains(value, frame) <==> InBand(value, e.Band(frame))
  {
    BuiltArc(e);
    var shift := e.Shift(frame);
    var (low, high) := e.Band(frame);
    UpperEnd(e.min + shift, e.max + shift, low, high);
    FoldBetween(value, low);
    ArcOrBand(value, low, high, e.max - e.min, Fold(value - low));
  }

  /** Where the upper end of an arc shorter than a turn is shown. */
  lemma UpperEnd(x: real, y: real, low: real, high: real)
    requires x <= y < x + RESOLUTION && low == Fold(x) && high == Fold(y)
    ensures 0.0 <= low < RESOLUTION && 0.0 <= high < RESOLUTION
    ensures high == low + (y - x) || high == low + (y - x) - RESOLUTION
  {
    FoldIsTheRepresentative(x, low);
    FoldIsTheRepresentative(y, high);
    var k :| x - low == Turns(k);
    var j :| y - high == Turns(j);
    TurnsApart(high - low - (y - x), k - j);
  }

  lemma TurnsApart(d: real, k: int)
    requires d == Turns(k) && -2.0 * RESOLUTION < d < RESOLUTION
    ensures d == 0.0 || d == -RESOLUTION
  {
  }

  /** Between two points of the encoder, folding adds a turn or none. */
  lemma FoldBetween(value: real, low: real)
    requires 0.0 <= value < RESOLUTION && 0.0 <= low < RESOLUTION
    ensures Fold(value - low) == if value >= low then value - low else value - low + RESOLUTION
  {
    var r := if value >= low then value - low else value - low + RESOLUTION;
    assert value - low - r == Turns(if value >= low then 0 else -1);
    FoldIsTheRepresentative(value - low, r);
  }

  lemma ArcOrBand(value: real, low: real, high: real, width: real, past: real)
    requires 0.0 <= value < RESOLUTION && 0.0 <= low < RESOLUTION && 0.0 <= high < RESOLUTION
    requires 0.0 <= width < RESOLUTION && (high == low + width || high == low + width - RESOLUTION)
    requires past == if value >= low then value - low else value - low + RESOLUTION
    ensures past <= width <==> InBand(value, (low, high))
  {
  }

  /** Both frames give the same answer about the same reading. */
  lemma FramesAgree(e: Envelope, raw: real)
    requires Built(e)
    ensures e.Contains(raw, Raw)
            <==> e.Contains(SoftLimitPosition(raw, Some(e.homingOffset), Some(Raw)), Corrected)
  {
    var corrected := Fold(raw - e.homingOffset);
    ContainsIsExact(e, raw, Raw);
    ContainsIsExact(e, corrected, Corrected);
    FoldIsTheRepresentative(raw - e.homingOffset, corrected);
    forall x: real
      ensures ShowsAs(e, x, raw, Raw) <==> ShowsAs(e, x, corrected, Corrected)
    {
      SameCount(raw, corrected, e.homingOffset, x);
    }
  }

  lemma SameCount(raw: real, corrected: real, offset: real, x: real)
    requires Congruent(raw - offset, corrected)
    ensures Congruent(raw, x + offset) <==> Congruent(corrected, x + 0.0)
  {
    var k :| raw - offset - corrected == Turns(k);
    if Congruent(raw, x + offset) {
      var j :| raw - (x + offset) == Turns(j);
      assert corrected - (x + 0.0) == Turns(j - k);
    }
    if Congruent(corrected, x + 0.0) {
      var j :| corrected - (x + 0.0) == Turns(j);
      assert raw - (x + offset) == Turns(j + k);
    }
  }

  /** An envelope always refuses an arc of more than 96 counts, in either frame. */
  lemma MoreThan96CountsAreRefused(e: Envelope, frame: PositionFrame, x: real)
    requires Built(e)
    ensures e.min + RESOLUTION - e.max > 96.0
    ensures e.max < x < e.min + RESOLUTION ==> !e.Contains(Fold(x + e.Shift(frame)), frame)
  {
    BuiltArc(e);
    var value := Fold(x + e.Shift(frame));
    if e.max < x < e.min + RESOLUTION && e.Contains(value, frame) {
      ContainedIsOnTheArc(e, value, frame);
      var y :| e.min <= y <= e.max && ShowsAs(e, y, value, frame);
      FoldIsTheRepresentative(x + e.Shift(frame), value);
      Apart(x + e.Shift(frame), value, y + e.Shift(frame));
    }
  }

  lemma Apart(x: real, value: real, y: real)
    requires Congruent(x, value) && Congruent(value, y)
    ensures !(0.0 < x - y < RESOLUTION)
  {
    CongruentEquivalence(x, value, y);
    if 0.0 < x - y < RESOLUTION {
      CongruentAndClose(x, y);
    }
  }

  /** Where a reading sits for the soft limits: corrected when it is raw and the offset is known. */
  function SoftLimitPosition(presentPos: real, homingOffset: Option<real>, frame: Option<PositionFrame>): real {
    if frame == Some(Raw) && homingOffset.Some? then Fold(presentPos - homingOffset.value) else presentPos
  }

  // ---- a whole batch ----

  datatype TravelVerdict = OffEncoder | OutsideTravel(everyCheckedJointFitsTheOtherFrame: bool)
  datatype TravelReject = TravelReject(motor: nat, value: real, verdict: TravelVerdict)

  predicate OnEncoder(value: int) {
    0.0 <= value as real < RESOLUTION
  }

  /** A joint is judged only when its reading, its envelope and its frame are all there. */
  predicate Checked(values: seq<int>, envelopes: seq<Option<Envelope>>, frames: seq<Option<PositionFrame>>, i: nat) {
    i < |values| && i < |envelopes| && i < |frames| && envelopes[i].Some? && frames[i].Some?
  }

  predicate Inside(values: seq<int>, envelopes: seq<Option<Envelope>>, frames: seq<Option<PositionFrame>>, i: nat)
    requires Checked(values, envelopes, frames, i)
  {
    envelopes[i].value.Contains(values[i] as real, frames[i].value)
  }

  predicate InsideOther(values: seq<int>, envelopes: seq<Option<Envelope>>, frames: seq<Option<PositionFrame>>, i: nat)
    requires Checked(values, envelopes, frames, i)
  {
    envelopes[i].value.Contains(values[i] as real, frames[i].value.Other())
  }

  function FirstOffEncoder(values: seq<int>, i: nat): (r: Option<nat>)
    requires i <= |values|
    ensures r.None? <==> forall j | i <= j < |values| :: OnEncoder(values[j])
    ensures r.Some? ==> i <= r.value < |values| && !OnEncoder(values[r.value])
                        && forall j | i <= j < r.value :: OnEncoder(values[j])
    decreases |values| - i
  {
    if i == |values| then None
    else if !OnEncoder(values[i]) then Some(i)
    else FirstOffEncoder(values, i + 1)
  }

  function FirstOutside(values: seq<int>, envelopes: seq<Option<Envelope>>, frames: seq<Option<PositionFrame>>, i: nat)
    : (r: Option<nat>)
    requires i <= |values|
    ensures r.None? <==>
            forall j | i <= j < |values| && Checked(values, envelopes, frames, j) ::
              Inside(values, envelopes, frames, j)
    ensures r.Some? ==>
              && i <= r.value < |values|
              && Checked(values, envelopes, frames, r.value) && !Inside(values, envelopes, frames, r.value)
              && forall j | i <= j < r.value && Checked(values, envelopes, frames, j) ::
                   Inside(values, envelopes, frames, j)
    decreases |values| - i
  {
    if i == |values| then None
    else if Checked(values, envelopes, frames, i) && !Inside(values, envelopes, frames, i) then Some(i)
    else FirstOutside(values, envelopes, frames, i + 1)
  }

  function EveryCheckedFitsOther(
      values: seq<int>, envelopes: seq<Option<Envelope>>, frames: seq<Option<PositionFrame>>, i: nat): (r: bool)
    requires i <= |values|
    ensures r <==> forall j | i <= j < |values| && Checked(values, envelopes, frames, j) ::
                     !Inside(values, envelopes, frames, j) && InsideOther(values, envelopes, frames, j)
    decreases |values| - i
  {
    if i == |values| then true
    else
      && (Checked(values, envelopes, frames, i) ==>
            !Inside(values, envelopes, frames, i) && InsideOther(values, envelopes, frames, i))
      && EveryCheckedFitsOther(values, envelopes, frames, i + 1)
  }

  /** `first_outside_travel`. */
  function FirstOutsideTravel(
      values: seq<int>, envelopes: seq<Option<Envelope>>, frames: seq<Option<PositionFrame>>): Option<TravelReject>
  {
    var off := FirstOffEncoder(values, 0);
    if off.Some? then Some(TravelReject(off.value, values[off.value] as real, OffEncoder))
    else
      var out := FirstOutside(values, envelopes, frames, 0);
      if out.None? then None
      else Some(TravelReject(out.value, values[out.value] as real,
                             OutsideTravel(EveryCheckedFitsOther(values, envelopes, frames, 0))))
  }

  /** On the encoder, and inside the travel of every joint whose envelope and frame are known. */
  ghost predicate AllInTravel(values: seq<int>, envelopes: seq<Option<Envelope>>, frames: seq<Option<PositionFrame>>) {
    && (forall k | 0 <= k < |values| :: 0 <= values[k] < 4096)
    && (forall k | 0 <= k < |values| && k < |envelopes| && k < |frames| && envelopes[k].Some? && frames[k].Some? ::
          envelopes[k].value.Contains(values[k] as real, frames[k].value))
  }

  lemma AcceptedExactlyWhen(values: seq<int>, envelopes: seq<Option<Envelope>>, frames: seq<Option<PositionFrame>>)
    ensures FirstOutsideTravel(values, envelopes, frames).None? <==> AllInTravel(values, envelopes, frames)
  {
    forall k | 0 <= k < |values|
      ensures OnEncoder(values[k]) <==> 0 <= values[k] < 4096
      ensures Checked(values, envelopes, frames, k)
              <==> k < |envelopes| && k < |frames| && envelopes[k].Some? && frames[k].Some?
    {
    }
    if AllInTravel(values, envelopes, frames) {
      forall k | 0 <= k < |values| && Checked(values, envelopes, frames, k)
        ensures Inside(values, envelopes, frames, k)
      {
      }
    }
    if FirstOutsideTravel(values, envelopes, frames).None? {
      forall k | 0 <= k < |values| && k < |envelopes| && k < |frames| && envelopes[k].Some? && frames[k].Some?
        ensures envelopes[k].value.Contains(values[k] as real, frames[k].value)
      {
        assert Checked(values, envelopes, frames, k) && Inside(values, envelopes, frames, k);
      }
    }
  }

  // ---- from the calibration, in numbers ----

  /** A calibration has an envelope if and only if its range is not empty and the widened travel leaves
      more than 96 counts of the circle out. */
  lemma EnvelopeExistsExactlyWhen(rangeMin: real, rangeMax: real, homingOffset: real, margin: real)
    ensures New(rangeMin, rangeMax, homingOffset, margin).Some?
            <==> rangeMin < rangeMax && 4096.0 - ((rangeMax + margin) - (rangeMin - margin)) > 96.0
    ensures var e := New(rangeMin, rangeMax, homingOffset, margin);
            e.Some? ==> e.value.min == rangeMin - margin && e.value.max == rangeMax + margin
                        && e.value.homingOffset == homingOffset
  {
  }

  /** How the count the servo shows in a frame differs from the corrected one. */
  function FrameOffset(homingOffset: real, frame: PositionFrame): real {
    match frame
    case Corrected => 0.0
    case Raw => homingOffset
  }

  /** The reading shows a point of the widened travel, give or take whole turns. */
  ghost predicate ShowsTheTravel(
      value: int, rangeMin: real, rangeMax: real, homingOffset: real, margin: real, frame: PositionFrame)
  {
    exists x: real, turns: int ::
      rangeMin - margin <= x <= rangeMax + margin && ShownAt(value, x, homingOffset, frame, turns)
  }

  predicate ShownAt(value: int, x: real, homingOffset: real, frame: PositionFrame, turns: int) {
    value as real == x + FrameOffset(homingOffset, frame) + 4096.0 * turns as real
  }

  lemma ContainsTheTravel(
      e: Envelope, value: int, rangeMin: real, rangeMax: real, homingOffset: real, margin: real, frame: PositionFrame)
    requires New(rangeMin, rangeMax, homingOffset, margin) == Some(e)
    ensures e.Contains(value as real, frame) <==> ShowsTheTravel(value, rangeMin, rangeMax, homingOffset, margin, frame)
  {
    ContainsIsExact(e, value as real, frame);
    if ReportsAPointOfTheArc(e, value as real, frame) {
      var x :| e.min <= x <= e.max && ShowsAs(e, x, value as real, frame);
      var k :| value as real - (x + e.Shift(frame)) == Turns(k);
      assert ShownAt(value, x, homingOffset, frame, k);
    }
    if ShowsTheTravel(value, rangeMin, rangeMax, homingOffset, margin, frame) {
      var x, turns: int :| rangeMin - margin <= x <= rangeMax + margin
                           && ShownAt(value, x, homingOffset, frame, turns);
      assert value as real - (x + e.Shift(frame)) == Turns(turns);
      assert ShowsAs(e, x, value as real, frame);
    }
  }

  /** A joint with a range that is not empty and leaves more than 96 counts out when widened, and with a
      known frame, gets its batch refused by any reading that shows no point of that travel. */
  lemma OffTravelIsRefused(
      values: seq<int>, envelopes: seq<Option<Envelope>>, frames: seq<Option<PositionFrame>>, i: nat,
      rangeMin: real, rangeMax: real, homingOffset: real, margin: real)
    requires i < |values| && i < |envelopes| && i < |frames| && frames[i].Some?
    requires envelopes[i] == New(rangeMin, rangeMax, homingOffset, margin)
    requires rangeMin < rangeMax && rangeMax - rangeMin + 2.0 * margin < 4000.0
    requires !ShowsTheTravel(values[i], rangeMin, rangeMax, homingOffset, margin, frames[i].value)
    ensures FirstOutsideTravel(values, envelopes, frames).Some?
  {
    EnvelopeExistsExactlyWhen(rangeMin, rangeMax, homingOffset, margin);
    ContainsTheTravel(envelopes[i].value, values[i], rangeMin, rangeMax, homingOffset, margin, frames[i].value);
    AcceptedExactlyWhen(values, envelopes, frames);
  }

  /** Modes 0 and 2 are the two that have a frame: the servo shows the corrected count in the one, and
      the count with its homing offset added in the other. */
  lemma FrameOfAMode(mode: int, at: real, homingOffset: real)
    ensures mode == 0 ==> var f := FromOperatingMode(mode);
                          f.Some? && Congruent(Report(at, homingOffset, f.value), at)
                          && FrameOffset(homingOffset, f.value) == 0.0
    ensures mode == 2 ==> var f := FromOperatingMode(mode);
                          f.Some? && Congruent(Report(at, homingOffset, f.value), at + homingOffset)
                          && FrameOffset(homingOffset, f.value) == homingOffset
    ensures mode != 0 && mode != 2 ==> FromOperatingMode(mode) == None
  {
    FoldIsTheRepresentative(at, 0.0);
    FoldIsTheRepresentative(at + homingOffset, 0.0);
    CongruentEquivalence(at, Fold(at), 0.0);
    CongruentEquivalence(at + homingOffset, Fold(at + homingOffset), 0.0);
    assert at + 0.0 == at;
  }

  /** The position judged by the soft limits: a raw reading of a joint with a known offset is corrected
      and folded onto the encoder; every other reading is used as it is. */
  lemma SoftLimitPositionIs(pos: real, offset: real, frame: Option<PositionFrame>)
    ensures var p := SoftLimitPosition(pos, Some(offset), Some(Raw));
            0.0 <= p < 4096.0 && exists turns: int :: OffBy(pos, offset, p, turns)
    ensures SoftLimitPosition(pos, Some(offset), Some(Corrected)) == pos
    ensures SoftLimitPosition(pos, Some(offset), None) == pos
    ensures SoftLimitPosition(pos, None, frame) == pos
  {
    FoldIsTheRepresentative(pos - offset, 0.0);
    var k :| pos - offset - Fold(pos - offset) == Turns(k);
    assert OffBy(pos, offset, Fold(pos - offset), k);
  }

  /** Where a servo whose shaft sits at corrected count `c` puts it in `frame`. */
  function Report(c: real, homingOffset: real, frame: PositionFrame): real {
    Fold(c + match frame case Corrected => 0.0 case Raw => homingOffset)
  }

  /** One joint's calibration as the servo holds it, where the joint really is, and the frame it
      really reports in. */
  datatype Joint = Joint(rangeMin: real, rangeMax: real, homingOffset: real, margin: real, at: real,
                         frame: PositionFrame)

  /** The joint is inside its calibrated travel, its envelope is the one built from that
      calibration, and the frame the daemon believes is right or unknown. */
  ghost predicate Truthful(j: Joint, value: int, envelope: Option<Envelope>, frame: Option<PositionFrame>) {
    && j.margin >= 0.0 && j.rangeMin <= j.at <= j.rangeMax
    && envelope == New(j.rangeMin, j.rangeMax, j.homingOffset, j.margin)
    && value as real == Report(j.at, j.homingOffset, j.frame)
    && (frame == None || frame == Some(j.frame))
  }

  lemma TruthfulReadingIsInside(j: Joint, value: int, envelope: Option<Envelope>, frame: Option<PositionFrame>)
    requires Truthful(j, value, envelope, frame)
    ensures OnEncoder(value)
    ensures envelope.Some? && frame.Some? ==> envelope.value.Contains(value as real, frame.value)
  {
    var shift := match j.frame case Corrected => 0.0 case Raw => j.homingOffset;
    FoldIsTheRepresentative(j.at + shift, value as real);
    if envelope.Some? && frame.Some? {
      var e := envelope.value;
      assert New(j.rangeMin, j.rangeMax, e.homingOffset, j.margin) == Some(e);
      CongruentEquivalence(j.at + shift, value as real, 0.0);
      OnTheArcIsContained(e, value as real, j.frame, j.at);
    }
  }

  /** With the believed frames right, a batch from joints inside their calibrated travel is never
      refused, for any offsets, non-negative margins and seam placement. */
  lemma TrueReadingsAreNeverRefused(
      values: seq<int>, joints: seq<Joint>, envelopes: seq<Option<Envelope>>, frames: seq<Option<PositionFrame>>)
    requires |values| == |joints| == |envelopes| == |frames|
    requires forall i | 0 <= i < |joints| :: Truthful(joints[i], values[i], envelopes[i], frames[i])
    ensures FirstOutsideTravel(values, envelopes, frames).None?
  {
    forall i | 0 <= i < |values|
      ensures OnEncoder(values[i])
      ensures Checked(values, envelopes, frames, i) ==> Inside(values, envelopes, frames, i)
    {
      TruthfulReadingIsInside(joints[i], values[i], envelopes[i], frames[i]);
    }
  }

  /** The joint is inside its calibrated travel, but the daemon believes the other frame: it missed a
      mode switch. */
  ghost predicate MissedSwitch(j: Joint, value: int, envelope: Option<Envelope>, frame: Option<PositionFrame>) {
    Truthful(j, value, envelope, None) && frame == Some(j.frame.Other())
  }

  /** Where the daemon then takes the joint to be: off by the homing offset, one way or the other. */
  function TakenFor(j: Joint): real {
    match j.frame
    case Raw => j.at + j.homingOffset
    case Corrected => j.at - j.homingOffset
  }

  /** That place is nowhere on the joint's widened travel, on any turn. */
  ghost predicate OffTheArc(j: Joint) {
    forall x: real | j.rangeMin - j.margin <= x <= j.rangeMax + j.margin :: !Congruent(TakenFor(j), x)
  }

  lemma MistakenReading(j: Joint, value: int, envelope: Option<Envelope>, frame: Option<PositionFrame>)
    requires MissedSwitch(j, value, envelope, frame) && envelope.Some?
    ensures envelope.value.Contains(value as real, frame.value) <==> !OffTheArc(j)
    ensures envelope.value.Contains(value as real, frame.value.Other())
  {
    var e := envelope.value;
    TruthfulReadingIsInside(j, value, envelope, Some(j.frame));
    assert New(j.rangeMin, j.rangeMax, e.homingOffset, j.margin) == Some(e);
    ContainsIsExact(e, value as real, frame.value);
    if ReportsAPointOfTheArc(e, value as real, frame.value) {
      var x :| e.min <= x <= e.max && ShowsAs(e, x, value as real, frame.value);
      MistakenPlace(j, value as real, e, x);
      assert Congruent(TakenFor(j), x);
    }
    if !OffTheArc(j) {
      var x :| j.rangeMin - j.margin <= x <= j.rangeMax + j.margin && Congruent(TakenFor(j), x);
      MistakenPlace(j, value as real, e, x);
      assert ShowsAs(e, x, value as real, frame.value);
    }
  }

  /** Read in the other frame, the joint shows as the place it is taken for. */
  lemma MistakenPlace(j: Joint, value: real, e: Envelope, x: real)
    requires e.homingOffset == j.homingOffset && value == Report(j.at, j.homingOffset, j.frame)
    ensures ShowsAs(e, x, value, j.frame.Other()) <==> Congruent(TakenFor(j), x)
  {
    var shift, believed := e.Shift(j.frame), e.Shift(j.frame.Other());
    FoldIsTheRepresentative(j.at + shift, value);
    Displaced(value, j.at, shift, believed, x);
    assert j.at + shift - believed == TakenFor(j);
  }

  lemma Displaced(value: real, at: real, shift: real, believed: real, x: real)
    requires Congruent(at + shift, value)
    ensures Congruent(value, x + believed) <==> Congruent(at + shift - believed, x)
  {
    var k :| at + shift - value == Turns(k);
    if Congruent(value, x + believed) {
      var m :| value - (x + believed) == Turns(m);
      assert at + shift - believed - x == Turns(k + m);
    }
    if Congruent(at + shift - believed, x) {
      var m :| at + shift - believed - x == Turns(m);
      assert value - (x + believed) == Turns(m - k);
    }
  }

  /** A missed mode switch of every joint, over true readings: the batch is refused if and only if some
      joint with an envelope is taken for a place off its travel, the lowest such joint is named, and
      the mode-switch flag is set if and only if all of them are. */
  lemma MissedSwitchIsRefusedExactlyWhen(
      values: seq<int>, joints: seq<Joint>, envelopes: seq<Option<Envelope>>, frames: seq<Option<PositionFrame>>)
    requires |values| == |joints| == |envelopes| == |frames|
    requires forall i | 0 <= i < |joints| :: MissedSwitch(joints[i], values[i], envelopes[i], frames[i])
    ensures var r := FirstOutsideTravel(values, envelopes, frames);
            && (r.Some? <==> exists i :: 0 <= i < |joints| && envelopes[i].Some? && OffTheArc(joints[i]))
            && (r.Some? ==>
                  && r.value.motor < |joints| && envelopes[r.value.motor].Some? && OffTheArc(joints[r.value.motor])
                  && (forall i | 0 <= i < r.value.motor && envelopes[i].Some? :: !OffTheArc(joints[i]))
                  && r.value.verdict
                     == OutsideTravel(forall i | 0 <= i < |joints| && envelopes[i].Some? :: OffTheArc(joints[i])))
  {
    forall i | 0 <= i < |values|
      ensures OnEncoder(values[i])
      ensures Checked(values, envelopes, frames, i) <==> envelopes[i].Some?
      ensures envelopes[i].Some? ==> (Inside(values, envelopes, frames, i) <==> !OffTheArc(joints[i]))
      ensures envelopes[i].Some? ==> InsideOther(values, envelopes, frames, i)
    {
      TruthfulReadingIsInside(joints[i], values[i], envelopes[i], None);
      if envelopes[i].Some? { MistakenReading(joints[i], values[i], envelopes[i], frames[i]); }
    }
  }

  /** Every known frame replaced by the other one. */
  function Flipped(frames: seq<Option<PositionFrame>>): seq<Option<PositionFrame>> {
    seq(|frames|, i requires 0 <= i < |frames| =>
      if frames[i].None? then None else Some(frames[i].value.Other()))
  }

  /** What a refusal says: off-encoder readings first, then the lowest joint outside its travel;
      and the mode-switch flag is set exactly when the same batch judged with every known frame
      flipped is accepted while no checked joint fits the believed frame. */
  lemma RefusalIsExplained(values: seq<int>, envelopes: seq<Option<Envelope>>, frames: seq<Option<PositionFrame>>)
    ensures var r := FirstOutsideTravel(values, envelopes, frames);
            && (r.None? <==>
                  && (forall i | 0 <= i < |values| :: OnEncoder(values[i]))
                  && forall i | 0 <= i < |values| && Checked(values, envelopes, frames, i) ::
                       Inside(values, envelopes, frames, i))
            && (r.Some? ==>
                  && r.value.motor < |values| && r.value.value == values[r.value.motor] as real
                  && match r.value.verdict
                     case OffEncoder =>
                       !OnEncoder(values[r.value.motor]) && forall i | 0 <= i < r.value.motor :: OnEncoder(values[i])
                     case OutsideTravel(flag) =>
                       && (forall i | 0 <= i < |values| :: OnEncoder(values[i]))
                       && Checked(values, envelopes, frames, r.value.motor)
                       && !Inside(values, envelopes, frames, r.value.motor)
                       && (forall i | 0 <= i < r.value.motor && Checked(values, envelopes, frames, i) ::
                             Inside(values, envelopes, frames, i))
                       && (flag <==>
                             && FirstOutsideTravel(values, envelopes, Flipped(frames)).None?
                             && forall i | 0 <= i < |values| && Checked(values, envelopes, frames, i) ::
                                  !Inside(values, envelopes, frames, i)))
  {
    var flipped := Flipped(frames);
    forall i: nat | i < |values|
      ensures Checked(values, envelopes, flipped, i) <==> Checked(values, envelopes, frames, i)
      ensures Checked(values, envelopes, frames, i) ==>
                Inside(values, envelopes, flipped, i) == InsideOther(values, envelopes, frames, i)
    {
    }
  }
}
