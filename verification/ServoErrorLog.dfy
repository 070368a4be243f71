/** From the daemon's `servo_error` lines to the stretches each motor held a bit
    (analyze_servo_error_log.py). */
module ServoErrorLog {
  import opened Wrappers
  import opened StableSort

  /** One logged change of a motor's error byte. */
  datatype Transition = Transition(ns: int, motor: int, frm: bv8, to: bv8)

  /** `end` is `None` when the log ends with the bit still up. */
  datatype Interval = Interval(motor: int, start: int, end: Option<int>)

  predicate Raised(byte: bv8, bit: bv8) {
    byte & bit != 0
  }

  // ---- intervals_for_bit ----

  /** A motor's entry in the script's `open_at` dictionary, which keeps insertion order. */
  datatype Open = Open(motor: int, start: int)

  datatype Scan = Scan(openAt: seq<Open>, out: seq<Interval>)

  function IndexOf(openAt: seq<Open>, motor: int): (r: Option<nat>)
    ensures r.Some? ==> r.value < |openAt| && openAt[r.value].motor == motor
    ensures r.None? ==> forall o | o in openAt :: o.motor != motor
  {
    if openAt == [] then None
    else if openAt[|openAt| - 1].motor == motor then Some(|openAt| - 1)
    else
      assert openAt == openAt[..|openAt| - 1] + [openAt[|openAt| - 1]];
      IndexOf(openAt[..|openAt| - 1], motor)
  }

  /** The dictionary without its `i`-th entry. */
  function Without(openAt: seq<Open>, i: nat): seq<Open>
    requires i < |openAt|
  {
    openAt[..i] + openAt[i + 1..]
  }

  /** One line of the log: the masked value was and is now up, or not. */
  function ScanEdge(s: Scan, motor: int, ns: int, was: bool, now: bool): Scan {
    var at := IndexOf(s.openAt, motor);
    if now && !was then
      if at.None? then s.(openAt := s.openAt + [Open(motor, ns)]) else s
    else if was && !now && at.Some? then
      Scan(Without(s.openAt, at.value), s.out + [Interval(motor, s.openAt[at.value].start, Some(ns))])
    else s
  }

  function ScanStep(s: Scan, x: Transition, bit: bv8): Scan {
    ScanEdge(s, x.motor, x.ns, Raised(x.frm, bit), Raised(x.to, bit))
  }

  function ScanLog(log: seq<Transition>, bit: bv8): Scan {
    if log == [] then Scan([], []) else ScanStep(ScanLog(log[..|log| - 1], bit), log[|log| - 1], bit)
  }

  function StillUp(openAt: seq<Open>): seq<Interval> {
    seq(|openAt|, i requires 0 <= i < |openAt| => Interval(openAt[i].motor, openAt[i].start, None))
  }

  function StartOf(iv: Interval): int {
    iv.start
  }

  function Intervals(log: seq<Transition>, bit: bv8): seq<Interval> {
    var s := ScanLog(log, bit);
    Sort(s.out + StillUp(s.openAt), StartOf)
  }

  method IntervalsForBit(log: seq<Transition>, bit: bv8) returns (out: seq<Interval>)
    ensures out == Intervals(log, bit)
  {
    var openAt: seq<Open> := [];
    out := [];
    for k := 0 to |log|
      invariant Scan(openAt, out) == ScanLog(log[..k], bit)
    {
      assert log[..k + 1][..k] == log[..k];
      var x := log[k];
      var was, now := Raised(x.frm, bit), Raised(x.to, bit);
      var at := IndexOf(openAt, x.motor);
      if now && !was {
        if at.None? { openAt := openAt + [Open(x.motor, x.ns)]; }
      } else if was && !now && at.Some? {
        out := out + [Interval(x.motor, openAt[at.value].start, Some(x.ns))];
        openAt := Without(openAt, at.value);
      }
    }
    assert log[..|log|] == log;
    out := AppendOpen(out, openAt);
    out := Sort(out, StartOf);
  }

  method AppendOpen(closed: seq<Interval>, openAt: seq<Open>) returns (out: seq<Interval>)
    ensures out == closed + StillUp(openAt)
  {
    out := closed;
    for k := 0 to |openAt|
      invariant out == closed + StillUp(openAt)[..k]
    {
      out := out + [Interval(openAt[k].motor, openAt[k].start, None)];
    }
  }

  // ---- what the log says, on its own ----

  /** The line changes the masked value. */
  predicate ChangesBit(x: Transition, bit: bv8) {
    (x.frm & bit != 0) != (x.to & bit != 0)
  }

  /** The bit as the motor's last line at or before `t` that changes it says; clear if there is none. */
  ghost predicate BitUp(log: seq<Transition>, bit: bv8, motor: int, t: int) {
    if log == [] then false
    else
      var x := log[|log| - 1];
      if x.motor == motor && x.ns <= t && ChangesBit(x, bit) then x.to & bit != 0
      else BitUp(log[..|log| - 1], bit, motor, t)
  }

  /** Time-sorted, as `parse_log` leaves it. */
  ghost predicate InTimeOrder(log: seq<Transition>) {
    forall i, j | 0 <= i < j < |log| :: log[i].ns <= log[j].ns
  }

  ghost predicate Covers(iv: Interval, motor: int, t: int) {
    iv.motor == motor && iv.start <= t && (iv.end.None? || t < iv.end.value)
  }

  ghost predicate Covered(ivs: seq<Interval>, motor: int, t: int) {
    exists iv :: iv in ivs && Covers(iv, motor, t)
  }

  ghost predicate OpenSince(openAt: seq<Open>, motor: int, t: int) {
    exists o :: o in openAt && o.motor == motor && o.start <= t
  }

  ghost predicate OneEntryEach(openAt: seq<Open>) {
    forall i, j | 0 <= i < j < |openAt| :: openAt[i].motor != openAt[j].motor
  }

  lemma WithoutForgetsOneMotor(openAt: seq<Open>, i: nat, o: Open)
    requires i < |openAt| && OneEntryEach(openAt)
    ensures OneEntryEach(Without(openAt, i))
    ensures o in Without(openAt, i) <==> o in openAt && o.motor != openAt[i].motor
  {
    var w := Without(openAt, i);
    if o in w {
      var k :| 0 <= k < |w| && w[k] == o;
      assert o == openAt[if k < i then k else k + 1];
    }
    if o in openAt && o.motor != openAt[i].motor {
      var k :| 0 <= k < |openAt| && openAt[k] == o;
      assert o == w[if k < i then k else k - 1];
    }
  }

  /** What the scan knows after a prefix of the log that ends no later than `now`. */
  ghost predicate ScanInv(s: Scan, now: int) {
    && (forall iv | iv in s.out :: iv.end.Some? && iv.end.value <= now)
    && (forall o | o in s.openAt :: o.start <= now)
    && OneEntryEach(s.openAt)
  }

  /** By the intervals closed so far and the entries still open. */
  ghost predicate KnownUp(s: Scan, motor: int, t: int) {
    Covered(s.out, motor, t) || OpenSince(s.openAt, motor, t)
  }

  lemma EdgeKeepsInv(s: Scan, motor: int, ns: int, was: bool, now: bool)
    requires ScanInv(s, ns)
    ensures ScanInv(ScanEdge(s, motor, ns, was, now), ns)
  {
    var at := IndexOf(s.openAt, motor);
    if at.Some? {
      forall o: Open
        ensures o in Without(s.openAt, at.value) ==> o in s.openAt
      {
        WithoutForgetsOneMotor(s.openAt, at.value, o);
      }
      WithoutForgetsOneMotor(s.openAt, at.value, Open(0, 0));
    }
  }

  /** The scan keeps knowing each motor's bit at each instant: also over a rise with the bit already
      up, where the earlier start stands, and over a fall with nothing open. */
  lemma EdgeIsKnown(s: Scan, x: int, ns: int, was: bool, now: bool, motor: int, t: int)
    requires ScanInv(s, ns)
    ensures KnownUp(ScanEdge(s, x, ns, was, now), motor, t)
            <==> if motor == x && ns <= t && was != now then now else KnownUp(s, motor, t)
  {
    var s' := ScanEdge(s, x, ns, was, now);
    var at := IndexOf(s.openAt, x);
    if at.Some? {
      assert s.openAt[at.value] in s.openAt;
    }
    if now && !was {
      if at.None? {
        assert s'.openAt[|s.openAt|] == Open(x, ns);
        assert OpenSince(s'.openAt, motor, t) <==> OpenSince(s.openAt, motor, t) || (motor == x && ns <= t);
      }
    } else if !now && was && at.Some? {
      Closing(s, s', at.value, x, ns, motor, t);
    }
  }

  lemma Closing(s: Scan, s': Scan, i: nat, x: int, ns: int, motor: int, t: int)
    requires ScanInv(s, ns) && i < |s.openAt| && s.openAt[i].motor == x
    requires s' == Scan(Without(s.openAt, i), s.out + [Interval(x, s.openAt[i].start, Some(ns))])
    ensures KnownUp(s', motor, t) <==> KnownUp(s, motor, t) && (motor == x ==> t < ns)
  {
    var last := Interval(x, s.openAt[i].start, Some(ns));
    assert s'.out[|s.out|] == last;
    assert Covered(s'.out, motor, t) <==> Covered(s.out, motor, t) || Covers(last, motor, t);
    forall o: Open
      ensures o in s'.openAt <==> o in s.openAt && o.motor != x
    {
      WithoutForgetsOneMotor(s.openAt, i, o);
    }
    assert forall o | o in s.openAt && o.motor == x :: o == s.openAt[i];
    assert s.openAt[i] in s.openAt;
  }

  lemma StepKeepsInv(s: Scan, x: Transition, bit: bv8, now: int)
    requires ScanInv(s, x.ns) && x.ns <= now
    ensures ScanInv(ScanStep(s, x, bit), now)
  {
    EdgeKeepsInv(s, x.motor, x.ns, Raised(x.frm, bit), Raised(x.to, bit));
  }

  lemma StepIsKnown(s: Scan, x: Transition, bit: bv8, motor: int, t: int)
    requires ScanInv(s, x.ns)
    ensures KnownUp(ScanStep(s, x, bit), motor, t)
            <==> if x.motor == motor && x.ns <= t && ChangesBit(x, bit) then x.to & bit != 0 else KnownUp(s, motor, t)
  {
    var was, now := x.frm & bit != 0, x.to & bit != 0;
    assert ScanStep(s, x, bit) == ScanEdge(s, x.motor, x.ns, was, now);
    EdgeIsKnown(s, x.motor, x.ns, was, now, motor, t);
  }

  lemma FrontInTimeOrder(log: seq<Transition>)
    requires InTimeOrder(log) && log != []
    ensures var n := |log| - 1;
            InTimeOrder(log[..n]) && (n > 0 ==> log[..n][n - 1].ns <= log[n].ns)
  {
  }

  lemma {:induction false} ScanKeepsInv(log: seq<Transition>, bit: bv8, now: int)
    requires InTimeOrder(log) && (log != [] ==> log[|log| - 1].ns <= now)
    ensures ScanInv(ScanLog(log, bit), now)
  {
    if log != [] {
      var n := |log| - 1;
      FrontInTimeOrder(log);
      ScanKeepsInv(log[..n], bit, log[n].ns);
      StepKeepsInv(ScanLog(log[..n], bit), log[n], bit, now);
    }
  }

  lemma {:induction false} ScanKnowsTheBit(log: seq<Transition>, bit: bv8, motor: int, t: int)
    requires InTimeOrder(log)
    ensures KnownUp(ScanLog(log, bit), motor, t) <==> BitUp(log, bit, motor, t)
  {
    if log != [] {
      var n := |log| - 1;
      FrontInTimeOrder(log);
      ScanKnowsTheBit(log[..n], bit, motor, t);
      ScanKeepsInv(log[..n], bit, log[n].ns);
      StepIsKnown(ScanLog(log[..n], bit), log[n], bit, motor, t);
    }
  }

  lemma StillUpCovers(openAt: seq<Open>, motor: int, t: int)
    ensures Covered(StillUp(openAt), motor, t) <==> OpenSince(openAt, motor, t)
  {
    if OpenSince(openAt, motor, t) {
      var o :| o in openAt && o.motor == motor && o.start <= t;
      var k :| 0 <= k < |openAt| && openAt[k] == o;
      assert StillUp(openAt)[k] in StillUp(openAt) && Covers(StillUp(openAt)[k], motor, t);
    }
    if Covered(StillUp(openAt), motor, t) {
      var iv :| iv in StillUp(openAt) && Covers(iv, motor, t);
      var k :| 0 <= k < |openAt| && StillUp(openAt)[k] == iv;
      assert openAt[k] in openAt;
    }
  }

  lemma SortCovers(closed: seq<Interval>, open: seq<Interval>, motor: int, t: int)
    ensures Covered(Sort(closed + open, StartOf), motor, t) <==> Covered(closed, motor, t) || Covered(open, motor, t)
  {
    forall iv: Interval
      ensures iv in Sort(closed + open, StartOf) <==> iv in closed || iv in open
    {
      SortKeepsElements(closed + open, StartOf, iv);
    }
  }

  /** Exact reconstruction, from any time-sorted log: a motor's bit is up at `t` exactly when `t` lies
      in one of the motor's intervals. They come in the order they start. */
  lemma IntervalsAreExact(log: seq<Transition>, bit: bv8, motor: int, t: int)
    requires InTimeOrder(log)
    ensures Covered(Intervals(log, bit), motor, t) <==> BitUp(log, bit, motor, t)
    ensures forall i, j | 0 <= i < j < |Intervals(log, bit)| ::
              Intervals(log, bit)[i].start <= Intervals(log, bit)[j].start
  {
    ScanKnowsTheBit(log, bit, motor, t);
    var s := ScanLog(log, bit);
    StillUpCovers(s.openAt, motor, t);
    SortCovers(s.out, StillUp(s.openAt), motor, t);
    var ivs := Intervals(log, bit);
    assert forall i, j | 0 <= i < j < |ivs| :: StartOf(ivs[i]) <= StartOf(ivs[j]);
  }

  /** No interval that closed ends after the last line. */
  lemma ClosedByTheEnd(log: seq<Transition>, bit: bv8, iv: Interval)
    requires InTimeOrder(log) && iv in Intervals(log, bit) && iv.end.Some?
    ensures log != [] && iv.end.value <= log[|log| - 1].ns
  {
    if log != [] { ScanKeepsInv(log, bit, log[|log| - 1].ns); }
    var s := ScanLog(log, bit);
    SortKeepsElements(s.out + StillUp(s.openAt), StartOf, iv);
    assert iv in s.out || iv in StillUp(s.openAt);
  }

  // ---- what the log need not be, and what it may leave out ----

  /** The motor's last line at or before `t` left the masked value up; clear if there is none. */
  ghost predicate LeftUp(log: seq<Transition>, bit: bv8, motor: int, t: int) {
    if log == [] then false
    else
      var x := log[|log| - 1];
      if x.motor == motor && x.ns <= t then x.to & bit != 0 else LeftUp(log[..|log| - 1], bit, motor, t)
  }

  /** Each line's masked value continues from the motor's previous one, starting clear: no restart, no
      concatenated log. */
  ghost predicate Chained(log: seq<Transition>, bit: bv8) {
    forall k | 0 <= k < |log| ::
      (log[k].frm & bit != 0) <==> LeftUp(log[..k], bit, log[k].motor, log[k].ns)
  }

  /** On an unbroken log the bit is up exactly when the motor's last line left it set. */
  lemma {:induction false} UnbrokenLogSaysItAll(log: seq<Transition>, bit: bv8, motor: int, t: int)
    requires InTimeOrder(log) && Chained(log, bit)
    ensures BitUp(log, bit, motor, t) <==> LeftUp(log, bit, motor, t)
  {
    if log != [] {
      var front, x := log[..|log| - 1], log[|log| - 1];
      forall k | 0 <= k < |front|
        ensures (front[k].frm & bit != 0) <==> LeftUp(front[..k], bit, front[k].motor, front[k].ns)
      {
        assert front[..k] == log[..k] && front[k] == log[k];
      }
      UnbrokenLogSaysItAll(front, bit, motor, t);
      if x.motor == motor && x.ns <= t {
        LastByteStands(front, bit, motor, x.ns, t);
      }
    }
  }

  /** After the last line nothing changes. */
  lemma {:induction false} LastByteStands(log: seq<Transition>, bit: bv8, motor: int, now: int, t: int)
    requires InTimeOrder(log) && now <= t && (log != [] ==> log[|log| - 1].ns <= now)
    ensures LeftUp(log, bit, motor, t) == LeftUp(log, bit, motor, now)
  {
    if log != [] {
      LastByteStands(log[..|log| - 1], bit, motor, now, t);
    }
  }

  /** Two logs of the same lines, but for bytes that may differ outside the mask. */
  ghost predicate AgreeUnder(bit: bv8, log: seq<Transition>, other: seq<Transition>) {
    |log| == |other|
    && forall k | 0 <= k < |log| ::
         && log[k].ns == other[k].ns && log[k].motor == other[k].motor
         && log[k].frm & bit == other[k].frm & bit && log[k].to & bit == other[k].to & bit
  }

  /** Only the masked value is looked at. */
  lemma OnlyTheMaskMatters(log: seq<Transition>, other: seq<Transition>, bit: bv8)
    requires AgreeUnder(bit, log, other)
    ensures Intervals(log, bit) == Intervals(other, bit)
  {
    SameScan(log, other, bit);
  }

  lemma SameStep(s: Scan, x: Transition, y: Transition, bit: bv8)
    requires x.ns == y.ns && x.motor == y.motor && x.frm & bit == y.frm & bit && x.to & bit == y.to & bit
    ensures ScanStep(s, x, bit) == ScanStep(s, y, bit)
  {
  }

  lemma {:induction false} SameScan(log: seq<Transition>, other: seq<Transition>, bit: bv8)
    requires AgreeUnder(bit, log, other)
    ensures ScanLog(log, bit) == ScanLog(other, bit)
  {
    if log != [] {
      var n := |log| - 1;
      assert AgreeUnder(bit, log[..n], other[..n]);
      SameScan(log[..n], other[..n], bit);
      SameStep(ScanLog(log[..n], bit), log[n], other[n], bit);
    }
  }

  /** A line that leaves the masked value alone can be dropped. */
  lemma QuietLinesCanGo(before: seq<Transition>, x: Transition, after: seq<Transition>, bit: bv8)
    requires x.frm & bit == x.to & bit
    ensures Intervals(before + [x] + after, bit) == Intervals(before + after, bit)
  {
    SameScanWithout(before, x, after, bit);
  }

  lemma ScanLogStep(front: seq<Transition>, x: Transition, bit: bv8)
    ensures ScanLog(front + [x], bit) == ScanStep(ScanLog(front, bit), x, bit)
  {
    assert (front + [x])[..|front|] == front;
  }

  lemma LastLine(before: seq<Transition>, after: seq<Transition>, bit: bv8)
    requires after != []
    ensures ScanLog(before + after, bit)
            == ScanStep(ScanLog(before + after[..|after| - 1], bit), after[|after| - 1], bit)
  {
    assert (before + after)[..|before + after| - 1] == before + after[..|after| - 1];
  }

  lemma {:induction false} SameScanWithout(
      before: seq<Transition>, x: Transition, after: seq<Transition>, bit: bv8)
    requires x.frm & bit == x.to & bit
    ensures ScanLog(before + [x] + after, bit) == ScanLog(before + after, bit)
  {
    if after == [] {
      assert before + [x] + after == before + [x] && before + after == before;
      ScanLogStep(before, x, bit);
    } else {
      var n := |after| - 1;
      SameScanWithout(before, x, after[..n], bit);
      LastLine(before + [x], after, bit);
      LastLine(before, after, bit);
    }
  }
}
