/** Cutting intervals to a window and joining near ones, motor by motor
    (`clip` and `merge_per_motor` in analyze_servo_error_log.py). */
module IntervalMerge {
  import opened StableSort
  import opened ServoErrorLog

  const TICK_NS := 2_500_000

  /** An interval whose end is known. */
  datatype Span = Span(motor: int, start: int, end: int)

  ghost predicate Up(spans: seq<Span>, motor: int, t: int) {
    exists s :: s in spans && s.motor == motor && s.start <= t < s.end
  }

  // ---- clip ----

  function Cut(iv: Interval, lo: int, hi: int, logEnd: int): Span {
    var end := if iv.end.Some? then iv.end.value else logEnd;
    Span(iv.motor, if iv.start > lo then iv.start else lo, if end < hi then end else hi)
  }

  function ClipTo(ivs: seq<Interval>, lo: int, hi: int, logEnd: int): seq<Span> {
    if ivs == [] then []
    else
      var rest := ClipTo(ivs[..|ivs| - 1], lo, hi, logEnd);
      var s := Cut(ivs[|ivs| - 1], lo, hi, logEnd);
      if s.end > s.start then rest + [s] else rest
  }

  method Clip(ivs: seq<Interval>, lo: int, hi: int, logEnd: int) returns (out: seq<Span>)
    ensures out == ClipTo(ivs, lo, hi, logEnd)
  {
    out := [];
    for k := 0 to |ivs|
      invariant out == ClipTo(ivs[..k], lo, hi, logEnd)
    {
      assert ivs[..k + 1][..k] == ivs[..k];
      var s := Cut(ivs[k], lo, hi, logEnd);
      if s.end > s.start { out := out + [s]; }
    }
    assert ivs[..|ivs|] == ivs;
  }

  /** Inside the window and inside the log, nothing is lost and nothing added; every piece kept has
      positive length and lies in the window. */
  lemma {:induction false} ClipIsExact(ivs: seq<Interval>, lo: int, hi: int, logEnd: int, motor: int, t: int)
    requires forall iv | iv in ivs && iv.end.Some? :: iv.end.value <= logEnd
    ensures Up(ClipTo(ivs, lo, hi, logEnd), motor, t) <==> lo <= t < hi && t < logEnd && Covered(ivs, motor, t)
    ensures forall s | s in ClipTo(ivs, lo, hi, logEnd) :: lo <= s.start < s.end <= hi
  {
    if ivs != [] {
      var front, iv := ivs[..|ivs| - 1], ivs[|ivs| - 1];
      assert ivs == front + [iv];
      ClipIsExact(front, lo, hi, logEnd, motor, t);
      var s := Cut(iv, lo, hi, logEnd);
      var out := ClipTo(ivs, lo, hi, logEnd);
      assert s.end > s.start ==> out[|out| - 1] == s;
      assert Covered(ivs, motor, t) <==> Covered(front, motor, t) || Covers(iv, motor, t);
      assert Up(out, motor, t) <==> Up(ClipTo(front, lo, hi, logEnd), motor, t)
                                    || (s.motor == motor && s.start <= t < s.end);
    }
  }

  // ---- merge_per_motor ----

  /** The later of two instants. */
  function Later(a: int, b: int): int {
    if a < b then b else a
  }

  function StartOf(s: Span): int {
    s.start
  }

  /** The spans of one motor, in the order given. */
  function OfMotor(spans: seq<Span>, motor: int): seq<Span> {
    if spans == [] then []
    else
      var rest := OfMotor(spans[..|spans| - 1], motor);
      if spans[|spans| - 1].motor == motor then rest + [spans[|spans| - 1]] else rest
  }

  /** The motors in the order their first span comes: the keys of the script's dictionary. */
  function Motors(spans: seq<Span>): seq<int> {
    if spans == [] then []
    else
      var rest := Motors(spans[..|spans| - 1]);
      if spans[|spans| - 1].motor in rest then rest else rest + [spans[|spans| - 1].motor]
  }

  /** Two neighbours made one. */
  function Join(a: Span, b: Span): Span {
    Span(a.motor, a.start, Later(a.end, b.end))
  }

  /** One pass over a motor's remaining spans, `cur` being the one under construction. */
  function MergeFrom(cur: Span, rest: seq<Span>, grace: int): seq<Span>
    decreases |rest|
  {
    if rest == [] then [cur]
    else if rest[0].start - cur.end <= grace then
      MergeFrom(Join(cur, rest[0]), rest[1..], grace)
    else [cur] + MergeFrom(rest[0], rest[1..], grace)
  }

  function MergeMotor(spans: seq<Span>, motor: int, grace: int): seq<Span> {
    var own := Sort(OfMotor(spans, motor), StartOf);
    if own == [] then [] else MergeFrom(own[0], own[1..], grace)
  }

  function MergeMotors(spans: seq<Span>, motors: seq<int>, grace: int): seq<Span> {
    if motors == [] then []
    else MergeMotors(spans, motors[..|motors| - 1], grace) + MergeMotor(spans, motors[|motors| - 1], grace)
  }

  function Merged(spans: seq<Span>, grace: int): seq<Span> {
    Sort(MergeMotors(spans, Motors(spans), grace), StartOf)
  }

  method MergeOneMotor(motor: int, own: seq<Span>, grace: int) returns (out: seq<Span>)
    requires own != [] && forall s | s in own :: s.motor == motor
    ensures out == MergeFrom(own[0], own[1..], grace)
  {
    out := [];
    var cur := own[0];
    for k := 1 to |own|
      invariant cur.motor == motor
      invariant out + MergeFrom(cur, own[k..], grace) == MergeFrom(own[0], own[1..], grace)
    {
      var nxt := own[k];
      assert own[k..][0] == nxt && own[k..][1..] == own[k + 1..];
      if nxt.start - cur.end <= grace {
        cur := Span(motor, cur.start, Later(cur.end, nxt.end));
      } else {
        out := out + [cur];
        cur := nxt;
      }
    }
    out := out + [cur];
  }

  /** `order` is what the dictionary remembers of insertion order. */
  method GroupByMotor(spans: seq<Span>) returns (order: seq<int>, byMotor: map<int, seq<Span>>)
    ensures order == Motors(spans)
    ensures forall m :: m in byMotor <==> m in order
    ensures forall m | m in byMotor :: byMotor[m] == OfMotor(spans, m)
  {
    order, byMotor := [], map[];
    for k := 0 to |spans|
      invariant order == Motors(spans[..k])
      invariant forall m :: m in byMotor <==> m in order
      invariant forall m | m in byMotor :: byMotor[m] == OfMotor(spans[..k], m)
      invariant forall m | m !in byMotor :: OfMotor(spans[..k], m) == []
    {
      assert spans[..k + 1][..k] == spans[..k];
      var m := spans[k].motor;
      if m !in byMotor {
        order := order + [m];
        byMotor := byMotor[m := []];
      }
      byMotor := byMotor[m := byMotor[m] + [spans[k]]];
    }
    assert spans[..|spans|] == spans;
  }

  method MergeGroup(ghost spans: seq<Span>, motor: int, group: seq<Span>, grace: int) returns (out: seq<Span>)
    requires motor in Motors(spans) && group == OfMotor(spans, motor)
    ensures out == MergeMotor(spans, motor, grace)
  {
    SortedGroup(spans, motor);
    out := MergeOneMotor(motor, Sort(group, StartOf), grace);
  }

  method MergePerMotor(spans: seq<Span>, grace: int) returns (out: seq<Span>)
    ensures out == Merged(spans, grace)
  {
    var order, byMotor := GroupByMotor(spans);
    out := [];
    for k := 0 to |order|
      invariant out == MergeMotors(spans, order[..k], grace)
    {
      MergeMotorsNext(spans, order, k, grace);
      var one := MergeGroup(spans, order[k], byMotor[order[k]], grace);
      out := out + one;
    }
    assert order[..|order|] == order;
    out := Sort(out, StartOf);
  }

  lemma MergeMotorsNext(spans: seq<Span>, motors: seq<int>, k: nat, grace: int)
    requires k < |motors|
    ensures MergeMotors(spans, motors[..k + 1], grace)
            == MergeMotors(spans, motors[..k], grace) + MergeMotor(spans, motors[k], grace)
  {
    assert motors[..k + 1][..k] == motors[..k];
  }

  lemma SortedGroup(spans: seq<Span>, motor: int)
    requires motor in Motors(spans)
    ensures var own := Sort(OfMotor(spans, motor), StartOf);
            own != [] && forall s | s in own :: s.motor == motor
  {
    OfMotorIsExact(spans, motor);
    MotorsIsExact(spans, motor);
    forall s: Span
      ensures s in Sort(OfMotor(spans, motor), StartOf) <==> s in OfMotor(spans, motor)
    {
      SortKeepsElements(OfMotor(spans, motor), StartOf, s);
    }
  }

  lemma {:induction false} OfMotorIsExact(spans: seq<Span>, motor: int)
    ensures forall s :: s in OfMotor(spans, motor) <==> s in spans && s.motor == motor
  {
    if spans != [] {
      assert spans == spans[..|spans| - 1] + [spans[|spans| - 1]];
      OfMotorIsExact(spans[..|spans| - 1], motor);
    }
  }

  lemma {:induction false} MotorsIsExact(spans: seq<Span>, motor: int)
    ensures motor in Motors(spans) <==> exists s :: s in spans && s.motor == motor
    ensures forall i, j | 0 <= i < j < |Motors(spans)| :: Motors(spans)[i] != Motors(spans)[j]
  {
    if spans != [] {
      assert spans == spans[..|spans| - 1] + [spans[|spans| - 1]];
      MotorsIsExact(spans[..|spans| - 1], motor);
    }
  }

  // ---- what merging does to one motor ----

  ghost predicate In(spans: seq<Span>, t: int) {
    exists s :: s in spans && s.start <= t < s.end
  }

  /** `t` lies in a gap of at most `grace` between two of the spans. */
  ghost predicate Bridged(spans: seq<Span>, t: int, grace: int) {
    exists a, b :: a in spans && b in spans && a.end <= t < b.start && b.start - a.end <= grace
  }

  ghost predicate Closed(spans: seq<Span>, t: int, grace: int) {
    In(spans, t) || Bridged(spans, t, grace)
  }

  /** A motor's spans in start order, each of positive length, `cur` being the first. */
  ghost predicate Lined(cur: Span, rest: seq<Span>) {
    && cur.start < cur.end
    && Sorted(rest, StartOf)
    && forall s | s in rest :: s.motor == cur.motor && cur.start <= s.start < s.end
  }

  lemma LinedRest(cur: Span, rest: seq<Span>)
    requires Lined(cur, rest) && rest != []
    ensures Lined(rest[0], rest[1..])
    ensures Lined(Join(cur, rest[0]), rest[1..])
    ensures forall s | s in rest[1..] :: rest[0].start <= s.start
  {
    forall s | s in rest[1..]
      ensures s in rest && rest[0].start <= s.start
    {
      var k :| 0 <= k < |rest| - 1 && rest[1..][k] == s;
      assert StartOf(rest[0]) <= StartOf(rest[k + 1]);
    }
    assert rest[0] in rest;
  }

  /** Joining two neighbours that overlap or are within the grace changes nothing about which
      instants are in a span or in a short gap. */
  lemma JoinKeepsClosure(cur: Span, nxt: Span, tail: seq<Span>, grace: int, t: int)
    requires Lined(cur, [nxt] + tail) && nxt.start - cur.end <= grace
    ensures Closed([Join(cur, nxt)] + tail, t, grace) <==> Closed([cur] + ([nxt] + tail), t, grace)
  {
    LinedRest(cur, [nxt] + tail);
    assert ([nxt] + tail)[1..] == tail && nxt in [nxt] + tail;
    assert forall s | s in tail :: s in [nxt] + tail;
    if Closed([Join(cur, nxt)] + tail, t, grace) {
      SplitKeepsClosure(cur, nxt, tail, grace, t);
    }
    if Closed([cur] + ([nxt] + tail), t, grace) {
      JoinLosesNothing(cur, nxt, tail, grace, t);
    }
  }

  lemma SplitKeepsClosure(cur: Span, nxt: Span, tail: seq<Span>, grace: int, t: int)
    requires nxt.start - cur.end <= grace && cur.start <= nxt.start && cur.start < cur.end && nxt.start < nxt.end
    requires forall s | s in tail :: cur.start <= s.start < s.end
    requires Closed([Join(cur, nxt)] + tail, t, grace)
    ensures Closed([cur] + ([nxt] + tail), t, grace)
  {
    var both := Join(cur, nxt);
    var short, long := [both] + tail, [cur] + ([nxt] + tail);
    assert cur == long[0] && nxt == long[1];
    assert forall s | s in tail :: s in long;
    if In(short, t) {
      var s :| s in short && s.start <= t < s.end;
      if s == both {
        assert cur.start <= t < cur.end || nxt.start <= t < nxt.end || cur.end <= t < nxt.start;
      }
    } else {
      var a, b :| a in short && b in short && a.end <= t < b.start && b.start - a.end <= grace;
      assert b in tail;
      var a' := if a != both then a else if both.end == cur.end then cur else nxt;
      assert a' in long && b in long;
    }
  }

  lemma JoinLosesNothing(cur: Span, nxt: Span, tail: seq<Span>, grace: int, t: int)
    requires nxt.start - cur.end <= grace && cur.start <= nxt.start && cur.start < cur.end && nxt.start < nxt.end
    requires forall s | s in tail :: cur.start <= s.start < s.end && nxt.start <= s.start
    requires Closed([cur] + ([nxt] + tail), t, grace)
    ensures Closed([Join(cur, nxt)] + tail, t, grace)
  {
    var both := Join(cur, nxt);
    var short, long := [both] + tail, [cur] + ([nxt] + tail);
    assert both == short[0];
    assert forall s | s in tail :: s in short;
    assert forall s | s in long :: s == cur || s == nxt || s in tail;
    if !(both.start <= t < both.end) {
      if In(long, t) {
        var s :| s in long && s.start <= t < s.end;
        assert s in short;
      } else {
        var a, b :| a in long && b in long && a.end <= t < b.start && b.start - a.end <= grace;
        assert b in tail;
        var a' := if a in tail then a else both;
        assert a' in short && b in short;
      }
    }
  }

  /** Leaving a neighbour that is further than the grace apart opens no short gap. */
  lemma GapSplitsClosure(cur: Span, rest: seq<Span>, grace: int, t: int)
    requires Lined(cur, rest) && rest != [] && rest[0].start - cur.end > grace
    ensures Closed([cur] + rest, t, grace) <==> cur.start <= t < cur.end || Closed(rest, t, grace)
  {
    var all := [cur] + rest;
    LinedRest(cur, rest);
    forall s: Span
      ensures s in all <==> s == cur || s in rest
      ensures s in rest ==> rest[0].start <= s.start
    {
      if s in rest && s != rest[0] {
        assert s in rest[1..];
      }
    }
    if Bridged(all, t, grace) {
      var a, b :| a in all && b in all && a.end <= t < b.start && b.start - a.end <= grace;
      assert b in rest;
      assert a in rest;
    }
  }

  /** Each output starts more than the grace after the one before it ended. */
  ghost predicate SpacedOut(spans: seq<Span>, grace: int) {
    forall i, j | 0 <= i < j < |spans| :: spans[i].end + grace < spans[j].start
  }

  lemma {:induction false} MergeFromCloses(cur: Span, rest: seq<Span>, grace: int, t: int)
    requires Lined(cur, rest) && grace >= 0
    ensures In(MergeFrom(cur, rest, grace), t) <==> Closed([cur] + rest, t, grace)
    decreases |rest|
  {
    if rest != [] {
      LinedRest(cur, rest);
      assert rest == [rest[0]] + rest[1..];
      if rest[0].start - cur.end <= grace {
        JoinKeepsClosure(cur, rest[0], rest[1..], grace, t);
        MergeFromCloses(Join(cur, rest[0]), rest[1..], grace, t);
      } else {
        GapSplitsClosure(cur, rest, grace, t);
        MergeFromCloses(rest[0], rest[1..], grace, t);
        var out := MergeFrom(rest[0], rest[1..], grace);
        assert forall s :: s in [cur] + out <==> s == cur || s in out;
      }
    }
  }

  lemma {:induction false} MergeFromSpaces(cur: Span, rest: seq<Span>, grace: int)
    requires Lined(cur, rest) && grace >= 0
    ensures var out := MergeFrom(cur, rest, grace);
            && out != [] && out[0].start == cur.start && SpacedOut(out, grace)
            && forall s | s in out :: s.motor == cur.motor && cur.start <= s.start < s.end
    decreases |rest|
  {
    if rest != [] {
      LinedRest(cur, rest);
      if rest[0].start - cur.end <= grace {
        MergeFromSpaces(Join(cur, rest[0]), rest[1..], grace);
      } else {
        MergeFromSpaces(rest[0], rest[1..], grace);
        var out := MergeFrom(rest[0], rest[1..], grace);
        forall j | 0 <= j < |out|
          ensures cur.end + grace < out[j].start
        {
          assert out[j] in out;
        }
        assert rest[0] in rest;
      }
    }
  }

  /** Spans already spaced out pass through unchanged. */
  lemma {:induction false} MergeFromKeepsSpaced(cur: Span, rest: seq<Span>, grace: int)
    requires SpacedOut([cur] + rest, grace)
    ensures MergeFrom(cur, rest, grace) == [cur] + rest
    decreases |rest|
  {
    if rest != [] {
      assert ([cur] + rest)[1..] == rest && [rest[0]] + rest[1..] == rest;
      assert forall i | 0 <= i < |rest| :: ([cur] + rest)[i + 1] == rest[i];
      assert ([cur] + rest)[0].end + grace < ([cur] + rest)[1].start;
      MergeFromKeepsSpaced(rest[0], rest[1..], grace);
    }
  }

  // ---- and to all of them ----

  ghost predicate PositiveLengths(spans: seq<Span>) {
    forall s | s in spans :: s.start < s.end
  }

  /** A motor is up, or in a gap of at most `grace` between two of its own spans. */
  ghost predicate UpOrBridged(spans: seq<Span>, motor: int, t: int, grace: int) {
    || Up(spans, motor, t)
    || exists a, b :: && a in spans && b in spans && a.motor == motor && b.motor == motor
                      && a.end <= t < b.start && b.start - a.end <= grace
  }

  /** Spans of one motor never touch, and are more than `grace` apart. */
  ghost predicate Apart(spans: seq<Span>, grace: int) {
    forall i, j | 0 <= i < j < |spans| && spans[i].motor == spans[j].motor ::
      spans[i].end + grace < spans[j].start
  }

  lemma OwnSpansAreLined(spans: seq<Span>, motor: int)
    requires PositiveLengths(spans)
    ensures var own := Sort(OfMotor(spans, motor), StartOf);
            && (forall s :: s in own <==> s in spans && s.motor == motor)
            && (own != [] ==> Lined(own[0], own[1..]))
  {
    var own := Sort(OfMotor(spans, motor), StartOf);
    OfMotorIsExact(spans, motor);
    forall s: Span
      ensures s in own <==> s in spans && s.motor == motor
    {
      SortKeepsElements(OfMotor(spans, motor), StartOf, s);
    }
    if own != [] { SortedSpansAreLined(own, motor); }
  }

  lemma SortedSpansAreLined(own: seq<Span>, motor: int)
    requires own != [] && Sorted(own, StartOf) && forall s | s in own :: s.motor == motor && s.start < s.end
    ensures Lined(own[0], own[1..])
  {
    assert own[0] in own;
    forall s | s in own[1..]
      ensures s.motor == own[0].motor && own[0].start <= s.start < s.end
    {
      var k :| 0 <= k < |own| - 1 && own[1..][k] == s;
      assert StartOf(own[0]) <= StartOf(own[k + 1]) && own[k + 1] in own;
    }
  }

  lemma MergeMotorIsSpaced(spans: seq<Span>, motor: int, grace: int)
    requires PositiveLengths(spans) && grace >= 0
    ensures SpacedOut(MergeMotor(spans, motor, grace), grace)
    ensures forall s | s in MergeMotor(spans, motor, grace) :: s.motor == motor && s.start < s.end
  {
    var own := Sort(OfMotor(spans, motor), StartOf);
    OwnSpansAreLined(spans, motor);
    if own != [] {
      assert own[0] in own;
      MergeFromSpaces(own[0], own[1..], grace);
    }
  }

  lemma MergeMotorIsExact(spans: seq<Span>, motor: int, grace: int, t: int)
    requires PositiveLengths(spans) && grace >= 0
    ensures In(MergeMotor(spans, motor, grace), t) <==> UpOrBridged(spans, motor, t, grace)
  {
    var own := Sort(OfMotor(spans, motor), StartOf);
    OwnSpansAreLined(spans, motor);
    ClosedIsBridged(spans, motor, own, t, grace);
    if own != [] { MergingCloses(own, t, grace); }
  }

  lemma MergingCloses(own: seq<Span>, t: int, grace: int)
    requires own != [] && Lined(own[0], own[1..]) && grace >= 0
    ensures In(MergeFrom(own[0], own[1..], grace), t) <==> Closed(own, t, grace)
  {
    MergeFromCloses(own[0], own[1..], grace, t);
    assert [own[0]] + own[1..] == own;
  }

  /** The closure of a motor's own spans, said of all spans. */
  lemma ClosedIsBridged(spans: seq<Span>, motor: int, own: seq<Span>, t: int, grace: int)
    requires forall s :: s in own <==> s in spans && s.motor == motor
    ensures Closed(own, t, grace) <==> UpOrBridged(spans, motor, t, grace)
  {
  }

  lemma {:induction false} MergeMotorsIsExact(spans: seq<Span>, motors: seq<int>, grace: int)
    requires PositiveLengths(spans) && grace >= 0 && Distinct(motors)
    ensures forall s :: s in MergeMotors(spans, motors, grace)
                        <==> s.motor in motors && s in MergeMotor(spans, s.motor, grace)
    ensures Apart(MergeMotors(spans, motors, grace), grace) && Distinct(MergeMotors(spans, motors, grace))
  {
    if motors != [] {
      var front, last := motors[..|motors| - 1], motors[|motors| - 1];
      assert motors == front + [last];
      MergeMotorsIsExact(spans, front, grace);
      MergeMotorIsSpaced(spans, last, grace);
      var before, own := MergeMotors(spans, front, grace), MergeMotor(spans, last, grace);
      forall s: Span
        ensures s in before + own <==> s in before || s in own
      {
      }
      ConcatApart(before, own, last, grace);
    }
  }

  lemma ConcatApart(before: seq<Span>, own: seq<Span>, motor: int, grace: int)
    requires Apart(before, grace) && Distinct(before) && SpacedOut(own, grace) && grace >= 0
    requires forall s | s in before :: s.motor != motor
    requires forall s | s in own :: s.motor == motor && s.start < s.end
    ensures Apart(before + own, grace) && Distinct(before + own)
  {
    var all := before + own;
    forall i, j | 0 <= i < j < |all|
      ensures all[i].motor == all[j].motor ==> all[i].end + grace < all[j].start
      ensures all[i] != all[j]
    {
      if i < |before| {
        assert all[i] in before;
        if j >= |before| { assert all[j] in own; }
      } else {
        assert all[i] == own[i - |before|] && all[j] == own[j - |before|];
        assert all[i] in own && all[j] in own;
      }
    }
  }

  /** Order by start keeps same-motor spans apart. */
  lemma SortKeepsApart(spans: seq<Span>, grace: int)
    requires Apart(spans, grace) && Distinct(spans) && PositiveLengths(spans) && grace >= 0
    ensures Apart(Sort(spans, StartOf), grace) && Distinct(Sort(spans, StartOf))
  {
    var out := Sort(spans, StartOf);
    SortKeepsDistinct(spans, StartOf);
    forall i, j | 0 <= i < j < |out| && out[i].motor == out[j].motor
      ensures out[i].end + grace < out[j].start
    {
      SortKeepsElements(spans, StartOf, out[i]);
      SortKeepsElements(spans, StartOf, out[j]);
      var p :| 0 <= p < |spans| && spans[p] == out[i];
      var q :| 0 <= q < |spans| && spans[q] == out[j];
      assert StartOf(out[i]) <= StartOf(out[j]) && p != q;
      assert spans[p] in spans && spans[q] in spans;
    }
  }

  lemma MergedElements(spans: seq<Span>, grace: int, s: Span)
    requires PositiveLengths(spans) && grace >= 0
    ensures s in Merged(spans, grace) <==> s in MergeMotor(spans, s.motor, grace)
  {
    var motors := Motors(spans);
    MotorsIsExact(spans, s.motor);
    MergeMotorsIsExact(spans, motors, grace);
    SortKeepsElements(MergeMotors(spans, motors, grace), StartOf, s);
    if s in MergeMotor(spans, s.motor, grace) {
      OwnSpansAreLined(spans, s.motor);
      var own := Sort(OfMotor(spans, s.motor), StartOf);
      assert own[0] in own;
    }
  }

  /** What comes out is in start order, of positive length, and more than the grace apart on each
      motor. */
  lemma MergeSeparates(spans: seq<Span>, grace: int)
    requires PositiveLengths(spans) && grace >= 0
    ensures Sorted(Merged(spans, grace), StartOf) && PositiveLengths(Merged(spans, grace))
    ensures Apart(Merged(spans, grace), grace) && Distinct(Merged(spans, grace))
  {
    MotorsIsExact(spans, 0);
    MergeMotorsIsExact(spans, Motors(spans), grace);
    var flat := MergeMotors(spans, Motors(spans), grace);
    forall s | s in flat
      ensures s.start < s.end
    {
      MergeMotorIsSpaced(spans, s.motor, grace);
    }
    SortKeepsApart(flat, grace);
    forall s | s in Merged(spans, grace)
      ensures s.start < s.end
    {
      SortKeepsElements(flat, StartOf, s);
    }
  }

  /** Merging is exactly the closing of each motor's time by gaps of at most the grace: every input
      instant is covered, only such gaps are filled, and all of them are. */
  lemma MergeIsExact(spans: seq<Span>, grace: int, motor: int, t: int)
    requires PositiveLengths(spans) && grace >= 0
    ensures Up(Merged(spans, grace), motor, t) <==> UpOrBridged(spans, motor, t, grace)
  {
    var out, own := Merged(spans, grace), MergeMotor(spans, motor, grace);
    MergeMotorIsSpaced(spans, motor, grace);
    forall s: Span
      ensures s in out && s.motor == motor <==> s in own
    {
      MergedElements(spans, grace, s);
    }
    MergeMotorIsExact(spans, motor, grace, t);
    assert Up(out, motor, t) <==> In(own, t);
  }

  /** Merging again changes nothing but, possibly, the order of spans that start together. */
  lemma MergeIsIdempotent(spans: seq<Span>, grace: int, s: Span)
    requires PositiveLengths(spans) && grace >= 0
    ensures s in Merged(Merged(spans, grace), grace) <==> s in Merged(spans, grace)
  {
    var once := Merged(spans, grace);
    MergeSeparates(spans, grace);
    MergedElements(once, grace, s);
    SpacedSpansPassThrough(once, s.motor, grace);
    OwnSpansAreLined(once, s.motor);
  }

  lemma SpacedSpansPassThrough(spans: seq<Span>, motor: int, grace: int)
    requires PositiveLengths(spans) && Apart(spans, grace) && Distinct(spans) && grace >= 0
    ensures MergeMotor(spans, motor, grace) == Sort(OfMotor(spans, motor), StartOf)
  {
    var own := Sort(OfMotor(spans, motor), StartOf);
    if own != [] {
      OwnSpansAreSpaced(spans, motor, grace);
      assert [own[0]] + own[1..] == own;
      MergeFromKeepsSpaced(own[0], own[1..], grace);
    }
  }

  lemma OwnSpansAreSpaced(spans: seq<Span>, motor: int, grace: int)
    requires PositiveLengths(spans) && Apart(spans, grace) && Distinct(spans) && grace >= 0
    ensures SpacedOut(Sort(OfMotor(spans, motor), StartOf), grace)
  {
    var own := OfMotor(spans, motor);
    OfMotorIsApart(spans, motor, grace);
    OfMotorIsExact(spans, motor);
    SortKeepsApart(own, grace);
    var out := Sort(own, StartOf);
    forall i | 0 <= i < |out|
      ensures out[i].motor == motor
    {
      SortKeepsElements(own, StartOf, out[i]);
    }
  }

  lemma {:induction false} OfMotorIsApart(spans: seq<Span>, motor: int, grace: int)
    requires Apart(spans, grace) && Distinct(spans)
    ensures Apart(OfMotor(spans, motor), grace) && Distinct(OfMotor(spans, motor))
  {
    if spans != [] {
      var front, last := spans[..|spans| - 1], spans[|spans| - 1];
      OfMotorIsApart(front, motor, grace);
      OfMotorIsExact(front, motor);
      var own := OfMotor(front, motor);
      forall i | 0 <= i < |own|
        ensures own[i] != last && (own[i].motor == last.motor ==> own[i].end + grace < last.start)
      {
        assert own[i] in front;
        var k :| 0 <= k < |front| && front[k] == own[i];
        assert spans[k] == own[i];
      }
    }
  }
}
