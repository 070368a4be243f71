/** The threshold sweep of `analyse` and what its totals mean from the log up
    (analyze_servo_error_log.py). */
module CollapseCount {
  import opened ServoErrorLog
  import opened IntervalMerge
  import opened EpisodeSweep
  import opened EpisodeCorrectness

  const NS_PER_MS: real := 1000000.0

  function Length(ep: Episode): int {
    ep.end - ep.start
  }

  /** A test on lengths that keeps every episode longer than one it keeps. Comparing a quotient of
      doubles with `min_ms`, as the script does, is one: division by a million never reverses an order. */
  ghost predicate Upward(keeps: int -> bool) {
    forall a, b | keeps(a) && a <= b :: keeps(b)
  }

  /** The comparison without rounding. */
  function AtLeast(minMs: real): int -> bool {
    ns => ns as real / NS_PER_MS >= minMs
  }

  lemma AtLeastIsUpward(minMs: real)
    ensures Upward(AtLeast(minMs))
  {
  }

  /** Episodes that are too short are dropped. */
  function Kept(eps: seq<Episode>, keeps: int -> bool): seq<Episode> {
    if eps == [] then []
    else
      var rest := Kept(eps[..|eps| - 1], keeps);
      if keeps(Length(eps[|eps| - 1])) then rest + [eps[|eps| - 1]] else rest
  }

  function TotalNs(eps: seq<Episode>): int {
    if eps == [] then 0 else TotalNs(eps[..|eps| - 1]) + Length(eps[|eps| - 1])
  }

  function SweepRow(spans: seq<Span>, n: int, logEnd: int, keeps: int -> bool): seq<Episode> {
    Kept(Episodes(spans, n, logEnd), keeps)
  }

  /** The table's row for each threshold. */
  function RowFor(spans: seq<Span>, logEnd: int, keeps: int -> bool): int -> seq<Episode> {
    n => SweepRow(spans, n, logEnd, keeps)
  }

  function Rows(row: int -> seq<Episode>, maxMotors: nat): (rows: seq<seq<Episode>>)
    ensures |rows| == maxMotors
  {
    if maxMotors == 0 then [] else Rows(row, maxMotors - 1) + [row(maxMotors)]
  }

  lemma {:induction false} RowsAt(row: int -> seq<Episode>, maxMotors: nat, k: nat)
    requires k < maxMotors
    ensures Rows(row, maxMotors)[k] == row(k + 1)
  {
    if k < maxMotors - 1 { RowsAt(row, maxMotors - 1, k); }
  }

  /** The rows of the sweep table, one per threshold from 1 up. */
  function SweepRows(spans: seq<Span>, maxMotors: nat, logEnd: int, keeps: int -> bool): seq<seq<Episode>> {
    Rows(RowFor(spans, logEnd, keeps), maxMotors)
  }

  method SweepThresholds(spans: seq<Span>, maxMotors: nat, logEnd: int, keeps: int -> bool)
    returns (rows: seq<seq<Episode>>)
    ensures rows == SweepRows(spans, maxMotors, logEnd, keeps)
  {
    rows := [];
    for n := 1 to maxMotors + 1
      invariant rows == Rows(RowFor(spans, logEnd, keeps), n - 1)
    {
      var row := SweepOne(spans, n, logEnd, keeps);
      assert row == RowFor(spans, logEnd, keeps)(n);
      rows := rows + [row];
    }
  }

  method SweepOne(spans: seq<Span>, n: int, logEnd: int, keeps: int -> bool) returns (row: seq<Episode>)
    ensures row == SweepRow(spans, n, logEnd, keeps)
  {
    var eps := FindEpisodes(spans, n, logEnd);
    row := KeepLong(eps, keeps);
  }

  method KeepLong(eps: seq<Episode>, keeps: int -> bool) returns (row: seq<Episode>)
    ensures row == Kept(eps, keeps)
  {
    row := [];
    for i := 0 to |eps|
      invariant row == Kept(eps[..i], keeps)
    {
      assert eps[..i + 1][..i] == eps[..i];
      if keeps(Length(eps[i])) { row := row + [eps[i]]; }
    }
    assert eps[..|eps|] == eps;
  }

  // ---- counting instants ----

  /** How many integer instants of `[lo, hi)` satisfy `p`. */
  ghost function Count(p: int -> bool, lo: int, hi: int): nat
    decreases hi - lo
  {
    if hi <= lo then 0 else Count(p, lo, hi - 1) + if p(hi - 1) then 1 else 0
  }

  lemma {:induction false} CountSplits(p: int -> bool, lo: int, mid: int, hi: int)
    requires lo <= mid <= hi
    ensures Count(p, lo, hi) == Count(p, lo, mid) + Count(p, mid, hi)
    decreases hi - mid
  {
    if mid < hi {
      CountSplits(p, lo, mid, hi - 1);
    }
  }

  lemma {:induction false} CountIsMonotone(p: int -> bool, q: int -> bool, lo: int, hi: int)
    requires forall t | lo <= t < hi && p(t) :: q(t)
    ensures Count(p, lo, hi) <= Count(q, lo, hi)
    decreases hi - lo
  {
    if lo < hi {
      CountIsMonotone(p, q, lo, hi - 1);
    }
  }

  lemma {:induction false} CountAllOrNone(p: int -> bool, lo: int, hi: int, all: bool)
    requires lo <= hi && forall t | lo <= t < hi :: p(t) == all
    ensures Count(p, lo, hi) == if all then hi - lo else 0
    decreases hi - lo
  {
    if lo < hi {
      CountAllOrNone(p, lo, hi - 1, all);
    }
  }

  ghost predicate InWindow(eps: seq<Episode>, lo: int, hi: int) {
    forall ep | ep in eps :: lo <= ep.start && ep.end <= hi
  }

  lemma LastComesAfter(eps: seq<Episode>, ep: Episode)
    requires Ordered(eps) && eps != [] && ep in eps[..|eps| - 1]
    ensures ep in eps && ep.start < ep.end <= eps[|eps| - 1].start
  {
    var k :| 0 <= k < |eps| - 1 && eps[..|eps| - 1][k] == ep;
    assert eps[k] == ep;
  }

  /** Before its last episode starts, a list covers what the rest of it covers; then the last one,
      then nothing. */
  lemma LastCovers(eps: seq<Episode>, t: int)
    requires Ordered(eps) && eps != []
    ensures var (front, last) := (eps[..|eps| - 1], eps[|eps| - 1]);
            && Ordered(front)
            && SomeDuring(eps, t) == if t < last.start then SomeDuring(front, t) else t < last.end
  {
    var front, last := eps[..|eps| - 1], eps[|eps| - 1];
    assert eps == front + [last] && last in eps;
    forall ep | ep in front
      ensures ep in eps && ep.start < ep.end <= last.start
    {
      LastComesAfter(eps, ep);
    }
  }

  /** The durations of ordered episodes add up to the number of instants they cover. */
  lemma {:induction false} TotalIsACount(eps: seq<Episode>, lo: int, hi: int)
    requires Ordered(eps) && InWindow(eps, lo, hi) && lo <= hi
    ensures TotalNs(eps) == Count(t => SomeDuring(eps, t), lo, hi)
  {
    var p := t => SomeDuring(eps, t);
    if eps == [] {
      CountAllOrNone(p, lo, hi, false);
    } else {
      var front, last := eps[..|eps| - 1], eps[|eps| - 1];
      assert last in eps;
      forall t: int
        ensures p(t) == if t < last.start then SomeDuring(front, t) else t < last.end
      {
        LastCovers(eps, t);
      }
      CountAllOrNone(p, last.start, last.end, true);
      CountAllOrNone(p, last.end, hi, false);
      CountSplits(p, lo, last.start, hi);
      CountSplits(p, last.start, last.end, hi);
      LastCovers(eps, lo);
      forall ep | ep in front
        ensures lo <= ep.start && ep.end <= last.start
      {
        LastComesAfter(eps, ep);
      }
      TotalIsACount(front, lo, last.start);
      CountIsMonotone(p, t => SomeDuring(front, t), lo, last.start);
      CountIsMonotone(t => SomeDuring(front, t), p, lo, last.start);
    }
  }

  lemma {:induction false} KeptElements(eps: seq<Episode>, keeps: int -> bool, ep: Episode)
    ensures ep in Kept(eps, keeps) <==> ep in eps && keeps(Length(ep))
  {
    if eps != [] {
      assert eps == eps[..|eps| - 1] + [eps[|eps| - 1]];
      KeptElements(eps[..|eps| - 1], keeps, ep);
    }
  }

  /** With the comparison done without rounding, a row keeps exactly the episodes that last at least
      `minMs` milliseconds. */
  lemma LongEnoughIsKept(eps: seq<Episode>, minMs: real, ep: Episode)
    ensures ep in Kept(eps, AtLeast(minMs)) <==> ep in eps && (ep.end - ep.start) as real >= 1000000.0 * minMs
  {
    KeptElements(eps, AtLeast(minMs), ep);
  }

  lemma {:induction false} KeptIsOrdered(eps: seq<Episode>, keeps: int -> bool)
    requires Ordered(eps)
    ensures Ordered(Kept(eps, keeps))
  {
    if eps != [] {
      var front, last := eps[..|eps| - 1], eps[|eps| - 1];
      assert last in eps;
      LastCovers(eps, 0);
      KeptIsOrdered(front, keeps);
      var kept := Kept(front, keeps);
      forall i | 0 <= i < |kept|
        ensures kept[i].end <= last.start
      {
        KeptElements(front, keeps, kept[i]);
        LastComesAfter(eps, kept[i]);
      }
    }
  }

  // ---- the stated theorem ----

  /** Spans the window holds, as `clip` leaves them. */
  ghost predicate SpansInWindow(spans: seq<Span>, lo: int, hi: int) {
    forall s | s in spans :: lo <= s.start && s.end <= hi
  }

  lemma EpisodesInWindow(spans: seq<Span>, n: int, logEnd: int, lo: int, hi: int)
    requires Sweepable(spans) && n >= 1 && SpansInWindow(spans, lo, hi)
    ensures InWindow(Episodes(spans, n, logEnd), lo, hi)
  {
    var eps := Episodes(spans, n, logEnd);
    forall ep | ep in eps
      ensures lo <= ep.start && ep.end <= hi
    {
      EpisodesAreExact(spans, n, logEnd, ep.start);
      EpisodesAreExact(spans, n, logEnd, ep.end - 1);
      assert During(ep, ep.start) && During(ep, ep.end - 1);
      SomethingIsUp(spans, ep.start, lo, hi);
      SomethingIsUp(spans, ep.end - 1, lo, hi);
    }
  }

  lemma SomethingIsUp(spans: seq<Span>, t: int, lo: int, hi: int)
    requires SpansInWindow(spans, lo, hi) && |LiveAt(spans, t)| >= 1
    ensures lo <= t < hi
  {
    assert LiveAt(spans, t) != {};
    var motor :| motor in LiveAt(spans, t);
    var s :| s in spans && s.start <= t < s.end && s.motor == motor;
  }

  /** Where a stricter threshold keeps an episode, a looser one does. */
  lemma KeptNests(spans: seq<Span>, n: int, logEnd: int, keeps: int -> bool, t: int)
    requires Sweepable(spans) && n >= 1 && Upward(keeps)
    requires SomeDuring(Kept(Episodes(spans, n + 1, logEnd), keeps), t)
    ensures SomeDuring(Kept(Episodes(spans, n, logEnd), keeps), t)
  {
    var loose, strict := Episodes(spans, n, logEnd), Episodes(spans, n + 1, logEnd);
    var ep :| ep in Kept(strict, keeps) && During(ep, t);
    KeptElements(strict, keeps, ep);
    var outer := StricterEpisodesNest(spans, n, n + 1, logEnd, ep);
    assert keeps(Length(ep)) && Length(ep) <= Length(outer);
    KeptElements(loose, keeps, outer);
    assert During(outer, t);
  }

  /** Total time never rises with a stricter threshold, also after short episodes are dropped. */
  lemma TotalNeverRises(spans: seq<Span>, n: int, logEnd: int, keeps: int -> bool, lo: int, hi: int)
    requires Sweepable(spans) && n >= 1 && SpansInWindow(spans, lo, hi) && lo <= hi && Upward(keeps)
    ensures TotalNs(SweepRow(spans, n + 1, logEnd, keeps)) <= TotalNs(SweepRow(spans, n, logEnd, keeps))
  {
    var loose, strict := Episodes(spans, n, logEnd), Episodes(spans, n + 1, logEnd);
    var keptLoose, keptStrict := Kept(loose, keeps), Kept(strict, keeps);
    KeptTotalIsACount(spans, n, logEnd, keeps, lo, hi);
    KeptTotalIsACount(spans, n + 1, logEnd, keeps, lo, hi);
    forall t | SomeDuring(keptStrict, t)
      ensures SomeDuring(keptLoose, t)
    {
      KeptNests(spans, n, logEnd, keeps, t);
    }
    CountIsMonotone(t => SomeDuring(keptStrict, t), t => SomeDuring(keptLoose, t), lo, hi);
  }

  lemma KeptTotalIsACount(spans: seq<Span>, n: int, logEnd: int, keeps: int -> bool, lo: int, hi: int)
    requires Sweepable(spans) && n >= 1 && SpansInWindow(spans, lo, hi) && lo <= hi
    ensures TotalNs(SweepRow(spans, n, logEnd, keeps))
            == Count(t => SomeDuring(SweepRow(spans, n, logEnd, keeps), t), lo, hi)
  {
    var eps := Episodes(spans, n, logEnd);
    SweepIsExact(spans, n, logEnd);
    EpisodesInWindow(spans, n, logEnd, lo, hi);
    KeptIsOrdered(eps, keeps);
    forall ep | ep in Kept(eps, keeps)
      ensures ep in eps
    {
      KeptElements(eps, keeps, ep);
    }
    TotalIsACount(Kept(eps, keeps), lo, hi);
  }

  /** Row by row, the totals of the table never rise. */
  lemma RowTotalsNeverRise(spans: seq<Span>, maxMotors: nat, logEnd: int, keeps: int -> bool, lo: int, hi: int, k: nat)
    requires Sweepable(spans) && SpansInWindow(spans, lo, hi) && lo <= hi && Upward(keeps) && 0 < k < maxMotors
    ensures var rows := SweepRows(spans, maxMotors, logEnd, keeps);
            |rows| == maxMotors && TotalNs(rows[k]) <= TotalNs(rows[k - 1])
  {
    TotalNeverRises(spans, k, logEnd, keeps, lo, hi);
    RowTotals(RowFor(spans, logEnd, keeps), maxMotors, k);
  }

  lemma RowTotals(row: int -> seq<Episode>, maxMotors: nat, k: nat)
    requires 0 < k < maxMotors && TotalNs(row(k + 1)) <= TotalNs(row(k))
    ensures TotalNs(Rows(row, maxMotors)[k]) <= TotalNs(Rows(row, maxMotors)[k - 1])
  {
    RowsAt(row, maxMotors, k - 1);
    RowsAt(row, maxMotors, k);
  }

  // ---- from the log up ----

  /** The spans `analyse` sweeps. */
  function SpansOf(log: seq<Transition>, bit: bv8, lo: int, hi: int): seq<Span> {
    if log == [] then []
    else Merged(ClipTo(Intervals(log, bit), lo, hi, log[|log| - 1].ns), TICK_NS)
  }

  lemma {:induction false} ClipStaysInWindow(ivs: seq<Interval>, lo: int, hi: int, logEnd: int)
    ensures PositiveLengths(ClipTo(ivs, lo, hi, logEnd)) && SpansInWindow(ClipTo(ivs, lo, hi, logEnd), lo, hi)
  {
    if ivs != [] {
      ClipStaysInWindow(ivs[..|ivs| - 1], lo, hi, logEnd);
    }
  }

  lemma AnalysedSpansAreSweepable(log: seq<Transition>, bit: bv8, lo: int, hi: int)
    requires log != []
    ensures Sweepable(SpansOf(log, bit, lo, hi)) && SpansInWindow(SpansOf(log, bit, lo, hi), lo, hi)
  {
    var raw := ClipTo(Intervals(log, bit), lo, hi, log[|log| - 1].ns);
    ClipStaysInWindow(Intervals(log, bit), lo, hi, log[|log| - 1].ns);
    MergeSeparates(raw, TICK_NS);
    forall s | s in Merged(raw, TICK_NS)
      ensures lo <= s.start && s.end <= hi
    {
      MergedInWindow(raw, TICK_NS, s, lo, hi);
    }
  }

  lemma MergedInWindow(raw: seq<Span>, grace: int, s: Span, lo: int, hi: int)
    requires PositiveLengths(raw) && SpansInWindow(raw, lo, hi) && grace >= 0 && s in Merged(raw, grace)
    ensures lo <= s.start && s.end <= hi
  {
    MergeSeparates(raw, grace);
    MergeIsExact(raw, grace, s.motor, s.start);
    MergeIsExact(raw, grace, s.motor, s.end - 1);
    assert Up(Merged(raw, grace), s.motor, s.start) && Up(Merged(raw, grace), s.motor, s.end - 1);
  }

  /** By the log alone: the motor's bit is up at `t`, inside the window and before the last line. */
  ghost predicate LoggedUp(log: seq<Transition>, bit: bv8, lo: int, hi: int, motor: int, t: int)
    requires log != []
  {
    lo <= t < hi && t < log[|log| - 1].ns && BitUp(log, bit, motor, t)
  }

  /** Up, or in a dip of at most one tick of 2.5 ms: `a` is the last instant up before it, `b` the first after. */
  ghost predicate HeldUp(log: seq<Transition>, bit: bv8, lo: int, hi: int, motor: int, t: int)
    requires log != []
  {
    || LoggedUp(log, bit, lo, hi, motor, t)
    || exists a, b :: && a < t < b && b - a - 1 <= 2_500_000
                      && LoggedUp(log, bit, lo, hi, motor, a) && LoggedUp(log, bit, lo, hi, motor, b)
  }

  /** The spans of one motor that `clip` leaves are up exactly when the log says so. */
  lemma RawIsLogged(log: seq<Transition>, bit: bv8, lo: int, hi: int, motor: int, t: int)
    requires log != [] && InTimeOrder(log)
    ensures Up(ClipTo(Intervals(log, bit), lo, hi, log[|log| - 1].ns), motor, t)
            <==> LoggedUp(log, bit, lo, hi, motor, t)
  {
    IntervalsAreExact(log, bit, motor, t);
    forall iv | iv in Intervals(log, bit) && iv.end.Some?
      ensures iv.end.value <= log[|log| - 1].ns
    {
      ClosedByTheEnd(log, bit, iv);
    }
    ClipIsExact(Intervals(log, bit), lo, hi, log[|log| - 1].ns, motor, t);
  }

  /** Gaps between spans and dips between instants are the same thing. */
  lemma BridgedIsHeld(log: seq<Transition>, bit: bv8, lo: int, hi: int, motor: int, t: int)
    requires log != [] && InTimeOrder(log)
    ensures UpOrBridged(ClipTo(Intervals(log, bit), lo, hi, log[|log| - 1].ns), motor, t, TICK_NS)
            <==> HeldUp(log, bit, lo, hi, motor, t)
  {
    var raw := ClipTo(Intervals(log, bit), lo, hi, log[|log| - 1].ns);
    ClipStaysInWindow(Intervals(log, bit), lo, hi, log[|log| - 1].ns);
    RawIsLogged(log, bit, lo, hi, motor, t);
    if !Up(raw, motor, t) {
      if UpOrBridged(raw, motor, t, TICK_NS) {
        var a, b :| && a in raw && b in raw && a.motor == motor && b.motor == motor
                    && a.end <= t < b.start && b.start - a.end <= TICK_NS;
        RawIsLogged(log, bit, lo, hi, motor, a.end - 1);
        RawIsLogged(log, bit, lo, hi, motor, b.start);
        assert Up(raw, motor, a.end - 1) && Up(raw, motor, b.start);
      }
      if HeldUp(log, bit, lo, hi, motor, t) {
        var a, b :| && a < t < b && b - a - 1 <= TICK_NS
                    && LoggedUp(log, bit, lo, hi, motor, a) && LoggedUp(log, bit, lo, hi, motor, b);
        RawIsLogged(log, bit, lo, hi, motor, a);
        RawIsLogged(log, bit, lo, hi, motor, b);
        var s :| s in raw && s.motor == motor && s.start <= a < s.end;
        var r :| r in raw && r.motor == motor && r.start <= b < r.end;
        assert s.end <= t < r.start && r.start - s.end <= TICK_NS;
      }
    }
  }

  /** The motors held up at `t`, by the log alone. */
  ghost function HeldMotors(log: seq<Transition>, bit: bv8, lo: int, hi: int, t: int): set<int>
    requires log != []
  {
    set x | x in log && HeldUp(log, bit, lo, hi, x.motor, t) :: x.motor
  }

  lemma {:induction false} BitUpIsLogged(log: seq<Transition>, bit: bv8, motor: int, t: int)
    requires BitUp(log, bit, motor, t)
    ensures exists x :: x in log && x.motor == motor
  {
    var last := log[|log| - 1];
    assert last in log;
    if !(last.motor == motor && last.ns <= t) {
      BitUpIsLogged(log[..|log| - 1], bit, motor, t);
      var x :| x in log[..|log| - 1] && x.motor == motor;
      assert x in log;
    }
  }

  lemma SweptIsHeld(log: seq<Transition>, bit: bv8, lo: int, hi: int, motor: int, t: int)
    requires log != [] && InTimeOrder(log)
    ensures Up(SpansOf(log, bit, lo, hi), motor, t) <==> HeldUp(log, bit, lo, hi, motor, t)
  {
    ClipStaysInWindow(Intervals(log, bit), lo, hi, log[|log| - 1].ns);
    MergeIsExact(ClipTo(Intervals(log, bit), lo, hi, log[|log| - 1].ns), TICK_NS, motor, t);
    BridgedIsHeld(log, bit, lo, hi, motor, t);
  }

  lemma HeldIsLogged(log: seq<Transition>, bit: bv8, lo: int, hi: int, motor: int, t: int)
    requires log != [] && HeldUp(log, bit, lo, hi, motor, t)
    ensures exists x :: x in log && x.motor == motor
  {
    var a :| lo <= a < hi && BitUp(log, bit, motor, a);
    BitUpIsLogged(log, bit, motor, a);
  }

  lemma LiveIsHeld(log: seq<Transition>, bit: bv8, lo: int, hi: int, t: int)
    requires log != [] && InTimeOrder(log)
    ensures LiveAt(SpansOf(log, bit, lo, hi), t) == HeldMotors(log, bit, lo, hi, t)
  {
    var spans := SpansOf(log, bit, lo, hi);
    forall motor: int
      ensures motor in LiveAt(spans, t) <==> motor in HeldMotors(log, bit, lo, hi, t)
    {
      SweptIsHeld(log, bit, lo, hi, motor, t);
      assert motor in LiveAt(spans, t) <==> Up(spans, motor, t);
      if HeldUp(log, bit, lo, hi, motor, t) {
        HeldIsLogged(log, bit, lo, hi, motor, t);
      }
    }
  }

  /** Before any episode is dropped, the total for `n` motors is exactly the number of instants at
      which at least `n` motors are up. */
  lemma TotalIsTimeEnoughAreUp(spans: seq<Span>, n: int, logEnd: int, lo: int, hi: int)
    requires Sweepable(spans) && SpansInWindow(spans, lo, hi) && lo <= hi && n >= 1
    ensures TotalNs(Episodes(spans, n, logEnd)) == Count(t => |LiveAt(spans, t)| >= n, lo, hi)
  {
    var eps := Episodes(spans, n, logEnd);
    SweepIsExact(spans, n, logEnd);
    EpisodesInWindow(spans, n, logEnd, lo, hi);
    TotalIsACount(eps, lo, hi);
    var p, q := t => SomeDuring(eps, t), t => |LiveAt(spans, t)| >= n;
    forall t: int
      ensures p(t) == q(t)
    {
      EpisodesAreExact(spans, n, logEnd, t);
    }
    CountIsMonotone(p, q, lo, hi);
    CountIsMonotone(q, p, lo, hi);
  }

  /** From the log to the number: on any time-sorted log, the total time reported for `n` motors is
      exactly the number of instants of the window at which at least `n` motors hold the bit, a dip of
      at most one tick counting as held. */
  lemma CollapseTimeIsExact(log: seq<Transition>, bit: bv8, lo: int, hi: int, n: int)
    requires log != [] && lo <= hi && InTimeOrder(log) && n >= 1
    ensures TotalNs(Episodes(SpansOf(log, bit, lo, hi), n, hi))
            == Count(t => |HeldMotors(log, bit, lo, hi, t)| >= n, lo, hi)
  {
    var spans := SpansOf(log, bit, lo, hi);
    AnalysedSpansAreSweepable(log, bit, lo, hi);
    TotalIsTimeEnoughAreUp(spans, n, hi, lo, hi);
    var p, q := t => |LiveAt(spans, t)| >= n, t => |HeldMotors(log, bit, lo, hi, t)| >= n;
    forall t: int
      ensures p(t) == q(t)
    {
      LiveIsHeld(log, bit, lo, hi, t);
    }
    CountIsMonotone(p, q, lo, hi);
    CountIsMonotone(q, p, lo, hi);
  }
}
