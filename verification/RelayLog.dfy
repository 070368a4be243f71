/** A log whose report warns although nothing is wrong (analyze_servo_error_log.py): both exact totals
    sit on a tie between two tenths, and their doubles fall on either side of it. */
module RelayLog {
  import opened Reals
  import opened ServoErrorLog
  import opened IntervalMerge
  import opened EpisodeSweep
  import opened EpisodeCorrectness
  import opened CollapseCount
  import opened DoubleSums
  import opened PrintedTotals

  const TWO_45: real := 35184372088832.0
  const TWO_46: real := 70368744177664.0

  /** The double nearest to `x` is `m / scale`, ties to even, where `scale` is the power of two that
      puts `x * scale` between 2^52 and 2^53. */
  predicate RoundsTo(x: real, m: int, scale: real) {
    && 0x10_0000_0000_0000 <= m < 0x20_0000_0000_0000
    && Abs(x * scale - m as real) <= 0.5 && (Abs(x * scale - m as real) == 0.5 ==> m % 2 == 0)
  }

  const RELAY_END := 200_350_000
  const HANDOVER := 100_200_000

  /** One motor up for 200.35 ms, with a second up for the first 100.2 ms of it and a third from then on,
      as the daemon logs it for bit 1. */
  const RELAY: seq<Transition> := [
    Transition(0, 1, 0, 1), Transition(0, 2, 0, 1), Transition(HANDOVER, 2, 1, 0),
    Transition(HANDOVER, 3, 0, 1), Transition(RELAY_END, 1, 1, 0), Transition(RELAY_END, 3, 1, 0)]

  /** What adding doubles makes of one duration of 200.35 ms, and of 100.2 and 100.15 ms (see
      `RelayDoubles`). */
  ghost predicate AddsTheRelay(sum: seq<Episode> -> real) {
    && (forall eps | |eps| == 1 && Length(eps[0]) == RELAY_END :: sum(eps) == 7049188947997491.0 / TWO_45)
    && (forall eps | |eps| == 2 && Length(eps[0]) == HANDOVER && Length(eps[1]) == RELAY_END - HANDOVER ::
          sum(eps) == 7049188947997492.0 / TWO_45)
  }

  /** On this log, over the whole of it and with the default minimum length, the table's check finds a
      rise. At both thresholds motors are up for exactly 200.35 ms, in one episode and in two; the
      double nearest to 200.35 is below it and prints as 200.3; the sum of the doubles for 100.2 and
      100.15 is above it and prints as 200.4. */
  lemma WarningIsReachable(sum: seq<Episode> -> real) returns (rows: seq<seq<Episode>>)
    requires AddsTheRelay(sum)
    ensures InTimeOrder(RELAY) && Upward(AtLeast(100.0))
    ensures rows == SweepRows(SpansOf(RELAY, 1, 0, RELAY_END), 2, RELAY_END, AtLeast(100.0)) && |rows| == 2
    ensures TotalNs(rows[0]) == TotalNs(rows[1]) == RELAY_END
    ensures exists k :: 0 < k < |rows| && TenthsOf(sum(rows[k])) > TenthsOf(sum(rows[k - 1]))
  {
    AtLeastIsUpward(100.0);
    var spans := RelaySpans(RELAY);
    rows := RelayRows(spans);
    RelayDoubles();
    assert TenthsOf(sum(rows[1])) > TenthsOf(sum(rows[1 - 1]));
  }

  lemma RelayDoubles()
    ensures RoundsTo(Ms(200_350_000), 7049188947997491, TWO_45)
    ensures RoundsTo(Ms(100_200_000), 7050948166601933, TWO_46)
    ensures RoundsTo(Ms(100_150_000), 7047429729393050, TWO_46)
    ensures RoundsTo(7050948166601933.0 / TWO_46 + 7047429729393050.0 / TWO_46, 7049188947997492, TWO_45)
    ensures TenthsOf(7049188947997491.0 / TWO_45) == 2003 && TenthsOf(7049188947997492.0 / TWO_45) == 2004
  {
  }

  /** And plain left-to-right additions of rounded quotients can give exactly these two sums. */
  lemma RelaySumsAreDoubleSums(one: seq<Episode>, two: seq<Episode>)
    requires |one| == 1 && Length(one[0]) == RELAY_END
    requires |two| == 2 && Length(two[0]) == HANDOVER && Length(two[1]) == RELAY_END - HANDOVER
    ensures IsDoubleSum(one, 7049188947997491.0 / TWO_45) && IsDoubleSum(two, 7049188947997492.0 / TWO_45)
  {
    var first, second := 7050948166601933.0 / TWO_46, 7047429729393050.0 / TWO_46;
    FirstAdded(one, 7049188947997491.0 / TWO_45);
    FirstAdded(two[..1], first);
    assert Rounded(second, Ms(Length(two[1])));
    assert Adds(Running(first, 0.0), second, false, Running(7049188947997492.0 / TWO_45, 0.0));
    assert AddsUp(two, false, Running(7049188947997492.0 / TWO_45, 0.0));
  }

  lemma FirstAdded(eps: seq<Episode>, d: real)
    requires |eps| == 1 && Rounded(d, Ms(Length(eps[0])))
    ensures AddsUp(eps, false, Running(d, 0.0))
  {
    assert eps[..0] == [] && AddsUp(eps[..0], false, Running(0.0, 0.0));
    assert Adds(Running(0.0, 0.0), d, false, Running(d, 0.0)) by { NoError(d); }
  }

  lemma NoError(d: real)
    ensures Rounded(d, 0.0 + d)
  {
  }

  /** When each of the three motors is up, on the key axis. */
  function RelayAt(q: int): set<int> {
    (if 1 <= q < 2 * RELAY_END then {1} else {}) + (if 1 <= q < 2 * HANDOVER then {2} else {})
    + (if 2 * HANDOVER + 1 <= q < 2 * RELAY_END then {3} else {})
  }

  /** Which motors the log holds up, entry by entry. */
  lemma RelayBits(log: seq<Transition>, motor: int, t: int)
    requires log == RELAY
    ensures BitUp(log[..1], 1, motor, t) <==> motor == 1 && 0 <= t
    ensures BitUp(log[..2], 1, motor, t) <==> (motor == 1 || motor == 2) && 0 <= t
    ensures BitUp(log[..3], 1, motor, t) <==> (motor == 1 && 0 <= t) || (motor == 2 && 0 <= t < HANDOVER)
    ensures BitUp(log[..4], 1, motor, t) <==>
            (motor == 1 && 0 <= t) || (motor == 2 && 0 <= t < HANDOVER) || (motor == 3 && HANDOVER <= t)
    ensures BitUp(log[..5], 1, motor, t) <==>
            (motor == 1 && 0 <= t < RELAY_END) || (motor == 2 && 0 <= t < HANDOVER) || (motor == 3 && HANDOVER <= t)
    ensures BitUp(log, 1, motor, t) <==> UpInRelay(motor, t)
  {
    BitNext(log, 0, motor, t);
    BitNext(log, 1, motor, t);
    BitNext(log, 2, motor, t);
    BitNext(log, 3, motor, t);
    BitNext(log, 4, motor, t);
    BitNext(log, 5, motor, t);
    assert log[..6] == log && log[..0] == [];
  }

  predicate UpInRelay(motor: int, t: int) {
    || (motor == 1 && 0 <= t < RELAY_END) || (motor == 2 && 0 <= t < HANDOVER)
    || (motor == 3 && HANDOVER <= t < RELAY_END)
  }

  lemma BitNext(log: seq<Transition>, k: nat, motor: int, t: int)
    requires k < |log|
    ensures BitUp(log[..k + 1], 1, motor, t)
            <==> if log[k].motor == motor && log[k].ns <= t && ChangesBit(log[k], 1) then log[k].to & 1 != 0
                 else BitUp(log[..k], 1, motor, t)
  {
    assert log[..k + 1][..k] == log[..k];
  }

  lemma RelayIsInOrder(log: seq<Transition>)
    requires log == RELAY
    ensures InTimeOrder(log)
  {
  }

  /** No dips: held up is up. */
  lemma RelayHeld(log: seq<Transition>, motor: int, t: int)
    requires log == RELAY
    ensures HeldUp(log, 1, 0, RELAY_END, motor, t) <==> UpInRelay(motor, t)
  {
    RelayLogged(log, motor, t);
    if a, b :| a < t < b && b - a - 1 <= TICK_NS && LoggedUp(log, 1, 0, RELAY_END, motor, a)
               && LoggedUp(log, 1, 0, RELAY_END, motor, b) {
      RelayLogged(log, motor, a);
      RelayLogged(log, motor, b);
    }
  }

  lemma RelayLogged(log: seq<Transition>, motor: int, t: int)
    requires log == RELAY
    ensures LoggedUp(log, 1, 0, RELAY_END, motor, t) <==> UpInRelay(motor, t)
  {
    RelayBits(log, motor, t);
  }

  /** At an even key, between the falls and the rises of an instant, the motors up are those up both
      just before and just after it. */
  lemma EvenKey(spans: seq<Span>, t: int)
    requires Sweepable(spans)
    ensures LiveAtKey(spans, 2 * t) == LiveAt(spans, t - 1) * LiveAt(spans, t)
  {
    forall motor | motor in LiveAt(spans, t - 1) && motor in LiveAt(spans, t)
      ensures motor in LiveAtKey(spans, 2 * t)
    {
      var a :| a in spans && a.start <= t - 1 < a.end && a.motor == motor;
      var b :| b in spans && b.start <= t < b.end && b.motor == motor;
      if a != b { OneAfterTheOther(spans, a, b); }
    }
  }

  /** The spans `analyse` sweeps for this log, and the motors up on the key axis. */
  lemma RelaySpans(log: seq<Transition>) returns (spans: seq<Span>)
    requires log == RELAY
    ensures InTimeOrder(log) && spans == SpansOf(log, 1, 0, RELAY_END) && Sweepable(spans)
    ensures forall q :: LiveAtKey(spans, q) == RelayAt(q)
  {
    RelayIsInOrder(log);
    spans := SpansOf(log, 1, 0, RELAY_END);
    AnalysedSpansAreSweepable(log, 1, 0, RELAY_END);
    forall t: int
      ensures LiveAt(spans, t) == RelayAt(2 * t + 1)
    {
      LiveIsHeld(log, 1, 0, RELAY_END, t);
      RelayMotors(log, t);
    }
    forall q: int
      ensures LiveAtKey(spans, q) == RelayAt(q)
    {
      RelayKeys(spans, q);
    }
  }

  lemma RelayMotors(log: seq<Transition>, t: int)
    requires log == RELAY
    ensures HeldMotors(log, 1, 0, RELAY_END, t) == RelayAt(2 * t + 1)
  {
    assert log[0] in log && log[1] in log && log[3] in log;
    forall motor: int
      ensures HeldUp(log, 1, 0, RELAY_END, motor, t) <==> motor in RelayAt(2 * t + 1)
    {
      RelayHeld(log, motor, t);
    }
  }

  lemma RelayKeys(spans: seq<Span>, q: int)
    requires Sweepable(spans) && forall t: int :: LiveAt(spans, t) == RelayAt(2 * t + 1)
    ensures LiveAtKey(spans, q) == RelayAt(q)
  {
    var t := q / 2;
    if q == 2 * t + 1 {
      InstantIsOddKey(spans, t);
    } else {
      EvenKey(spans, t);
      RelayBetween(t);
      assert LiveAt(spans, t - 1) == RelayAt(2 * (t - 1) + 1);
    }
  }

  lemma RelayBetween(t: int)
    ensures RelayAt(2 * t) == RelayAt(2 * (t - 1) + 1) * RelayAt(2 * t + 1)
  {
    forall motor: int
      ensures motor in RelayAt(2 * t) <==> motor in RelayAt(2 * (t - 1) + 1) && motor in RelayAt(2 * t + 1)
    {
      InRelay(motor, 2 * t);
      InRelay(motor, 2 * (t - 1) + 1);
      InRelay(motor, 2 * t + 1);
    }
  }

  lemma InRelay(motor: int, q: int)
    ensures motor in RelayAt(q) <==>
            || (motor == 1 && 1 <= q < 2 * RELAY_END) || (motor == 2 && 1 <= q < 2 * HANDOVER)
            || (motor == 3 && 2 * HANDOVER + 1 <= q < 2 * RELAY_END)
  {
  }

  lemma RelayCounts(q: int)
    ensures |RelayAt(q)| >= 1 <==> 1 <= q < 2 * RELAY_END
    ensures |RelayAt(q)| >= 2 <==> 1 <= q < 2 * HANDOVER || 2 * HANDOVER + 1 <= q < 2 * RELAY_END
  {
    if 1 <= q < 2 * HANDOVER {
      assert RelayAt(q) == {1, 2};
    } else if q == 2 * HANDOVER {
      assert RelayAt(q) == {1};
    } else if 2 * HANDOVER + 1 <= q < 2 * RELAY_END {
      assert RelayAt(q) == {1, 3};
    } else {
      assert RelayAt(q) == {};
    }
  }

  /** A stretch with enough motors up throughout, and too few just before and just after it, is an
      episode. */
  lemma StretchIsAnEpisode(spans: seq<Span>, n: int, logEnd: int, start: int, end: int) returns (ep: Episode)
    requires Sweepable(spans) && n >= 1 && start < end
    requires forall q | 2 * start + 1 <= q < 2 * end :: Enough(spans, n, q)
    requires !Enough(spans, n, 2 * start) && !Enough(spans, n, 2 * end)
    ensures ep in Episodes(spans, n, logEnd) && ep.start == start && ep.end == end
  {
    var eps := Episodes(spans, n, logEnd);
    SweepIsExact(spans, n, logEnd);
    assert Enough(spans, n, 2 * start + 1) && SomeOnKey(eps, 2 * start + 1);
    ep :| ep in eps && OnKey(ep, 2 * start + 1);
    EpisodesAreMaximal(spans, n, logEnd, ep);
    assert !OnKey(ep, 2 * start) by { assert !SomeOnKey(eps, 2 * start); }
    assert !OnKey(ep, 2 * end) by { assert !SomeOnKey(eps, 2 * end); }
    assert ep.end < end ==> Enough(spans, n, 2 * ep.end);
  }

  /** Each episode starts with a key at which enough motors are up. */
  lemma EpisodeStartsUp(spans: seq<Span>, n: int, logEnd: int, ep: Episode)
    requires Sweepable(spans) && n >= 1 && ep in Episodes(spans, n, logEnd)
    ensures Enough(spans, n, 2 * ep.start + 1)
  {
    SweepIsExact(spans, n, logEnd);
    assert OnKey(ep, 2 * ep.start + 1) && SomeOnKey(Episodes(spans, n, logEnd), 2 * ep.start + 1);
  }

  lemma OneStretch(spans: seq<Span>, n: int, logEnd: int, a: int, b: int)
    requires Sweepable(spans) && n >= 1 && a < b
    requires forall q :: Enough(spans, n, q) <==> 2 * a + 1 <= q < 2 * b
    ensures var eps := Episodes(spans, n, logEnd); |eps| == 1 && Length(eps[0]) == b - a
  {
    var eps := Episodes(spans, n, logEnd);
    var only := StretchIsAnEpisode(spans, n, logEnd, a, b);
    SweepIsExact(spans, n, logEnd);
    forall ep | ep in eps
      ensures ep == only
    {
      EpisodeStartsUp(spans, n, logEnd, ep);
      if ep != only { OrderedApart(eps, ep, only); }
    }
    OneOrdered(eps, only);
  }

  /** Two stretches that meet in an instant at which, between falls and rises, too few are up. */
  lemma TwoStretches(spans: seq<Span>, n: int, logEnd: int, a: int, b: int, c: int)
    requires Sweepable(spans) && n >= 1 && a < b < c
    requires forall q :: Enough(spans, n, q) <==> 2 * a + 1 <= q < 2 * b || 2 * b + 1 <= q < 2 * c
    ensures var eps := Episodes(spans, n, logEnd); |eps| == 2 && Length(eps[0]) == b - a && Length(eps[1]) == c - b
  {
    var eps := Episodes(spans, n, logEnd);
    var first := StretchIsAnEpisode(spans, n, logEnd, a, b);
    var second := StretchIsAnEpisode(spans, n, logEnd, b, c);
    SweepIsExact(spans, n, logEnd);
    forall ep | ep in eps
      ensures ep == first || ep == second
    {
      EpisodeStartsUp(spans, n, logEnd, ep);
      if ep != first && ep != second {
        OrderedApart(eps, ep, first);
        OrderedApart(eps, ep, second);
      }
    }
    TwoOrdered(eps, first, second);
  }

  lemma OneOrdered(eps: seq<Episode>, a: Episode)
    requires Ordered(eps) && a in eps && forall ep | ep in eps :: ep == a
    ensures eps == [a]
  {
    assert forall k | 0 <= k < |eps| :: eps[k] in eps;
    assert |eps| > 1 ==> eps[0].end <= eps[1].start;
  }

  lemma TwoOrdered(eps: seq<Episode>, a: Episode, b: Episode)
    requires Ordered(eps) && a in eps && b in eps && a.end <= b.start
    requires forall ep | ep in eps :: ep == a || ep == b
    ensures eps == [a, b]
  {
    var i :| 0 <= i < |eps| && eps[i] == a;
    var j :| 0 <= j < |eps| && eps[j] == b;
    assert a in eps && b in eps;
    assert forall k | 0 <= k < |eps| :: eps[k] in eps;
    assert eps[0] in eps && eps[1] in eps && eps[|eps| - 1] in eps;
    assert eps[1] == b;
  }

  lemma RelayRows(spans: seq<Span>) returns (rows: seq<seq<Episode>>)
    requires Sweepable(spans) && forall q :: LiveAtKey(spans, q) == RelayAt(q)
    ensures rows == SweepRows(spans, 2, RELAY_END, AtLeast(100.0)) && |rows| == 2
    ensures |rows[0]| == 1 && Length(rows[0][0]) == RELAY_END
    ensures |rows[1]| == 2 && Length(rows[1][0]) == HANDOVER && Length(rows[1][1]) == RELAY_END - HANDOVER
    ensures TotalNs(rows[0]) == TotalNs(rows[1]) == RELAY_END
  {
    RelayEnough(spans);
    var one := RelayAtOne(spans);
    var two := RelayAtTwo(spans);
    rows := SweepRows(spans, 2, RELAY_END, AtLeast(100.0));
    TwoRows(RowFor(spans, RELAY_END, AtLeast(100.0)), one, two);
  }

  lemma TwoRows(row: int -> seq<Episode>, one: seq<Episode>, two: seq<Episode>)
    requires row(1) == one && row(2) == two
    ensures Rows(row, 2) == [one, two]
  {
    RowsAt(row, 2, 0);
    RowsAt(row, 2, 1);
  }

  lemma RelayAtOne(spans: seq<Span>) returns (one: seq<Episode>)
    requires Sweepable(spans) && forall q :: Enough(spans, 1, q) <==> 1 <= q < 2 * RELAY_END
    ensures one == RowFor(spans, RELAY_END, AtLeast(100.0))(1)
    ensures |one| == 1 && Length(one[0]) == RELAY_END && TotalNs(one) == RELAY_END
  {
    OneStretch(spans, 1, RELAY_END, 0, RELAY_END);
    one := LongRow(spans, 1);
    TotalOfOne(one);
  }

  lemma RelayAtTwo(spans: seq<Span>) returns (two: seq<Episode>)
    requires Sweepable(spans)
    requires forall q :: Enough(spans, 2, q) <==> 1 <= q < 2 * HANDOVER || 2 * HANDOVER + 1 <= q < 2 * RELAY_END
    ensures two == RowFor(spans, RELAY_END, AtLeast(100.0))(2)
    ensures |two| == 2 && Length(two[0]) == HANDOVER && Length(two[1]) == RELAY_END - HANDOVER
    ensures TotalNs(two) == RELAY_END
  {
    TwoStretches(spans, 2, RELAY_END, 0, HANDOVER, RELAY_END);
    two := LongRow(spans, 2);
    TotalOfTwo(two);
  }

  lemma TotalOfOne(eps: seq<Episode>)
    requires |eps| == 1
    ensures TotalNs(eps) == Length(eps[0])
  {
    assert eps[..0] == [];
  }

  lemma TotalOfTwo(eps: seq<Episode>)
    requires |eps| == 2
    ensures TotalNs(eps) == Length(eps[0]) + Length(eps[1])
  {
    TotalOfOne(eps[..1]);
  }

  lemma LongRow(spans: seq<Span>, n: int) returns (eps: seq<Episode>)
    requires var eps := Episodes(spans, n, RELAY_END);
             forall k | 0 <= k < |eps| :: Length(eps[k]) >= 100_000_000
    ensures eps == Episodes(spans, n, RELAY_END) == SweepRow(spans, n, RELAY_END, AtLeast(100.0))
  {
    eps := Episodes(spans, n, RELAY_END);
    NothingDropped(eps, 100.0);
  }

  lemma RelayEnough(spans: seq<Span>)
    requires forall q :: LiveAtKey(spans, q) == RelayAt(q)
    ensures forall q :: Enough(spans, 1, q) <==> 1 <= q < 2 * RELAY_END
    ensures forall q :: Enough(spans, 2, q) <==> 1 <= q < 2 * HANDOVER || 2 * HANDOVER + 1 <= q < 2 * RELAY_END
  {
    forall q: int
      ensures Enough(spans, 1, q) <==> 1 <= q < 2 * RELAY_END
      ensures Enough(spans, 2, q) <==> 1 <= q < 2 * HANDOVER || 2 * HANDOVER + 1 <= q < 2 * RELAY_END
    {
      RelayCounts(q);
    }
  }

  lemma {:induction false} NothingDropped(eps: seq<Episode>, minMs: real)
    requires forall k | 0 <= k < |eps| :: Ms(Length(eps[k])) >= minMs
    ensures Kept(eps, AtLeast(minMs)) == eps
  {
    if eps != [] {
      NothingDropped(eps[..|eps| - 1], minMs);
      assert eps == eps[..|eps| - 1] + [eps[|eps| - 1]];
    }
  }
}
