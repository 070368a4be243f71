/** The totals the report prints, and its check that they never rise (analyze_servo_error_log.py).
    The script adds durations as doubles and rounds the sum to a tenth. */
module PrintedTotals {
  import opened Wrappers
  import opened Reals
  import opened ServoErrorLog
  import opened IntervalMerge
  import opened EpisodeSweep
  import opened EpisodeCorrectness
  import opened CollapseCount
  import opened DoubleSums

  /** `round(ms, 1)`, in tenths: the nearest, and the even one of two that are equally near. */
  function TenthsOf(ms: real): int {
    var q := (10.0 * ms).Floor;
    var r := 10.0 * ms - q as real;
    if r < 0.5 || (r == 0.5 && q % 2 == 0) then q else q + 1
  }

  /** The printed tenths are the nearest, never more than half a tenth off, and even when two are equally
      near; and no other number of tenths is. */
  lemma TenthsAreNearest(ms: real, k: int)
    ensures TenthsOf(ms) == k
            <==> Abs(ms - k as real / 10.0) <= 0.05 && (Abs(ms - k as real / 10.0) == 0.05 ==> k % 2 == 0)
  {
  }

  /** Where rounding is undecided between `k` tenths and `k + 1`. */
  function Tie(k: int): real {
    (k as real + 0.5) / 10.0
  }

  lemma TenthsAreMonotone(a: real, b: real)
    requires a <= b
    ensures TenthsOf(a) <= TenthsOf(b)
  {
  }

  /** Two values round in the wrong order only around a tie. */
  lemma RiseCrossesATie(a: real, b: real)
    requires TenthsOf(b) > TenthsOf(a)
    ensures a <= Tie(TenthsOf(a)) <= b
  {
  }

  /** `loose` and `strict` are exact totals in order; `a` and `b` the sums the script rounds. The
      printed total rises only if both exact totals are within `eps` of one and the same tie. */
  lemma RiseOnlyAtATie(loose: int, strict: int, a: real, b: real, eps: real)
    requires strict <= loose && Near(a, Ms(loose), eps) && Near(b, Ms(strict), eps)
    requires TenthsOf(b) > TenthsOf(a)
    ensures Near(Ms(loose), Tie(TenthsOf(a)), eps) && Near(Ms(strict), Tie(TenthsOf(a)), eps)
  {
    RiseCrossesATie(a, b);
  }

  /** And exactly when it can, for two totals and sums within `eps` of them: when the extreme sums are
      rounded the wrong way round. */
  lemma RiseIsPossibleExactlyWhen(loose: int, strict: int, eps: real)
    requires strict <= loose && eps >= 0.0
    ensures (exists a, b :: Near(a, Ms(loose), eps) && Near(b, Ms(strict), eps) && TenthsOf(b) > TenthsOf(a))
            <==> TenthsOf(Ms(strict) + eps) > TenthsOf(Ms(loose) - eps)
  {
    if a, b :| Near(a, Ms(loose), eps) && Near(b, Ms(strict), eps) && TenthsOf(b) > TenthsOf(a) {
      TenthsAreMonotone(Ms(loose) - eps, a);
      TenthsAreMonotone(b, Ms(strict) + eps);
    }
    assert Near(Ms(loose) - eps, Ms(loose), eps) && Near(Ms(strict) + eps, Ms(strict), eps);
  }

  // ---- the report ----

  /** The script's `sum`, whatever each rounding does. */
  ghost predicate AddsDoubles(sum: seq<Episode> -> real) {
    forall eps :: IsDoubleSum(eps, sum(eps))
  }

  /** The error of two neighbouring rows' sums. */
  function PairError(loose: seq<Episode>, strict: seq<Episode>): real {
    Max(SumError(loose), SumError(strict))
  }

  ghost predicate NotHuge(rows: seq<seq<Episode>>) {
    forall k | 0 <= k < |rows| :: |rows[k]| <= MAX_EPISODES
  }

  /** No exact total but perhaps the strictest threshold's is as near to a tie as the sums are to the
      exact totals. */
  ghost predicate ClearOfTies(rows: seq<seq<Episode>>) {
    forall k, m | 0 <= k < |rows| - 1 :: !Near(Ms(TotalNs(rows[k])), Tie(m), PairError(rows[k], rows[k + 1]))
  }

  method PrintTotals(rows: seq<seq<Episode>>, sum: seq<Episode> -> real) returns (printed: seq<int>)
    ensures |printed| == |rows| && forall k | 0 <= k < |rows| :: printed[k] == TenthsOf(sum(rows[k]))
  {
    printed := [];
    for k := 0 to |rows|
      invariant |printed| == k && forall j | 0 <= j < k :: printed[j] == TenthsOf(sum(rows[j]))
    {
      printed := printed + [TenthsOf(sum(rows[k]))];
    }
  }

  /** The report's own check: is some printed total above the one before it? */
  method TotalEverRises(printed: seq<int>) returns (rose: bool)
    ensures rose <==> exists k :: 0 < k < |printed| && printed[k] > printed[k - 1]
  {
    rose := false;
    var prev: Option<int> := None;
    for i := 0 to |printed|
      invariant prev == if i == 0 then None else Some(printed[i - 1])
      invariant rose <==> exists k :: 0 < k < i && printed[k] > printed[k - 1]
    {
      if prev.Some? && printed[i] > prev.value { rose := true; }
      prev := Some(printed[i]);
    }
  }

  /** A rise in the printed table means a tie: both exact totals are within the error of the sums of
      one value halfway between two tenths. */
  lemma WarningOnlyAtATie(spans: seq<Span>, rows: seq<seq<Episode>>, logEnd: int, keeps: int -> bool,
                          sum: seq<Episode> -> real, lo: int, hi: int, k: nat)
    requires Sweepable(spans) && SpansInWindow(spans, lo, hi) && lo <= hi && Upward(keeps)
    requires rows == SweepRows(spans, |rows|, logEnd, keeps) && NotHuge(rows) && AddsDoubles(sum)
    requires 0 < k < |rows| && TenthsOf(sum(rows[k])) > TenthsOf(sum(rows[k - 1]))
    ensures exists m ::
              && Near(Ms(TotalNs(rows[k - 1])), Tie(m), PairError(rows[k - 1], rows[k]))
              && Near(Ms(TotalNs(rows[k])), Tie(m), PairError(rows[k - 1], rows[k]))
  {
    RowTotalsNeverRise(spans, |rows|, logEnd, keeps, lo, hi, k);
    RowsAreNonNegative(spans, |rows|, logEnd, keeps, k - 1);
    RowsAreNonNegative(spans, |rows|, logEnd, keeps, k);
    SumsAreNear(rows[k - 1], rows[k], sum);
    RiseOnlyAtATie(TotalNs(rows[k - 1]), TotalNs(rows[k]), sum(rows[k - 1]), sum(rows[k]),
                   PairError(rows[k - 1], rows[k]));
  }

  lemma SumsAreNear(loose: seq<Episode>, strict: seq<Episode>, sum: seq<Episode> -> real)
    requires NonNegative(loose) && NonNegative(strict) && |loose| <= MAX_EPISODES && |strict| <= MAX_EPISODES
    requires AddsDoubles(sum)
    ensures Near(sum(loose), Ms(TotalNs(loose)), PairError(loose, strict))
    ensures Near(sum(strict), Ms(TotalNs(strict)), PairError(loose, strict))
  {
    SumIsNear(loose, sum(loose));
    SumIsNear(strict, sum(strict));
    WithinTheLarger(sum(loose), Ms(TotalNs(loose)), SumError(loose), SumError(strict));
    WithinTheLarger(sum(strict), Ms(TotalNs(strict)), SumError(strict), SumError(loose));
  }

  lemma WithinTheLarger(x: real, y: real, a: real, b: real)
    requires Near(x, y, a)
    ensures Near(x, y, Max(a, b)) && Max(a, b) == Max(b, a)
  {
  }

  lemma RowsAreNonNegative(spans: seq<Span>, maxMotors: nat, logEnd: int, keeps: int -> bool, k: nat)
    requires Sweepable(spans) && k < maxMotors
    ensures NonNegative(SweepRows(spans, maxMotors, logEnd, keeps)[k])
  {
    var eps := Episodes(spans, k + 1, logEnd);
    SweepIsExact(spans, k + 1, logEnd);
    RowsAt(RowFor(spans, logEnd, keeps), maxMotors, k);
    assert SweepRows(spans, maxMotors, logEnd, keeps)[k] == Kept(eps, keeps);
    forall ep | ep in Kept(eps, keeps)
      ensures Length(ep) >= 0
    {
      KeptElements(eps, keeps, ep);
    }
  }

  lemma NoWarningAwayFromTies(spans: seq<Span>, rows: seq<seq<Episode>>, logEnd: int, keeps: int -> bool,
                              sum: seq<Episode> -> real, lo: int, hi: int, printed: seq<int>)
    requires Sweepable(spans) && SpansInWindow(spans, lo, hi) && lo <= hi && Upward(keeps)
    requires rows == SweepRows(spans, |rows|, logEnd, keeps) && NotHuge(rows) && AddsDoubles(sum) && ClearOfTies(rows)
    requires |printed| == |rows| && forall k | 0 <= k < |rows| :: printed[k] == TenthsOf(sum(rows[k]))
    ensures !exists k :: 0 < k < |printed| && printed[k] > printed[k - 1]
  {
    forall k | 0 < k < |printed|
      ensures printed[k] <= printed[k - 1]
    {
      if printed[k] > printed[k - 1] {
        WarningOnlyAtATie(spans, rows, logEnd, keeps, sum, lo, hi, k);
      }
    }
  }

  /** `analyse` with its report: from the log to the rows, the printed totals and the warning. When no
      row's exact total, the last one's aside, is within the error of the sums of a tie, it is not
      printed. */
  method Analyse(log: seq<Transition>, bit: bv8, lo: int, hi: int, maxMotors: nat, keeps: int -> bool,
                 sum: seq<Episode> -> real)
    returns (rows: seq<seq<Episode>>, printed: seq<int>, warned: bool)
    requires log != [] && lo <= hi && InTimeOrder(log) && Upward(keeps)
    ensures rows == SweepRows(SpansOf(log, bit, lo, hi), maxMotors, hi, keeps)
    ensures |printed| == maxMotors && forall k | 0 <= k < maxMotors :: printed[k] == TenthsOf(sum(rows[k]))
    ensures warned <==> exists k :: 0 < k < maxMotors && printed[k] > printed[k - 1]
    ensures AddsDoubles(sum) && NotHuge(rows) && ClearOfTies(rows) ==> !warned
  {
    var intervals := IntervalsForBit(log, bit);
    var raw := Clip(intervals, lo, hi, log[|log| - 1].ns);
    var spans := MergePerMotor(raw, TICK_NS);
    rows := SweepThresholds(spans, maxMotors, hi, keeps);
    printed := PrintTotals(rows, sum);
    warned := TotalEverRises(printed);
    AnalysedSpansAreSweepable(log, bit, lo, hi);
    if AddsDoubles(sum) && NotHuge(rows) && ClearOfTies(rows) {
      NoWarningAwayFromTies(spans, rows, hi, keeps, sum, lo, hi, printed);
    }
  }
}
