/** Adding up durations in double precision (analyze_servo_error_log.py), and how far the result can
    be from the exact total. */
module DoubleSums {
  import opened Reals
  import opened EpisodeSweep
  import opened CollapseCount

  /** Half the spacing of doubles, relative: the error of one rounded operation. */
  const U: real := 1.0 / 9007199254740992.0

  function Ms(ns: int): real {
    ns as real / NS_PER_MS
  }

  predicate Near(x: real, y: real, eps: real) {
    Abs(x - y) <= eps
  }

  /** `x` is a rounded value of `exact`. */
  predicate Rounded(x: real, exact: real) {
    Near(x, exact, U * Abs(exact))
  }

  /** The running sum, and what rounding is known to have taken from it. */
  datatype Running = Running(high: real, lost: real)

  /** One addition of `d`. A compensated sum also adds up, rounding again, the difference between the
      exact and the rounded high part, which a double holds exactly. */
  predicate Adds(before: Running, d: real, compensated: bool, after: Running) {
    && Rounded(after.high, before.high + d)
    && if compensated then Rounded(after.lost, before.lost + (before.high + d - after.high)) else after.lost == 0.0
  }

  /** Each duration is a rounded quotient, and they are added from left to right. */
  ghost predicate AddsUp(eps: seq<Episode>, compensated: bool, s: Running) {
    if eps == [] then s == Running(0.0, 0.0)
    else exists before, d ::
           && AddsUp(eps[..|eps| - 1], compensated, before)
           && Rounded(d, Ms(Length(eps[|eps| - 1]))) && Adds(before, d, compensated, s)
  }

  /** `x` is what `sum` returns: compensated since Python 3.12, plain before. */
  ghost predicate IsDoubleSum(eps: seq<Episode>, x: real) {
    exists compensated, s ::
      AddsUp(eps, compensated, s) && if compensated then Rounded(x, s.high + s.lost) else x == s.high
  }

  const MAX_EPISODES: nat := 0x4_0000_0000_0000

  /** n roundings. */
  function Share(n: nat): real {
    n as real * U
  }

  function Error(n: nat, total: real): real {
    3.0 * (Share(n) + U) * total
  }

  /** How far the sum can be from the exact total: a few roundings for each episode. */
  function SumError(eps: seq<Episode>): real {
    Error(|eps|, Ms(TotalNs(eps)))
  }

  ghost predicate NonNegative(eps: seq<Episode>) {
    forall ep | ep in eps :: Length(ep) >= 0
  }

  /** The sum is within that distance, compensated or not, for up to 2^50 episodes. */
  lemma SumIsNear(eps: seq<Episode>, x: real)
    requires IsDoubleSum(eps, x) && NonNegative(eps) && |eps| <= MAX_EPISODES
    ensures Near(x, Ms(TotalNs(eps)), SumError(eps))
  {
    var compensated, s :| AddsUp(eps, compensated, s)
                          && if compensated then Rounded(x, s.high + s.lost) else x == s.high;
    SumStaysNear(eps, compensated, s);
    ResultIsNear(|eps|, Ms(TotalNs(eps)), compensated, s, x);
  }

  /** Both running values are near the exact total. */
  ghost predicate Bounded(share: real, total: real, compensated: bool, s: Running) {
    && total >= 0.0 && Near(s.high, total, 3.0 * share * total)
    && (compensated ==> Near(s.high + s.lost, total, 2.0 * share * total))
  }

  lemma Shared(n: nat)
    requires n <= MAX_EPISODES
    ensures 0.0 <= Share(n) <= 0.125 && Share(n + 1) == Share(n) + U && Share(0) == 0.0
  {
  }

  lemma ResultIsNear(n: nat, total: real, compensated: bool, s: Running, x: real)
    requires n <= MAX_EPISODES && Bounded(Share(n), total, compensated, s)
    requires if compensated then Rounded(x, s.high + s.lost) else x == s.high
    ensures Near(x, total, Error(n, total))
  {
    Shared(n);
    OneRoundingMore(Share(n), total, compensated, s, x);
  }

  lemma OneRoundingMore(share: real, total: real, compensated: bool, s: Running, x: real)
    requires 0.0 <= share <= 0.125 && Bounded(share, total, compensated, s)
    requires if compensated then Rounded(x, s.high + s.lost) else x == s.high
    ensures Near(x, total, 3.0 * (share + U) * total)
  {
    var part, step := Shares(share, total, 0.0);
    assert total + 0.0 == total;
    var high, full := 3.0 * share * total, 2.0 * share * total;
    assert high == 3.0 * (share * total) && full == 2.0 * (share * total) && step >= 0.0 && part >= 0.0;
    if compensated { LastRounding(total, full, s.high + s.lost, x); }
  }

  lemma {:induction false} SumStaysNear(eps: seq<Episode>, compensated: bool, s: Running)
    requires AddsUp(eps, compensated, s) && NonNegative(eps) && |eps| <= MAX_EPISODES
    ensures Bounded(Share(|eps|), Ms(TotalNs(eps)), compensated, s)
  {
    if eps == [] {
      Shared(0);
      NothingAdded();
    } else {
      var front, last := eps[..|eps| - 1], eps[|eps| - 1];
      assert last in eps && forall ep | ep in front :: ep in eps;
      var before, d :| AddsUp(front, compensated, before) && Rounded(d, Ms(Length(last)))
                       && Adds(before, d, compensated, s);
      SumStaysNear(front, compensated, before);
      Shared(|front|);
      TotalGrows(eps);
      OneMore(Share(|front|), Ms(TotalNs(front)), Ms(Length(last)), before, d, compensated, s);
    }
  }

  lemma NothingAdded()
    ensures forall compensated :: Bounded(0.0, Ms(0), compensated, Running(0.0, 0.0))
  {
  }

  lemma TotalGrows(eps: seq<Episode>)
    requires eps != [] && Length(eps[|eps| - 1]) >= 0
    ensures Ms(TotalNs(eps)) == Ms(TotalNs(eps[..|eps| - 1])) + Ms(Length(eps[|eps| - 1]))
    ensures Ms(Length(eps[|eps| - 1])) >= 0.0
  {
  }

  lemma OneMore(share: real, total: real, more: real, before: Running, d: real, compensated: bool, after: Running)
    requires 0.0 <= share <= 0.125 && more >= 0.0 && Bounded(share, total, compensated, before)
    requires Rounded(d, more) && Adds(before, d, compensated, after)
    ensures Bounded(share + U, total + more, compensated, after)
  {
    var part, step := Shares(share, total, more);
    var high, full := 3.0 * share * total, 2.0 * share * total;
    assert high == 3.0 * (share * total) && full == 2.0 * (share * total);
    HighStep(high, 3.0 * part, step, total, more, before.high, d, after.high);
    if compensated { LostStep(full, 2.0 * part, 3.0 * part + 3.0 * step, step, total, more, before, d, after); }
  }

  /** The products in one step, named. */
  lemma Shares(share: real, total: real, more: real) returns (part: real, step: real)
    requires 0.0 <= share <= 0.125 && total >= 0.0 && more >= 0.0
    ensures step == U * (total + more) && share * total <= part <= 0.125 * (total + more)
    ensures 0.0 <= share * total
    ensures 3.0 * (share + U) * (total + more) == 3.0 * part + 3.0 * step
    ensures 2.0 * (share + U) * (total + more) == 2.0 * part + 2.0 * step
  {
    var whole := total + more;
    part, step := share * whole, U * whole;
    GrowRight(0.0, total, share);
    GrowRight(total, whole, share);
    Grow(share, 0.125, whole);
    Distribute(share, U, whole);
  }

  lemma HighStep(high: real, bound: real, step: real, total: real, more: real, before: real, d: real, after: real)
    requires total >= 0.0 && more >= 0.0 && step == U * (total + more)
    requires high <= bound <= 0.5 * (total + more)
    requires Near(before, total, high) && Rounded(d, more) && Rounded(after, before + d)
    ensures Near(after, total + more, bound + 3.0 * step)
  {
    assert Abs(d - more) <= step;
    assert Abs(before + d) <= 2.0 * (total + more);
  }

  lemma LostStep(full: real, bound: real, drift: real, step: real, total: real, more: real,
                 before: Running, d: real, after: Running)
    requires total >= 0.0 && more >= 0.0 && step == U * (total + more)
    requires full <= bound && bound + drift + step <= total + more
    requires Near(before.high + before.lost, total, full) && Near(after.high, total + more, drift)
    requires Rounded(d, more) && Adds(before, d, true, after)
    ensures Near(after.high + after.lost, total + more, bound + 2.0 * step)
  {
    assert Abs(d - more) <= step;
    assert Abs(before.lost + (before.high + d - after.high)) <= total + more;
  }

  lemma LastRounding(total: real, full: real, exact: real, x: real)
    requires 0.0 <= full <= total && Near(exact, total, full) && Rounded(x, exact)
    ensures Near(x, total, full + 2.0 * (U * total))
  {
    assert Abs(exact) <= 2.0 * total;
  }

  lemma Distribute(x: real, y: real, z: real)
    ensures (x + y) * z == x * z + y * z
  {}

  lemma GrowRight(x: real, y: real, z: real)
    requires x <= y && z >= 0.0
    ensures z * x <= z * y
  {
    assert z * (y - x) >= 0.0;
  }
}
