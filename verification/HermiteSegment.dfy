/** The cubic segment the recorded spline is made of (examples/omx/record_grab.py) and what its velocity
    is: the slope of the line a motion leaves only quadratically. */
module HermiteSegment {
  import opened Reals

  // ---- the segment ----

  /** From p0 with tangent m0 at t = 0 to p1 with tangent m1 at t = 1. */
  function Hermite(p0: real, m0: real, p1: real, m1: real, t: real): real {
    H00(t) * p0 + H10(t) * m0 + H01(t) * p1 + H11(t) * m1
  }

  function H00(t: real): real { 2.0 * (t * t * t) - 3.0 * (t * t) + 1.0 }

  function H10(t: real): real { t * t * t - 2.0 * (t * t) + t }

  function H01(t: real): real { -2.0 * (t * t * t) + 3.0 * (t * t) }

  function H11(t: real): real { t * t * t - t * t }

  function Cubic(c0: real, c1: real, c2: real, c3: real, t: real): real {
    c0 + c1 * t + c2 * (t * t) + c3 * (t * t * t)
  }

  function C2(p0: real, m0: real, p1: real, m1: real): real { -3.0 * p0 - 2.0 * m0 + 3.0 * p1 - m1 }

  function C3(p0: real, m0: real, p1: real, m1: real): real { 2.0 * p0 + m0 - 2.0 * p1 + m1 }

  lemma HermiteIsCubic(p0: real, m0: real, p1: real, m1: real, t: real)
    ensures Hermite(p0, m0, p1, m1, t) == Cubic(p0, m0, C2(p0, m0, p1, m1), C3(p0, m0, p1, m1), t)
  {}

  lemma HermiteMeetsItsEnds(p0: real, m0: real, p1: real, m1: real)
    ensures Hermite(p0, m0, p1, m1, 0.0) == p0 && Hermite(p0, m0, p1, m1, 1.0) == p1
  {}

  // ---- velocity ----

  /** How far f strays at `at + h` from the straight line through `at`. */
  function Stray(f: real -> real, at: real, slope: real, h: real): real { Abs(f(at + h) - f(at) - slope * h) }

  ghost predicate TouchesWithin(f: real -> real, at: real, slope: real, k: real) {
    k >= 0.0 && forall h: real :: -1.0 <= h <= 1.0 ==> Stray(f, at, slope, h) <= k * (h * h)
  }

  /** f moves at speed `slope` at `at`: it leaves its tangent only quadratically. */
  ghost predicate MovesAt(f: real -> real, at: real, slope: real) { exists k: real :: TouchesWithin(f, at, slope, k) }

  lemma OnlyOneVelocity(f: real -> real, at: real, v: real, w: real)
    requires MovesAt(f, at, v) && MovesAt(f, at, w)
    ensures v == w
  {
    var k: real :| TouchesWithin(f, at, v, k);
    var l: real :| TouchesWithin(f, at, w, l);
    NoGap(f, at, v, w, k, l, Abs(v - w));
  }

  lemma NoGap(f: real -> real, at: real, v: real, w: real, k: real, l: real, d: real)
    requires TouchesWithin(f, at, v, k) && TouchesWithin(f, at, w, l) && d == Abs(v - w)
    ensures d == 0.0
  {
    if d > 0.0 {
      var h, kh, lh, dh := ShortStep(d, k, l);
      assert Stray(f, at, v, h) <= kh;
      assert Stray(f, at, w, h) <= lh;
      StraysAddUp(f, at, v, w, h, d);
      assert false;
    }
  }

  lemma StraysAddUp(f: real -> real, at: real, v: real, w: real, h: real, d: real)
    requires h > 0.0 && d == Abs(v - w)
    ensures Stray(f, at, v, h) + Stray(f, at, w, h) >= d * h
  {
    assert v * h - w * h == (v - w) * h;
    Magnitude(v - w, h);
  }

  /** A step so short that a linear gap d outgrows the quadratic bounds k and l. */
  lemma ShortStep(d: real, k: real, l: real) returns (h: real, kh: real, lh: real, dh: real)
    requires d > 0.0 && k >= 0.0 && l >= 0.0
    ensures 0.0 < h <= 1.0 && kh == k * (h * h) && lh == l * (h * h) && dh == d * h && dh > kh + lh
  {
    var y := 2.0 * (k + l + d);
    h := d / y;
    Quotient(d, y);
    assert h * y == d;
    if h > 1.0 { Scale(1.0, h, y); }
    Tight(d, k + l, h);
    kh, lh, dh := k * (h * h), l * (h * h), d * h;
    assert (k + l) * (h * h) == kh + lh;
  }

  lemma Quotient(x: real, y: real)
    requires x > 0.0 && y > 0.0
    ensures x / y > 0.0
  {}

  lemma Scale(x: real, y: real, z: real)
    requires x < y && z > 0.0
    ensures x * z < y * z
  {
    assert (y - x) * z > 0.0;
  }

  lemma Magnitude(x: real, h: real)
    requires h >= 0.0
    ensures Abs(x * h) == Abs(x) * h
  {
    if x >= 0.0 { assert x * h >= 0.0; } else { assert (-x) * h >= 0.0; }
  }

  lemma Tight(d: real, k: real, h: real)
    requires d > 0.0 && k >= 0.0 && h > 0.0
    requires h * (2.0 * (k + d)) == d
    ensures d * h > k * (h * h)
  {
    assert h * (2.0 * (k + d)) == 2.0 * (k * h) + 2.0 * (d * h);
    assert d * h > 0.0 && k * h >= 0.0;
    Scale(k * h, d, h);
    assert k * (h * h) == (k * h) * h;
  }

  /** Position on a segment of duration T as a function of time. */
  function InTime(p0: real, v0: real, p1: real, v1: real, T: real): real -> real
    requires T > 0.0
  {
    (s: real) => Hermite(p0, v0 * T, p1, v1 * T, if T > 0.0 then s / T else 0.0)
  }

  lemma HermiteInTime(p0: real, v0: real, p1: real, v1: real, T: real, s: real, t: real)
    requires T > 0.0 && s / T == t
    ensures InTime(p0, v0, p1, v1, T)(s) == Hermite(p0, v0 * T, p1, v1 * T, t)
  {}

  /** Slope of the cubic. */
  function Rise(c1: real, c2: real, c3: real, t: real): real { c1 + 2.0 * (c2 * t) + 3.0 * (c3 * (t * t)) }

  lemma CubicStep(c0: real, c1: real, c2: real, c3: real, t: real, d: real, from: real, to: real, q: real)
    requires from == Cubic(c0, c1, c2, c3, t) && to == Cubic(c0, c1, c2, c3, t + d) && q == 3.0 * (c3 * t) + c2 + c3 * d
    ensures to - from - Rise(c1, c2, c3, t) * d == q * (d * d)
  {
    assert (t + d) * (t + d) == t * t + 2.0 * (t * d) + d * d;
    assert (t + d) * (t + d) * (t + d) == t * t * t + 3.0 * ((t * t) * d) + 3.0 * (t * (d * d)) + d * (d * d);
  }

  lemma CubicMoves(f: real -> real, c0: real, c1: real, c2: real, c3: real, T: real, at: real)
    requires T > 0.0
    requires forall s: real :: f(s) == Cubic(c0, c1, c2, c3, s / T)
    ensures MovesAt(f, at, Rise(c1, c2, c3, at / T) / T)
  {
    var u := at / T;
    var bound := 3.0 * Abs(c3 * u) + Abs(c2) + Abs(c3) / T;
    var k := bound / T / T;
    var rise := Rise(c1, c2, c3, u);
    var slope := rise / T;
    assert k >= 0.0 by {
      NonNegativeQuotient(Abs(c3), T);
      NonNegativeQuotient(bound, T);
      NonNegativeQuotient(bound / T, T);
    }
    forall h: real | -1.0 <= h <= 1.0
      ensures Stray(f, at, slope, h) <= k * (h * h)
    {
      SplitTime(at, h, T);
      var d := h / T;
      var q := 3.0 * (c3 * u) + c2 + c3 * d;
      RemainderIsBounded(c2, c3, T, h, u, d, q);
      CubicStrays(f, c0, c1, c2, c3, T, at, h, u, d, q, rise, bound);
    }
    assert TouchesWithin(f, at, slope, k);
  }

  lemma NonNegativeQuotient(x: real, y: real)
    requires x >= 0.0 && y > 0.0
    ensures x / y >= 0.0
  {}

  lemma CubicStrays(f: real -> real, c0: real, c1: real, c2: real, c3: real, T: real, at: real, h: real,
                    u: real, d: real, q: real, rise: real, bound: real)
    requires T > 0.0 && d == h / T && Abs(q) <= bound
    requires f(at) == Cubic(c0, c1, c2, c3, u) && f(at + h) == Cubic(c0, c1, c2, c3, u + d)
    requires q == 3.0 * (c3 * u) + c2 + c3 * d && rise == Rise(c1, c2, c3, u)
    ensures Stray(f, at, rise / T, h) <= bound / T / T * (h * h)
  {
    CubicStep(c0, c1, c2, c3, u, d, f(at), f(at + h), q);
    StrayIsSmall(f, at, h, T, d, rise, q, bound);
  }

  lemma RemainderIsBounded(c2: real, c3: real, T: real, h: real, u: real, d: real, q: real)
    requires T > 0.0 && -1.0 <= h <= 1.0 && d == h / T && q == 3.0 * (c3 * u) + c2 + c3 * d
    ensures Abs(q) <= 3.0 * Abs(c3 * u) + Abs(c2) + Abs(c3) / T
  {
    SmallStep(c3, h, T, d);
  }

  lemma SplitTime(at: real, h: real, T: real)
    requires T > 0.0
    ensures (at + h) / T == at / T + h / T
  {}

  lemma StrayIsSmall(f: real -> real, at: real, h: real, T: real, d: real, rise: real, q: real, bound: real)
    requires T > 0.0 && d == h / T && Abs(q) <= bound
    requires f(at + h) - f(at) - rise * d == q * (d * d)
    ensures Stray(f, at, rise / T, h) <= bound / T / T * (h * h)
  {
    Shuffle(rise, h, T);
    BoundedRemainder(q, bound, T, h, d, q * (d * d));
  }

  lemma BoundedRemainder(q: real, bound: real, T: real, h: real, d: real, e: real)
    requires T > 0.0 && d == h / T && Abs(q) <= bound && e == q * (d * d)
    ensures Abs(e) <= bound / T / T * (h * h)
  {
    var dd := d * d;
    assert dd >= 0.0;
    Magnitude(q, dd);
    Grow(Abs(q), bound, dd);
    ShuffleTwice(bound, h, T);
  }

  lemma Shuffle(x: real, h: real, T: real)
    requires T > 0.0
    ensures x / T * h == x * (h / T)
  {}

  lemma ShuffleTwice(x: real, h: real, T: real)
    requires T > 0.0
    ensures x * ((h / T) * (h / T)) == x / T / T * (h * h)
  {
    var d := h / T;
    assert h == d * T;
    assert h * h == (d * d) * (T * T);
    var y := x / T / T;
    assert y * T == x / T;
    assert y * T * T == x;
    assert y * (h * h) == y * ((d * d) * (T * T)) == (y * T * T) * (d * d);
  }

  lemma SmallStep(c: real, h: real, T: real, d: real)
    requires T > 0.0 && -1.0 <= h <= 1.0 && d == h / T
    ensures Abs(c * d) <= Abs(c) / T
  {
    assert c * (h / T) == (c * h) / T;
    Magnitude(c, Abs(h));
    assert Abs(c * h) == Abs(c) * Abs(h);
    Grow(Abs(h), 1.0, Abs(c));
    assert Abs(c) * Abs(h) == Abs(h) * Abs(c) <= Abs(c);
    assert Abs(c * h) <= Abs(c);
    assert Abs((c * h) / T) == Abs(c * h) / T;
    assert (Abs(c) - Abs(c * h)) / T >= 0.0;
  }

  /** A segment leaves with its first velocity and arrives with its second. */
  lemma SegmentVelocities(p0: real, v0: real, p1: real, v1: real, T: real)
    requires T > 0.0
    ensures MovesAt(InTime(p0, v0, p1, v1, T), 0.0, v0) && MovesAt(InTime(p0, v0, p1, v1, T), T, v1)
  {
    var f, m0, m1 := InTime(p0, v0, p1, v1, T), v0 * T, v1 * T;
    var c2, c3 := C2(p0, m0, p1, m1), C3(p0, m0, p1, m1);
    forall s: real ensures f(s) == Cubic(p0, m0, c2, c3, s / T) { HermiteIsCubic(p0, m0, p1, m1, s / T); }
    CubicMoves(f, p0, m0, c2, c3, T, 0.0);
    CubicMoves(f, p0, m0, c2, c3, T, T);
    RiseAtTheEnds(p0, m0, p1, m1);
    assert 0.0 / T == 0.0 && T / T == 1.0 && m0 / T == v0 && m1 / T == v1;
  }

  lemma RiseAtTheEnds(p0: real, m0: real, p1: real, m1: real)
    ensures Rise(m0, C2(p0, m0, p1, m1), C3(p0, m0, p1, m1), 0.0) == m0
    ensures Rise(m0, C2(p0, m0, p1, m1), C3(p0, m0, p1, m1), 1.0) == m1
  {}

  lemma HermiteOfSums(a: real, b: real, c: real, ma: real, mb: real, mc: real, d: real, e: real, f: real,
                      md: real, me: real, mf: real, t: real)
    ensures Hermite(a, ma, d, md, t) + Hermite(b, mb, e, me, t) + Hermite(c, mc, f, mf, t)
         == Hermite(a + b + c, ma + mb + mc, d + e + f, md + me + mf, t)
  {}

  lemma HermiteOfAConstant(c: real, t: real)
    ensures Hermite(c, 0.0, c, 0.0, t) == c
  {}

  lemma HermiteOfAChord(p: real, d: real, t: real)
    ensures Hermite(p, d, p + d, d, t) == Mix(p, p + d, t)
  {}
}
