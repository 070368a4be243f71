/** The 4096-count circle that every position of the arm lives on.

    Counts are `real`, standing for the daemon's f32 without rounding. */
module Encoder {
  import opened Reals

  const RESOLUTION: real := 4096.0
  const HALF: real := 2048.0

  /** `k` whole revolutions, in counts. */
  function Turns(k: int): real {
    RESOLUTION * k as real
  }

  /** Same point of the circle. */
  ghost predicate Congruent(x: real, y: real) {
    exists k: int :: x - y == Turns(k)
  }

  /** `rem_euclid(4096)` in the daemon, `% 4096` in the scripts: the one point of `[0, 4096)` on
      the same spot of the circle as `x` (see `FoldIsTheRepresentative`). */
  function Fold(x: real): real {
    x - Turns((x / RESOLUTION).Floor)
  }

  lemma FoldIsTheRepresentative(x: real, r: real)
    ensures 0.0 <= Fold(x) < RESOLUTION
    ensures Congruent(x, Fold(x))
    ensures r == Fold(x) <==> 0.0 <= r < RESOLUTION && Congruent(x, r)
  {
    assert x - Fold(x) == Turns((x / RESOLUTION).Floor);
    if 0.0 <= r < RESOLUTION && Congruent(x, r) {
      var k :| x - r == Turns(k);
      assert k == (x / RESOLUTION).Floor;
    }
  }

  lemma FoldRange(x: real)
    ensures 0.0 <= Fold(x) < RESOLUTION
  {
  }

  lemma CongruentShift(x: real, y: real, s: real, t: real)
    requires Congruent(x, y) && Congruent(s, t)
    ensures Congruent(x + s, y + t) && Congruent(x - s, y - t)
  {
    var k :| x - y == Turns(k);
    var j :| s - t == Turns(j);
    assert (x + s) - (y + t) == Turns(k + j);
    assert (x - s) - (y - t) == Turns(k - j);
  }

  lemma CongruentEquivalence(x: real, y: real, z: real)
    ensures Congruent(x, x)
    ensures Congruent(x, y) <==> Congruent(y, x)
    ensures Congruent(x, y) && Congruent(y, z) ==> Congruent(x, z)
  {
    assert x - x == Turns(0);
    if Congruent(x, y) {
      var k :| x - y == Turns(k);
      assert y - x == Turns(-k);
      if Congruent(y, z) {
        var j :| y - z == Turns(j);
        assert x - z == Turns(k + j);
      }
    }
    if Congruent(y, x) {
      var k :| y - x == Turns(k);
      assert x - y == Turns(-k);
    }
  }

  /** Congruent points closer than a revolution are the same point. */
  lemma CongruentAndClose(x: real, y: real)
    requires Congruent(x, y) && Abs(x - y) < RESOLUTION
    ensures x == y
  {
    var k :| x - y == Turns(k);
  }

  // ---- the shortest-path difference ----

  /** What `wrapped_delta` returns: the representative of `a - b` nearest to zero, and at exactly
      half a turn the one on the side `a - b` was on. */
  function WrappedDelta(a: real, b: real): real {
    var r := Fold(a - b);
    if r < HALF || (r == HALF && a - b > 0.0) then r else r - RESOLUTION
  }

  /** Distance around the circle. */
  function Distance(a: real, b: real): real {
    Abs(WrappedDelta(a, b))
  }

  /** The daemon's two loops, which terminate and land on `WrappedDelta`. */
  method ComputeWrappedDelta(a: real, b: real) returns (d: real)
    ensures d == WrappedDelta(a, b)
  {
    var half := RESOLUTION / 2.0;
    d := a - b;
    ghost var k := 0;
    while d > half
      invariant a - b - d == Turns(k) && k >= 0
      invariant k > 0 ==> d > -half
      decreases d
    {
      d := d - RESOLUTION;
      k := k + 1;
    }
    while d < -half
      invariant a - b - d == Turns(k)
      invariant d <= half && (k > 0 ==> d > -half) && (k < 0 ==> d < half)
      decreases -d
    {
      d := d + RESOLUTION;
      k := k - 1;
    }
    var r := if d >= 0.0 then d else d + RESOLUTION;
    assert a - b - d == Turns(k) && a - b - (d + RESOLUTION) == Turns(k - 1);
    FoldIsTheRepresentative(a - b, r);
  }

  /** The result is a representative of `a - b` within half a turn. */
  lemma DeltaRepresents(a: real, b: real)
    ensures Congruent(a - b, WrappedDelta(a, b)) && Abs(WrappedDelta(a, b)) <= HALF
  {
    FoldIsTheRepresentative(a - b, 0.0);
    var k :| a - b - Fold(a - b) == Turns(k);
    assert a - b - (Fold(a - b) - RESOLUTION) == Turns(k + 1);
  }

  /** In numbers: `d` is the result if and only if it is `a - b` give or take whole turns of 4096, and
      within 2048 of zero, at 2048 on the side `a - b` is on. */
  lemma DeltaInCounts(a: real, b: real, d: real)
    ensures d == WrappedDelta(a, b) <==>
            && (exists turns: int :: OffBy(a, b, d, turns))
            && -2048.0 <= d <= 2048.0 && (d == 2048.0 ==> a - b > 0.0) && (d == -2048.0 ==> a - b < 0.0)
  {
    DeltaRepresents(a, b);
    var r := WrappedDelta(a, b);
    var k :| a - b - r == Turns(k);
    assert OffBy(a, b, r, k);
    if turns: int :| OffBy(a, b, d, turns) {
      assert a - b - d == Turns(turns);
      if -2048.0 <= d <= 2048.0 { DeltaIs(a, b, d); }
    }
    AtHalfATurn(a, b);
  }

  lemma AtHalfATurn(a: real, b: real)
    ensures WrappedDelta(a, b) == HALF ==> a - b > 0.0
    ensures WrappedDelta(a, b) == -HALF ==> a - b < 0.0
  {
    FoldIsTheRepresentative(a - b, 0.0);
  }

  /** a and b differ by d and whole turns. */
  predicate OffBy(a: real, b: real, d: real, turns: int) {
    a - b - d == 4096.0 * turns as real
  }

  /** No representative of `a - b` is nearer to zero. */
  lemma DeltaIsNearest(a: real, b: real, e: real)
    requires Congruent(a - b, e)
    ensures Distance(a, b) <= Abs(e)
  {
    DeltaRepresents(a, b);
    NearestIsNearer(a - b, WrappedDelta(a, b), e);
  }

  lemma NearestIsNearer(x: real, d: real, e: real)
    requires Congruent(x, d) && Congruent(x, e) && Abs(d) <= HALF
    ensures Abs(d) <= Abs(e)
    ensures Abs(d) == Abs(e) && Abs(d) < HALF ==> d == e
    ensures Abs(e) < HALF ==> d == e
  {
    var k :| x - d == Turns(k);
    var j :| x - e == Turns(j);
    assert d - e == Turns(j - k);
  }

  /** A representative within half a turn is the difference; at exactly half a turn the magnitude
      is, and the sign is that of `a - b`. */
  lemma DeltaIs(a: real, b: real, e: real)
    requires Congruent(a - b, e) && Abs(e) <= HALF
    ensures Abs(WrappedDelta(a, b)) == Abs(e)
    ensures WrappedDelta(a, b) == e <==> (Abs(e) < HALF || (a - b > 0.0) == (e > 0.0))
  {
    DeltaRepresents(a, b);
    NearestIsNearer(a - b, WrappedDelta(a, b), e);
    NearestIsNearer(a - b, e, WrappedDelta(a, b));
  }

  lemma DeltaAntisymmetric(a: real, b: real)
    ensures WrappedDelta(b, a) == -WrappedDelta(a, b)
  {
    DeltaRepresents(a, b);
    var d := WrappedDelta(a, b);
    CongruentEquivalence(0.0, 0.0, 0.0);
    CongruentShift(0.0, 0.0, a - b, d);
    assert 0.0 - (a - b) == b - a && 0.0 - d == -d;
    DeltaIs(b, a, -d);
    DeltaIs(a, b, d);
  }

  /** `Distance` is a metric on the circle. */
  lemma DistanceIsAMetric(a: real, b: real, c: real)
    ensures Distance(a, b) == Distance(b, a)
    ensures Distance(a, b) == 0.0 <==> Congruent(a, b)
    ensures Distance(a, c) <= Distance(a, b) + Distance(b, c)
  {
    DeltaAntisymmetric(a, b);
    ZeroDistance(a, b);
    TriangleInequality(a, b, c);
  }

  lemma ZeroDistance(a: real, b: real)
    ensures Distance(a, b) == 0.0 <==> Congruent(a, b)
  {
    if Congruent(a, b) {
      var k :| a - b == Turns(k);
      assert a - b - 0.0 == Turns(k);
      DeltaIs(a, b, 0.0);
    }
    if WrappedDelta(a, b) == 0.0 {
      DeltaRepresents(a, b);
      var k :| a - b - 0.0 == Turns(k);
      assert a - b == Turns(k);
    }
  }

  lemma TriangleInequality(a: real, b: real, c: real)
    ensures Distance(a, c) <= Distance(a, b) + Distance(b, c)
  {
    var d, e := WrappedDelta(a, b), WrappedDelta(b, c);
    assert Congruent(a - c, d + e) by {
      DeltaRepresents(a, b);
      DeltaRepresents(b, c);
      CongruentShift(a - b, d, b - c, e);
      assert a - b + (b - c) == a - c;
    }
    DeltaIsNearest(a, c, d + e);
  }

  /** Moving both points by the same offset, and folding each or not, keeps the distance; the
      signed difference survives too, except that at exactly half a turn it takes the sign of the
      moved readings' own difference. So the spring error is the same in either position frame. */
  lemma DeltaIgnoresTheFrame(a: real, b: real, shift: real, a': real, b': real)
    requires Congruent(a', a + shift) && Congruent(b', b + shift)
    ensures Distance(a', b') == Distance(a, b)
    ensures WrappedDelta(a', b') == WrappedDelta(a, b)
            <==> (Distance(a, b) < HALF || (a' - b' > 0.0) == (a - b > 0.0))
  {
    CongruentShift(a', a + shift, b', b + shift);
    assert a + shift - (b + shift) == a - b;
    DeltaRepresents(a, b);
    var d := WrappedDelta(a, b);
    CongruentEquivalence(a' - b', a - b, d);
    DeltaIs(a', b', d);
    DeltaIs(a, b, d);
  }
}
