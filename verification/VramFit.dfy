/** How much memory a batch costs: a straight line fitted to the measured peaks, and the batch that line
    says will fit on a card (examples/measure_act_vram_scaling.py). Peaks are exact reals, apart from the
    NaN the script looks for. */
module VramFit {
  import opened Wrappers
  import opened Reals

  datatype Peak = Gib(gib: real) | NotANumber

  datatype Point = Point(batch: int, peak: Peak)

  /** The script returns early, divides by zero, or prints a line. */
  datatype Fitted = TooFew | DividesByZero | Fitted(line: Line)

  datatype Line = Line(slope: real, intercept: real)
  {
    function At(batch: int): real { slope * batch as real + intercept }
  }

  function Gibs(p: Point): real { if p.peak.Gib? then p.peak.gib else 0.0 }

  // ---- the measurements ----

  /** Measures batch after batch until one of them fails; measured[i] is None when the i-th measurement
      raises. */
  method Collect(batches: seq<int>, measured: seq<Option<Peak>>) returns (points: seq<Point>)
    requires |measured| == |batches|
    ensures |points| <= |batches|
    ensures forall i :: 0 <= i < |points| ==> measured[i] == Some(points[i].peak) && points[i].batch == batches[i]
    ensures |points| < |batches| ==> measured[|points|] == None
  {
    points := [];
    var i := 0;
    while i < |batches|
      invariant 0 <= i <= |batches| && |points| == i
      invariant forall k :: 0 <= k < i ==> measured[k] == Some(points[k].peak) && points[k].batch == batches[k]
    {
      if measured[i].None? { break; }
      points := points + [Point(batches[i], measured[i].value)];
      i := i + 1;
    }
  }

  // ---- the sums ----

  datatype Sums = Sums(n: int, sx: int, sy: real, sxx: int, sxy: real)
  {
    function Denominator(): int { n * sxx - sx * sx }

    function With(p: Point): Sums {
      Sums(n + 1, sx + p.batch, sy + Gibs(p), sxx + p.batch * p.batch, sxy + p.batch as real * Gibs(p))
    }
  }

  function SumsOf(points: seq<Point>): (s: Sums)
    ensures s.n == |points|
  {
    if points == [] then Sums(0, 0, 0.0, 0, 0.0)
    else
      SumsOf(points[..|points| - 1]).With(points[|points| - 1])
  }

  /** The squared distances of the batch sizes from x. */
  function Spread(points: seq<Point>, x: int): (r: int)
    ensures r >= 0
    ensures r == 0 <==> forall i :: 0 <= i < |points| ==> points[i].batch == x
  {
    if points == [] then 0
    else
      var d := points[|points| - 1].batch - x;
      SquareIsZeroOnlyAtZero(d);
      Spread(points[..|points| - 1], x) + d * d
  }

  lemma SquareIsZeroOnlyAtZero(d: int)
    ensures d * d >= 0 && (d * d == 0 <==> d == 0)
  {}

  lemma {:induction false} SpreadFromSums(points: seq<Point>, x: int)
    ensures var s := SumsOf(points);
            Spread(points, x) == Around(s.n, s.sx, s.sxx, x)
  {
    if points != [] {
      var front, b := points[..|points| - 1], points[|points| - 1].batch;
      SpreadFromSums(front, x);
      var s := SumsOf(front);
      AroundGrows(s.n, s.sx, s.sxx, x, b);
    }
  }

  /** The squared distances from x, by the sums. */
  function Around(n: int, sx: int, sxx: int, x: int): int { sxx - 2 * (x * sx) + n * (x * x) }

  lemma AroundGrows(n: int, sx: int, sxx: int, x: int, b: int)
    ensures Around(n + 1, sx + b, sxx + b * b, x) == Around(n, sx, sxx, x) + (b - x) * (b - x)
  {
    assert (b - x) * (b - x) == b * b - 2 * (x * b) + x * x;
    assert x * (sx + b) == x * sx + x * b;
    assert (n + 1) * (x * x) == n * (x * x) + x * x;
  }

  lemma DenominatorGrows(s: Sums, b: int)
    ensures (s.n + 1) * (s.sxx + b * b) - (s.sx + b) * (s.sx + b) == s.Denominator() + Around(s.n, s.sx, s.sxx, b)
  {}

  ghost predicate TwoBatchesDiffer(points: seq<Point>) {
    exists i, j :: 0 <= i < j < |points| && points[i].batch != points[j].batch
  }

  lemma DenominatorGrowsBySpread(points: seq<Point>)
    requires points != []
    ensures var front, b := points[..|points| - 1], points[|points| - 1].batch;
            SumsOf(points).Denominator() == SumsOf(front).Denominator() + Spread(front, b)
  {
    var front, b := points[..|points| - 1], points[|points| - 1].batch;
    SpreadFromSums(front, b);
    DenominatorGrows(SumsOf(front), b);
  }

  /** The fit has a denominator exactly when two batch sizes differ, and it is then positive. */
  lemma {:induction false} DenominatorIsPositiveExactlyWhenBatchesDiffer(points: seq<Point>)
    ensures SumsOf(points).Denominator() >= 0
    ensures SumsOf(points).Denominator() > 0 <==> TwoBatchesDiffer(points)
  {
    if points != [] {
      var front := points[..|points| - 1];
      DenominatorIsPositiveExactlyWhenBatchesDiffer(front);
      DenominatorGrowsBySpread(points);
      OneMorePoint(points, Spread(front, points[|points| - 1].batch));
    }
  }

  lemma OneMorePoint(points: seq<Point>, spread: int)
    requires points != []
    requires spread == Spread(points[..|points| - 1], points[|points| - 1].batch)
    ensures TwoBatchesDiffer(points) <==> TwoBatchesDiffer(points[..|points| - 1]) || spread > 0
  {
    var front, b := points[..|points| - 1], points[|points| - 1].batch;
    if TwoBatchesDiffer(front) {
      var i, j :| 0 <= i < j < |front| && front[i].batch != front[j].batch;
      assert points[i].batch != points[j].batch;
    }
    if spread > 0 {
      var i :| 0 <= i < |front| && front[i].batch != b;
      assert points[i].batch != points[|points| - 1].batch;
    }
    if TwoBatchesDiffer(points) {
      var i, j :| 0 <= i < j < |points| && points[i].batch != points[j].batch;
      assert front[i] == points[i] && (j < |front| ==> front[j] == points[j]);
    }
  }

  // ---- the fit ----

  /** Nothing is printed when there are fewer than two points or a peak is NaN; a fit through points of
      one batch size divides by zero. */
  function Fit(points: seq<Point>): Fitted {
    if |points| < 2 || exists i :: 0 <= i < |points| && points[i].peak.NotANumber? then TooFew
    else
      var s := SumsOf(points);
      var d := s.Denominator();
      if d == 0 then DividesByZero
      else
        var a := (s.n as real * s.sxy - s.sx as real * s.sy) / d as real;
        Fitted(Line(a, (s.sy - a * s.sx as real) / s.n as real))
  }

  function Sq(x: real): real { x * x }

  lemma SquareVanishesAtZero(x: real)
    ensures Sq(x) >= 0.0 && (Sq(x) == 0.0 <==> x == 0.0)
  {
    if x < 0.0 {
      SquareMirrored(x);
      PositiveSquare(-x);
    } else if x > 0.0 {
      PositiveSquare(x);
    }
  }

  lemma SquareMirrored(x: real)
    ensures Sq(x) == Sq(-x)
  {}

  lemma PositiveSquare(x: real)
    requires x > 0.0
    ensures Sq(x) > 0.0
  {
    assert Sq(x) / x == x;
  }

  /** The sum of the squared residuals. */
  function SquaredError(points: seq<Point>, l: Line): (r: real)
    ensures r >= 0.0
  {
    if points == [] then 0.0
    else
      var p := points[|points| - 1];
      SquareVanishesAtZero(Gibs(p) - l.At(p.batch));
      SquaredError(points[..|points| - 1], l) + Sq(Gibs(p) - l.At(p.batch))
  }

  /** The squared distances between two lines over the measured batches. */
  function Separation(points: seq<Point>, l: Line, m: Line): (r: real)
    ensures r >= 0.0
    ensures r == 0.0 <==> forall i :: 0 <= i < |points| ==> l.At(points[i].batch) == m.At(points[i].batch)
  {
    if points == [] then 0.0
    else
      var b := points[|points| - 1].batch;
      SquareVanishesAtZero(l.At(b) - m.At(b));
      Separation(points[..|points| - 1], l, m) + Sq(l.At(b) - m.At(b))
  }

  /** What the normal equations ask to be zero. */
  function SlopeResidue(s: Sums, l: Line): real { s.sxy - l.slope * s.sxx as real - l.intercept * s.sx as real }

  function InterceptResidue(s: Sums, l: Line): real { s.sy - l.slope * s.sx as real - l.intercept * s.n as real }

  lemma OnePoint(y: real, lx: real, mx: real, e: real, gap: real)
    requires e == y - lx && gap == lx - mx
    ensures Sq(y - mx) == Sq(y - lx) + Sq(lx - mx) + 2.0 * (e * gap)
  {}

  lemma ResiduesGrow(s: Sums, t: Sums, x: real, y: real, xx: real, l: Line, da: real, db: real, e: real, gap: real)
    requires xx == x * x && e == y - (l.slope * x + l.intercept) && gap == da * x + db
    requires t.n as real == s.n as real + 1.0 && t.sx as real == s.sx as real + x && t.sxx as real == s.sxx as real + xx
    requires t.sxy == s.sxy + x * y && t.sy == s.sy + y
    ensures Cross(t, l, da, db) == Cross(s, l, da, db) + e * gap
  {
    SlopeResidueGrows(s, t, x, y, xx, l, e);
    assert InterceptResidue(t, l) == InterceptResidue(s, l) + e;
    Weigh(SlopeResidue(s, l), InterceptResidue(s, l), x, e, da, db);
  }

  lemma SlopeResidueGrows(s: Sums, t: Sums, x: real, y: real, xx: real, l: Line, e: real)
    requires xx == x * x && e == y - (l.slope * x + l.intercept)
    requires t.sx as real == s.sx as real + x && t.sxx as real == s.sxx as real + xx && t.sxy == s.sxy + x * y
    ensures SlopeResidue(t, l) == SlopeResidue(s, l) + x * e
  {
    assert x * e == x * y - l.slope * xx - l.intercept * x;
  }

  lemma Weigh(sr: real, ir: real, x: real, e: real, da: real, db: real)
    ensures da * (sr + x * e) + db * (ir + e) == da * sr + db * ir + e * (da * x + db)
  {}

  /** How the two residues weigh in the error of a line that differs by (da, db). */
  function Cross(s: Sums, l: Line, da: real, db: real): real { da * SlopeResidue(s, l) + db * InterceptResidue(s, l) }

  lemma CrossGrows(s: Sums, p: Point, l: Line, da: real, db: real, e: real, gap: real)
    requires e == Gibs(p) - l.At(p.batch) && gap == da * p.batch as real + db
    ensures Cross(s.With(p), l, da, db) == Cross(s, l, da, db) + e * gap
  {
    SquareAsReal(p.batch);
    ResiduesGrow(s, s.With(p), p.batch as real, Gibs(p), (p.batch * p.batch) as real, l, da, db, e, gap);
  }

  lemma {:induction false} ErrorOfAnotherLine(points: seq<Point>, l: Line, m: Line, da: real, db: real)
    requires da == l.slope - m.slope && db == l.intercept - m.intercept
    ensures SquaredError(points, m)
            == SquaredError(points, l) + Separation(points, l, m) + 2.0 * Cross(SumsOf(points), l, da, db)
  {
    if points != [] {
      var front, p := points[..|points| - 1], points[|points| - 1];
      ErrorOfAnotherLine(front, l, m, da, db);
      ErrorGrows(SumsOf(front), p, l, m, da, db);
    }
  }

  lemma ErrorGrows(s: Sums, p: Point, l: Line, m: Line, da: real, db: real)
    requires da == l.slope - m.slope && db == l.intercept - m.intercept
    ensures Sq(Gibs(p) - m.At(p.batch)) + 2.0 * Cross(s, l, da, db)
         == Sq(Gibs(p) - l.At(p.batch)) + Sq(l.At(p.batch) - m.At(p.batch)) + 2.0 * Cross(s.With(p), l, da, db)
  {
    var e, gap := Gibs(p) - l.At(p.batch), da * p.batch as real + db;
    LinesDiffer(l, m, da, db, p.batch);
    CrossGrows(s, p, l, da, db, e, gap);
    OnePoint(Gibs(p), l.At(p.batch), m.At(p.batch), e, gap);
  }

  lemma LinesDiffer(l: Line, m: Line, da: real, db: real, batch: int)
    requires da == l.slope - m.slope && db == l.intercept - m.intercept
    ensures l.At(batch) - m.At(batch) == da * batch as real + db
  {}

  lemma SquareAsReal(b: int)
    ensures (b * b) as real == b as real * b as real
  {}

  lemma ProductAsReal(a: int, b: int)
    ensures (a * b) as real == a as real * b as real
  {}

  /** The fitted line solves the normal equations. */
  lemma NormalEquations(s: Sums, l: Line)
    requires s.n > 0 && s.Denominator() != 0
    requires l.slope == (s.n as real * s.sxy - s.sx as real * s.sy) / s.Denominator() as real
    requires l.intercept == (s.sy - l.slope * s.sx as real) / s.n as real
    ensures SlopeResidue(s, l) == 0.0 && InterceptResidue(s, l) == 0.0
  {
    var n, sx, sxx := s.n as real, s.sx as real, s.sxx as real;
    ProductAsReal(s.n, s.sxx);
    ProductAsReal(s.sx, s.sx);
    var d := s.Denominator() as real;
    assert d == n * sxx - sx * sx;
    assert l.slope * d == n * s.sxy - sx * s.sy;
    assert l.intercept * n == s.sy - l.slope * sx;
    assert n * SlopeResidue(s, l) == 0.0 by {
      Eliminate(n, sx, s.sy, sxx, s.sxy, l.slope, l.intercept);
    }
  }

  lemma Eliminate(n: real, sx: real, sy: real, sxx: real, sxy: real, a: real, b: real)
    requires a * (n * sxx - sx * sx) == n * sxy - sx * sy
    requires b * n == sy - a * sx
    ensures n * (sxy - a * sxx - b * sx) == 0.0
  {
    assert n * (b * sx) == (b * n) * sx == sy * sx - (a * sx) * sx;
    assert n * (a * sxx) == a * (n * sxx);
    assert a * (n * sxx - sx * sx) == a * (n * sxx) - (a * sx) * sx;
  }

  /** The printed line has the least squared error of all lines, and no other line has it. */
  lemma FitIsTheOnlyBestLine(points: seq<Point>, other: Line)
    requires Fit(points).Fitted?
    ensures var l := Fit(points).line;
            SquaredError(points, l) <= SquaredError(points, other)
            && (SquaredError(points, l) == SquaredError(points, other) ==> other == l)
  {
    var l := Fit(points).line;
    ErrorOfAnotherLine(points, l, other, l.slope - other.slope, l.intercept - other.intercept);
    FitHasNoCross(points, l.slope - other.slope, l.intercept - other.intercept);
    if Separation(points, l, other) == 0.0 { NoSeparationMeansEqual(points, l, other); }
  }

  lemma FitHasNoCross(points: seq<Point>, da: real, db: real)
    requires Fit(points).Fitted?
    ensures Cross(SumsOf(points), Fit(points).line, da, db) == 0.0
  {
    NormalEquations(SumsOf(points), Fit(points).line);
  }

  lemma NoSeparationMeansEqual(points: seq<Point>, l: Line, m: Line)
    requires SumsOf(points).Denominator() != 0 && Separation(points, l, m) == 0.0
    ensures l == m
  {
    DenominatorIsPositiveExactlyWhenBatchesDiffer(points);
    var i, j :| 0 <= i < j < |points| && points[i].batch != points[j].batch;
    TwoPointsFixALine(l, m, points[i].batch, points[j].batch);
  }

  lemma TwoPointsFixALine(l: Line, m: Line, x: int, y: int)
    requires x != y && l.At(x) == m.At(x) && l.At(y) == m.At(y)
    ensures l == m
  {
    assert (l.slope - m.slope) * (x as real - y as real) == 0.0;
  }

  /** The script prints a fit exactly when every peak is a number and two batch sizes differ. */
  lemma FitExistsExactlyWhen(points: seq<Point>)
    ensures Fit(points).Fitted?
            <==> (TwoBatchesDiffer(points) && forall i :: 0 <= i < |points| ==> points[i].peak.Gib?)
    ensures Fit(points).DividesByZero?
            <==> (|points| >= 2 && !TwoBatchesDiffer(points)
                  && forall i :: 0 <= i < |points| ==> points[i].peak.Gib?)
  {
    DenominatorIsPositiveExactlyWhenBatchesDiffer(points);
  }

  // ---- the batch that fits ----

  function Usable(gb: real, usableFraction: real): real { gb * usableFraction }

  function Reported(l: Line, usable: real): (r: nat)
    requires l.slope != 0.0
  {
    var fits := Truncate((usable - l.intercept) / l.slope);
    if fits > 0 then fits else 0
  }

  ghost predicate IsTheLargestThatFits(l: Line, usable: real, r: nat) {
    l.At(r) <= usable && forall k: int :: k > r ==> l.At(k) > usable
  }

  lemma SteeperIsFurther(a: real, x: real, y: real)
    requires a > 0.0 && x <= y
    ensures a * x <= a * y && (x < y ==> a * x < a * y)
  {
    assert a * (y - x) >= 0.0;
  }

  lemma ReportedOnARisingLine(l: Line, usable: real)
    requires l.slope > 0.0
    ensures usable >= l.intercept ==> l.At(Reported(l, usable)) <= usable
    ensures usable < l.intercept ==> Reported(l, usable) == 0
    ensures forall k: int :: k > Reported(l, usable) ==> l.At(k) > usable
  {
    var q := (usable - l.intercept) / l.slope;
    assert q * l.slope == usable - l.intercept;
    var r := Reported(l, usable);
    if usable >= l.intercept {
      assert q >= 0.0;
      SteeperIsFurther(l.slope, r as real, q);
    } else {
      assert q < 0.0;
    }
    assert q < r as real + 1.0;
    forall k: int | k > r ensures l.At(k) > usable {
      SteeperIsFurther(l.slope, q, k as real);
    }
  }

  /** On a falling line the script reports where the line starts to fit: every larger batch does, and no
      smaller one. */
  lemma ReportedOnAFallingLine(l: Line, usable: real)
    requires l.slope < 0.0
    ensures forall k: int :: k > Reported(l, usable) ==> l.At(k) <= usable
    ensures forall k: int :: 0 <= k < Reported(l, usable) ==> l.At(k) > usable
  {
    var q := (usable - l.intercept) / l.slope;
    assert q * l.slope == usable - l.intercept;
    var r := Reported(l, usable);
    assert q < r as real + 1.0 && (r > 0 ==> r as real <= q);
    forall k: int | k > r ensures l.At(k) <= usable { SteeperIsFurther(-l.slope, q, k as real); }
    forall k: int | 0 <= k < r ensures l.At(k) > usable { SteeperIsFurther(-l.slope, k as real, q); }
  }

  /** The reported batch is the largest that fits on the line exactly when the line rises and the card
      holds at least the intercept. Below the intercept the script reports batch 0, which does not fit; on
      a falling line no batch is the largest. */
  lemma ReportIsTheLargestExactlyWhen(l: Line, usable: real)
    requires l.slope != 0.0
    ensures IsTheLargestThatFits(l, usable, Reported(l, usable)) <==> l.slope > 0.0 && usable >= l.intercept
  {
    if l.slope > 0.0 {
      ReportedOnARisingLine(l, usable);
      if usable < l.intercept { assert l.At(0) == l.intercept; }
    } else {
      ReportedOnAFallingLine(l, usable);
      assert l.At(Reported(l, usable) + 1) <= usable;
    }
  }

  /** A card of 1 GiB under an intercept of 2 is reported to take batch 0, and on a line that falls by 1
      GiB a sample, a card of 5 GiB batch 5, though batch 6 fits as well. */
  lemma ReportCanMislead()
    ensures var l := Line(0.5, 2.0); Reported(l, 1.0) == 0 && l.At(0) > 1.0
    ensures var l := Line(-1.0, 10.0); Reported(l, 5.0) == 5 && l.At(5) <= 5.0 && l.At(6) <= 5.0
  {
  }

  /** What an entry of the table means. */
  ghost predicate EntryMeans(l: Line, usable: real, r: nat) {
    if l.slope > 0.0 then if usable >= l.intercept then IsTheLargestThatFits(l, usable, r) else r == 0
    else (forall k: int :: k > r ==> l.At(k) <= usable) && forall k: int :: 0 <= k < r ==> l.At(k) > usable
  }

  lemma ReportMeans(l: Line, usable: real)
    requires l.slope != 0.0
    ensures EntryMeans(l, usable, Reported(l, usable))
  {
    if l.slope > 0.0 { ReportedOnARisingLine(l, usable); } else { ReportedOnAFallingLine(l, usable); }
  }

  /** The table: one batch for each capacity, or a division by zero on a flat line. */
  method BatchTable(l: Line, capacities: seq<real>, usableFraction: real) returns (r: Option<seq<nat>>)
    ensures r.None? <==> (capacities != [] && l.slope == 0.0)
    ensures r.Some? ==> |r.value| == |capacities|
    ensures r.Some? ==>
              forall i :: 0 <= i < |capacities| ==> EntryMeans(l, capacities[i] * usableFraction, r.value[i])
  {
    var table: seq<nat> := [];
    var i := 0;
    while i < |capacities|
      invariant 0 <= i <= |capacities| && |table| == i
      invariant i > 0 ==> l.slope != 0.0
      invariant forall k :: 0 <= k < i ==> EntryMeans(l, capacities[k] * usableFraction, table[k])
    {
      if l.slope == 0.0 { return None; }
      var usable := Usable(capacities[i], usableFraction);
      var batch := Reported(l, usable);
      ReportMeans(l, usable);
      table := table + [batch];
      i := i + 1;
    }
    return Some(table);
  }
}
