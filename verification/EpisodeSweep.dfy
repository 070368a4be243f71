/** The sweep that finds stretches with at least `minMotors` motors up at once
    (`episodes` in analyze_servo_error_log.py). */
module EpisodeSweep {
  import opened Wrappers
  import opened StableSort
  import opened IntervalMerge

  /** A motor rising or falling at an instant. */
  datatype Edge = Edge(ns: int, rise: bool, motor: int)

  /** The sort key `(ns, delta)` as one number: falls before rises at the same instant. On this axis a
      span is up on `[2 * start + 1, 2 * end)`. */
  function KeyOf(e: Edge): int {
    2 * e.ns + if e.rise then 1 else 0
  }

  function RiseOf(s: Span): Edge { Edge(s.start, true, s.motor) }

  function FallOf(s: Span): Edge { Edge(s.end, false, s.motor) }

  function EdgesOf(spans: seq<Span>): seq<Edge> {
    if spans == [] then []
    else EdgesOf(spans[..|spans| - 1]) + [RiseOf(spans[|spans| - 1]), FallOf(spans[|spans| - 1])]
  }

  function SortedEdges(spans: seq<Span>): seq<Edge> {
    Sort(EdgesOf(spans), KeyOf)
  }

  datatype Episode = Episode(start: int, end: int, motors: set<int>)

  /** The variables of the sweep loop. */
  datatype Sweep = Sweep(live: set<int>, current: Option<Episode>, peak: nat, out: seq<Episode>)

  function Moved(live: set<int>, e: Edge): set<int> {
    if e.rise then live + {e.motor} else live - {e.motor}
  }

  function SweepStep(s: Sweep, e: Edge, minMotors: int): (t: Sweep)
    ensures t.live == Moved(s.live, e)
  {
    var live := Moved(s.live, e);
    if |live| >= minMotors then
      if s.current.None? then Sweep(live, Some(Episode(e.ns, e.ns, live)), |live|, s.out)
      else if |live| > s.peak then Sweep(live, Some(s.current.value.(motors := live)), |live|, s.out)
      else s.(live := live)
    else if s.current.Some? then Sweep(live, None, 0, s.out + [s.current.value.(end := e.ns)])
    else s.(live := live)
  }

  function SweepTo(edges: seq<Edge>, k: nat, minMotors: int): Sweep
    requires k <= |edges|
  {
    if k == 0 then Sweep({}, None, 0, []) else SweepStep(SweepTo(edges, k - 1, minMotors), edges[k - 1], minMotors)
  }

  function Episodes(spans: seq<Span>, minMotors: int, logEnd: int): seq<Episode> {
    var edges := SortedEdges(spans);
    var s := SweepTo(edges, |edges|, minMotors);
    if s.current.Some? then s.out + [s.current.value.(end := logEnd)] else s.out
  }

  method BuildEdges(spans: seq<Span>) returns (edges: seq<Edge>)
    ensures edges == SortedEdges(spans)
  {
    edges := [];
    for k := 0 to |spans|
      invariant edges == EdgesOf(spans[..k])
    {
      assert spans[..k + 1][..k] == spans[..k];
      edges := edges + [RiseOf(spans[k]), FallOf(spans[k])];
    }
    assert spans[..|spans|] == spans;
    edges := Sort(edges, KeyOf);
  }

  method FindEpisodes(spans: seq<Span>, minMotors: int, logEnd: int) returns (out: seq<Episode>)
    ensures out == Episodes(spans, minMotors, logEnd)
  {
    var edges := BuildEdges(spans);
    var current: Option<Episode>;
    current, out := SweepEdges(edges, minMotors);
    if current.Some? {
      out := out + [current.value.(end := logEnd)];
    }
  }

  method SweepEdges(edges: seq<Edge>, minMotors: int) returns (current: Option<Episode>, out: seq<Episode>)
    ensures var s := SweepTo(edges, |edges|, minMotors); current == s.current && out == s.out
  {
    out := [];
    var live: set<int> := {};
    current := None;
    var peak: nat := 0;
    for k := 0 to |edges|
      invariant Sweep(live, current, peak, out) == SweepTo(edges, k, minMotors)
    {
      var e := edges[k];
      ghost var next := SweepStep(Sweep(live, current, peak, out), e, minMotors);
      live := if e.rise then live + {e.motor} else live - {e.motor};
      if |live| >= minMotors {
        if current.None? {
          current, peak := Some(Episode(e.ns, e.ns, live)), |live|;
        } else if |live| > peak {
          current, peak := Some(current.value.(motors := live)), |live|;
        }
      } else if current.Some? {
        out := out + [current.value.(end := e.ns)];
        current, peak := None, 0;
      }
      assert Sweep(live, current, peak, out) == next;
    }
  }

  // ---- the live set, on its own terms ----

  /** The motors with a span up at `q` on the key axis. */
  ghost function LiveAtKey(spans: seq<Span>, q: int): set<int> {
    set s | s in spans && KeyOf(RiseOf(s)) <= q < KeyOf(FallOf(s)) :: s.motor
  }

  /** The motors up at instant `t`. */
  ghost function LiveAt(spans: seq<Span>, t: int): set<int> {
    set s | s in spans && s.start <= t < s.end :: s.motor
  }

  lemma InstantIsOddKey(spans: seq<Span>, t: int)
    ensures LiveAtKey(spans, 2 * t + 1) == LiveAt(spans, t)
    ensures LiveAtKey(spans, 2 * t) <= LiveAt(spans, t)
  {
  }

  function LiveTo(edges: seq<Edge>, k: nat): set<int>
    requires k <= |edges|
  {
    if k == 0 then {} else Moved(LiveTo(edges, k - 1), edges[k - 1])
  }

  lemma {:induction false} SweepKeepsLive(edges: seq<Edge>, k: nat, minMotors: int)
    requires k <= |edges|
    ensures SweepTo(edges, k, minMotors).live == LiveTo(edges, k)
  {
    if k > 0 {
      SweepKeepsLive(edges, k - 1, minMotors);
    }
  }

  ghost predicate EdgeOf(spans: seq<Span>, e: Edge) {
    exists s :: s in spans && (e == RiseOf(s) || e == FallOf(s))
  }

  /** Edges in key order, one rise and one fall per span, nothing else and nothing twice. */
  ghost predicate EdgesMatch(spans: seq<Span>, edges: seq<Edge>) {
    Sorted(edges, KeyOf) && Distinct(edges) && forall e :: e in edges <==> EdgeOf(spans, e)
  }

  /** What `clip` then `merge_per_motor` hand to the sweep. */
  ghost predicate Sweepable(spans: seq<Span>) {
    PositiveLengths(spans) && Apart(spans, 0) && Distinct(spans)
  }

  /** A motor's spans are strictly one after the other. */
  lemma OneAfterTheOther(spans: seq<Span>, a: Span, b: Span)
    requires Sweepable(spans) && a in spans && b in spans && a.motor == b.motor && a != b
    ensures a.end < b.start || b.end < a.start
  {
    var i :| 0 <= i < |spans| && spans[i] == a;
    var j :| 0 <= j < |spans| && spans[j] == b;
  }

  lemma {:induction false} EdgesOfIsExact(spans: seq<Span>, e: Edge)
    ensures e in EdgesOf(spans) <==> EdgeOf(spans, e)
  {
    if spans != [] {
      var front, last := spans[..|spans| - 1], spans[|spans| - 1];
      assert spans == front + [last];
      EdgesOfIsExact(front, e);
      var all := EdgesOf(spans);
      assert all == EdgesOf(front) + [RiseOf(last), FallOf(last)];
      assert e in all <==> e in EdgesOf(front) || e == RiseOf(last) || e == FallOf(last);
      assert EdgeOf(spans, e) <==> EdgeOf(front, e) || e == RiseOf(last) || e == FallOf(last) by {
        assert last in spans && forall s :: s in spans <==> s in front || s == last;
      }
    }
  }

  lemma {:induction false} EdgesOfAreDistinct(spans: seq<Span>)
    requires Sweepable(spans)
    ensures Distinct(EdgesOf(spans))
  {
    if spans != [] {
      var front, last := spans[..|spans| - 1], spans[|spans| - 1];
      assert spans == front + [last];
      EdgesOfAreDistinct(front);
      var before := EdgesOf(front);
      forall i | 0 <= i < |before|
        ensures before[i] != RiseOf(last) && before[i] != FallOf(last)
      {
        EdgesOfIsExact(front, before[i]);
        LastEdgesAreNew(spans, before[i]);
      }
    }
  }

  lemma LastEdgesAreNew(spans: seq<Span>, e: Edge)
    requires Sweepable(spans) && spans != [] && EdgeOf(spans[..|spans| - 1], e)
    ensures e != RiseOf(spans[|spans| - 1]) && e != FallOf(spans[|spans| - 1])
  {
    var front, last := spans[..|spans| - 1], spans[|spans| - 1];
    var s :| s in front && (e == RiseOf(s) || e == FallOf(s));
    var k :| 0 <= k < |front| && front[k] == s;
    assert spans[k] == s && s != last && last in spans;
    if s.motor == last.motor {
      OneAfterTheOther(spans, s, last);
    }
  }

  lemma SortedEdgesMatch(spans: seq<Span>)
    requires Sweepable(spans)
    ensures EdgesMatch(spans, SortedEdges(spans))
  {
    EdgesOfAreDistinct(spans);
    SortKeepsDistinct(EdgesOf(spans), KeyOf);
    forall e: Edge
      ensures e in SortedEdges(spans) <==> EdgeOf(spans, e)
    {
      SortKeepsElements(EdgesOf(spans), KeyOf, e);
      EdgesOfIsExact(spans, e);
    }
  }

  /** After `k` edges the sweep's live set is the motors whose span has risen and not fallen. */
  ghost predicate HalfDone(spans: seq<Span>, edges: seq<Edge>, k: nat, s: Span)
    requires k <= |edges|
  {
    s in spans && RiseOf(s) in edges[..k] && FallOf(s) !in edges[..k]
  }

  ghost predicate SomeHalfDone(spans: seq<Span>, edges: seq<Edge>, k: nat, motor: int)
    requires k <= |edges|
  {
    exists s: Span :: s.motor == motor && HalfDone(spans, edges, k, s)
  }

  lemma {:induction false} LiveIsHalfDone(spans: seq<Span>, edges: seq<Edge>, k: nat, motor: int)
    requires Sweepable(spans) && EdgesMatch(spans, edges) && k <= |edges|
    ensures motor in LiveTo(edges, k) <==> SomeHalfDone(spans, edges, k, motor)
  {
    if k > 0 {
      LiveIsHalfDone(spans, edges, k - 1, motor);
      var e := edges[k - 1];
      assert e in edges;
      var own :| own in spans && (e == RiseOf(own) || e == FallOf(own));
      if e.motor != motor {
        OtherMotorsStay(spans, edges, k - 1, motor);
      } else if e.rise {
        RiseIsHalfDone(spans, edges, k - 1, own);
      } else {
        FallEndsIt(spans, edges, k - 1, own);
      }
    }
  }

  lemma OtherMotorsStay(spans: seq<Span>, edges: seq<Edge>, k: nat, motor: int)
    requires k < |edges| && edges[k].motor != motor
    ensures SomeHalfDone(spans, edges, k + 1, motor) <==> SomeHalfDone(spans, edges, k, motor)
  {
    assert edges[..k + 1] == edges[..k] + [edges[k]];
    forall s: Span | s.motor == motor
      ensures HalfDone(spans, edges, k + 1, s) <==> HalfDone(spans, edges, k, s)
    {
    }
  }

  lemma RiseIsHalfDone(spans: seq<Span>, edges: seq<Edge>, k: nat, own: Span)
    requires Sweepable(spans) && EdgesMatch(spans, edges) && k < |edges| && own in spans && edges[k] == RiseOf(own)
    ensures SomeHalfDone(spans, edges, k + 1, own.motor)
  {
    NotYet(spans, edges, k, FallOf(own));
    assert edges[..k + 1][k] == RiseOf(own);
    assert HalfDone(spans, edges, k + 1, own);
  }

  lemma FallEndsIt(spans: seq<Span>, edges: seq<Edge>, k: nat, own: Span)
    requires Sweepable(spans) && EdgesMatch(spans, edges) && k < |edges| && own in spans && edges[k] == FallOf(own)
    ensures !SomeHalfDone(spans, edges, k + 1, own.motor)
  {
    assert edges[..k + 1] == edges[..k] + [edges[k]];
    forall s: Span | s.motor == own.motor && s in spans
      ensures !HalfDone(spans, edges, k + 1, s)
    {
      if s != own {
        OneAfterTheOther(spans, s, own);
        if s.end < own.start {
          assert EdgeOf(spans, FallOf(s));
          Already(spans, edges, k, FallOf(s));
        } else {
          NotYet(spans, edges, k, RiseOf(s));
        }
      }
    }
  }

  /** An edge with a larger key than the k-th comes after it. */
  lemma NotYet(spans: seq<Span>, edges: seq<Edge>, k: nat, e: Edge)
    requires EdgesMatch(spans, edges) && k < |edges| && KeyOf(e) > KeyOf(edges[k])
    ensures e !in edges[..k + 1]
  {
  }

  lemma Already(spans: seq<Span>, edges: seq<Edge>, k: nat, e: Edge)
    requires EdgesMatch(spans, edges) && k < |edges| && e in edges && KeyOf(e) < KeyOf(edges[k])
    ensures e in edges[..k]
  {
    var i :| 0 <= i < |edges| && edges[i] == e;
    assert edges[..k][i] == e;
  }

  /** `q` lies after the first `k` edges and before the next. */
  ghost predicate Between(edges: seq<Edge>, k: nat, q: int)
    requires k <= |edges|
  {
    (k > 0 ==> KeyOf(edges[k - 1]) <= q) && (k < |edges| ==> q < KeyOf(edges[k]))
  }

  lemma DoneByKey(spans: seq<Span>, edges: seq<Edge>, k: nat, q: int, e: Edge)
    requires EdgesMatch(spans, edges) && k <= |edges| && Between(edges, k, q) && EdgeOf(spans, e)
    ensures e in edges[..k] <==> KeyOf(e) <= q
  {
    var i :| 0 <= i < |edges| && edges[i] == e;
    if i < k {
      assert edges[..k][i] == e && KeyOf(edges[i]) <= KeyOf(edges[k - 1]);
    } else {
      assert KeyOf(edges[k]) <= KeyOf(edges[i]);
      assert forall j | 0 <= j < k :: edges[..k][j] == edges[j] && edges[j] != edges[i];
    }
  }

  lemma LiveBetweenEdges(spans: seq<Span>, edges: seq<Edge>, k: nat, q: int)
    requires Sweepable(spans) && EdgesMatch(spans, edges) && k <= |edges| && Between(edges, k, q)
    ensures LiveTo(edges, k) == LiveAtKey(spans, q)
  {
    forall motor: int
      ensures motor in LiveTo(edges, k) <==> motor in LiveAtKey(spans, q)
    {
      LiveIsHalfDone(spans, edges, k, motor);
      HalfDoneByKey(spans, edges, k, q, motor);
    }
  }

  lemma HalfDoneByKey(spans: seq<Span>, edges: seq<Edge>, k: nat, q: int, motor: int)
    requires EdgesMatch(spans, edges) && k <= |edges| && Between(edges, k, q)
    ensures SomeHalfDone(spans, edges, k, motor) <==> motor in LiveAtKey(spans, q)
  {
    forall s: Span | s in spans
      ensures HalfDone(spans, edges, k, s) <==> KeyOf(RiseOf(s)) <= q < KeyOf(FallOf(s))
    {
      DoneByKey(spans, edges, k, q, RiseOf(s));
      DoneByKey(spans, edges, k, q, FallOf(s));
    }
  }
}
