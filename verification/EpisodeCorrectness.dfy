/** What the episode sweep finds: exactly the maximal stretches with enough motors up, nested from
    one threshold to the next. */
module EpisodeCorrectness {
  import opened IntervalMerge
  import opened EpisodeSweep

  ghost predicate Enough(spans: seq<Span>, n: int, q: int) {
    |LiveAtKey(spans, q)| >= n
  }

  ghost predicate OnKey(ep: Episode, q: int) {
    2 * ep.start + 1 <= q < 2 * ep.end
  }

  ghost predicate SomeOnKey(eps: seq<Episode>, q: int) {
    exists ep :: ep in eps && OnKey(ep, q)
  }

  /** Positive lengths, one after the other. */
  ghost predicate Ordered(eps: seq<Episode>) {
    && (forall ep | ep in eps :: ep.start < ep.end)
    && forall i, j | 0 <= i < j < |eps| :: eps[i].end <= eps[j].start
  }

  /** From the rises of `start` up to `to` on the key axis fewer motors are up than `many`. */
  ghost predicate FewerUntil(spans: seq<Span>, many: nat, start: int, to: int) {
    forall q | 2 * start + 1 <= q < to :: |LiveAtKey(spans, q)| < many
  }

  /** At `q` the live set is `motors`, and from the rises of `start` up to there it was smaller. */
  ghost predicate FirstSeenAt(spans: seq<Span>, motors: set<int>, start: int, q: int) {
    2 * start + 1 <= q && motors == LiveAtKey(spans, q) && FewerUntil(spans, |motors|, start, q)
  }

  /** The episode names the full live set at the first point of maximal overlap inside it. */
  ghost predicate NamesItsPeak(spans: seq<Span>, ep: Episode) {
    && (exists q :: q < 2 * ep.end && FirstSeenAt(spans, ep.motors, ep.start, q))
    && forall q | OnKey(ep, q) :: |LiveAtKey(spans, q)| <= |ep.motors|
  }

  /** Keys settled once `k` edges are done. */
  ghost predicate Settled(edges: seq<Edge>, k: nat, q: int)
    requires k <= |edges|
  {
    k < |edges| ==> q < KeyOf(edges[k])
  }

  ghost predicate CoveredSoFar(s: Sweep, q: int) {
    SomeOnKey(s.out, q) || (s.current.Some? && 2 * s.current.value.start + 1 <= q)
  }

  ghost predicate Coverage(spans: seq<Span>, edges: seq<Edge>, k: nat, n: int, s: Sweep)
    requires k <= |edges|
  {
    forall q | Settled(edges, k, q) :: Enough(spans, n, q) <==> CoveredSoFar(s, q)
  }

  ghost predicate Shape(edges: seq<Edge>, k: nat, n: int, s: Sweep)
    requires k <= |edges|
  {
    && (s.current.Some? <==> |s.live| >= n)
    && Ordered(s.out)
    && (forall ep | ep in s.out :: k > 0 && 2 * ep.end <= KeyOf(edges[k - 1]))
    && (s.current.Some? ==>
          && k > 0 && 2 * s.current.value.start + 1 <= KeyOf(edges[k - 1])
          && forall ep | ep in s.out :: ep.end <= s.current.value.start)
  }

  /** No settled instant of the episode being built has more motors up than its peak. */
  ghost predicate PeakBounds(spans: seq<Span>, edges: seq<Edge>, k: nat, s: Sweep)
    requires k <= |edges| && s.current.Some?
  {
    && s.peak == |s.current.value.motors| && |s.live| <= s.peak
    && forall q | 2 * s.current.value.start + 1 <= q && Settled(edges, k, q) :: |LiveAtKey(spans, q)| <= s.peak
  }

  /** Its motors have been the live set, or are since the edge just taken. */
  ghost predicate PeakSeen(spans: seq<Span>, edges: seq<Edge>, k: nat, s: Sweep)
    requires 0 < k <= |edges| && s.current.Some?
  {
    || (s.current.value.motors == s.live && edges[k - 1].rise
        && FewerUntil(spans, |s.live|, s.current.value.start, KeyOf(edges[k - 1])))
    || SeenBetween(spans, s.current.value.motors, s.current.value.start, KeyOf(edges[k - 1]))
  }

  /** The episode being built remembers its peak so far. */
  ghost predicate PeakSoFar(spans: seq<Span>, edges: seq<Edge>, k: nat, s: Sweep)
    requires k <= |edges|
  {
    s.current.Some? && k > 0 ==> PeakBounds(spans, edges, k, s) && PeakSeen(spans, edges, k, s)
  }

  /** `motors` is the live set somewhere on the key axis from the rises of `start` up to `to`, with
      fewer up before. */
  ghost predicate SeenBetween(spans: seq<Span>, motors: set<int>, start: int, to: int) {
    exists q :: q < to && FirstSeenAt(spans, motors, start, q)
  }

  lemma KeyOrder(spans: seq<Span>, edges: seq<Edge>, k: nat)
    requires EdgesMatch(spans, edges) && 0 < k < |edges|
    ensures KeyOf(edges[k - 1]) <= KeyOf(edges[k])
  {
  }

  /** The live set moves by one motor: only a rise can make it larger, only a fall smaller. */
  lemma LiveMoves(live: set<int>, e: Edge)
    ensures e.rise ==> |live| <= |Moved(live, e)|
    ensures !e.rise ==> |Moved(live, e)| <= |live|
    ensures e.rise && e.motor !in live ==> |Moved(live, e)| == |live| + 1
  {
    var m := {e.motor};
    if e.motor in live {
      assert live + m == live && live == (live - m) + m;
    } else {
      assert live - m == live;
    }
  }

  lemma ShapeStep(spans: seq<Span>, edges: seq<Edge>, k: nat, n: int)
    requires EdgesMatch(spans, edges) && k < |edges| && n >= 1
    requires Shape(edges, k, n, SweepTo(edges, k, n))
    ensures Shape(edges, k + 1, n, SweepTo(edges, k + 1, n))
    ensures var (s, t) := (SweepTo(edges, k, n), SweepTo(edges, k + 1, n));
            && (s.current.Some? && t.current.None? ==> !edges[k].rise)
            && (s.current.None? && t.current.Some? ==> edges[k].rise)
  {
    if k > 0 { KeyOrder(spans, edges, k); }
    ShapeKept(edges, k, n, SweepTo(edges, k, n));
  }

  lemma ShapeKept(edges: seq<Edge>, k: nat, n: int, s: Sweep)
    requires k < |edges| && n >= 1 && Shape(edges, k, n, s) && (k > 0 ==> KeyOf(edges[k - 1]) <= KeyOf(edges[k]))
    ensures var t := SweepStep(s, edges[k], n);
            && Shape(edges, k + 1, n, t)
            && (s.current.Some? && t.current.None? ==> !edges[k].rise)
            && (s.current.None? && t.current.Some? ==> edges[k].rise)
  {
    LiveMoves(s.live, edges[k]);
  }

  /** One edge leaves the keys before it as they were. */
  lemma EarlierKeysStay(spans: seq<Span>, edges: seq<Edge>, k: nat, n: int, q: int)
    requires EdgesMatch(spans, edges) && k < |edges| && n >= 1 && q < KeyOf(edges[k])
    requires Shape(edges, k, n, SweepTo(edges, k, n))
    ensures CoveredSoFar(SweepTo(edges, k + 1, n), q) <==> CoveredSoFar(SweepTo(edges, k, n), q)
  {
    var s, t := SweepTo(edges, k, n), SweepTo(edges, k + 1, n);
    ShapeStep(spans, edges, k, n);
    if s.current.Some? && t.current.None? {
      var last := s.current.value.(end := edges[k].ns);
      assert t.out == s.out + [last] && last in t.out;
      assert forall ep | ep in t.out :: ep in s.out || ep == last;
      assert forall ep | ep in s.out :: ep in t.out;
    }
  }

  /** From its key to the next, the live set is the one the sweep holds. */
  lemma LaterKeysFollow(spans: seq<Span>, edges: seq<Edge>, k: nat, n: int, q: int)
    requires Sweepable(spans) && EdgesMatch(spans, edges) && 0 < k <= |edges| && Between(edges, k, q)
    requires Shape(edges, k, n, SweepTo(edges, k, n))
    ensures Enough(spans, n, q) <==> CoveredSoFar(SweepTo(edges, k, n), q)
  {
    LiveBetweenEdges(spans, edges, k, q);
    SweepKeepsLive(edges, k, n);
  }

  lemma CoverageStep(spans: seq<Span>, edges: seq<Edge>, k: nat, n: int)
    requires Sweepable(spans) && EdgesMatch(spans, edges) && k < |edges| && n >= 1
    requires Shape(edges, k, n, SweepTo(edges, k, n)) && Coverage(spans, edges, k, n, SweepTo(edges, k, n))
    ensures Coverage(spans, edges, k + 1, n, SweepTo(edges, k + 1, n))
  {
    ShapeStep(spans, edges, k, n);
    forall q | Settled(edges, k + 1, q)
      ensures Enough(spans, n, q) <==> CoveredSoFar(SweepTo(edges, k + 1, n), q)
    {
      if q < KeyOf(edges[k]) {
        assert Settled(edges, k, q);
        EarlierKeysStay(spans, edges, k, n, q);
      } else {
        LaterKeysFollow(spans, edges, k + 1, n, q);
      }
    }
  }

  /** A motor that rises was not up. */
  lemma RiseIsNew(spans: seq<Span>, edges: seq<Edge>, k: nat)
    requires Sweepable(spans) && EdgesMatch(spans, edges) && k < |edges| && edges[k].rise
    ensures edges[k].motor !in LiveTo(edges, k)
  {
    var e := edges[k];
    assert e in edges;
    var own :| own in spans && (e == RiseOf(own) || e == FallOf(own));
    LiveIsHalfDone(spans, edges, k, e.motor);
    forall s: Span | s.motor == e.motor
      ensures !HalfDone(spans, edges, k, s)
    {
      if s in spans {
        if s == own {
          assert forall j | 0 <= j < k :: edges[..k][j] != e;
        } else {
          OneAfterTheOther(spans, s, own);
          if s.end < own.start {
            assert EdgeOf(spans, FallOf(s));
            Already(spans, edges, k, FallOf(s));
          } else {
            NotYet(spans, edges, k, RiseOf(s));
            assert edges[..k] <= edges[..k + 1];
          }
        }
      }
    }
  }

  /** The peak recorded before an edge is visible on the key axis before that edge, unless the edge
      is one more rise of the same instant, which then raises the peak. */
  lemma PeakSettles(spans: seq<Span>, edges: seq<Edge>, k: nat, n: int)
    requires Sweepable(spans) && EdgesMatch(spans, edges) && 0 < k < |edges|
    requires Shape(edges, k, n, SweepTo(edges, k, n)) && PeakSoFar(spans, edges, k, SweepTo(edges, k, n))
    requires var s := SweepTo(edges, k, n); s.current.Some? && |Moved(s.live, edges[k])| <= s.peak
    ensures var cur := SweepTo(edges, k, n).current.value;
            SeenBetween(spans, cur.motors, cur.start, KeyOf(edges[k]))
  {
    var s := SweepTo(edges, k, n);
    var motors, start := s.current.value.motors, s.current.value.start;
    KeyOrder(spans, edges, k);
    if SeenBetween(spans, motors, start, KeyOf(edges[k - 1])) {
      SeenByLater(spans, motors, start, KeyOf(edges[k - 1]), KeyOf(edges[k]));
    } else {
      SameKeyRaises(spans, edges, k, n);
      RiseIsVisible(spans, edges, k, n);
      SeenNow(spans, motors, start, KeyOf(edges[k - 1]), KeyOf(edges[k]));
    }
  }

  lemma SeenNow(spans: seq<Span>, motors: set<int>, start: int, q: int, to: int)
    requires 2 * start + 1 <= q < to && motors == LiveAtKey(spans, q) && FewerUntil(spans, |motors|, start, q)
    ensures SeenBetween(spans, motors, start, to)
  {
    assert FirstSeenAt(spans, motors, start, q);
  }

  lemma SeenByLater(spans: seq<Span>, motors: set<int>, start: int, to: int, later: int)
    requires SeenBetween(spans, motors, start, to) && to <= later
    ensures SeenBetween(spans, motors, start, later)
  {
  }

  /** A second rise of the same instant adds a motor. */
  lemma SameKeyRaises(spans: seq<Span>, edges: seq<Edge>, k: nat, n: int)
    requires Sweepable(spans) && EdgesMatch(spans, edges) && 0 < k < |edges| && edges[k - 1].rise
    ensures var live := SweepTo(edges, k, n).live;
            KeyOf(edges[k - 1]) == KeyOf(edges[k]) ==> |Moved(live, edges[k])| == |live| + 1
  {
    if KeyOf(edges[k - 1]) == KeyOf(edges[k]) {
      SweepKeepsLive(edges, k, n);
      RiseIsNew(spans, edges, k);
      LiveMoves(LiveTo(edges, k), edges[k]);
    }
  }

  /** After a rise the live set is seen on the key axis if the next edge has a later key. */
  lemma RiseIsVisible(spans: seq<Span>, edges: seq<Edge>, k: nat, n: int)
    requires Sweepable(spans) && EdgesMatch(spans, edges) && 0 < k < |edges|
    requires KeyOf(edges[k - 1]) < KeyOf(edges[k])
    ensures SweepTo(edges, k, n).live == LiveAtKey(spans, KeyOf(edges[k - 1]))
  {
    SweepKeepsLive(edges, k, n);
    LiveBetweenEdges(spans, edges, k, KeyOf(edges[k - 1]));
  }

  /** What one step does to the recorded peak. */
  lemma PeakMoves(s: Sweep, e: Edge, n: int)
    requires s.current.Some? ==> s.peak == |s.current.value.motors|
    ensures var t := SweepStep(s, e, n);
            t.current.Some? ==>
              && t.peak == |t.current.value.motors| && |t.live| <= t.peak
              && (t.current.value.motors == t.live
                  || (s.current.Some? && t.current == s.current && t.peak == s.peak && |t.live| <= s.peak))
              && (s.current.Some? ==> t.current.value.start == s.current.value.start && s.peak <= t.peak)
              && (s.current.None? ==> t.current.value.start == e.ns)
  {
  }

  lemma PeakBoundsStep(spans: seq<Span>, edges: seq<Edge>, k: nat, s: Sweep, t: Sweep)
    requires Sweepable(spans) && EdgesMatch(spans, edges) && k < |edges|
    requires t.live == LiveTo(edges, k + 1) && t.current.Some?
    requires t.peak == |t.current.value.motors| && |t.live| <= t.peak
    requires if s.current.None? then t.current.value.start == edges[k].ns && edges[k].rise
             else PeakBounds(spans, edges, k, s) && t.current.value.start == s.current.value.start && s.peak <= t.peak
    ensures PeakBounds(spans, edges, k + 1, t)
  {
    forall q | 2 * t.current.value.start + 1 <= q && Settled(edges, k + 1, q)
      ensures |LiveAtKey(spans, q)| <= t.peak
    {
      if q < KeyOf(edges[k]) {
        assert Settled(edges, k, q);
      } else {
        LiveBetweenEdges(spans, edges, k + 1, q);
      }
    }
  }

  lemma PeakSeenStep(spans: seq<Span>, edges: seq<Edge>, k: nat, n: int, s: Sweep, t: Sweep)
    requires Sweepable(spans) && EdgesMatch(spans, edges) && k < |edges| && n >= 1
    requires s == SweepTo(edges, k, n) && t == SweepStep(s, edges[k], n)
    requires Shape(edges, k, n, s) && (s.current.None? && t.current.Some? ==> edges[k].rise)
    requires PeakSoFar(spans, edges, k, s) && t.current.Some?
    ensures PeakSeen(spans, edges, k + 1, t)
  {
    PeakMoves(s, edges[k], n);
    if s.current.Some? {
      if |t.live| <= s.peak {
        PeakSettles(spans, edges, k, n);
      } else {
        LiveMoves(s.live, edges[k]);
        HigherThanBefore(spans, edges, k, s, |t.live|);
      }
    }
  }

  lemma HigherThanBefore(spans: seq<Span>, edges: seq<Edge>, k: nat, s: Sweep, many: nat)
    requires k < |edges| && s.current.Some? && PeakBounds(spans, edges, k, s) && s.peak < many
    ensures FewerUntil(spans, many, s.current.value.start, KeyOf(edges[k]))
  {
    forall q | 2 * s.current.value.start + 1 <= q < KeyOf(edges[k])
      ensures |LiveAtKey(spans, q)| < many
    {
      assert Settled(edges, k, q);
    }
  }

  lemma PeakStep(spans: seq<Span>, edges: seq<Edge>, k: nat, n: int)
    requires Sweepable(spans) && EdgesMatch(spans, edges) && k < |edges| && n >= 1
    requires Shape(edges, k, n, SweepTo(edges, k, n)) && PeakSoFar(spans, edges, k, SweepTo(edges, k, n))
    ensures PeakSoFar(spans, edges, k + 1, SweepTo(edges, k + 1, n))
  {
    var s, t := SweepTo(edges, k, n), SweepTo(edges, k + 1, n);
    ShapeStep(spans, edges, k, n);
    if t.current.Some? {
      PeakMoves(s, edges[k], n);
      SweepKeepsLive(edges, k + 1, n);
      PeakBoundsStep(spans, edges, k, s, t);
      PeakSeenStep(spans, edges, k, n, s, t);
    }
  }

  lemma OutPeaks(spans: seq<Span>, edges: seq<Edge>, k: nat, n: int)
    requires Sweepable(spans) && EdgesMatch(spans, edges) && k < |edges| && n >= 1
    requires Shape(edges, k, n, SweepTo(edges, k, n)) && PeakSoFar(spans, edges, k, SweepTo(edges, k, n))
    requires forall ep | ep in SweepTo(edges, k, n).out :: NamesItsPeak(spans, ep)
    ensures forall ep | ep in SweepTo(edges, k + 1, n).out :: NamesItsPeak(spans, ep)
  {
    var s, t := SweepTo(edges, k, n), SweepTo(edges, k + 1, n);
    ShapeStep(spans, edges, k, n);
    LiveMoves(s.live, edges[k]);
    if s.current.Some? && t.current.None? {
      var last := s.current.value.(end := edges[k].ns);
      ClosedPeak(spans, edges, k, n, last);
      assert t.out == s.out + [last];
    }
  }

  /** The episode an edge closes names its peak. */
  lemma ClosedPeak(spans: seq<Span>, edges: seq<Edge>, k: nat, n: int, last: Episode)
    requires Sweepable(spans) && EdgesMatch(spans, edges) && k < |edges| && n >= 1
    requires Shape(edges, k, n, SweepTo(edges, k, n)) && PeakSoFar(spans, edges, k, SweepTo(edges, k, n))
    requires var (s, t) := (SweepTo(edges, k, n), SweepTo(edges, k + 1, n));
             s.current.Some? && t.current.None? && last == s.current.value.(end := edges[k].ns)
    ensures NamesItsPeak(spans, last)
  {
    ShapeStep(spans, edges, k, n);
    LiveMoves(SweepTo(edges, k, n).live, edges[k]);
    PeakSettles(spans, edges, k, n);
    SeenByLater(spans, last.motors, last.start, KeyOf(edges[k]), 2 * last.end);
    forall p | OnKey(last, p)
      ensures |LiveAtKey(spans, p)| <= |last.motors|
    {
      assert Settled(edges, k, p);
    }
  }

  /** What the sweep knows after `k` edges. */
  ghost predicate Swept(spans: seq<Span>, edges: seq<Edge>, k: nat, n: int)
    requires k <= |edges|
  {
    SweptAs(spans, edges, k, n, SweepTo(edges, k, n))
  }

  ghost predicate SweptAs(spans: seq<Span>, edges: seq<Edge>, k: nat, n: int, s: Sweep)
    requires k <= |edges|
  {
    && Shape(edges, k, n, s) && Coverage(spans, edges, k, n, s) && PeakSoFar(spans, edges, k, s)
    && forall ep | ep in s.out :: NamesItsPeak(spans, ep)
  }

  lemma NothingSwept(spans: seq<Span>, edges: seq<Edge>, n: int)
    requires Sweepable(spans) && EdgesMatch(spans, edges) && n >= 1
    ensures Swept(spans, edges, 0, n)
  {
    forall q | Settled(edges, 0, q)
      ensures LiveAtKey(spans, q) == {}
    {
      LiveBetweenEdges(spans, edges, 0, q);
    }
  }

  lemma SweptStep(spans: seq<Span>, edges: seq<Edge>, k: nat, next: nat, n: int)
    requires Sweepable(spans) && EdgesMatch(spans, edges) && n >= 1
    requires next == k + 1 <= |edges| && Swept(spans, edges, k, n)
    ensures Swept(spans, edges, next, n)
  {
    ShapeStep(spans, edges, k, n);
    CoverageStep(spans, edges, k, n);
    PeakStep(spans, edges, k, n);
    OutPeaks(spans, edges, k, n);
  }

  lemma {:induction false} SweepInvariant(spans: seq<Span>, edges: seq<Edge>, k: nat, n: int)
    requires Sweepable(spans) && EdgesMatch(spans, edges) && k <= |edges| && n >= 1
    ensures Swept(spans, edges, k, n)
  {
    if k == 0 {
      NothingSwept(spans, edges, n);
    } else {
      SweepInvariant(spans, edges, k - 1, n);
      SweptStep(spans, edges, k - 1, k, n);
    }
  }

  /** Nothing is up once every edge is done. */
  lemma NothingLeftUp(spans: seq<Span>, edges: seq<Edge>)
    requires Sweepable(spans) && EdgesMatch(spans, edges)
    ensures LiveTo(edges, |edges|) == {}
  {
    assert edges[..|edges|] == edges;
    forall motor: int
      ensures motor !in LiveTo(edges, |edges|)
    {
      LiveIsHalfDone(spans, edges, |edges|, motor);
      forall s: Span | s in spans
        ensures FallOf(s) in edges
      {
        assert EdgeOf(spans, FallOf(s));
      }
    }
  }

  /** The sweep is exact on the key axis, whatever end of log it is told; the closing branch for an
      episode still open there is never needed. */
  lemma SweepIsExact(spans: seq<Span>, n: int, logEnd: int)
    requires Sweepable(spans) && n >= 1
    ensures Ordered(Episodes(spans, n, logEnd))
    ensures forall q :: SomeOnKey(Episodes(spans, n, logEnd), q) <==> Enough(spans, n, q)
    ensures forall ep | ep in Episodes(spans, n, logEnd) :: NamesItsPeak(spans, ep)
  {
    var edges := SortedEdges(spans);
    SortedEdgesMatch(spans);
    SweepInvariant(spans, edges, |edges|, n);
    NothingLeftUp(spans, edges);
    SweepKeepsLive(edges, |edges|, n);
    var s := SweepTo(edges, |edges|, n);
    assert s.current.None?;
    forall q: int
      ensures SomeOnKey(s.out, q) <==> Enough(spans, n, q)
    {
      assert Settled(edges, |edges|, q);
    }
  }

  // ---- the same in time ----

  ghost predicate During(ep: Episode, t: int) {
    ep.start <= t < ep.end
  }

  ghost predicate SomeDuring(eps: seq<Episode>, t: int) {
    exists ep :: ep in eps && During(ep, t)
  }

  /** The episodes are disjoint, in order and of positive length; an instant is in one exactly when
      at least `n` motors are up at it. */
  lemma EpisodesAreExact(spans: seq<Span>, n: int, logEnd: int, t: int)
    requires Sweepable(spans) && n >= 1
    ensures Ordered(Episodes(spans, n, logEnd))
    ensures SomeDuring(Episodes(spans, n, logEnd), t) <==> |LiveAt(spans, t)| >= n
  {
    SweepIsExact(spans, n, logEnd);
    InstantIsOddKey(spans, t);
    var eps := Episodes(spans, n, logEnd);
    assert SomeOnKey(eps, 2 * t + 1) <==> SomeDuring(eps, t) by {
      forall ep: Episode
        ensures OnKey(ep, 2 * t + 1) <==> During(ep, t)
      {
      }
    }
  }

  lemma SubsetIsSmaller(a: set<int>, b: set<int>)
    requires a <= b
    ensures |a| <= |b| && (|a| == |b| ==> a == b)
  {
    assert b == a + (b - a);
    assert |b| == |a| + |b - a|;
  }

  /** At `t` all of `motors` and nobody else is up, and earlier in the episode fewer were. */
  ghost predicate FirstUpAt(spans: seq<Span>, ep: Episode, t: int) {
    During(ep, t) && ep.motors == LiveAt(spans, t) && forall u | ep.start <= u < t :: |LiveAt(spans, u)| < |ep.motors|
  }

  /** Each episode's motors are all the motors up at the first instant inside it at which the most are. */
  lemma MotorsAreThePeak(spans: seq<Span>, n: int, logEnd: int, ep: Episode)
    requires Sweepable(spans) && n >= 1 && ep in Episodes(spans, n, logEnd)
    ensures exists t :: FirstUpAt(spans, ep, t)
    ensures forall t | During(ep, t) :: |LiveAt(spans, t)| <= |ep.motors|
    ensures |ep.motors| >= n
  {
    SweepIsExact(spans, n, logEnd);
    PeakInTime(spans, ep);
    var q :| q < 2 * ep.end && FirstSeenAt(spans, ep.motors, ep.start, q);
    assert OnKey(ep, q) && SomeOnKey(Episodes(spans, n, logEnd), q);
  }

  lemma PeakInTime(spans: seq<Span>, ep: Episode)
    requires NamesItsPeak(spans, ep)
    ensures exists t :: FirstUpAt(spans, ep, t)
    ensures forall t | During(ep, t) :: |LiveAt(spans, t)| <= |ep.motors|
  {
    forall t | During(ep, t)
      ensures |LiveAt(spans, t)| <= |ep.motors|
    {
      InstantIsOddKey(spans, t);
      assert OnKey(ep, 2 * t + 1);
    }
    var q :| q < 2 * ep.end && FirstSeenAt(spans, ep.motors, ep.start, q);
    var t := q / 2;
    InstantIsOddKey(spans, t);
    assert During(ep, t);
    SubsetIsSmaller(ep.motors, LiveAt(spans, t));
    FewerInTime(spans, |ep.motors|, ep.start, t, q);
    assert FirstUpAt(spans, ep, t);
  }

  lemma FewerInTime(spans: seq<Span>, many: nat, start: int, t: int, q: int)
    requires FewerUntil(spans, many, start, q) && 2 * t <= q
    ensures forall u | start <= u < t :: |LiveAt(spans, u)| < many
  {
    forall u | start <= u < t
      ensures |LiveAt(spans, u)| < many
    {
      InstantIsOddKey(spans, u);
    }
  }

  lemma OrderedApart(eps: seq<Episode>, a: Episode, b: Episode)
    requires Ordered(eps) && a in eps && b in eps && a != b
    ensures a.end <= b.start || b.end <= a.start
  {
    var i :| 0 <= i < |eps| && eps[i] == a;
    var j :| 0 <= j < |eps| && eps[j] == b;
  }

  /** No episode can be made longer: just before it starts, after the falls of that instant, and just
      as it ends, too few motors are up. */
  lemma EpisodesAreMaximal(spans: seq<Span>, n: int, logEnd: int, ep: Episode)
    requires Sweepable(spans) && n >= 1 && ep in Episodes(spans, n, logEnd)
    ensures !Enough(spans, n, 2 * ep.start) && !Enough(spans, n, 2 * ep.end)
  {
    SweepIsExact(spans, n, logEnd);
    var eps := Episodes(spans, n, logEnd);
    forall other | other in eps
      ensures !OnKey(other, 2 * ep.start) && !OnKey(other, 2 * ep.end)
    {
      if other != ep { OrderedApart(eps, ep, other); }
    }
    assert !SomeOnKey(eps, 2 * ep.start) && !SomeOnKey(eps, 2 * ep.end);
  }

  /** A stricter threshold's episode lies inside a single episode of a looser one. */
  lemma StricterEpisodesNest(spans: seq<Span>, n: int, m: int, logEnd: int, ep: Episode) returns (outer: Episode)
    requires Sweepable(spans) && 1 <= n <= m && ep in Episodes(spans, m, logEnd)
    ensures outer in Episodes(spans, n, logEnd) && outer.start <= ep.start && ep.end <= outer.end
  {
    SweepIsExact(spans, n, logEnd);
    SweepIsExact(spans, m, logEnd);
    var q := 2 * ep.start + 1;
    assert OnKey(ep, q) && SomeOnKey(Episodes(spans, m, logEnd), q);
    assert Enough(spans, m, q) && Enough(spans, n, q);
    outer :| outer in Episodes(spans, n, logEnd) && OnKey(outer, q);
    if outer.end < ep.end {
      assert OnKey(ep, 2 * outer.end) && SomeOnKey(Episodes(spans, m, logEnd), 2 * outer.end);
      assert Enough(spans, m, 2 * outer.end);
      EpisodesAreMaximal(spans, n, logEnd, outer);
    }
  }
}
