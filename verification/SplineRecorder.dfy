/** Moving the OMX arm between poses: the spline that is driven and recorded through a list of waypoints
    (examples/omx/record_grab.py) and the straight move without recording
    (examples/omx/reset_environment.py). Angles, speeds and times are exact reals. */
module SplineRecorder {
  import opened Reals
  import opened HermiteSegment

  // ---- poses ----

  datatype Joint = ShoulderPan | ShoulderLift | ElbowFlex | WristFlex | WristRoll | Gripper

  const JOINTS: seq<Joint> := [ShoulderPan, ShoulderLift, ElbowFlex, WristFlex, WristRoll, Gripper]

  const WRIST_HORIZONTAL_OFFSET := 0.0
  const CONTROL_HZ := 30
  const MIN_TRAVEL := 0.5

  type Pose = map<Joint, real>

  type Vector = v: seq<real> | |v| == 6 witness [0.0, 0.0, 0.0, 0.0, 0.0, 0.0]

  /** Every joint is named. */
  predicate Complete(p: Pose) {
    ShoulderPan in p && ShoulderLift in p && ElbowFlex in p && WristFlex in p && WristRoll in p && Gripper in p
  }

  function PoseToArray(p: Pose): Vector
    requires Complete(p)
  {
    seq(6, i requires 0 <= i < 6 => p[JOINTS[i]])
  }

  function ArrayToPose(a: Vector): (p: Pose)
    ensures Complete(p)
  {
    map[ShoulderPan := a[0], ShoulderLift := a[1], ElbowFlex := a[2],
        WristFlex := a[3], WristRoll := a[4], Gripper := a[5]]
  }

  lemma PosesAndArraysAgree(p: Pose, a: Vector)
    requires Complete(p)
    ensures ArrayToPose(PoseToArray(p)) == p && PoseToArray(ArrayToPose(a)) == a
  {
    var q := ArrayToPose(PoseToArray(p));
    forall j: Joint ensures j in p && j in q && q[j] == p[j] {
      match j
      case ShoulderPan =>
      case ShoulderLift =>
      case ElbowFlex =>
      case WristFlex =>
      case WristRoll =>
      case Gripper =>
    }
    assert q == p;
  }

  function HorizontalWristFlex(shoulderLift: real, elbowFlex: real): real {
    WRIST_HORIZONTAL_OFFSET - shoulderLift - elbowFlex
  }

  /** The gripper is parallel to the ground. */
  predicate Horizontal(p: Pose)
    requires Complete(p)
  {
    p[WristFlex] == HorizontalWristFlex(p[ShoulderLift], p[ElbowFlex])
  }

  predicate Level(a: Vector) { a[3] + a[1] + a[2] == 0.0 }

  /** The largest |to[i] - from[i]| over the first n joints. */
  function LargestUpTo(from: Vector, to: Vector, n: nat): (r: real)
    requires n <= 6
    ensures r >= 0.0
    ensures forall i :: 0 <= i < n ==> Abs(to[i] - from[i]) <= r
    ensures r > 0.0 ==> exists i :: 0 <= i < n && Abs(to[i] - from[i]) == r
  {
    if n == 0 then 0.0
    else
      var r, d := LargestUpTo(from, to, n - 1), Abs(to[n - 1] - from[n - 1]);
      if d > r then d else r
  }

  function MaxDistance(from: Vector, to: Vector): real { LargestUpTo(from, to, 6) }

  /** It is the largest distance any of the six joints has to go. */
  lemma MaxDistanceIs(from: Vector, to: Vector, d: real)
    ensures MaxDistance(from, to) == d
            <==> (forall i :: 0 <= i < 6 ==> Abs(to[i] - from[i]) <= d)
                 && exists i :: 0 <= i < 6 && Abs(to[i] - from[i]) == d
  {
    var r := LargestUpTo(from, to, 6);
    assert r == 0.0 ==> Abs(to[0] - from[0]) == r;
  }

  /** How many frames a move of this length takes; a move below half a unit takes none. */
  function Steps(distance: real, speed: real, hz: nat): (n: nat)
    requires speed != 0.0
    ensures n == 0 <==> distance < 0.5
  {
    if distance >= MIN_TRAVEL then
      var n := Truncate(distance / speed * hz as real);
      if n > 1 then n else 1
    else 0
  }

  // ---- the straight move ----

  /** The move's frame at t in [0, 1]. */
  function Blend(from: Vector, to: Vector, t: real): Vector { seq(6, i requires 0 <= i < 6 => Mix(from[i], to[i], t)) }

  lemma BlendEndsAtTheTarget(from: Vector, to: Vector)
    ensures Blend(from, to, 1.0) == to
  {}

  lemma BlendStaysLevel(from: Vector, to: Vector, t: real)
    requires Level(from) && Level(to)
    ensures Level(Blend(from, to, t))
  {
    var d1, d2, d3 := to[1] - from[1], to[2] - from[2], to[3] - from[3];
    assert t * d3 + t * d1 + t * d2 == t * (d3 + d1 + d2);
  }

  ghost predicate Between(a: Vector, from: Vector, to: Vector) {
    forall i :: 0 <= i < 6 ==> from[i] <= a[i] <= to[i] || to[i] <= a[i] <= from[i]
  }

  lemma Fraction(k: int, n: int)
    requires 0 <= k <= n && n > 0
    ensures 0.0 <= k as real / n as real <= 1.0 && n as real / n as real == 1.0
  {}

  /** Drives in a straight line from where the arm is. Nothing is sent for a short move; otherwise the
      last action is the target itself, every action lies between the two poses in every joint, and a move
      between two level poses stays level. */
  method MoveToPose(current: Pose, target: Pose, speed: real) returns (sent: seq<Pose>)
    requires Complete(current) && Complete(target) && speed != 0.0
    ensures var from, to := PoseToArray(current), PoseToArray(target);
            && |sent| == Steps(MaxDistance(from, to), speed, CONTROL_HZ)
            && (sent == [] || sent[|sent| - 1] == target)
            && (forall k :: 0 <= k < |sent| ==> Complete(sent[k]) && Between(PoseToArray(sent[k]), from, to))
            && (forall k :: 0 <= k < |sent| ==>
                  PoseToArray(sent[k]) == Blend(from, to, (k + 1) as real / |sent| as real))
            && (Horizontal(current) && Horizontal(target) ==> forall k :: 0 <= k < |sent| ==> Horizontal(sent[k]))
  {
    var from, goal := PoseToArray(current), PoseToArray(target);
    sent := [];
    var maxDistance := MaxDistance(from, goal);
    if maxDistance < MIN_TRAVEL { return; }
    var nSteps := Steps(maxDistance, speed, CONTROL_HZ);
    var step := 1;
    while step < nSteps + 1
      invariant 1 <= step <= nSteps + 1 && |sent| == step - 1
      invariant forall k :: 0 <= k < |sent| ==>
                  sent[k] == ArrayToPose(Blend(from, goal, (k + 1) as real / nSteps as real))
    {
      var t := step as real / nSteps as real;
      sent := sent + [ArrayToPose(Blend(from, goal, t))];
      step := step + 1;
    }
    forall k | 0 <= k < nSteps
      ensures Between(PoseToArray(sent[k]), from, goal)
      ensures PoseToArray(sent[k]) == Blend(from, goal, (k + 1) as real / nSteps as real)
      ensures Horizontal(current) && Horizontal(target) ==> Horizontal(sent[k])
      ensures k == nSteps - 1 ==> sent[k] == target
    {
      MoveFrame(current, target, k, nSteps);
    }
  }

  lemma MoveFrame(current: Pose, target: Pose, k: nat, n: nat)
    requires Complete(current) && Complete(target) && k < n
    ensures var from, to := PoseToArray(current), PoseToArray(target);
            var a := Blend(from, to, (k + 1) as real / n as real);
            && PoseToArray(ArrayToPose(a)) == a && Between(a, from, to)
            && (Horizontal(current) && Horizontal(target) ==> Horizontal(ArrayToPose(a)))
            && (k == n - 1 ==> ArrayToPose(a) == target)
  {
    var from, to, t := PoseToArray(current), PoseToArray(target), (k + 1) as real / n as real;
    Fraction(k + 1, n);
    var a := Blend(from, to, t);
    PosesAndArraysAgree(target, a);
    forall i | 0 <= i < 6 ensures from[i] <= a[i] <= to[i] || to[i] <= a[i] <= from[i] {
      MixStaysBetween(from[i], to[i], t);
    }
    if Horizontal(current) && Horizontal(target) { BlendStaysLevel(from, to, t); }
    if k == n - 1 { BlendEndsAtTheTarget(from, to); }
  }

  /** The speed a move is driven at. */
  function DrivenSpeed(distance: real, speed: real, hz: nat): real
    requires speed != 0.0 && hz > 0 && distance >= MIN_TRAVEL
  {
    distance / Steps(distance, speed, hz) as real * hz as real
  }

  /** The distance is covered in k frames at exactly that speed. */
  predicate TakesFrames(distance: real, speed: real, hz: nat, k: int) {
    k >= 1 && distance * hz as real == speed * k as real
  }

  /** A move that is made takes as many whole frames as fit at the speed asked for, and at least one. */
  lemma FramesOfAMove(distance: real, speed: real, hz: nat)
    requires speed > 0.0 && hz > 0 && distance >= 0.5
    ensures var n := Steps(distance, speed, hz);
            && FitsIn(n, speed, distance * hz as real) == (distance * hz as real >= speed)
            && !FitsIn(n + 1, speed, distance * hz as real)
            && (distance * hz as real < speed ==> n == 1)
  {
    var q := distance / speed * hz as real;
    FramesAsked(distance, speed, hz as real, q);
    WholePart(q, speed, distance * hz as real, Steps(distance, speed, hz));
  }

  /** `n` frames of this length are no longer than the whole. */
  predicate FitsIn(n: nat, frame: real, whole: real) {
    n as real * frame <= whole
  }

  lemma WholePart(q: real, frame: real, whole: real, n: nat)
    requires frame > 0.0 && q > 0.0 && q * frame == whole && n == if q.Floor > 1 then q.Floor else 1
    requires q < 1.0 <==> whole < frame
    ensures FitsIn(n, frame, whole) == (whole >= frame) && !FitsIn(n + 1, frame, whole)
    ensures whole < frame ==> n == 1
  {
    FitsExactlyWhen(n, q, frame, whole);
    FitsExactlyWhen(n + 1, q, frame, whole);
  }

  lemma FitsExactlyWhen(n: nat, q: real, frame: real, whole: real)
    requires frame > 0.0 && q * frame == whole
    ensures FitsIn(n, frame, whole) <==> n as real <= q
  {
    if n as real <= q { Grow(n as real, q, frame); } else { Scale(q, n as real, frame); }
  }

  /** A move is driven at the speed asked for if and only if that speed covers the distance in a whole
      number of frames. Less than one frame's worth is driven slower; anything else is driven faster, by
      less than a factor of two. */
  lemma MoveSpeed(distance: real, speed: real, hz: nat)
    requires speed > 0.0 && hz > 0 && distance >= MIN_TRAVEL
    ensures var actual := DrivenSpeed(distance, speed, hz);
            && (actual == speed <==> exists k: int :: TakesFrames(distance, speed, hz, k))
            && (actual < speed <==> distance * hz as real < speed)
            && actual < 2.0 * speed
  {
    var q, n := distance / speed * hz as real, Steps(distance, speed, hz);
    FramesAsked(distance, speed, hz as real, q);
    DrivenTimesFrames(distance, speed, hz as real, n as real, DrivenSpeed(distance, speed, hz), q);
    SpeedAgainst(DrivenSpeed(distance, speed, hz), n, q, speed);
    if q == n as real { assert TakesFrames(distance, speed, hz, n); }
    if k: int :| TakesFrames(distance, speed, hz, k) { WholeFrames(q, speed, k as real); }
  }

  /** The driven speed against the one asked for, with q the frames asked and n those taken. */
  lemma SpeedAgainst(actual: real, n: nat, q: real, speed: real)
    requires speed > 0.0 && q > 0.0 && n == (if q.Floor > 1 then q.Floor else 1) && actual * n as real == q * speed
    ensures (actual < speed <==> q < 1.0) && actual < 2.0 * speed && (actual == speed <==> q == n as real)
  {
    if q < 1.0 {
      SlowMove(actual, q, speed);
    } else {
      SpeedBounds(actual, n as real, q, speed);
    }
  }

  lemma DrivenTimesFrames(distance: real, speed: real, hz: real, n: real, actual: real, q: real)
    requires n > 0.0 && actual == distance / n * hz && q * speed == distance * hz
    ensures actual * n == q * speed
  {
    var perFrame := distance / n;
    assert perFrame * n == distance;
    assert actual * n == (perFrame * n) * hz;
  }

  lemma FramesAsked(distance: real, speed: real, hz: real, q: real)
    requires speed > 0.0 && hz > 0.0 && distance > 0.0 && q == distance / speed * hz
    ensures q > 0.0 && q * speed == distance * hz
    ensures q < 1.0 <==> distance * hz < speed
  {
    Quotient(distance, speed);
    Scale(0.0, distance / speed, hz);
    if q < 1.0 { Scale(q, 1.0, speed); } else { Grow(1.0, q, speed); }
  }

  lemma SlowMove(actual: real, q: real, speed: real)
    requires speed > 0.0 && q < 1.0 && actual == q * speed
    ensures actual < speed
  {
    Scale(q, 1.0, speed);
  }

  lemma WholeFrames(q: real, speed: real, k: real)
    requires speed > 0.0 && q * speed == speed * k
    ensures q == k
  {
    if q < k { Scale(q, k, speed); } else if k < q { Scale(k, q, speed); }
  }

  lemma NotSlower(actual: real, n: real, q: real, speed: real)
    requires speed > 0.0 && n >= 1.0 && n <= q && actual * n == q * speed
    ensures speed <= actual
  {
    Grow(n, q, speed);
    if actual < speed { Scale(actual, speed, n); }
  }

  lemma NotTwiceAsFast(actual: real, n: real, q: real, speed: real)
    requires speed > 0.0 && n >= 1.0 && q < n + 1.0 && actual * n == q * speed
    ensures actual < 2.0 * speed
  {
    Scale(q, 2.0 * n, speed);
    if actual >= 2.0 * speed { Grow(2.0 * speed, actual, n); }
  }

  lemma SpeedBounds(actual: real, n: real, q: real, speed: real)
    requires speed > 0.0 && n >= 1.0 && n <= q < n + 1.0 && actual * n == q * speed
    ensures speed <= actual < 2.0 * speed && (actual == speed <==> q == n)
  {
    NotSlower(actual, n, q, speed);
    NotTwiceAsFast(actual, n, q, speed);
    if actual == speed { WholeFrames(q, speed, n); }
    if q == n { WholeFrames(actual, n, speed); }
  }

  /** Half a unit at 100 units a second is driven at 15; three units at 50 are driven at 90. */
  lemma MoveSpeedMissesBothWays()
    ensures DrivenSpeed(0.5, 100.0, CONTROL_HZ) == 15.0
    ensures DrivenSpeed(3.0, 50.0, CONTROL_HZ) == 90.0
  {
  }

  // ---- the spline ----

  /** The waypoints as vectors; for each segment between them its frames and its duration in seconds; and
      the velocity planned at each waypoint. */
  datatype Plan = Plan(pts: seq<Vector>, steps: seq<nat>, fps: nat, times: seq<real>, vels: seq<Vector>)
  {
    predicate Shaped() { |pts| >= 1 && |steps| == |times| == |pts| - 1 && |vels| >= |pts| && fps > 0 }

    ghost predicate Valid() {
      && Shaped()
      && (forall i :: 0 <= i < |steps| ==> (steps[i] == 0 <==> MaxDistance(pts[i], pts[i + 1]) < MIN_TRAVEL))
      && (forall i :: 0 <= i < |steps| ==> times[i] == Duration(i))
      && (forall i, j :: 0 <= i < |pts| && 0 <= j < 6 ==> vels[i][j] == Velocity(i, j))
    }

    /** The points are the waypoints, joint by joint. */
    ghost predicate Through(waypoints: seq<Pose>) {
      |pts| == |waypoints|
      && forall i :: 0 <= i < |waypoints| ==> Complete(waypoints[i]) && pts[i] == PoseToArray(waypoints[i])
    }

    ghost predicate Moved(i: int) { 0 <= i < |steps| && steps[i] > 0 }

    function Duration(i: nat): (r: real)
      requires i < |steps| && fps > 0
      ensures r >= 0.0 && (r > 0.0 <==> steps[i] > 0)
    {
      Seconds(steps[i], fps)
    }

    /** The mean velocity of a segment, zero for a skipped one. */
    function Mean(i: nat, j: nat): real
      requires |times| == |pts| - 1 && i < |times| && j < 6
    {
      if times[i] > 0.0 then (pts[i + 1][j] - pts[i][j]) / times[i] else 0.0
    }

    /** The velocity planned at waypoint i: zero at both ends of the spline. */
    function Velocity(i: nat, j: nat): real
      requires |times| == |pts| - 1 && i < |pts| && j < 6
    {
      if 0 < i < |pts| - 1 then 0.5 * (Mean(i - 1, j) + Mean(i, j)) else 0.0
    }

    /** The velocity at waypoint `at`, per unit of t on segment seg. */
    function Tangent(seg: nat, at: nat): Vector
      requires Shaped() && seg < |steps| && at < |pts|
    {
      seq(6, j requires 0 <= j < 6 => vels[at][j] * times[seg])
    }

    function JointAt(seg: nat, j: nat, t: real): real
      requires Shaped() && seg < |steps| && j < 6
    {
      Hermite(pts[seg][j], Tangent(seg, seg)[j], pts[seg + 1][j], Tangent(seg, seg + 1)[j], t)
    }

    function At(seg: nat, t: real): Vector
      requires Shaped() && seg < |steps|
    {
      seq(6, j requires 0 <= j < 6 => JointAt(seg, j, t))
    }

    function Frame(seg: nat, k: nat): Vector
      requires Shaped() && seg < |steps| && k < steps[seg]
    {
      At(seg, (k + 1) as real / steps[seg] as real)
    }

    /** The frames of the first n segments. */
    ghost function Frames(n: nat): (r: seq<Vector>)
      requires Shaped() && n <= |steps|
    {
      if n == 0 then [] else Frames(n - 1) + seq(steps[n - 1], k requires 0 <= k < steps[n - 1] => Frame(n - 1, k))
    }

    lemma PosesGrow(seg: nat, frames: seq<Pose>)
      requires Shaped() && seg < |steps| && |frames| == steps[seg]
      requires forall k :: 0 <= k < |frames| ==> frames[k] == ArrayToPose(Frame(seg, k))
      ensures Poses(Frames(seg + 1)) == Poses(Frames(seg)) + frames
    {}

    /** Joint j on segment i as a function of the time since the segment began. */
    ghost function Motion(i: nat, j: nat): real -> real
      requires Shaped() && i < |steps| && j < 6 && times[i] > 0.0
    {
      InTime(pts[i][j], vels[i][j], pts[i + 1][j], vels[i + 1][j], times[i])
    }

    /** A frame is where the motion is after that many frame times. */
    lemma FramesSampleTheMotion(i: nat, j: nat, k: nat)
      requires Valid() && Moved(i) && j < 6 && k < steps[i]
      ensures Frame(i, k)[j] == Motion(i, j)((k + 1) as real / fps as real)
    {
      var x, n := (k + 1) as real, steps[i] as real;
      Ratio(x, n, fps as real);
      JointInTime(i, j, x / fps as real, x / n);
    }

    lemma JointInTime(i: nat, j: nat, s: real, t: real)
      requires Shaped() && i < |steps| && j < 6 && times[i] > 0.0 && s / times[i] == t
      ensures Motion(i, j)(s) == JointAt(i, j, t)
    {
      assert Tangent(i, i)[j] == vels[i][j] * times[i] && Tangent(i, i + 1)[j] == vels[i + 1][j] * times[i];
      HermiteInTime(pts[i][j], vels[i][j], pts[i + 1][j], vels[i + 1][j], times[i], s, t);
    }

    lemma JointMeetsItsEnds(i: nat, j: nat)
      requires Shaped() && i < |steps| && j < 6
      ensures JointAt(i, j, 0.0) == pts[i][j] && JointAt(i, j, 1.0) == pts[i + 1][j]
    {
      HermiteMeetsItsEnds(pts[i][j], Tangent(i, i)[j], pts[i + 1][j], Tangent(i, i + 1)[j]);
    }

    /** A segment that is not skipped starts at its first waypoint and ends exactly on its second. */
    lemma SegmentEndsOnItsWaypoint(i: nat)
      requires Shaped() && Moved(i)
      ensures At(i, 0.0) == pts[i] && Frame(i, steps[i] - 1) == pts[i + 1]
    {
      Fraction(steps[i], steps[i]);
      assert Frame(i, steps[i] - 1) == At(i, 1.0);
      forall j | 0 <= j < 6 ensures At(i, 0.0)[j] == pts[i][j] && At(i, 1.0)[j] == pts[i + 1][j] {
        JointMeetsItsEnds(i, j);
      }
    }

    /** The record ends on the waypoint behind the last segment that moved. */
    lemma {:induction false} RecordEndsOnAWaypoint(a: nat, n: nat)
      requires Shaped() && Moved(a) && a < n <= |steps| && forall i :: a < i < n ==> steps[i] == 0
      ensures Frames(n) != [] && Frames(n)[|Frames(n)| - 1] == pts[a + 1]
    {
      if n == a + 1 { SegmentEndsOnItsWaypoint(a); } else { RecordEndsOnAWaypoint(a, n - 1); }
    }

    /** The planned velocities are the velocities the joints have, and they have no other. */
    lemma VelocitiesAreDriven(i: nat, j: nat, v: real)
      requires Shaped() && i < |steps| && j < 6 && times[i] > 0.0
      ensures MovesAt(Motion(i, j), 0.0, v) <==> v == vels[i][j]
      ensures MovesAt(Motion(i, j), times[i], v) <==> v == vels[i + 1][j]
    {
      var f, T, v0, v1 := Motion(i, j), times[i], vels[i][j], vels[i + 1][j];
      SegmentVelocities(pts[i][j], v0, pts[i + 1][j], v1, T);
      if MovesAt(f, 0.0, v) { OnlyOneVelocity(f, 0.0, v, v0); }
      if MovesAt(f, T, v) { OnlyOneVelocity(f, T, v, v1); }
    }

    /** Where the neighbours take equally long, the planned velocity is the Catmull-Rom one: the slope of
        the chord between the neighbouring waypoints. */
    lemma EvenTimingIsCatmullRom(i: nat, j: nat)
      requires Valid() && 0 < i < |pts| - 1 && j < 6 && times[i - 1] == times[i] > 0.0
      ensures vels[i][j] == (pts[i + 1][j] - pts[i - 1][j]) / (times[i] + times[i])
    {
      EvenChord(pts[i - 1][j], pts[i][j], pts[i + 1][j], times[i], Mean(i - 1, j), Mean(i, j), vels[i][j]);
    }

    /** Between two segments that moved, the velocity is halfway between their mean velocities; beside one
        skipped segment it is half the other's; and between two skipped ones it is zero. */
    ghost predicate HalvesTheNeighbours(i: nat, j: nat)
      requires Shaped() && 0 < i < |pts| - 1 && j < 6
    {
      var back, next := pts[i][j] - pts[i - 1][j], pts[i + 1][j] - pts[i][j];
      if Moved(i - 1) && Moved(i) then HalvesTheMeans(vels[i][j], back, times[i - 1], next, times[i])
      else if Moved(i - 1) then HalvesTheMean(vels[i][j], back, times[i - 1])
      else if Moved(i) then HalvesTheMean(vels[i][j], next, times[i])
      else vels[i][j] == 0.0
    }

    /** What velocity is planned, whatever the timing. */
    lemma PlannedVelocity(i: nat, j: nat)
      requires Valid() && 0 < i < |pts| - 1 && j < 6
      ensures HalvesTheNeighbours(i, j) && vels[0][j] == vels[|pts| - 1][j] == 0.0
    {
      TakesTime(i - 1);
      TakesTime(i);
      PlannedFrom(i, j);
    }

    lemma TakesTime(i: nat)
      requires Valid() && i < |steps|
      ensures Moved(i) <==> times[i] > 0.0
    {}

    lemma PlannedFrom(i: nat, j: nat)
      requires Shaped() && 0 < i < |pts| - 1 && j < 6 && vels[i][j] == Velocity(i, j)
      requires (Moved(i - 1) <==> times[i - 1] > 0.0) && (Moved(i) <==> times[i] > 0.0)
      ensures HalvesTheNeighbours(i, j)
    {
      HalfTheMeans(pts[i][j] - pts[i - 1][j], times[i - 1], Mean(i - 1, j),
                   pts[i + 1][j] - pts[i][j], times[i], Mean(i, j), vels[i][j]);
    }

    /** A segment takes as many seconds as it has frames, at the recording's rate. */
    lemma SegmentTakes(i: nat)
      requires Valid() && i < |steps|
      ensures times[i] * fps as real == steps[i] as real
    {
      QuotientTimes(steps[i] as real, fps as real);
    }

    /** A joint that is to arrive and leave at the segment's mean velocity moves in a straight line. */
    lemma SteadyMotionIsStraight(i: nat, j: nat, t: real)
      requires Shaped() && i < |steps| && j < 6 && times[i] > 0.0
      requires vels[i][j] == vels[i + 1][j] == Mean(i, j)
      ensures JointAt(i, j, t) == Mix(pts[i][j], pts[i + 1][j], t)
    {
      var d := pts[i + 1][j] - pts[i][j];
      QuotientTimes(d, times[i]);
      assert Tangent(i, i)[j] == d && Tangent(i, i + 1)[j] == d;
      HermiteOfAChord(pts[i][j], d, t);
    }

    /** Where segment a ends and segment b starts, position and velocity agree in every joint. */
    ghost predicate SmoothJoin(a: nat, b: nat)
      requires Valid() && Moved(a) && Moved(b)
    {
      && pts[a + 1] == pts[b]
      && forall j, v :: 0 <= j < 6 ==> (MovesAt(Motion(a, j), times[a], v) <==> MovesAt(Motion(b, j), 0.0, v))
    }

    lemma JoinFollowsThePlan(a: nat, b: nat)
      requires Valid() && Moved(a) && Moved(b)
      ensures SmoothJoin(a, b) <==> pts[a + 1] == pts[b] && forall j :: 0 <= j < 6 ==> vels[a + 1][j] == vels[b][j]
    {
      forall j, v | 0 <= j < 6
        ensures MovesAt(Motion(a, j), times[a], v) <==> v == vels[a + 1][j]
        ensures MovesAt(Motion(b, j), 0.0, v) <==> v == vels[b][j]
      {
        VelocitiesAreDriven(a, j, v);
        VelocitiesAreDriven(b, j, v);
      }
      if SmoothJoin(a, b) {
        forall j | 0 <= j < 6 ensures vels[a + 1][j] == vels[b][j] {
          assert MovesAt(Motion(b, j), 0.0, vels[a + 1][j]);
        }
      }
    }

    /** Consecutive moved segments join smoothly when no waypoint between them was skipped. Over skipped
        ones they do exactly when the waypoints coincide and the mean velocities agree. */
    lemma JoinIsSmoothExactlyWhen(a: nat, b: nat)
      requires Valid() && Moved(a) && Moved(b) && a < b && forall i :: a < i < b ==> steps[i] == 0
      ensures SmoothJoin(a, b)
          <==> b == a + 1 || (pts[a + 1] == pts[b] && forall j :: 0 <= j < 6 ==> Mean(a, j) == Mean(b, j))
    {
      JoinFollowsThePlan(a, b);
      if b > a + 1 { SkippedJoin(a, b); }
    }

    lemma SkippedJoin(a: nat, b: nat)
      requires Valid() && a + 1 < b < |steps| && forall i :: a < i < b ==> steps[i] == 0
      ensures (forall j :: 0 <= j < 6 ==> vels[a + 1][j] == vels[b][j])
              <==> forall j :: 0 <= j < 6 ==> Mean(a, j) == Mean(b, j)
    {
      forall j | 0 <= j < 6 ensures vels[a + 1][j] == vels[b][j] <==> Mean(a, j) == Mean(b, j) {
        HalvedBesideASkip(a + 1, j);
        HalvedBesideASkip(b, j);
      }
    }

    /** At a waypoint with one skipped neighbour, half the other segment's mean is planned. */
    lemma HalvedBesideASkip(w: nat, j: nat)
      requires Valid() && 0 < w < |pts| - 1 && j < 6
      ensures steps[w] == 0 ==> vels[w][j] == 0.5 * Mean(w - 1, j)
      ensures steps[w - 1] == 0 ==> vels[w][j] == 0.5 * Mean(w, j)
    {
      if steps[w] == 0 { assert Mean(w, j) == 0.0; }
      if steps[w - 1] == 0 { assert Mean(w - 1, j) == 0.0; }
    }

    lemma MeanPointsAlong(i: nat, j: nat)
      requires Shaped() && i < |steps| && j < 6 && times[i] > 0.0
      ensures pts[i + 1][j] > pts[i][j] ==> Mean(i, j) > 0.0
      ensures pts[i + 1][j] < pts[i][j] ==> Mean(i, j) < 0.0
    {
      QuotientKeepsSign(pts[i + 1][j] - pts[i][j], times[i]);
    }

    /** Some joint of a segment that moved has a mean velocity. */
    lemma MovedMeansMoving(i: nat) returns (j: nat)
      requires Valid() && Moved(i)
      ensures j < 6 && Mean(i, j) != 0.0
    {
      var d := LargestUpTo(pts[i], pts[i + 1], 6);
      var w :| 0 <= w < 6 && Abs(pts[i + 1][w] - pts[i][w]) == d;
      j := w;
      MeanPointsAlong(i, j);
    }

    ghost predicate AtRest(i: nat, time: real)
      requires Valid() && Moved(i)
    {
      forall j :: 0 <= j < 6 ==> MovesAt(Motion(i, j), time, 0.0)
    }

    /** The record starts at rest exactly when its first segment is not skipped. */
    lemma StartIsAtRestExactlyWhen(first: nat)
      requires Valid() && Moved(first) && forall i :: 0 <= i < first ==> steps[i] == 0
      ensures AtRest(first, 0.0) <==> first == 0
    {
      forall j | 0 <= j < 6 ensures MovesAt(Motion(first, j), 0.0, 0.0) <==> vels[first][j] == 0.0 {
        VelocitiesAreDriven(first, j, 0.0);
      }
      if first > 0 {
        var j := MovedMeansMoving(first);
        HalvedBesideASkip(first, j);
        assert !MovesAt(Motion(first, j), 0.0, 0.0);
      }
    }

    /** The record stops at rest exactly when its last segment is not skipped. */
    lemma StopIsAtRestExactlyWhen(last: nat)
      requires Valid() && Moved(last) && forall i :: last < i < |steps| ==> steps[i] == 0
      ensures AtRest(last, times[last]) <==> last == |steps| - 1
    {
      forall j | 0 <= j < 6 ensures MovesAt(Motion(last, j), times[last], 0.0) <==> vels[last + 1][j] == 0.0 {
        VelocitiesAreDriven(last, j, 0.0);
      }
      if last < |steps| - 1 {
        var j := MovedMeansMoving(last);
        HalvedBesideASkip(last + 1, j);
        assert !MovesAt(Motion(last, j), times[last], 0.0);
      }
    }

    // ---- the level gripper ----

    lemma MeanIsLevel(i: nat)
      requires Shaped() && i < |steps| && Level(pts[i]) && Level(pts[i + 1])
      ensures Mean(i, 3) + Mean(i, 1) + Mean(i, 2) == 0.0
    {
      if times[i] > 0.0 {
        QuotientsCancel(pts[i + 1][3] - pts[i][3], pts[i + 1][1] - pts[i][1], pts[i + 1][2] - pts[i][2], times[i]);
      }
    }

    lemma VelocityIsLevel(i: nat)
      requires Valid() && i < |pts| && forall k :: 0 <= k < |pts| ==> Level(pts[k])
      ensures vels[i][3] + vels[i][1] + vels[i][2] == 0.0
    {
      if 0 < i < |pts| - 1 {
        MeanIsLevel(i - 1);
        MeanIsLevel(i);
      }
    }

    lemma TangentIsLevel(seg: nat, at: nat)
      requires Shaped() && seg < |steps| && at < |pts| && vels[at][3] + vels[at][1] + vels[at][2] == 0.0
      ensures var m := Tangent(seg, at); m[3] + m[1] + m[2] == 0.0
    {
      ProductsCancel(vels[at][3], vels[at][1], vels[at][2], times[seg]);
    }

    lemma SegmentIsLevel(i: nat, t: real)
      requires Shaped() && i < |steps| && Level(pts[i]) && Level(pts[i + 1])
      requires Tangent(i, i)[3] + Tangent(i, i)[1] + Tangent(i, i)[2] == 0.0
      requires Tangent(i, i + 1)[3] + Tangent(i, i + 1)[1] + Tangent(i, i + 1)[2] == 0.0
      ensures Level(At(i, t))
    {
      LevelSegment(pts[i], Tangent(i, i), pts[i + 1], Tangent(i, i + 1), t);
    }

    /** Between level waypoints the gripper stays level. */
    lemma SplineStaysLevel(i: nat, t: real)
      requires Valid() && i < |steps| && forall k :: 0 <= k < |pts| ==> Level(pts[k])
      ensures Level(At(i, t))
    {
      VelocityIsLevel(i);
      VelocityIsLevel(i + 1);
      TangentIsLevel(i, i);
      TangentIsLevel(i, i + 1);
      SegmentIsLevel(i, t);
    }

    ghost predicate AlwaysLevel(i: nat)
      requires Shaped() && i < |steps|
    {
      forall t :: Level(At(i, t))
    }

    lemma {:induction false} FramesAreLevel(n: nat, k: nat)
      requires Shaped() && n <= |steps| && k < |Frames(n)| && forall i :: 0 <= i < n ==> AlwaysLevel(i)
      ensures Level(Frames(n)[k])
    {
      var before := |Frames(n - 1)|;
      if k < before {
        FramesAreLevel(n - 1, k);
      } else {
        assert AlwaysLevel(n - 1);
        assert Frames(n)[k] == Frame(n - 1, k - before);
      }
    }

    /** With every waypoint level, so is every frame. */
    lemma EveryFrameIsLevel(n: nat, k: nat)
      requires Valid() && n <= |steps| && k < |Frames(n)| && forall i :: 0 <= i < |pts| ==> Level(pts[i])
      ensures Level(Frames(n)[k])
    {
      forall i | 0 <= i < n ensures AlwaysLevel(i) {
        forall t ensures Level(At(i, t)) { SplineStaysLevel(i, t); }
      }
      FramesAreLevel(n, k);
    }
  }

  lemma Ratio(x: real, n: real, fps: real)
    requires n > 0.0 && fps > 0.0
    ensures (x / fps) / (n / fps) == x / n
  {
    var y := x / n;
    assert y * n == x;
    assert y * (n / fps) == x / fps;
  }

  lemma QuotientKeepsSign(x: real, t: real)
    requires t > 0.0
    ensures x > 0.0 ==> x / t > 0.0
    ensures x < 0.0 ==> x / t < 0.0
  {
    assert x / t * t == x;
  }

  lemma QuotientTimes(x: real, t: real)
    requires t > 0.0
    ensures x / t * t == x
  {}

  lemma EvenChord(p: real, q: real, r: real, t: real, u: real, v: real, w: real)
    requires t > 0.0 && u == (q - p) / t && v == (r - q) / t && w == 0.5 * (u + v)
    ensures w == (r - p) / (t + t)
  {
    assert u * t == q - p && v * t == r - q;
    assert w * (t + t) == r - p;
  }

  /** At `v` the chord takes time `t`. */
  ghost predicate Crosses(v: real, t: real, chord: real) {
    v * t == chord
  }

  /** `v` is half the mean velocity of a chord. */
  ghost predicate HalvesTheMean(v: real, chord: real, t: real) {
    2.0 * v * t == chord
  }

  /** `v` is halfway between the mean velocities of two chords, each crossed in its own time. */
  ghost predicate HalvesTheMeans(v: real, back: real, t: real, next: real, u: real) {
    2.0 * v * (t * u) == back * u + next * t
  }

  lemma UnevenChords(back: real, t: real, m: real, next: real, u: real, n: real)
    requires Crosses(m, t, back) && Crosses(n, u, next)
    ensures HalvesTheMeans(0.5 * (m + n), back, t, next, u)
  {
    assert m * t * u == m * (t * u) && n * u * t == n * (t * u);
  }

  lemma HalfTheMeans(back: real, t: real, m: real, next: real, u: real, n: real, v: real)
    requires m == (if t > 0.0 then back / t else 0.0) && n == if u > 0.0 then next / u else 0.0
    requires v == 0.5 * (m + n)
    ensures if t > 0.0 && u > 0.0 then HalvesTheMeans(v, back, t, next, u)
            else if t > 0.0 then HalvesTheMean(v, back, t)
            else if u > 0.0 then HalvesTheMean(v, next, u)
            else v == 0.0
  {
    if t > 0.0 { QuotientTimes(back, t); }
    if u > 0.0 { QuotientTimes(next, u); }
    if t > 0.0 && u > 0.0 { UnevenChords(back, t, m, next, u, n); }
  }

  lemma QuotientsCancel(a: real, b: real, c: real, t: real)
    requires a + b + c == 0.0 && t > 0.0
    ensures a / t + b / t + c / t == 0.0
  {
    assert a / t + b / t + c / t == (a + b + c) / t;
  }

  lemma ProductsCancel(a: real, b: real, c: real, t: real)
    requires a + b + c == 0.0
    ensures a * t + b * t + c * t == 0.0
  {
    assert a * t + b * t + c * t == (a + b + c) * t;
  }

  lemma LevelSegment(p: Vector, m: Vector, q: Vector, w: Vector, t: real)
    requires Level(p) && Level(q) && m[3] + m[1] + m[2] == 0.0 && w[3] + w[1] + w[2] == 0.0
    ensures Hermite(p[3], m[3], q[3], w[3], t) + Hermite(p[1], m[1], q[1], w[1], t) + Hermite(p[2], m[2], q[2], w[2], t)
         == 0.0
  {
    HermitesCancel(p[3], p[1], p[2], m[3], m[1], m[2], q[3], q[1], q[2], w[3], w[1], w[2], t);
  }

  lemma HermitesCancel(a: real, b: real, c: real, ma: real, mb: real, mc: real,
                       d: real, e: real, f: real, md: real, me: real, mf: real, t: real)
    requires a + b + c == d + e + f == 0.0 && ma + mb + mc == md + me + mf == 0.0
    ensures Hermite(a, ma, d, md, t) + Hermite(b, mb, e, me, t) + Hermite(c, mc, f, mf, t) == 0.0
  {
    HermiteOfSums(a, b, c, ma, mb, mc, d, e, f, md, me, mf, t);
    HermiteOfAConstant(0.0, t);
  }

  // ---- recording ----

  const STILL: Vector := [0.0, 0.0, 0.0, 0.0, 0.0, 0.0]

  function MeanVector(from: Vector, to: Vector, time: real): Vector {
    if time > 0.0 then seq(6, j requires 0 <= j < 6 => (to[j] - from[j]) / time) else STILL
  }

  function Seconds(n: nat, fps: nat): (r: real)
    requires fps > 0
    ensures r >= 0.0 && (r > 0.0 <==> n > 0)
  {
    n as real / fps as real
  }

  /** The frames of the first n segments. */
  function StepsTo(pts: seq<Vector>, speeds: seq<real>, fps: nat, n: nat): (r: seq<nat>)
    requires n < |pts| && n <= |speeds|
    requires forall i :: 0 <= i < n ==> speeds[i] != 0.0
    ensures |r| == n
  {
    if n == 0 then []
    else StepsTo(pts, speeds, fps, n - 1) + [Steps(MaxDistance(pts[n - 1], pts[n]), speeds[n - 1], fps)]
  }

  /** Each segment is timed by its own length and its own speed. */
  lemma {:induction false} StepsToAt(pts: seq<Vector>, speeds: seq<real>, fps: nat, n: nat, k: nat)
    requires k < n < |pts| && n <= |speeds|
    requires forall i :: 0 <= i < n ==> speeds[i] != 0.0
    ensures StepsTo(pts, speeds, fps, n)[k] == Steps(MaxDistance(pts[k], pts[k + 1]), speeds[k], fps)
  {
    if k < n - 1 { StepsToAt(pts, speeds, fps, n - 1, k); }
  }

  function AllSeconds(steps: seq<nat>, fps: nat): seq<real>
    requires fps > 0
  {
    seq(|steps|, k requires 0 <= k < |steps| => Seconds(steps[k], fps))
  }

  /** Frames and duration of each segment. */
  method TimeSegments(pts: seq<Vector>, speeds: seq<real>, fps: nat) returns (nSteps: seq<nat>, timestamps: seq<real>)
    requires pts != [] && |speeds| >= |pts| - 1 && fps > 0
    requires forall i :: 0 <= i < |pts| - 1 ==> speeds[i] != 0.0
    ensures nSteps == StepsTo(pts, speeds, fps, |pts| - 1)
    ensures timestamps == AllSeconds(nSteps, fps)
  {
    nSteps, timestamps := [], [];
    for i := 0 to |pts| - 1
      invariant nSteps == StepsTo(pts, speeds, fps, i)
      invariant timestamps == AllSeconds(nSteps, fps)
    {
      var ns := Steps(MaxDistance(pts[i], pts[i + 1]), speeds[i], fps);
      nSteps := nSteps + [ns];
      timestamps := timestamps + [Seconds(ns, fps)];
    }
  }

  /** The velocity at each waypoint; plan has none yet. */
  method PlanVelocities(plan: Plan) returns (vels: seq<Vector>)
    requires |plan.pts| >= 1 && |plan.times| == |plan.pts| - 1
    ensures |vels| >= |plan.pts|
    ensures forall i, j :: 0 <= i < |plan.pts| && 0 <= j < 6 ==> vels[i][j] == plan.Velocity(i, j)
  {
    vels := [STILL];
    var i, n := 1, |plan.pts|;
    while i < n - 1
      invariant 1 <= i && |vels| == i && (i < n || n == 1) && vels[0] == STILL
      invariant forall k, j :: 0 <= k < i && k < n - 1 && 0 <= j < 6 ==> vels[k][j] == plan.Velocity(k, j)
    {
      var prev := MeanVector(plan.pts[i - 1], plan.pts[i], plan.times[i - 1]);
      var next := MeanVector(plan.pts[i], plan.pts[i + 1], plan.times[i]);
      var v: Vector := seq(6, j requires 0 <= j < 6 => 0.5 * (prev[j] + next[j]));
      assert forall j :: 0 <= j < 6 ==> v[j] == plan.Velocity(i, j);
      vels := vels + [v];
      i := i + 1;
    }
    vels := vels + [STILL];
    assert forall j :: 0 <= j < 6 ==> STILL[j] == 0.0;
  }

  /** Frames, durations and velocities for a list of waypoints. */
  method PlanSpline(waypoints: seq<Pose>, speeds: seq<real>, fps: nat) returns (plan: Plan)
    requires waypoints != [] && |speeds| >= |waypoints| - 1 && fps > 0
    requires forall i :: 0 <= i < |waypoints| ==> Complete(waypoints[i])
    requires forall i :: 0 <= i < |waypoints| - 1 ==> speeds[i] != 0.0
    ensures plan.Valid() && plan.fps == fps && plan.Through(waypoints)
    ensures plan.steps == StepsTo(plan.pts, speeds, fps, |waypoints| - 1)
  {
    var n := |waypoints|;
    var pts: seq<Vector> := seq(n, i requires 0 <= i < n => PoseToArray(waypoints[i]));
    var nSteps, timestamps := TimeSegments(pts, speeds, fps);
    plan := Plan(pts, nSteps, fps, timestamps, []);
    ShortOnesAreSkipped(pts, speeds, fps, nSteps);
    var vels := PlanVelocities(plan);
    VelocitiesAreSet(plan, vels);
    plan := plan.(vels := vels);
  }

  lemma ShortOnesAreSkipped(pts: seq<Vector>, speeds: seq<real>, fps: nat, steps: seq<nat>)
    requires pts != [] && |speeds| >= |pts| - 1 && forall i :: 0 <= i < |pts| - 1 ==> speeds[i] != 0.0
    requires steps == StepsTo(pts, speeds, fps, |pts| - 1)
    ensures forall k :: 0 <= k < |steps| ==> (steps[k] == 0 <==> MaxDistance(pts[k], pts[k + 1]) < MIN_TRAVEL)
  {
    forall k | 0 <= k < |steps| ensures steps[k] == 0 <==> MaxDistance(pts[k], pts[k + 1]) < MIN_TRAVEL {
      StepsToAt(pts, speeds, fps, |pts| - 1, k);
    }
  }

  lemma VelocitiesAreSet(plan: Plan, vels: seq<Vector>)
    requires |plan.pts| >= 1 && |plan.times| == |plan.steps| == |plan.pts| - 1 && |vels| >= |plan.pts| && plan.fps > 0
    requires forall i :: 0 <= i < |plan.steps| ==>
               (plan.steps[i] == 0 <==> MaxDistance(plan.pts[i], plan.pts[i + 1]) < MIN_TRAVEL)
    requires forall i :: 0 <= i < |plan.steps| ==> plan.times[i] == plan.Duration(i)
    requires forall i, j :: 0 <= i < |plan.pts| && 0 <= j < 6 ==> vels[i][j] == plan.Velocity(i, j)
    ensures plan.(vels := vels).Valid()
  {
    var q := plan.(vels := vels);
    forall i, j | 0 <= i < |plan.pts| && 0 <= j < 6 ensures q.vels[i][j] == q.Velocity(i, j) {
      assert q.Velocity(i, j) == plan.Velocity(i, j);
    }
  }

  function Poses(frames: seq<Vector>): seq<Pose> {
    seq(|frames|, i requires 0 <= i < |frames| => ArrayToPose(frames[i]))
  }

  /** Drives and records the frames of one segment. */
  method DriveSegment(plan: Plan, seg: nat) returns (sent: seq<Pose>)
    requires plan.Shaped() && seg < |plan.steps|
    ensures |sent| == plan.steps[seg]
    ensures forall k :: 0 <= k < |sent| ==> sent[k] == ArrayToPose(plan.Frame(seg, k))
  {
    sent := [];
    var ns := plan.steps[seg];
    if ns == 0 { return; }
    var p0, p1 := plan.pts[seg], plan.pts[seg + 1];
    var m0, m1 := plan.Tangent(seg, seg), plan.Tangent(seg, seg + 1);
    for step := 1 to ns + 1
      invariant |sent| == step - 1
      invariant forall k :: 0 <= k < |sent| ==> sent[k] == ArrayToPose(plan.Frame(seg, k))
    {
      var t := step as real / ns as real;
      var commanded: Vector := seq(6, j requires 0 <= j < 6 => Hermite(p0[j], m0[j], p1[j], m1[j], t));
      assert forall j :: 0 <= j < 6 ==> commanded[j] == plan.JointAt(seg, j, t);
      assert commanded == plan.Frame(seg, step - 1);
      sent := sent + [ArrayToPose(commanded)];
    }
  }

  /** Drives and records every frame of every segment. */
  method Drive(plan: Plan) returns (sent: seq<Pose>)
    requires plan.Shaped()
    ensures sent == Poses(plan.Frames(|plan.steps|))
  {
    sent := [];
    for seg := 0 to |plan.steps|
      invariant sent == Poses(plan.Frames(seg))
    {
      var frames := DriveSegment(plan, seg);
      plan.PosesGrow(seg, frames);
      sent := sent + frames;
    }
  }

  /** What is sent is the planned spline. With level waypoints every action is level, and the record ends
      on the last waypoint unless the last segment is skipped. */
  method RecordEpisodeSpline(waypoints: seq<Pose>, speeds: seq<real>, fps: nat) returns (sent: seq<Pose>, plan: Plan)
    requires waypoints != [] && |speeds| >= |waypoints| - 1 && fps > 0
    requires forall i :: 0 <= i < |waypoints| ==> Complete(waypoints[i])
    requires forall i :: 0 <= i < |waypoints| - 1 ==> speeds[i] != 0.0
    ensures plan.Valid() && plan.Through(waypoints) && plan.steps == StepsTo(plan.pts, speeds, fps, |waypoints| - 1)
    ensures sent == Poses(plan.Frames(|plan.steps|))
    ensures (forall i :: 0 <= i < |waypoints| ==> Horizontal(waypoints[i])) ==>
              forall k :: 0 <= k < |sent| ==> Horizontal(sent[k])
    ensures |waypoints| > 1 && plan.steps[|plan.steps| - 1] > 0 ==>
              sent != [] && sent[|sent| - 1] == waypoints[|waypoints| - 1]
  {
    plan := PlanSpline(waypoints, speeds, fps);
    sent := Drive(plan);
    RecordIsLevel(waypoints, plan, sent);
    RecordEndsOnTheLastWaypoint(waypoints, plan, sent);
  }

  lemma RecordIsLevel(waypoints: seq<Pose>, plan: Plan, sent: seq<Pose>)
    requires plan.Valid() && plan.Through(waypoints) && sent == Poses(plan.Frames(|plan.steps|))
    ensures (forall i :: 0 <= i < |waypoints| ==> Horizontal(waypoints[i])) ==>
              forall k :: 0 <= k < |sent| ==> Horizontal(sent[k])
  {
    var n := |plan.steps|;
    if forall i :: 0 <= i < |waypoints| ==> Horizontal(waypoints[i]) {
      forall k | 0 <= k < |plan.Frames(n)| ensures Level(plan.Frames(n)[k]) { plan.EveryFrameIsLevel(n, k); }
    }
  }

  lemma RecordEndsOnTheLastWaypoint(waypoints: seq<Pose>, plan: Plan, sent: seq<Pose>)
    requires plan.Shaped() && plan.Through(waypoints) && sent == Poses(plan.Frames(|plan.steps|))
    ensures |waypoints| > 1 && plan.steps[|plan.steps| - 1] > 0 ==>
              sent != [] && sent[|sent| - 1] == waypoints[|waypoints| - 1]
  {
    var n := |plan.steps|;
    if n > 0 && plan.steps[n - 1] > 0 {
      plan.RecordEndsOnAWaypoint(n - 1, n);
      PosesAndArraysAgree(waypoints[n], plan.pts[n]);
    }
  }

  // ---- a skipped segment ----

  function Pan(x: real): Vector { [x, 0.0, 0.0, 0.0, 0.0, 0.0] }

  /** Waypoints 0, 10, 10.25 and 5 in one joint: the middle segment is skipped, so the record jumps there,
      arriving forwards and leaving backwards. */
  lemma SkippingBreaksTheCurve(plan: Plan)
    requires plan.Valid() && plan.pts == [Pan(0.0), Pan(10.0), Pan(10.25), Pan(5.0)]
    ensures plan.Moved(0) && !plan.Moved(1) && plan.Moved(2) && !plan.SmoothJoin(0, 2)
    ensures plan.vels[1][0] > 0.0 > plan.vels[2][0]
  {
    PanMoved(plan, 0, 0.0, 10.0);
    PanMoved(plan, 1, 10.0, 10.25);
    PanMoved(plan, 2, 10.25, 5.0);
    JumpIsNotSmooth(plan, 0, 2);
    ReversesOverASkip(plan);
  }

  lemma PanMoved(plan: Plan, i: nat, x: real, y: real)
    requires plan.Valid() && i < |plan.steps| && plan.pts[i] == Pan(x) && plan.pts[i + 1] == Pan(y)
    ensures plan.Moved(i) <==> Abs(y - x) >= MIN_TRAVEL
  {
    PanDistance(x, y);
  }

  lemma JumpIsNotSmooth(plan: Plan, a: nat, b: nat)
    requires plan.Valid() && plan.Moved(a) && plan.Moved(b) && plan.pts[a + 1][0] != plan.pts[b][0]
    ensures !plan.SmoothJoin(a, b)
  {}

  lemma ReversesOverASkip(plan: Plan)
    requires plan.Valid() && |plan.pts| == 4 && plan.Moved(0) && !plan.Moved(1) && plan.Moved(2)
    requires plan.pts[1][0] > plan.pts[0][0] && plan.pts[3][0] < plan.pts[2][0]
    ensures plan.vels[1][0] > 0.0 > plan.vels[2][0]
  {
    plan.HalvedBesideASkip(1, 0);
    plan.HalvedBesideASkip(2, 0);
    plan.MeanPointsAlong(0, 0);
    plan.MeanPointsAlong(2, 0);
  }

  lemma PanDistance(x: real, y: real)
    ensures MaxDistance(Pan(x), Pan(y)) == Abs(y - x)
  {
    var d := LargestUpTo(Pan(x), Pan(y), 6);
    assert Abs(Pan(y)[0] - Pan(x)[0]) <= d;
  }
}
