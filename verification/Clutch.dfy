/** The engage-relative clutch and the hold latch of the XR teleoperation loop
    (clutch.py, common.py, teleoperate.py). Rotations are the elements of any group. */
module Clutch {
  import opened Wrappers

  datatype Vec = Vec(x: real, y: real, z: real) {
    function Plus(o: Vec): Vec { Vec(x + o.x, y + o.y, z + o.z) }

    function Minus(o: Vec): Vec { Vec(x - o.x, y - o.y, z - o.z) }
  }

  datatype Rotations<!R(!new)> = Rotations(mul: (R, R) -> R, inv: R -> R, one: R) {
    ghost predicate IsGroup() {
      Associates() && LeftUnit() && RightUnit() && Inverts()
    }

    ghost predicate Associates() { forall a, b, c :: mul(mul(a, b), c) == mul(a, mul(b, c)) }

    ghost predicate LeftUnit() { forall a :: mul(one, a) == a }

    ghost predicate RightUnit() { forall a :: mul(a, one) == a }

    ghost predicate Inverts() { forall a :: mul(a, inv(a)) == one && mul(inv(a), a) == one }
  }

  /** The clutch's fields. */
  datatype State<R> = State(lastPos: Vec, lastRot: R, homePos: Vec, homeRot: R, originPos: Vec, originRot: R)

  function Engaged<R(!new)>(s: State<R>, gripPos: Vec, gripRot: R, measured: Option<Vec>): State<R> {
    s.(homePos := if measured.Some? then measured.value else s.lastPos, homeRot := s.lastRot,
       originPos := gripPos, originRot := gripRot)
  }

  function Rebased<R(!new)>(g: Rotations<R>, s: State<R>, gripPos: Vec, gripRot: R): State<R> {
    s.(lastPos := s.homePos.Plus(gripPos.Minus(s.originPos)),
       lastRot := g.mul(g.mul(gripRot, g.inv(s.originRot)), s.homeRot))
  }

  /** Engaging moves nothing by itself: with the hand where it was, the first target keeps the orientation
      last commanded, at the measured position if there is one and at the last commanded one if not. */
  lemma EngagingMovesNothing<R(!new)>(
      g: Rotations<R>, s: State<R>, gripPos: Vec, gripRot: R, measured: Option<Vec>)
    requires g.LeftUnit() && g.mul(gripRot, g.inv(gripRot)) == g.one
    ensures var t := Rebased(g, Engaged(s, gripPos, gripRot, measured), gripPos, gripRot);
            t.lastRot == s.lastRot && t.lastPos == if measured.Some? then measured.value else s.lastPos
  {
  }

  class ClutchDevice<R(!new)> {
    const g: Rotations<R>
    var lastCommandedPos: Vec
    var lastCommandedRot: R
    var homePos: Vec
    var homeRot: R
    var originPos: Vec
    var originRot: R

    ghost function Fields(): State<R>
      reads this
    {
      State(lastCommandedPos, lastCommandedRot, homePos, homeRot, originPos, originRot)
    }

    constructor (g: Rotations<R>, pos: Vec, rot: R)
      ensures this.g == g
      ensures Fields() == State(pos, rot, pos, rot, Vec(0.0, 0.0, 0.0), g.one)
    {
      this.g := g;
      lastCommandedPos, lastCommandedRot := pos, rot;
      homePos, homeRot := pos, rot;
      originPos, originRot := Vec(0.0, 0.0, 0.0), g.one;
    }

    method Engage(gripPos: Vec, gripRot: R, measured: Option<Vec>)
      modifies this
      ensures Fields() == Engaged(old(Fields()), gripPos, gripRot, measured)
    {
      if measured.Some? {
        homePos := measured.value;
      } else {
        homePos := lastCommandedPos;
      }
      homeRot := lastCommandedRot;
      originPos := gripPos;
      originRot := gripRot;
    }

    method Rebase(gripPos: Vec, gripRot: R) returns (pos: Vec, rot: R)
      modifies this
      ensures Fields() == Rebased(g, old(Fields()), gripPos, gripRot)
      ensures pos == lastCommandedPos && rot == lastCommandedRot
    {
      pos := homePos.Plus(gripPos.Minus(originPos));
      var rotCtrl := gripRot;
      rot := g.mul(g.mul(rotCtrl, g.inv(originRot)), homeRot);
      lastCommandedPos := pos;
      lastCommandedRot := rot;
    }
  }

  // ---- the loop around it ----

  type Joints = seq<real>

  /** One frame: is the clutch squeezed, the controller's grip, and the measured joints. */
  datatype Frame<R> = Frame(enabled: bool, gripPos: Vec, gripRot: R, joints: Joints)

  /** What the loop sends: an end-effector target for the pipeline, or a joint pose to hold. */
  datatype Action<R> = Track(pos: Vec, rot: R) | Hold(joints: Joints)

  datatype Loop<R> = Loop(clutch: State<R>, prevEnabled: bool, held: Option<Joints>)

  /** Forward kinematics, position part. */
  type Kinematics = Joints -> Vec

  /** `compute` followed by `HoldLatch.resolve`. */
  function OnFrame<R(!new)>(g: Rotations<R>, fk: Kinematics, l: Loop<R>, f: Frame<R>): (Loop<R>, Action<R>) {
    var clutch := if f.enabled && !l.prevEnabled then Engaged(l.clutch, f.gripPos, f.gripRot, Some(fk(f.joints)))
                  else l.clutch;
    if f.enabled then
      var moved := Rebased(g, clutch, f.gripPos, f.gripRot);
      (Loop(moved, true, None), Track(moved.lastPos, moved.lastRot))
    else
      var held := if l.held.None? then f.joints else l.held.value;
      (Loop(clutch, false, Some(held)), Hold(held))
  }

  class HoldLatch<R(!new)> {
    var held: Option<Joints>

    constructor ()
      ensures held == None
    {
      held := None;
    }

    method Resolve(action: Option<Action<R>>, joints: Joints) returns (out: Action<R>)
      modifies this
      ensures action.Some? ==> out == action.value && held == None
      ensures action.None? ==> held == Some(if old(held).None? then joints else old(held).value)
                               && out == Hold(held.value)
    {
      if action.Some? {
        held := None;
        return action.value;
      }
      if held.None? {
        held := Some(joints);
      }
      out := Hold(held.value);
    }
  }

  class Teleop<R(!new)> {
    const clutch: ClutchDevice<R>
    const latch: HoldLatch<R>
    const fk: Kinematics
    var prevEnabled: bool

    ghost function Fields(): Loop<R>
      reads this, clutch, latch
    {
      Loop(clutch.Fields(), prevEnabled, latch.held)
    }

    constructor (g: Rotations<R>, fk: Kinematics, startPos: Vec, startRot: R)
      ensures fresh(clutch) && fresh(latch) && clutch.g == g && this.fk == fk
      ensures Fields() == Start(g, startPos, startRot)
    {
      clutch := new ClutchDevice(g, startPos, startRot);
      latch := new HoldLatch();
      this.fk := fk;
      prevEnabled := false;
    }

    method Compute(f: Frame<R>) returns (action: Option<Action<R>>)
      modifies this, clutch
      ensures latch.held == old(latch.held)
      ensures var (l, a) := OnFrame(clutch.g, fk, old(Fields()), f);
              && clutch.Fields() == l.clutch && prevEnabled == l.prevEnabled
              && action == if f.enabled then Some(a) else None
    {
      var isEngageFrame := f.enabled && !prevEnabled;
      if isEngageFrame {
        clutch.Engage(f.gripPos, f.gripRot, Some(fk(f.joints)));
      }
      prevEnabled := f.enabled;
      if !f.enabled {
        return None;
      }
      var pos, rot := clutch.Rebase(f.gripPos, f.gripRot);
      action := Some(Track(pos, rot));
    }

    method Step(f: Frame<R>) returns (action: Action<R>)
      modifies this, clutch, latch
      ensures (Fields(), action) == OnFrame(clutch.g, fk, old(Fields()), f)
    {
      var computed := Compute(f);
      action := latch.Resolve(computed, f.joints);
    }
  }

  function Start<R(!new)>(g: Rotations<R>, pos: Vec, rot: R): Loop<R> {
    Loop(State(pos, rot, pos, rot, Vec(0.0, 0.0, 0.0), g.one), false, None)
  }

  // ---- whole runs ----

  datatype Run<!R(!new)> = Run(g: Rotations<R>, fk: Kinematics, startPos: Vec, startRot: R, frames: seq<Frame<R>>) {
    /** The loop's memory after `k` frames. */
    function After(k: nat): Loop<R>
      requires k <= |frames|
    {
      if k == 0 then Start(g, startPos, startRot) else OnFrame(g, fk, After(k - 1), frames[k - 1]).0
    }

    function Sent(k: nat): Action<R>
      requires k < |frames|
    {
      OnFrame(g, fk, After(k), frames[k]).1
    }

    /** The first frame of the stretch, engaged or idle, that frame `k` belongs to. */
    function StretchStart(k: nat): (e: nat)
      requires k < |frames|
      ensures e <= k && forall j | e <= j <= k :: frames[j].enabled == frames[k].enabled
      ensures e > 0 ==> frames[e - 1].enabled != frames[k].enabled
    {
      if k == 0 || frames[k - 1].enabled != frames[k].enabled then k else StretchStart(k - 1)
    }

    /** The controller's rotation over each engaged stretch so far, in order. */
    function Deltas(k: nat): seq<R>
      requires k <= |frames|
    {
      if k == 0 then []
      else if !frames[k - 1].enabled then Deltas(k - 1)
      else
        var e := StretchStart(k - 1);
        Deltas(e) + [g.mul(frames[k - 1].gripRot, g.inv(frames[e].gripRot))]
    }

    /** d_n * ... * d_1. */
    function Product(ds: seq<R>): R {
      if ds == [] then g.one else g.mul(ds[|ds| - 1], Product(ds[..|ds| - 1]))
    }

    lemma {:induction false} PrevEnabledIsTheLastFrame(k: nat)
      requires k <= |frames|
      ensures After(k).prevEnabled == (k > 0 && frames[k - 1].enabled)
    {
    }

    /** During an engaged stretch the clutch keeps what it latched at the stretch's first frame. */
    lemma {:induction false} LatchedAtTheEdge(k: nat)
      requires k < |frames| && frames[k].enabled
      ensures var (e, c) := (StretchStart(k), After(k + 1).clutch);
              && c.homePos == fk(frames[e].joints) && c.homeRot == After(e).clutch.lastRot
              && c.originPos == frames[e].gripPos && c.originRot == frames[e].gripRot
    {
      PrevEnabledIsTheLastFrame(k);
      if StretchStart(k) < k {
        LatchedAtTheEdge(k - 1);
      }
    }

    /** The commanded orientation is the ordered product of the stretches' controller rotations,
        applied to the startup orientation. */
    lemma OrientationIsTheProduct(k: nat)
      requires g.IsGroup() && k <= |frames|
      ensures After(k).clutch.lastRot == g.mul(Product(Deltas(k)), startRot)
    {
      OrientationAccumulates(k);
    }

    lemma {:induction false} OrientationAccumulates(k: nat)
      requires g.Associates() && g.LeftUnit() && k <= |frames|
      ensures After(k).clutch.lastRot == g.mul(Product(Deltas(k)), startRot)
    {
      if k > 0 {
        if frames[k - 1].enabled {
          var e := StretchStart(k - 1);
          LatchedAtTheEdge(k - 1);
          OrientationAccumulates(e);
          var d := g.mul(frames[k - 1].gripRot, g.inv(frames[e].gripRot));
          assert Deltas(k)[..|Deltas(e)|] == Deltas(e);
          assert g.mul(g.mul(d, Product(Deltas(e))), startRot) == g.mul(d, g.mul(Product(Deltas(e)), startRot));
        } else {
          PrevEnabledIsTheLastFrame(k - 1);
          OrientationAccumulates(k - 1);
        }
      }
    }

    /** No jump at an engage edge: the first target of a stretch has the orientation last commanded
        and the position measured. */
    lemma NoJumpAtTheEdge(k: nat)
      requires g.IsGroup() && k < |frames| && frames[k].enabled && StretchStart(k) == k
      ensures Sent(k) == Track(fk(frames[k].joints), After(k).clutch.lastRot)
    {
      FirstTarget(k);
    }

    lemma FirstTarget(k: nat)
      requires k < |frames| && frames[k].enabled && StretchStart(k) == k
      requires g.LeftUnit() && g.mul(frames[k].gripRot, g.inv(frames[k].gripRot)) == g.one
      ensures Sent(k) == Track(fk(frames[k].joints), After(k).clutch.lastRot)
    {
      PrevEnabledIsTheLastFrame(k);
    }

    /** Within a stretch the target follows the hand: the measured start plus the grip's displacement,
        and the last commanded orientation turned by the controller's own rotation. */
    lemma TargetFollowsTheHand(k: nat)
      requires k < |frames| && frames[k].enabled
      ensures var e := StretchStart(k);
              Sent(k) == Track(fk(frames[e].joints).Plus(frames[k].gripPos.Minus(frames[e].gripPos)),
                               g.mul(g.mul(frames[k].gripRot, g.inv(frames[e].gripRot)), After(e).clutch.lastRot))
    {
      LatchedAtTheEdge(k);
      PrevEnabledIsTheLastFrame(k);
      assert After(k + 1) == OnFrame(g, fk, After(k), frames[k]).0;
    }

    /** Every action of an idle stretch is the pose measured on its first frame. */
    lemma {:induction false} IdleHoldsTheFirstPose(k: nat)
      requires k < |frames| && !frames[k].enabled
      ensures Sent(k) == Hold(frames[StretchStart(k)].joints)
      ensures After(k + 1).held == Some(frames[StretchStart(k)].joints)
    {
      assert After(k + 1) == OnFrame(g, fk, After(k), frames[k]).0;
      if StretchStart(k) < k {
        IdleHoldsTheFirstPose(k - 1);
      } else {
        assert After(k).held == None by {
          if k > 0 { assert After(k) == OnFrame(g, fk, After(k - 1), frames[k - 1]).0; }
        }
      }
    }
  }
}
