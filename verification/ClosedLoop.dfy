/** The whole loop of run_motion on an obedient robot: guard, command vector, motion,
    wrapped odometry, continuous yaw, progress, and back to the guard. */
module ClosedLoop {
  import opened Basics
  import opened MotionKinds
  import opened MotionGuards
  import opened GuardHistory
  import opened GuardEnvelope
  import opened ExactTracking
  import opened BenchGeometry
  import opened GuardVerdicts

  const MAX_LIN_MPS := 0.5
  const MAX_LAT_MPS := 0.3
  const MAX_ANG_RADPS := 0.5
  const MAX_DIST_M := 2.0
  const MAX_ANGLE_DEG := 180.0

  /** The console's ceiling for a kind (check_speed refuses anything above it). */
  function Ceiling(kind: Kind): real {
    match kind.Axis()
    case AxisX => MAX_LIN_MPS
    case AxisY => MAX_LAT_MPS
    case AxisYaw => MAX_ANG_RADPS
  }

  /** The longest motion of a kind, in metres or radians (do_motion refuses anything longer). */
  function Longest(kind: Kind, pi: real): real {
    if kind.Turns() then Radians(MAX_ANGLE_DEG, pi) else MAX_DIST_M
  }

  /** Odometry reports the wrapped yaw. */
  function YawSamples(poses: seq<Pose>, pi: real): (s: seq<real>)
    requires pi > 0.0
    ensures |s| == |poses|
    ensures forall i :: 0 <= i < |poses| ==> s[i] == WrapPi(poses[i].yaw, pi)
  {
    seq(|poses|, i requires 0 <= i < |poses| => WrapPi(poses[i].yaw, pi))
  }

  function Reported(p: Pose, pi: real): Pose
    requires pi > 0.0
  {
    p.(yaw := WrapPi(p.yaw, pi))
  }

  /** What run_motion hands the guard at the last of these poses: the unwrapper is created from the
      start pose and fed every sample since. */
  function Observed(kind: Kind, h: Heading, poses: seq<Pose>, walked: real, pi: real): (real, real)
    requires pi > 0.0 && poses != []
  {
    var start := Reported(poses[0], pi);
    var last := poses[|poses| - 1];
    var continuous := FeedAll(Yaw(start.yaw, start.yaw), YawSamples(poses, pi), pi).total;
    ProgressOf(kind, start, h, Pose(last.x, last.y, continuous), walked)
  }

  /** The robot executes each commanded velocity exactly for one tick. A translation never turns it,
      so the start heading stays its heading; a turn never walks it. */
  ghost predicate Obeys(kind: Kind, h: Heading, poses: seq<Pose>, scalars: seq<real>) {
    |poses| == |scalars|
    && forall i :: 0 < i < |poses| ==>
         poses[i] == Displace(poses[i - 1], h, CommandVector(kind, scalars[i - 1] * TICK_S))
  }

  /** A run of the console loop in which nothing external intervenes. */
  ghost predicate LoopRun(kind: Kind, lim: Limits, h: Heading, poses: seq<Pose>, walked: seq<real>,
                          ticks: seq<Tick>, pi: real)
    requires lim.speed > 0.0 && pi > 0.0
  {
    && |poses| == |walked| == |ticks| && OnGrid(ticks)
    && Obeys(kind, h, poses, Scalars(lim, ticks))
    && (forall i :: 0 <= i < |poses| ==> IsHypot(walked[i], poses[0], poses[i]))
    && (forall i :: 0 <= i < |ticks| ==> Benign(ticks[i].(offAxis := 0.0)))
    && forall i :: 0 <= i < |ticks| ==>
         (ticks[i].progress, ticks[i].offAxis) == Observed(kind, h, poses[..i + 1], walked[i], pi)
  }

  lemma DisplaceTwice(p: Pose, h: Heading, kind: Kind, a: real, b: real)
    ensures Displace(Displace(p, h, CommandVector(kind, a)), h, CommandVector(kind, b))
         == Displace(p, h, CommandVector(kind, a + b))
  {
    var va, vb, v := CommandVector(kind, a), CommandVector(kind, b), CommandVector(kind, a + b);
    assert v.vx == va.vx + vb.vx && v.vy == va.vy + vb.vy && v.wz == va.wz + vb.wz;
    WorldIsAdditive(h, va.vx, va.vy, vb.vx, vb.vy);
  }

  lemma WorldIsAdditive(h: Heading, x1: real, y1: real, x2: real, y2: real)
    ensures WorldX(h, x1 + x2, y1 + y2) == WorldX(h, x1, y1) + WorldX(h, x2, y2)
    ensures WorldY(h, x1 + x2, y1 + y2) == WorldY(h, x1, y1) + WorldY(h, x2, y2)
  {
  }

  /** An obedient robot is always the commanded travel away from where it started. */
  lemma {:induction false} ObedientPose(kind: Kind, h: Heading, poses: seq<Pose>, scalars: seq<real>, i: nat)
    requires Obeys(kind, h, poses, scalars) && i < |poses|
    ensures poses[i] == Displace(poses[0], h, CommandVector(kind, TravelOf(scalars[..i])))
  {
    hide Displace, CommandVector;
    if i == 0 {
      assert scalars[..0] == [];
      NoDisplacement(poses[0], h, kind);
    } else {
      ObedientPose(kind, h, poses, scalars, i - 1);
      assert scalars[..i][..i - 1] == scalars[..i - 1];
      assert TravelOf(scalars[..i]) == TravelOf(scalars[..i - 1]) + scalars[i - 1] * TICK_S;
      DisplaceTwice(poses[0], h, kind, TravelOf(scalars[..i - 1]), scalars[i - 1] * TICK_S);
    }
  }

  lemma NoDisplacement(p: Pose, h: Heading, kind: Kind)
    ensures Displace(p, h, CommandVector(kind, 0.0)) == p
  {
  }

  /** Samples of an obedient robot unwrap to its true turn. */
  lemma {:induction false} ContinuousYaw(kind: Kind, h: Heading, poses: seq<Pose>, scalars: seq<real>, pi: real)
    requires pi > 3.0 && poses != [] && Obeys(kind, h, poses, scalars)
    requires forall i :: 0 <= i < |scalars| ==> 0.0 <= scalars[i] <= 1.0
    ensures var s := YawSamples(poses, pi);
            FeedAll(Yaw(s[0], s[0]), s, pi).total - s[0] == poses[|poses| - 1].yaw - poses[0].yaw
  {
    hide WrapPi, Turns, FeedAll;
    var s := YawSamples(poses, pi);
    var yaws := seq(|poses|, i requires 0 <= i < |poses| => poses[i].yaw);
    forall i | 0 <= i < |poses| ensures Congruent(s[i], yaws[i], pi) {
      WrapIsCongruent(poses[i].yaw, pi);
    }
    forall i | 0 < i < |poses| ensures -pi < yaws[i] - yaws[i - 1] < pi {
      assert poses[i].yaw == poses[i - 1].yaw + CommandVector(kind, scalars[i - 1] * TICK_S).wz;
    }
    UnwrapIsExact(yaws, s, Yaw(s[0], s[0]), pi);
  }

  lemma WrapIsCongruent(a: real, pi: real)
    requires pi > 0.0
    ensures Congruent(WrapPi(a, pi), a, pi)
  {
    var k := Turns(a, pi);
    assert (-k) as real * (2.0 * pi) == -(k as real * (2.0 * pi));
    assert IsTurns(WrapPi(a, pi), a, -k, pi);
  }

  /** The observed progress of an obedient robot is the commanded travel, with no off-axis part. */
  lemma ObservedIsTravel(kind: Kind, h: Heading, poses: seq<Pose>, scalars: seq<real>, walked: real, pi: real)
    requires pi > 3.0 && Unit(h) && poses != [] && Obeys(kind, h, poses, scalars)
    requires forall i :: 0 <= i < |scalars| ==> 0.0 <= scalars[i] <= 1.0
    requires IsHypot(walked, poses[0], poses[|poses| - 1])
    ensures Observed(kind, h, poses, walked, pi) == (TravelOf(scalars[..|poses| - 1]), 0.0)
  {
    hide WrapPi, FeedAll, TravelOf, IsHypot, Displace;
    var last := |poses| - 1;
    var d := TravelOf(scalars[..last]);
    ObedientPose(kind, h, poses, scalars, last);
    CommandMakesProgress(kind, poses[0], h, d, walked);
    ContinuousYaw(kind, h, poses, scalars, pi);
    var s := YawSamples(poses, pi);
    var continuous := FeedAll(Yaw(s[0], s[0]), s, pi).total;
    ProgressIsRelative(kind, h, poses[0], poses[last], s[0], continuous, walked);
  }

  /** Progress depends on yaws only through their difference. */
  lemma ProgressIsRelative(kind: Kind, h: Heading, start: Pose, now: Pose, yaw0: real, yaw: real, walked: real)
    requires yaw - yaw0 == now.yaw - start.yaw
    ensures ProgressOf(kind, start.(yaw := yaw0), h, Pose(now.x, now.y, yaw), walked)
         == ProgressOf(kind, start, h, now, walked)
  {
  }

  /** Speeds the console accepts are fine enough for the taper, for every kind. */
  lemma CeilingIsFine(kind: Kind, amount: real, speed: real, pi: real)
    requires amount > 0.0 && 0.0 < speed <= Ceiling(kind) && pi > 3.0
    ensures var lim := LimitsOf(kind, amount, speed, pi).value; ValidLimits(lim) && FineTaper(lim)
  {
  }

  /** The loop closes: an obedient robot is an exactly tracking one. */
  lemma {:induction false} LoopTracks(kind: Kind, lim: Limits, h: Heading, poses: seq<Pose>, walked: seq<real>,
                   ticks: seq<Tick>, pi: real)
    requires pi > 3.0 && Unit(h) && ValidLimits(lim) && lim.speed <= 1.0
    requires LoopRun(kind, lim, h, poses, walked, ticks, pi)
    ensures Tracks(lim, ticks)
  {
    hide Run, Scalars, Observed, TravelOf, Displace, IsHypot;
    var scalars := Scalars(lim, ticks);
    GridIsNondecreasing(ticks);
    ScalarsWithinSpeed(lim, ticks);
    forall i | 0 <= i < |ticks|
      ensures ticks[i].progress == TravelOf(scalars[..i]) && ticks[i].offAxis == 0.0
    {
      assert Obeys(kind, h, poses[..i + 1], scalars[..i + 1]);
      assert scalars[..i + 1][..i] == scalars[..i];
      ObservedIsTravel(kind, h, poses[..i + 1], scalars[..i + 1], walked[i], pi);
    }
    TravelIncrements(scalars);
  }

  lemma TravelIncrements(scalars: seq<real>)
    ensures TravelOf(scalars[..0]) == 0.0
    ensures forall i :: 0 < i <= |scalars| ==>
              TravelOf(scalars[..i]) == TravelOf(scalars[..i - 1]) + scalars[i - 1] * TICK_S
  {
    forall i | 0 < i <= |scalars|
      ensures TravelOf(scalars[..i]) == TravelOf(scalars[..i - 1]) + scalars[i - 1] * TICK_S
    {
      assert scalars[..i][..i - 1] == scalars[..i - 1];
    }
  }

  lemma {:induction false} ScalarsWithinSpeed(lim: Limits, ticks: seq<Tick>)
    requires ValidLimits(lim) && Nondecreasing(ticks)
    ensures forall i :: 0 <= i < |ticks| ==> 0.0 <= Scalars(lim, ticks)[i] <= lim.speed
  {
    hide Run, Command;
    if ticks != [] {
      ScalarsWithinSpeed(lim, Front(ticks));
      ScalarStaysInEnvelope(lim, ticks);
    }
  }

  /** The console's promise for an obedient robot: whatever the start pose and however often the yaw
      crosses the seam, an accepted motion is never stopped by mistake, never passes its target, and is
      still running only while it is well inside its timeout. */
  lemma {:induction false} ObedientRobotArrives(kind: Kind, amount: real, speed: real, h: Heading, poses: seq<Pose>,
                             walked: seq<real>, ticks: seq<Tick>, pi: real)
    requires amount > 0.0 && 0.0 < speed <= Ceiling(kind) && pi > 3.0 && Unit(h) && ticks != []
    requires LoopRun(kind, LimitsOf(kind, amount, speed, pi).value, h, poses, walked, ticks, pi)
    ensures var lim := LimitsOf(kind, amount, speed, pi).value;
            var ended := Run(lim, ticks).0.ended;
            && (ended.None? || ended == Some(Done))
            && 0.0 <= Now(ticks).progress <= amount
            && (ended == Some(Done) ==> Now(ticks).progress >= amount - NearEnough(kind, pi))
            && (ended.None? ==> Elapsed(ticks) + 0.05 < 2.0 * (amount / speed) + 3.0)
  {
    hide Run, LoopRun, Tracks;
    var lim := LimitsOf(kind, amount, speed, pi).value;
    CeilingIsFine(kind, amount, speed, pi);
    LoopTracks(kind, lim, h, poses, walked, ticks, pi);
    RequestInFigures(kind, amount, speed, pi);
    ExactTrackingIsSafe(lim, ticks);
  }

  // -- and it does arrive ------------------------------------------------------------------------

  lemma WalkedByCommand(kind: Kind, start: Pose, h: Heading, d: real)
    requires Unit(h)
    ensures IsHypot(if kind.Turns() then 0.0 else Abs(d), start, Displace(start, h, CommandVector(kind, d)))
  {
    var v := kind.Sign() * d;
    SquaredLength(h.c, h.s, v);
    assert v * v == d * d;
  }

  lemma SquaredLength(c: real, s: real, v: real)
    requires c * c + s * s == 1.0
    ensures (v * c) * (v * c) + (v * s) * (v * s) == v * v
  {
    assert (v * c) * (v * c) + (v * s) * (v * s) == v * v * (c * c + s * s);
  }

  /** Where a robot with this progress stands, on the way from `start`. */
  function PosesOf(kind: Kind, h: Heading, start: Pose, ticks: seq<Tick>): (poses: seq<Pose>)
    ensures |poses| == |ticks|
    ensures forall i :: 0 <= i < |ticks| ==> poses[i] == Displace(start, h, CommandVector(kind, ticks[i].progress))
  {
    seq(|ticks|, i requires 0 <= i < |ticks| => Displace(start, h, CommandVector(kind, ticks[i].progress)))
  }

  function WalkedOf(kind: Kind, ticks: seq<Tick>): (walked: seq<real>)
    ensures |walked| == |ticks|
    ensures forall i :: 0 <= i < |ticks| ==> walked[i] == if kind.Turns() then 0.0 else Abs(ticks[i].progress)
  {
    seq(|ticks|, i requires 0 <= i < |ticks| => if kind.Turns() then 0.0 else Abs(ticks[i].progress))
  }

  lemma {:induction false} TrackedPosesObey(kind: Kind, lim: Limits, h: Heading, start: Pose, ticks: seq<Tick>)
    requires lim.speed > 0.0 && Tracks(lim, ticks)
    ensures Obeys(kind, h, PosesOf(kind, h, start, ticks), Scalars(lim, ticks))
  {
    hide Run, Scalars, Displace, CommandVector;
    var poses, scalars := PosesOf(kind, h, start, ticks), Scalars(lim, ticks);
    forall i | 0 < i < |poses|
      ensures poses[i] == Displace(poses[i - 1], h, CommandVector(kind, scalars[i - 1] * TICK_S))
    {
      DisplaceTwice(start, h, kind, ticks[i - 1].progress, scalars[i - 1] * TICK_S);
    }
  }

  lemma {:induction false} ObeysPrefix(kind: Kind, h: Heading, poses: seq<Pose>, scalars: seq<real>, i: nat)
    requires Obeys(kind, h, poses, scalars) && i < |poses|
    ensures Obeys(kind, h, poses[..i + 1], scalars[..i + 1])
  {
    hide Displace, CommandVector;
  }

  lemma {:induction false} TrackedTick(lim: Limits, ticks: seq<Tick>, i: nat)
    requires lim.speed > 0.0 && Tracks(lim, ticks) && i < |ticks|
    ensures Nondecreasing(ticks) && ticks[0].progress == 0.0 && ticks[i].offAxis == 0.0
  {
    hide Scalars;
    GridIsNondecreasing(ticks);
  }

  lemma {:induction false} TrackedIsObserved(kind: Kind, lim: Limits, h: Heading, start: Pose, ticks: seq<Tick>,
                                             i: nat, pi: real)
    requires pi > 3.0 && Unit(h) && ValidLimits(lim) && lim.speed <= 1.0 && Tracks(lim, ticks) && i < |ticks|
    ensures var poses, walked := PosesOf(kind, h, start, ticks), WalkedOf(kind, ticks);
            && poses[0] == start && IsHypot(walked[i], start, poses[i])
            && (ticks[i].progress, ticks[i].offAxis) == Observed(kind, h, poses[..i + 1], walked[i], pi)
  {
    hide Run, Scalars, Observed, TravelOf, Displace, CommandVector, IsHypot, PosesOf, WalkedOf, Obeys, Tracks,
      ProgressOf;
    var poses, scalars := PosesOf(kind, h, start, ticks), Scalars(lim, ticks);
    TrackedTick(lim, ticks, i);
    NoDisplacement(start, h, kind);
    WalkedByCommand(kind, start, h, ticks[i].progress);
    ScalarsWithinSpeed(lim, ticks);
    TrackedPosesObey(kind, lim, h, start, ticks);
    ObeysPrefix(kind, h, poses, scalars, i);
    ProgressIsTravel(lim, ticks, 0, i);
    assert scalars[0..i] == scalars[..i] == scalars[..i + 1][..i];
    ObservedIsTravel(kind, h, poses[..i + 1], scalars[..i + 1], WalkedOf(kind, ticks)[i], pi);
  }

  /** Every exactly tracked run is the run of some obedient robot, from any start pose. */
  lemma {:induction false} LoopOfTracking(kind: Kind, lim: Limits, h: Heading, start: Pose, ticks: seq<Tick>, pi: real)
    requires pi > 3.0 && Unit(h) && ValidLimits(lim) && lim.speed <= 1.0 && Tracks(lim, ticks)
    ensures LoopRun(kind, lim, h, PosesOf(kind, h, start, ticks), WalkedOf(kind, ticks), ticks, pi)
    ensures ticks != [] ==> PosesOf(kind, h, start, ticks)[0] == start
  {
    hide Run, Scalars, Observed, IsHypot, PosesOf, WalkedOf, Obeys;
    TrackedPosesObey(kind, lim, h, start, ticks);
    forall i | 0 <= i < |ticks|
      ensures var poses, walked := PosesOf(kind, h, start, ticks), WalkedOf(kind, ticks);
              && poses[0] == start && IsHypot(walked[i], start, poses[i])
              && (ticks[i].progress, ticks[i].offAxis) == Observed(kind, h, poses[..i + 1], walked[i], pi)
    {
      TrackedIsObserved(kind, lim, h, start, ticks, i, pi);
    }
  }

  /** Liveness of the whole loop: whatever the kind, the request and the start pose, an accepted motion of an
      obedient robot is done, strictly before its timeout. */
  lemma {:induction false} ObedientRobotGetsThere(kind: Kind, amount: real, speed: real, h: Heading, start: Pose,
                                                  t0: real, pi: real)
    returns (poses: seq<Pose>, walked: seq<real>, ticks: seq<Tick>)
    requires amount > 0.0 && 0.0 < speed <= Ceiling(kind) && pi > 3.0 && Unit(h)
    ensures ticks != [] && ticks[0].t == t0 && poses != [] && poses[0] == start
    ensures var lim := LimitsOf(kind, amount, speed, pi).value;
            && LoopRun(kind, lim, h, poses, walked, ticks, pi)
            && Run(lim, ticks).0.ended == Some(Done) && Elapsed(ticks) < 2.0 * (amount / speed) + 3.0
            && amount - NearEnough(kind, pi) <= Now(ticks).progress <= amount
  {
    hide Run, LoopRun, Tracks, TrackingRun;
    var lim := LimitsOf(kind, amount, speed, pi).value;
    CeilingIsFine(kind, amount, speed, pi);
    var n := EveryTrackedMotionCompletes(lim, t0);
    ticks := TrackingRun(lim, t0, n);
    TrackingRunTracks(lim, t0, n);
    RequestInFigures(kind, amount, speed, pi);
    ExactTrackingIsSafe(lim, ticks);
    poses, walked := PosesOf(kind, h, start, ticks), WalkedOf(kind, ticks);
    LoopOfTracking(kind, lim, h, start, ticks, pi);
  }
}
