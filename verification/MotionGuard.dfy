/** The motion kinds of scripts/diag/chassis_bench.py, and what each one commands. */
module MotionKinds {
  datatype Axis = AxisX | AxisY | AxisYaw

  datatype Kind = Fwd | Back | Left | Right | TurnL | TurnR
  {
    function Axis(): Axis {
      match this
      case Fwd | Back => AxisX
      case Left | Right => AxisY
      case TurnL | TurnR => AxisYaw
    }

    function Sign(): real {
      match this
      case Fwd | Left | TurnL => 1.0
      case Back | Right | TurnR => -1.0
    }

    predicate Turns() {
      Axis().AxisYaw?
    }
  }

  datatype Velocity = Velocity(vx: real, vy: real, wz: real)

  const STILL := Velocity(0.0, 0.0, 0.0)

  function CommandVector(kind: Kind, scalar: real): Velocity {
    var v := kind.Sign() * scalar;
    match kind.Axis()
    case AxisX => Velocity(v, 0.0, 0.0)
    case AxisY => Velocity(0.0, v, 0.0)
    case AxisYaw => Velocity(0.0, 0.0, v)
  }
}

/** The per-tick decision of one motion (MotionGuard), first as a function on
    states and then as the class that updates its fields. */
module MotionGuards {
  import opened Basics
  import opened MotionKinds

  const TICK_S := 0.05
  const RAMP_S := 0.5
  const TAPER_S := 0.6
  const TAPER_MIN := 0.3
  const DONE_TOL_M := 0.02
  const DONE_TOL_DEG := 1.5
  const STALL_AFTER_S := 2.0
  const STALL_WIN_S := 1.5
  const STALL_FRAC := 0.25
  const WRONG_DIR_M := 0.10
  const WRONG_DIR_DEG := 10.0
  const OFFAXIS_M := 0.30
  const SPEED_WIN_S := 0.5
  const SPEED_WIN_TICKS := 10
  const OVERSPEED_K := 1.5
  const OVERSPEED_LIN := 0.10
  const OVERSPEED_ANG := 0.10
  const OVERSPEED_TICKS := 5
  const TIER1_ZERO_S := 1.0

  /** What a guard fixes at construction. */
  datatype Limits = Limits(amount: real, speed: real, tol: real, wrong: real, margin: real, timeout: real)

  function Radians(degrees: real, pi: real): real {
    degrees * pi / 180.0
  }

  /** The constructor's derived constants, or None where it raises ValueError. */
  function LimitsOf(kind: Kind, amount: real, speed: real, pi: real): (r: Option<Limits>)
    ensures r.Some? <==> amount > 0.0 && speed > 0.0
  {
    if !(amount > 0.0 && speed > 0.0) then None
    else
      Some(Limits(
        amount, speed,
        if kind.Turns() then Radians(DONE_TOL_DEG, pi) else DONE_TOL_M,
        if kind.Turns() then Radians(WRONG_DIR_DEG, pi) else WRONG_DIR_M,
        if kind.Turns() then OVERSPEED_ANG else OVERSPEED_LIN,
        amount / speed * 2.0 + 3.0))
  }

  ghost predicate ValidLimits(lim: Limits) {
    lim.amount > 0.0 && lim.speed > 0.0 && lim.tol > 0.0 && lim.wrong > 0.0 && lim.margin > 0.0
    && lim.timeout == lim.amount / lim.speed * 2.0 + 3.0
  }

  datatype Verdict =
    | Done | OperatorStop | Estop | ForeignCmdVel | StateStale | OdomInvalid
    | WrongDirection | OffAxisDrift | Timeout | Tier1Zeroing(reason: string) | OverSpeed | Stall

  /** One call of step(): the clock and everything the console observed. */
  datatype Tick = Tick(
    t: real, progress: real, offAxis: real,
    operatorStop: bool, estopChanged: bool, foreign: bool,
    stateStale: bool, odomValid: bool, stopReason: string)

  datatype GuardStep = GuardStep(scalar: real, ended: Option<Verdict>)

  datatype Sample = Sample(t: real, progress: real, cmd: real)

  datatype Guard = Guard(
    t0: Option<real>, hist: seq<Sample>, overN: nat,
    zeroSince: Option<real>, ended: Option<Verdict>, lastProgress: real)

  const FRESH := Guard(None, [], 0, None, None, 0.0)

  // -- the look-back window ---------------------------------------------------

  datatype Window = Window(dt: real, gained: real, commanded: real)

  function UpTo(hist: seq<Sample>, cut: real): seq<Sample> {
    if hist == [] then []
    else
      var h := hist[|hist| - 1];
      UpTo(hist[..|hist| - 1], cut) + if h.t <= cut then [h] else []
  }

  function After(hist: seq<Sample>, cut: real): seq<Sample> {
    if hist == [] then []
    else
      var h := hist[|hist| - 1];
      After(hist[..|hist| - 1], cut) + if h.t > cut then [h] else []
  }

  function SumCmd(hist: seq<Sample>): real {
    if hist == [] then 0.0 else SumCmd(hist[..|hist| - 1]) + hist[|hist| - 1].cmd
  }

  function MaxCmd(hist: seq<Sample>): (m: real)
    requires hist != []
    ensures exists i :: 0 <= i < |hist| && hist[i].cmd == m
    ensures forall i :: 0 <= i < |hist| ==> hist[i].cmd <= m
  {
    var last := hist[|hist| - 1].cmd;
    if |hist| == 1 then last else Max(MaxCmd(hist[..|hist| - 1]), last)
  }

  /** The last `n` samples, or all of them when there are fewer. */
  function Recent(hist: seq<Sample>, n: nat): seq<Sample> {
    if |hist| <= n then hist else hist[|hist| - n..]
  }

  function WindowOf(hist: seq<Sample>, progress: real, t: real, span: real): Option<Window> {
    var older := UpTo(hist, t - span);
    if older == [] then None
    else
      var a := older[|older| - 1];
      Some(Window(t - a.t, progress - a.progress, SumCmd(After(hist, a.t)) * TICK_S))
  }

  // -- the decision -----------------------------------------------------------

  /** The checks that need nothing but this tick, in their order. */
  function ImmediateStop(lim: Limits, el: real, o: Tick): Option<Verdict> {
    if o.operatorStop then Some(OperatorStop)
    else if o.estopChanged then Some(Estop)
    else if o.foreign then Some(ForeignCmdVel)
    else if o.stateStale then Some(StateStale)
    else if !o.odomValid then Some(OdomInvalid)
    else if o.progress < -lim.wrong then Some(WrongDirection)
    else if o.offAxis > OFFAXIS_M then Some(OffAxisDrift)
    else if el > lim.timeout then Some(Timeout)
    else None
  }

  predicate OverLimit(lim: Limits, hist: seq<Sample>, o: Tick) {
    var w := WindowOf(hist, o.progress, o.t, SPEED_WIN_S);
    w.Some? && w.value.dt > 0.0
    && w.value.gained / w.value.dt > OVERSPEED_K * MaxCmd(Recent(hist, SPEED_WIN_TICKS)) + lim.margin
  }

  predicate Stalled(hist: seq<Sample>, el: real, o: Tick) {
    el >= STALL_AFTER_S
    && var s := WindowOf(hist, o.progress, o.t, STALL_WIN_S);
       s.Some? && s.value.commanded > 0.0 && s.value.gained < STALL_FRAC * s.value.commanded
  }

  function Ramped(speed: real, el: real): real {
    speed * Min(1.0, el / RAMP_S)
  }

  function Tapered(speed: real, rest: real): real
    requires speed > 0.0
  {
    speed * Max(TAPER_MIN, Min(1.0, rest / (speed * TAPER_S)))
  }

  /** Ramp up, cruise, taper in. */
  function Command(lim: Limits, el: real, progress: real): real
    requires lim.speed > 0.0
  {
    Min(Ramped(lim.speed, el), Tapered(lim.speed, lim.amount - progress))
  }

  /** The motion may go on, if it is not stalled and not there yet: command the next scalar. */
  function StallAndTarget(lim: Limits, g: Guard, el: real, o: Tick): (Guard, GuardStep)
    requires lim.speed > 0.0
  {
    if Stalled(g.hist, el, o) then End(g, Stall)
    else if lim.amount - o.progress <= lim.tol then End(g, Done)
    else
      var scalar := Command(lim, el, o.progress);
      (g.(hist := g.hist + [Sample(o.t, o.progress, scalar)]), GuardStep(scalar, None))
  }

  /** Count consecutive over-limit ticks; a tick without a full window leaves the count alone. */
  function OverSpeedCheck(lim: Limits, g: Guard, el: real, o: Tick): (Guard, GuardStep)
    requires lim.speed > 0.0
  {
    var w := WindowOf(g.hist, o.progress, o.t, SPEED_WIN_S);
    if !(w.Some? && w.value.dt > 0.0) then StallAndTarget(lim, g, el, o)
    else
      var g1 := g.(overN := if OverLimit(lim, g.hist, o) then g.overN + 1 else 0);
      if g1.overN >= OVERSPEED_TICKS then End(g1, OverSpeed) else StallAndTarget(lim, g1, el, o)
  }

  /** Time how long Tier1 has been zeroing the command without a break. */
  function Tier1Check(lim: Limits, g: Guard, el: real, o: Tick): (Guard, GuardStep)
    requires lim.speed > 0.0
  {
    if o.stopReason == "none" then OverSpeedCheck(lim, g.(zeroSince := None), el, o)
    else
      var since := g.zeroSince.GetOr(o.t);
      var g1 := g.(zeroSince := Some(since));
      if o.t - since >= TIER1_ZERO_S then End(g1, Tier1Zeroing(o.stopReason))
      else OverSpeedCheck(lim, g1, el, o)
  }

  /** One tick on a guard that is still running. */
  function RunningStep(lim: Limits, g: Guard, o: Tick): (Guard, GuardStep)
    requires lim.speed > 0.0
  {
    var t0 := g.t0.GetOr(o.t);
    var el := o.t - t0;
    var g1 := g.(t0 := Some(t0), lastProgress := o.progress);
    var stop := ImmediateStop(lim, el, o);
    if stop.Some? then End(g1, stop.value) else Tier1Check(lim, g1, el, o)
  }

  function End(g: Guard, why: Verdict): (Guard, GuardStep) {
    (g.(ended := Some(why)), GuardStep(0.0, Some(why)))
  }

  function Step(lim: Limits, g: Guard, o: Tick): (Guard, GuardStep)
    requires lim.speed > 0.0
  {
    if g.ended.Some? then (g, GuardStep(0.0, g.ended)) else RunningStep(lim, g, o)
  }

  /** The guard as the source keeps it: one object per motion. */
  class MotionGuard {
    const limits: Limits
    var t0: Option<real>
    var hist: seq<Sample>
    var overN: nat
    var zeroSince: Option<real>
    var ended: Option<Verdict>
    var lastProgress: real

    function State(): Guard
      reads this
    {
      Guard(t0, hist, overN, zeroSince, ended, lastProgress)
    }

    constructor (kind: Kind, amount: real, speed: real, pi: real)
      requires amount > 0.0 && speed > 0.0
      ensures Some(limits) == LimitsOf(kind, amount, speed, pi)
      ensures State() == FRESH
    {
      limits := LimitsOf(kind, amount, speed, pi).value;
      t0, hist, overN, zeroSince, ended, lastProgress := None, [], 0, None, None, 0.0;
    }

    method EndWith(why: Verdict) returns (g: GuardStep)
      modifies this`ended
      ensures (State(), g) == End(old(State()), why)
    {
      ended := Some(why);
      return GuardStep(0.0, Some(why));
    }

    method Advance(o: Tick) returns (r: GuardStep)
      requires limits.speed > 0.0
      modifies this
      ensures (State(), r) == Step(limits, old(State()), o)
    {
      if ended.Some? {
        return GuardStep(0.0, ended);
      }
      if t0.None? {
        t0 := Some(o.t);
      }
      var el := o.t - t0.value;
      lastProgress := o.progress;
      ghost var expected := Step(limits, old(State()), o);
      if o.operatorStop { r := EndWith(OperatorStop); return; }
      if o.estopChanged { r := EndWith(Estop); return; }
      if o.foreign { r := EndWith(ForeignCmdVel); return; }
      if o.stateStale { r := EndWith(StateStale); return; }
      if !o.odomValid { r := EndWith(OdomInvalid); return; }
      if o.progress < -limits.wrong { r := EndWith(WrongDirection); return; }
      if o.offAxis > OFFAXIS_M { r := EndWith(OffAxisDrift); return; }
      if el > limits.timeout { r := EndWith(Timeout); return; }
      assert expected == Tier1Check(limits, State(), el, o);
      if o.stopReason != "none" {
        if zeroSince.None? {
          zeroSince := Some(o.t);
        }
        if o.t - zeroSince.value >= TIER1_ZERO_S {
          r := EndWith(Tier1Zeroing(o.stopReason));
          return;
        }
      } else {
        zeroSince := None;
      }
      r := JudgeMotion(el, o);
    }

    /** The second half of a step: over-speed, stall, target, next scalar. */
    method JudgeMotion(el: real, o: Tick) returns (r: GuardStep)
      requires limits.speed > 0.0 && lastProgress == o.progress
      modifies this
      ensures (State(), r) == OverSpeedCheck(limits, old(State()), el, o)
    {
      var w := WindowOf(hist, lastProgress, o.t, SPEED_WIN_S);
      if w.Some? && w.value.dt > 0.0 {
        var measured := w.value.gained / w.value.dt;
        var cmdMax := MaxCmd(Recent(hist, SPEED_WIN_TICKS));
        if measured > OVERSPEED_K * cmdMax + limits.margin {
          overN := overN + 1;
        } else {
          overN := 0;
        }
        if overN >= OVERSPEED_TICKS { r := EndWith(OverSpeed); return; }
      }
      assert OverSpeedCheck(limits, old(State()), el, o) == StallAndTarget(limits, State(), el, o);
      if el >= STALL_AFTER_S {
        var s := WindowOf(hist, lastProgress, o.t, STALL_WIN_S);
        if s.Some? && s.value.commanded > 0.0 && s.value.gained < STALL_FRAC * s.value.commanded {
          r := EndWith(Stall);
          return;
        }
      }
      if limits.amount - o.progress <= limits.tol { r := EndWith(Done); return; }
      var scalar := Command(limits, el, o.progress);
      hist := hist + [Sample(o.t, o.progress, scalar)];
      return GuardStep(scalar, None);
    }
  }

}
