/** Each verdict of the guard by plain conditions on what was observed and commanded, on the 20 Hz grid. */
module GuardVerdicts {
  import opened Basics
  import opened MotionKinds
  import opened MotionGuards
  import opened GuardHistory
  import opened GuardEnvelope

  /** The stops that are never the robot's fault. */
  predicate External(o: Tick) {
    o.operatorStop || o.estopChanged || o.foreign || o.stateStale || !o.odomValid
  }

  /** No external stop, the right way, on the axis and in time. */
  predicate Orderly(lim: Limits, ticks: seq<Tick>)
    requires ticks != []
  {
    var o := Now(ticks);
    !External(o) && o.progress >= -lim.wrong && o.offAxis <= OFFAXIS_M && Elapsed(ticks) <= lim.timeout
  }

  /** Progress over the last `n` ticks. */
  function Gained(ticks: seq<Tick>, n: nat): real
    requires n < |ticks|
  {
    Now(ticks).progress - ticks[|ticks| - 1 - n].progress
  }

  /** Measured over ten ticks: faster than one and a half times every command of those ticks, plus the margin. */
  ghost predicate TooFast(lim: Limits, ticks: seq<Tick>)
    requires lim.speed > 0.0
  {
    |ticks| > SPEED_WIN_TICKS
    && forall i :: |ticks| - 1 - SPEED_WIN_TICKS <= i < |ticks| - 1
         ==> Gained(ticks, SPEED_WIN_TICKS) / SPEED_WIN_S > OVERSPEED_K * Scalars(lim, ticks)[i] + lim.margin
  }

  /** Past two seconds, and not a quarter of the way commanded inside the last thirty ticks. */
  predicate Blocked(lim: Limits, ticks: seq<Tick>)
    requires lim.speed > 0.0
  {
    |ticks| > STALL_AFTER_TICKS
    && Gained(ticks, STALL_WIN_TICKS)
         < STALL_FRAC * TravelOf(Scalars(lim, ticks)[|ticks| - STALL_WIN_TICKS..|ticks| - 1])
  }

  /** The fastest of the last ten commands, in terms of the scalars returned. */
  lemma {:induction false} FastestRecent(hist: seq<Sample>, scalars: seq<real>, k: nat)
    requires |hist| == k >= SPEED_WIN_TICKS && |scalars| >= k
    requires forall i :: 0 <= i < k ==> hist[i].cmd == scalars[i]
    ensures exists i :: k - SPEED_WIN_TICKS <= i < k && scalars[i] == MaxCmd(Recent(hist, SPEED_WIN_TICKS))
    ensures forall i :: k - SPEED_WIN_TICKS <= i < k ==> scalars[i] <= MaxCmd(Recent(hist, SPEED_WIN_TICKS))
  {
    var from := k - SPEED_WIN_TICKS;
    var recent := Recent(hist, SPEED_WIN_TICKS);
    assert recent == hist[from..];
    var j :| 0 <= j < |recent| && recent[j].cmd == MaxCmd(recent);
    assert scalars[from + j] == MaxCmd(recent);
    forall i | from <= i < k ensures scalars[i] <= MaxCmd(recent) {
      assert recent[i - from].cmd <= MaxCmd(recent);
    }
  }

  /** Where the guard is still running, its over-limit test is exactly that. */
  lemma {:induction false} OverNowIsTooFast(lim: Limits, ticks: seq<Tick>)
    requires ValidLimits(lim) && OnGrid(ticks) && ticks != [] && Running(lim, Front(ticks))
    ensures OverNow(lim, ticks) <==> TooFast(lim, ticks)
  {
    hide Run, UpTo, After, SumCmd, Sum, Command, MaxCmd, Recent, Scalars, Samples, WindowOf;
    var k, front := |ticks| - 1, Front(ticks);
    var hist, scalars := Samples(lim, front), Scalars(lim, ticks);
    GridIsNondecreasing(ticks);
    SamplesOfRun(lim, front);
    ScalarsOfFront(lim, ticks);
    WindowOnGrid(hist, ticks[0].t, Now(ticks).progress, SPEED_WIN_TICKS);
    if k >= SPEED_WIN_TICKS { FastestRecent(hist, scalars, k); }
  }

  lemma {:induction false} ScalarsOfFront(lim: Limits, ticks: seq<Tick>)
    requires lim.speed > 0.0 && ticks != []
    ensures forall i :: 0 <= i < |ticks| - 1 ==> Scalars(lim, Front(ticks))[i] == Scalars(lim, ticks)[i]
  {
  }

  /** And its stall test, too: past the grace the commanded travel is always positive. */
  lemma {:induction false} StalledIsBlocked(lim: Limits, ticks: seq<Tick>)
    requires ValidLimits(lim) && OnGrid(ticks) && ticks != [] && Running(lim, Front(ticks))
    ensures Stalled(Samples(lim, Front(ticks)), Elapsed(ticks), Now(ticks)) <==> Blocked(lim, ticks)
  {
    hide Run, Samples, WindowOf, Sum;
    var k, front := |ticks| - 1, Front(ticks);
    var scalars := Scalars(lim, front);
    GridIsNondecreasing(ticks);
    assert Elapsed(ticks) == k as real * TICK_S;
    if k >= STALL_AFTER_TICKS {
      SamplesOfRun(lim, front);
      WindowOfRun(ticks, Samples(lim, front), scalars, STALL_WIN_TICKS);
      var inside := scalars[k - STALL_WIN_TICKS + 1..];
      assert inside == Scalars(lim, ticks)[k - STALL_WIN_TICKS + 1..k];
      ScalarsKeepUp(lim, front);
      SumAtLeast(inside, TAPER_MIN * lim.speed);
      assert |inside| == 29;
    }
  }

  /** The verdicts of a tick, each by its exact conditions: external stops first, then a robot that misbehaves,
      and the target last; so a robot that ran past its target too fast is reported as over-speed. */
  lemma {:induction false} VerdictConditions(lim: Limits, ticks: seq<Tick>)
    requires ValidLimits(lim) && OnGrid(ticks) && ticks != [] && Running(lim, Front(ticks))
    ensures var o, ended := Now(ticks), Run(lim, ticks).0.ended;
            var judged := Orderly(lim, ticks) && !HeldZero(ticks);
            var sane := judged && !OverFor(lim, ticks, OVERSPEED_TICKS) && !Blocked(lim, ticks);
            && (ended == Some(OperatorStop) <==> o.operatorStop)
            && (ended == Some(Estop) <==> !o.operatorStop && o.estopChanged)
            && (ended == Some(ForeignCmdVel) <==> !o.operatorStop && !o.estopChanged && o.foreign)
            && (ended == Some(StateStale) <==> !o.operatorStop && !o.estopChanged && !o.foreign && o.stateStale)
            && (ended == Some(OdomInvalid) <==> !o.operatorStop && !o.estopChanged && !o.foreign && !o.stateStale
                                                && !o.odomValid)
            && (ended.Some? && ended.value in {OperatorStop, Estop, ForeignCmdVel, StateStale, OdomInvalid}
                <==> External(o))
            && (ended == Some(WrongDirection) <==> !External(o) && o.progress < -lim.wrong)
            && (ended == Some(OffAxisDrift) <==> !External(o) && o.progress >= -lim.wrong && o.offAxis > OFFAXIS_M)
            && (ended == Some(Timeout) <==> !External(o) && o.progress >= -lim.wrong && o.offAxis <= OFFAXIS_M
                                            && Elapsed(ticks) > lim.timeout)
            && (ended == Some(Tier1Zeroing(o.stopReason)) <==> Orderly(lim, ticks) && HeldZero(ticks))
            && (ended == Some(OverSpeed) <==> judged && OverFor(lim, ticks, OVERSPEED_TICKS))
            && (ended == Some(Stall) <==> judged && !OverFor(lim, ticks, OVERSPEED_TICKS) && Blocked(lim, ticks))
            && (ended == Some(Done) <==> sane && lim.amount - o.progress <= lim.tol)
            && (ended == None <==> sane && lim.amount - o.progress > lim.tol)
  {
    hide Run, Samples, HeldZero, OverFor, Stalled, Blocked;
    GridIsNondecreasing(ticks);
    StalledIsBlocked(lim, ticks);
    EndedIsVerdict(lim, ticks);
  }

  lemma {:induction false} EndedIsVerdict(lim: Limits, ticks: seq<Tick>)
    requires lim.speed > 0.0 && Nondecreasing(ticks) && ticks != [] && Running(lim, Front(ticks))
    ensures Run(lim, ticks).0.ended == VerdictOf(lim, ticks)
  {
    hide Run, VerdictOf;
    GuardRefinesHistory(lim, ticks);
    GuardRefinesHistory(lim, Front(ticks));
  }

  /** So the over-speed abort takes exactly five ticks in a row that were too fast. */
  lemma {:induction false} OverForIsTooFast(lim: Limits, ticks: seq<Tick>, n: nat)
    requires ValidLimits(lim) && OnGrid(ticks) && ticks != [] && Running(lim, Front(ticks))
    ensures OverFor(lim, ticks, n)
       <==> n <= |ticks| && forall i :: |ticks| - n < i <= |ticks| ==> TooFast(lim, ticks[..i])
  {
    hide Run, OverNow, TooFast;
    forall i | 0 < i <= |ticks| ensures OverNow(lim, ticks[..i]) <==> TooFast(lim, ticks[..i]) {
      GridIsNondecreasing(ticks);
      assert Front(ticks[..i]) == Front(ticks)[..i - 1];
      RunningBefore(lim, Front(ticks), i - 1);
      OverNowIsTooFast(lim, ticks[..i]);
    }
  }

  lemma RampForm(speed: real, el: real)
    ensures Ramped(speed, el) == speed * Min(1.0, 2.0 * el)
  {
    assert el / RAMP_S == 2.0 * el;
  }

  /** The scalar of a running motion: the linear half-second ramp, and below it the taper by what is left. */
  lemma {:induction false} ScalarFormula(lim: Limits, ticks: seq<Tick>)
    requires ValidLimits(lim) && Nondecreasing(ticks) && ticks != [] && Running(lim, ticks)
    ensures var rest := lim.amount - Now(ticks).progress;
            Run(lim, ticks).1.scalar
            == Min(lim.speed * Min(1.0, 2.0 * Elapsed(ticks)),
                   Max(0.3 * lim.speed, Min(lim.speed, rest / 0.6)))
  {
    hide Run, Tapered, VerdictOf;
    RunningMeansNoVerdict(lim, ticks);
    TaperForm(lim.speed, lim.amount - Now(ticks).progress);
    RampForm(lim.speed, Elapsed(ticks));
  }

  // -- in figures, for a requested motion ---------------------------------------------

  /** The target tolerance: 2 cm, or a degree and a half. */
  function NearEnough(kind: Kind, pi: real): real {
    match kind
    case Fwd | Back | Left | Right => 0.02
    case TurnL | TurnR => pi / 120.0
  }

  /** The reverse limit: 10 cm, or ten degrees. */
  function WrongWay(kind: Kind, pi: real): real {
    match kind
    case Fwd | Back | Left | Right => 0.1
    case TurnL | TurnR => pi / 18.0
  }

  /** What a request turns into. */
  lemma RequestInFigures(kind: Kind, amount: real, speed: real, pi: real)
    requires amount > 0.0 && speed > 0.0 && pi > 0.0
    ensures var lim := LimitsOf(kind, amount, speed, pi).value;
            && ValidLimits(lim) && lim.amount == amount && lim.speed == speed
            && lim.tol == NearEnough(kind, pi) && lim.wrong == WrongWay(kind, pi) && lim.margin == 0.1
            && lim.timeout == 2.0 * (amount / speed) + 3.0
  {
  }

  /** In time, on the axis, not the wrong way, and nothing external. */
  predicate Undisturbed(kind: Kind, amount: real, speed: real, pi: real, ticks: seq<Tick>)
    requires speed > 0.0 && ticks != []
  {
    var o := Now(ticks);
    && !External(o) && o.progress >= -WrongWay(kind, pi) && o.offAxis <= 0.3
    && o.t - ticks[0].t <= 2.0 * (amount / speed) + 3.0
  }

  /** For a second or more, Tier1 has zeroed the command without a break. */
  ghost predicate ZeroedForASecond(ticks: seq<Tick>) {
    exists j :: 0 <= j < |ticks| && ZeroedFrom(ticks, j) && Now(ticks).t - ticks[j].t >= 1.0
  }

  predicate ZeroedFrom(ticks: seq<Tick>, j: int) {
    0 <= j && forall i :: j <= i < |ticks| ==> ticks[i].stopReason != "none"
  }

  /** Over the last half second, more than 1.5 times each command of it plus 0.1. */
  ghost predicate Racing(lim: Limits, ticks: seq<Tick>)
    requires lim.speed > 0.0
  {
    |ticks| > 10
    && forall i :: |ticks| - 11 <= i < |ticks| - 1 ==>
         Now(ticks).progress - ticks[|ticks| - 11].progress > 0.5 * (1.5 * Scalars(lim, ticks)[i] + 0.1)
  }

  /** Racing at each of the last five ticks. */
  ghost predicate RunsAway(lim: Limits, ticks: seq<Tick>)
    requires lim.speed > 0.0
  {
    |ticks| >= 5 && forall i :: |ticks| - 5 < i <= |ticks| ==> Racing(lim, ticks[..i])
  }

  /** From two seconds on: over the last second and a half, less than a quarter of the way commanded in it. */
  predicate Stuck(lim: Limits, ticks: seq<Tick>)
    requires lim.speed > 0.0
  {
    |ticks| > 40
    && Now(ticks).progress - ticks[|ticks| - 31].progress
         < 0.25 * (Sum(Scalars(lim, ticks)[|ticks| - 30..|ticks| - 1]) * 0.05)
  }

  /** Every verdict on a requested motion, in figures. */
  lemma {:induction false} VerdictsInFigures(kind: Kind, amount: real, speed: real, pi: real, ticks: seq<Tick>)
    requires amount > 0.0 && speed > 0.0 && pi > 0.0 && OnGrid(ticks) && ticks != []
    requires Running(LimitsOf(kind, amount, speed, pi).value, Front(ticks))
    ensures var lim := LimitsOf(kind, amount, speed, pi).value;
            var o, ended, calm := Now(ticks), Run(lim, ticks).0.ended, Undisturbed(kind, amount, speed, pi, ticks);
            var sane := calm && !ZeroedForASecond(ticks) && !RunsAway(lim, ticks) && !Stuck(lim, ticks);
            && (ended == Some(WrongDirection) <==> !External(o) && o.progress < -WrongWay(kind, pi))
            && (ended == Some(OffAxisDrift) <==> !External(o) && o.progress >= -WrongWay(kind, pi) && o.offAxis > 0.3)
            && (ended == Some(Timeout) <==> !External(o) && o.progress >= -WrongWay(kind, pi) && o.offAxis <= 0.3
                                            && o.t - ticks[0].t > 2.0 * (amount / speed) + 3.0)
            && (ended == Some(Tier1Zeroing(o.stopReason)) <==> calm && ZeroedForASecond(ticks))
            && (ended == Some(OverSpeed) <==> calm && !ZeroedForASecond(ticks) && RunsAway(lim, ticks))
            && (ended == Some(Stall) <==> calm && !ZeroedForASecond(ticks) && !RunsAway(lim, ticks)
                                          && Stuck(lim, ticks))
            && (ended == Some(Done) <==> sane && amount - o.progress <= NearEnough(kind, pi))
            && (ended == None <==> sane && amount - o.progress > NearEnough(kind, pi))
  {
    hide Run, HeldZero, OverFor, Blocked, LimitsOf, Stuck, RunsAway, ZeroedForASecond, OnGrid;
    var lim := LimitsOf(kind, amount, speed, pi).value;
    RequestInFigures(kind, amount, speed, pi);
    VerdictConditions(lim, ticks);
    HeldIsZeroed(ticks);
    StuckIsBlocked(lim, ticks);
    AwayIsOverFor(lim, ticks);
  }

  lemma {:induction false} HeldIsZeroed(ticks: seq<Tick>)
    ensures HeldZero(ticks) <==> ZeroedForASecond(ticks)
  {
    if HeldZero(ticks) {
      var j: nat :| j < |ticks| && HeldZeroSince(ticks, j);
      assert ZeroedFrom(ticks, j);
    }
    if ZeroedForASecond(ticks) {
      var j :| 0 <= j < |ticks| && ZeroedFrom(ticks, j) && Now(ticks).t - ticks[j].t >= 1.0;
      assert HeldZeroSince(ticks, j);
    }
  }

  lemma {:induction false} StuckIsBlocked(lim: Limits, ticks: seq<Tick>)
    requires lim.speed > 0.0
    ensures Stuck(lim, ticks) <==> Blocked(lim, ticks)
  {
    hide Scalars, Sum;
  }

  lemma {:induction false} RacingIsTooFast(lim: Limits, ticks: seq<Tick>)
    requires lim.speed > 0.0 && lim.margin == 0.1
    ensures Racing(lim, ticks) <==> TooFast(lim, ticks)
  {
    hide Scalars;
    if |ticks| > 10 {
      var gained := Gained(ticks, SPEED_WIN_TICKS);
      assert gained / SPEED_WIN_S == 2.0 * gained;
    }
  }

  lemma {:induction false} AwayIsOverFor(lim: Limits, ticks: seq<Tick>)
    requires ValidLimits(lim) && lim.margin == 0.1 && OnGrid(ticks) && ticks != [] && Running(lim, Front(ticks))
    ensures RunsAway(lim, ticks) <==> OverFor(lim, ticks, OVERSPEED_TICKS)
  {
    hide Run, OverFor, Racing, TooFast, OnGrid;
    OverForIsTooFast(lim, ticks, 5);
    forall i | 0 < i <= |ticks| ensures Racing(lim, ticks[..i]) <==> TooFast(lim, ticks[..i]) {
      RacingIsTooFast(lim, ticks[..i]);
    }
  }
}
