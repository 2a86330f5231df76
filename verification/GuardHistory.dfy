/** What the guard's counters mean: a verdict stated on the whole history of
    observations, and the proof that the incremental guard computes it. */
module GuardHistory {
  import opened Basics
  import opened MotionGuards

  /** time.monotonic() never goes back. */
  ghost predicate Nondecreasing(ticks: seq<Tick>) {
    forall i, j :: 0 <= i <= j < |ticks| ==> ticks[i].t <= ticks[j].t
  }

  function Now(ticks: seq<Tick>): Tick
    requires ticks != []
  {
    ticks[|ticks| - 1]
  }

  function Elapsed(ticks: seq<Tick>): real
    requires ticks != []
  {
    Now(ticks).t - ticks[0].t
  }

  /** Fold the guard over every tick so far. */
  function Run(lim: Limits, ticks: seq<Tick>): (Guard, GuardStep)
    requires lim.speed > 0.0
  {
    if ticks == [] then (FRESH, GuardStep(0.0, None)) else Step(lim, Run(lim, Front(ticks)).0, Now(ticks))
  }

  // -- the history form -------------------------------------------------------

  /** What a running guard commands at the last of these ticks. */
  function CommandNow(lim: Limits, ticks: seq<Tick>): real
    requires lim.speed > 0.0 && ticks != []
  {
    Command(lim, Elapsed(ticks), Now(ticks).progress)
  }

  /** The samples a guard that never ended holds. */
  function Samples(lim: Limits, ticks: seq<Tick>): (h: seq<Sample>)
    requires lim.speed > 0.0
    ensures |h| == |ticks|
  {
    if ticks == [] then []
    else Samples(lim, Front(ticks)) + [Sample(Now(ticks).t, Now(ticks).progress, CommandNow(lim, ticks))]
  }

  /** Is the last tick faster than the envelope, judged on the samples before it? */
  predicate OverNow(lim: Limits, ticks: seq<Tick>)
    requires lim.speed > 0.0 && ticks != []
  {
    OverLimit(lim, Samples(lim, Front(ticks)), Now(ticks))
  }

  /** Tier1 zeroes the command at every tick from `j` to the last, for at least the hold. */
  ghost predicate HeldZeroSince(ticks: seq<Tick>, j: nat)
    requires j < |ticks|
  {
    (forall i :: j <= i < |ticks| ==> ticks[i].stopReason != "none")
    && Now(ticks).t - ticks[j].t >= TIER1_ZERO_S
  }

  ghost predicate HeldZero(ticks: seq<Tick>) {
    exists j: nat :: j < |ticks| && HeldZeroSince(ticks, j)
  }

  /** The last `n` ticks were all over the limit. */
  ghost predicate OverFor(lim: Limits, ticks: seq<Tick>, n: nat)
    requires lim.speed > 0.0
  {
    n <= |ticks| && forall i :: |ticks| - n < i <= |ticks| ==> OverNow(lim, ticks[..i])
  }

  /** What the last of these ticks deserves, if no earlier one ended the motion. */
  ghost function VerdictOf(lim: Limits, ticks: seq<Tick>): Option<Verdict>
    requires lim.speed > 0.0 && ticks != []
  {
    var stop := ImmediateStop(lim, Elapsed(ticks), Now(ticks));
    if stop.Some? then stop
    else if HeldZero(ticks) then Some(Tier1Zeroing(Now(ticks).stopReason))
    else if OverFor(lim, ticks, OVERSPEED_TICKS) then Some(OverSpeed)
    else if Stalled(Samples(lim, Front(ticks)), Elapsed(ticks), Now(ticks)) then Some(Stall)
    else if lim.amount - Now(ticks).progress <= lim.tol then Some(Done)
    else None
  }

  /** The verdict of the first tick that deserves one. */
  ghost function FirstVerdict(lim: Limits, ticks: seq<Tick>): Option<Verdict>
    requires lim.speed > 0.0
  {
    if ticks == [] then None
    else
      var before := FirstVerdict(lim, Front(ticks));
      if before.Some? then before else VerdictOf(lim, ticks)
  }

  // -- counters as history ----------------------------------------------------

  function OverRun(lim: Limits, ticks: seq<Tick>): (n: nat)
    requires lim.speed > 0.0
  {
    if ticks == [] || !OverNow(lim, ticks) then 0 else 1 + OverRun(lim, Front(ticks))
  }

  /** When the current unbroken zeroing span began. */
  function ZeroingSince(ticks: seq<Tick>): Option<real> {
    if ticks == [] || Now(ticks).stopReason == "none" then None
    else Some(ZeroingSince(Front(ticks)).GetOr(Now(ticks).t))
  }

  /** The over-speed counter is the longest run of over-limit ticks that ends now. */
  lemma {:induction false} OverRunIsLongestRun(lim: Limits, ticks: seq<Tick>, n: nat)
    requires lim.speed > 0.0
    ensures OverFor(lim, ticks, n) <==> n <= OverRun(lim, ticks)
  {
    hide OverNow;
    if ticks == [] || n == 0 {
    } else {
      var front := Front(ticks);
      OverRunIsLongestRun(lim, front, n - 1);
      assert ticks[..|ticks|] == ticks;
      forall i | 0 <= i <= |front| ensures front[..i] == ticks[..i] {}
      if OverFor(lim, ticks, n) { assert OverNow(lim, ticks[..|ticks|]); }
    }
  }

  /** The zeroing timer starts at the first tick of the current unbroken zeroing span. */
  lemma {:induction false} ZeroingSinceIsSpanStart(ticks: seq<Tick>) returns (j: nat)
    requires ticks != [] && Now(ticks).stopReason != "none"
    ensures j < |ticks| && ZeroingSince(ticks) == Some(ticks[j].t)
    ensures forall i :: j <= i < |ticks| ==> ticks[i].stopReason != "none"
    ensures j > 0 ==> ticks[j - 1].stopReason == "none"
  {
    j := |ticks| - 1;
    if j > 0 && Now(Front(ticks)).stopReason != "none" {
      j := ZeroingSinceIsSpanStart(Front(ticks));
    }
  }

  /** The zeroing timer has run out exactly when some unbroken span has lasted the hold. */
  lemma HeldZeroMeansTimerExpired(ticks: seq<Tick>)
    requires Nondecreasing(ticks) && ticks != []
    ensures var since := ZeroingSince(ticks);
            HeldZero(ticks) <==> since.Some? && Now(ticks).t - since.value >= TIER1_ZERO_S
  {
    if Now(ticks).stopReason != "none" {
      var j := ZeroingSinceIsSpanStart(ticks);
      if Now(ticks).t - ticks[j].t >= TIER1_ZERO_S { assert HeldZeroSince(ticks, j); }
      if HeldZero(ticks) {
        var k: nat :| k < |ticks| && HeldZeroSince(ticks, k);
        assert j <= k;
      }
    }
  }

  // -- windows only ever open -------------------------------------------------

  lemma {:induction false} NoOlderSample(hist: seq<Sample>, cut: real)
    ensures UpTo(hist, cut) == [] <==> forall i :: 0 <= i < |hist| ==> hist[i].t > cut
  {
    if hist != [] {
      var front := hist[..|hist| - 1];
      NoOlderSample(front, cut);
      assert forall i :: 0 <= i < |front| ==> hist[i] == front[i];
    }
  }

  lemma {:induction false} SampleAt(lim: Limits, ticks: seq<Tick>, i: nat)
    requires lim.speed > 0.0 && i < |ticks|
    ensures Samples(lim, ticks)[i] == Sample(ticks[i].t, ticks[i].progress, CommandNow(lim, ticks[..i + 1]))
  {
    if i < |ticks| - 1 {
      SampleAt(lim, Front(ticks), i);
      assert Front(ticks)[..i + 1] == ticks[..i + 1];
    } else {
      assert ticks[..i + 1] == ticks;
    }
  }

  /** While the speed window is not full yet, the tick before was not over the limit either. */
  lemma {:induction false} NothingJudgedBefore(lim: Limits, ticks: seq<Tick>)
    requires lim.speed > 0.0 && ticks != [] && Nondecreasing(ticks)
    requires WindowOf(Samples(lim, Front(ticks)), Now(ticks).progress, Now(ticks).t, SPEED_WIN_S).None?
    ensures OverRun(lim, Front(ticks)) == 0
  {
    hide UpTo, After, SumCmd, MaxCmd, Recent, Command;
    var front := Front(ticks);
    NoOlderSample(Samples(lim, front), Now(ticks).t - SPEED_WIN_S);
    if front != [] {
      var hist := Samples(lim, Front(front));
      NoOlderSample(hist, Now(front).t - SPEED_WIN_S);
      forall i | 0 <= i < |hist| ensures hist[i].t > Now(front).t - SPEED_WIN_S {
        assert Samples(lim, front)[i] == hist[i];
      }
    }
  }

  lemma {:induction false} OlderIsOld(hist: seq<Sample>, cut: real)
    ensures forall i :: 0 <= i < |UpTo(hist, cut)| ==> UpTo(hist, cut)[i].t <= cut
  {
    if hist != [] { OlderIsOld(hist[..|hist| - 1], cut); }
  }

  /** A window is never shorter than its span, so its speed is always defined. */
  lemma WindowLooksBack(hist: seq<Sample>, progress: real, t: real, span: real)
    ensures var w := WindowOf(hist, progress, t, span); w.Some? ==> w.value.dt >= span
  {
    OlderIsOld(hist, t - span);
  }

  // -- the refinement ---------------------------------------------------------

  /** The state of a guard that has not ended, in closed form. */
  function OpenState(lim: Limits, ticks: seq<Tick>): Guard
    requires lim.speed > 0.0
  {
    if ticks == [] then FRESH
    else
      Guard(Some(ticks[0].t), Samples(lim, ticks), OverRun(lim, ticks),
            ZeroingSince(ticks), None, Now(ticks).progress)
  }

  /** The outcome of a tick that deserves `v`: the closed form goes on, or the latch closes with zero speed. */
  ghost predicate Outcome(lim: Limits, ticks: seq<Tick>, v: Option<Verdict>, g: Guard, r: GuardStep)
    requires lim.speed > 0.0 && ticks != []
  {
    && g.ended == r.ended == v
    && (v.Some? ==> r.scalar == 0.0)
    && (v.None? ==> g == OpenState(lim, ticks) && r.scalar == CommandNow(lim, ticks))
  }

  lemma OverLimitNeedsWindow(lim: Limits, hist: seq<Sample>, o: Tick)
    ensures WindowOf(hist, o.progress, o.t, SPEED_WIN_S).None? ==> !OverLimit(lim, hist, o)
  {
  }

  /** The speed, stall and target checks from closed-form counters. */
  lemma JudgeFromClosedForm(lim: Limits, ticks: seq<Tick>, g: Guard)
    requires lim.speed > 0.0 && ticks != [] && Nondecreasing(ticks)
    requires g == Guard(Some(ticks[0].t), Samples(lim, Front(ticks)), OverRun(lim, Front(ticks)),
                        ZeroingSince(ticks), None, Now(ticks).progress)
    requires ImmediateStop(lim, Elapsed(ticks), Now(ticks)).None? && !HeldZero(ticks)
    ensures var (g', r) := OverSpeedCheck(lim, g, Elapsed(ticks), Now(ticks));
            Outcome(lim, ticks, VerdictOf(lim, ticks), g', r)
  {
    hide Command, UpTo, After, SumCmd, MaxCmd, OverLimit, Stalled;
    var o := Now(ticks);
    OverRunIsLongestRun(lim, ticks, OVERSPEED_TICKS);
    WindowLooksBack(g.hist, o.progress, o.t, SPEED_WIN_S);
    OverLimitNeedsWindow(lim, g.hist, o);
    if WindowOf(g.hist, o.progress, o.t, SPEED_WIN_S).None? { NothingJudgedBefore(lim, ticks); }
  }

  /** The Tier1 timer and everything after it, from closed-form counters. */
  lemma {:induction false} TimeFromClosedForm(lim: Limits, ticks: seq<Tick>, g: Guard)
    requires lim.speed > 0.0 && ticks != [] && Nondecreasing(ticks)
    requires g == Guard(Some(ticks[0].t), Samples(lim, Front(ticks)), OverRun(lim, Front(ticks)),
                        ZeroingSince(Front(ticks)), None, Now(ticks).progress)
    requires ImmediateStop(lim, Elapsed(ticks), Now(ticks)).None?
    ensures var (g', r) := Tier1Check(lim, g, Elapsed(ticks), Now(ticks));
            Outcome(lim, ticks, VerdictOf(lim, ticks), g', r)
  {
    HeldZeroMeansTimerExpired(ticks);
    if !HeldZero(ticks) {
      JudgeFromClosedForm(lim, ticks, g.(zeroSince := ZeroingSince(ticks)));
    }
  }

  lemma StepOnRunning(lim: Limits, g: Guard, o: Tick)
    requires lim.speed > 0.0 && g.ended.None?
    ensures var t0 := g.t0.GetOr(o.t);
            var g1 := g.(t0 := Some(t0), lastProgress := o.progress);
            var stop := ImmediateStop(lim, o.t - t0, o);
            Step(lim, g, o) == if stop.Some? then End(g1, stop.value) else Tier1Check(lim, g1, o.t - t0, o)
  {
  }

  /** The closed form once this tick's clock and progress are recorded. */
  function StartedState(lim: Limits, ticks: seq<Tick>): Guard
    requires lim.speed > 0.0 && ticks != []
  {
    Guard(Some(ticks[0].t), Samples(lim, Front(ticks)), OverRun(lim, Front(ticks)),
          ZeroingSince(Front(ticks)), None, Now(ticks).progress)
  }

  lemma StepRecordsTheTick(lim: Limits, ticks: seq<Tick>)
    requires lim.speed > 0.0 && ticks != []
    ensures var stop := ImmediateStop(lim, Elapsed(ticks), Now(ticks));
            Step(lim, OpenState(lim, Front(ticks)), Now(ticks)) ==
              if stop.Some? then End(StartedState(lim, ticks), stop.value)
              else Tier1Check(lim, StartedState(lim, ticks), Elapsed(ticks), Now(ticks))
  {
    StepOnRunning(lim, OpenState(lim, Front(ticks)), Now(ticks));
  }

  /** One step from the closed form ends exactly on the history verdict, or stays in the closed form. */
  lemma {:induction false} StepFromOpenState(lim: Limits, ticks: seq<Tick>)
    requires lim.speed > 0.0 && ticks != [] && Nondecreasing(ticks)
    ensures var (g, r) := Step(lim, OpenState(lim, Front(ticks)), Now(ticks));
            Outcome(lim, ticks, VerdictOf(lim, ticks), g, r)
  {
    StepRecordsTheTick(lim, ticks);
    if ImmediateStop(lim, Elapsed(ticks), Now(ticks)).None? {
      TimeFromClosedForm(lim, ticks, StartedState(lim, ticks));
    }
  }

  /** The guard ends with the verdict of the first tick that deserves one; until then its
      history, counters and timer are the closed forms. */
  lemma {:induction false} GuardRefinesHistory(lim: Limits, ticks: seq<Tick>)
    requires lim.speed > 0.0 && Nondecreasing(ticks)
    ensures var (g, r) := Run(lim, ticks);
            && g.ended == r.ended == FirstVerdict(lim, ticks)
            && (g.ended.Some? ==> r.scalar == 0.0)
            && (g.ended.None? ==> g == OpenState(lim, ticks))
            && (g.ended.None? && ticks != [] ==> r.scalar == CommandNow(lim, ticks))
  {
    if ticks != [] {
      GuardRefinesHistory(lim, Front(ticks));
      StepFromOpenState(lim, ticks);
    }
  }
}
