/** Liveness: a robot that follows its commands exactly is never stopped by mistake and
    reaches the target, strictly before the timeout and without passing it. */
module ExactTracking {
  import opened Basics
  import opened MotionGuards
  import opened GuardHistory
  import opened GuardEnvelope

  /** Nothing wrong is observed at this tick. */
  predicate Benign(o: Tick) {
    !o.operatorStop && !o.estopChanged && !o.foreign && !o.stateStale && o.odomValid
    && o.stopReason == "none" && o.offAxis == 0.0
  }

  /** The robot starts at the start pose and moves by exactly what it was last commanded. */
  ghost predicate Tracks(lim: Limits, ticks: seq<Tick>)
    requires lim.speed > 0.0
  {
    && OnGrid(ticks)
    && (forall i :: 0 <= i < |ticks| ==> Benign(ticks[i]))
    && (ticks != [] ==> ticks[0].progress == 0.0)
    && forall i :: 0 < i < |ticks| ==>
         ticks[i].progress == ticks[i - 1].progress + Scalars(lim, ticks)[i - 1] * TICK_S
  }

  /** While the motion runs, the robot gains at every tick between a quarter of what it was last commanded and one
      and a half times that, whatever else is observed. */
  ghost predicate RoughlyTracks(lim: Limits, ticks: seq<Tick>)
    requires lim.speed > 0.0
  {
    && OnGrid(ticks)
    && forall i :: 0 < i < |ticks| && Running(lim, ticks[..i]) ==>
         RoughGain(ticks[i].progress - ticks[i - 1].progress, Scalars(lim, ticks)[i - 1] * TICK_S)
  }

  /** Neither slower than the stall test allows nor faster than the over-speed test does. */
  predicate RoughGain(gain: real, commanded: real) {
    STALL_FRAC * commanded <= gain <= OVERSPEED_K * commanded
  }

  /** The slowest tapered tick is shorter than the target tolerance. */
  predicate FineTaper(lim: Limits) {
    TAPER_MIN * lim.speed * TICK_S <= lim.tol
  }

  /** How far one tick at the taper floor, from just outside the tolerance, can lead past the target. */
  function Overshoot(lim: Limits): (past: real)
    ensures past >= 0.0 && (FineTaper(lim) ==> past == 0.0)
  {
    Max(0.0, TAPER_MIN * lim.speed * TICK_S - lim.tol)
  }

  lemma {:induction false} ScalarsOfPrefix(lim: Limits, ticks: seq<Tick>, n: nat)
    requires lim.speed > 0.0 && n <= |ticks|
    ensures Scalars(lim, ticks)[..n] == Scalars(lim, ticks[..n])
  {
    hide Run;
    if n < |ticks| {
      assert Front(ticks)[..n] == ticks[..n];
      ScalarsOfPrefix(lim, Front(ticks), n);
    } else {
      assert ticks[..n] == ticks;
    }
  }

  lemma TracksPrefix(lim: Limits, ticks: seq<Tick>, n: nat)
    requires lim.speed > 0.0 && n <= |ticks| && Tracks(lim, ticks)
    ensures Tracks(lim, ticks[..n])
  {
    hide Run, Scalars;
    ScalarsOfPrefix(lim, ticks, n);
    forall i | 0 < i < n
      ensures ticks[..n][i].progress == ticks[..n][i - 1].progress + Scalars(lim, ticks[..n])[i - 1] * TICK_S
    {
      assert Scalars(lim, ticks[..n])[i - 1] == Scalars(lim, ticks)[i - 1];
    }
  }

  // -- progress is the travel commanded so far ---------------------------------

  lemma {:induction false} SumAppend(a: seq<real>, b: seq<real>)
    ensures Sum(a + b) == Sum(a) + Sum(b)
  {
    if b == [] {
      assert a + b == a;
    } else {
      SumAppend(a, b[..|b| - 1]);
      assert (a + b)[..|a + b| - 1] == a + b[..|b| - 1];
    }
  }

  lemma {:induction false} ProgressIsTravel(lim: Limits, ticks: seq<Tick>, a: nat, b: nat)
    requires lim.speed > 0.0 && Tracks(lim, ticks) && a <= b < |ticks|
    ensures ticks[b].progress - ticks[a].progress == TravelOf(Scalars(lim, ticks)[a..b])
  {
    hide Run, Scalars;
    var s := Scalars(lim, ticks);
    if a < b {
      ProgressIsTravel(lim, ticks, a, b - 1);
      assert s[a..b][..b - 1 - a] == s[a..b - 1];
      assert TravelOf(s[a..b]) == TravelOf(s[a..b - 1]) + s[b - 1] * TICK_S;
    }
  }

  /** Progress never falls. */
  lemma {:induction false} ProgressNeverFalls(lim: Limits, ticks: seq<Tick>, a: nat, b: nat)
    requires ValidLimits(lim) && Tracks(lim, ticks) && a <= b < |ticks|
    ensures ticks[a].progress <= ticks[b].progress
  {
    hide Run, Scalars, Tracks;
    var between := Scalars(lim, ticks)[a..b];
    ProgressIsTravel(lim, ticks, a, b);
    TrackedInOrder(lim, ticks);
    ScalarsAreNonnegative(lim, ticks);
    SumAtLeast(between, 0.0);
    assert |between| as real * 0.0 == 0.0;
  }

  lemma {:induction false} TrackedInOrder(lim: Limits, ticks: seq<Tick>)
    requires lim.speed > 0.0 && Tracks(lim, ticks)
    ensures Nondecreasing(ticks)
  {
    hide Scalars;
    GridIsNondecreasing(ticks);
  }

  // -- no false alarm -----------------------------------------------------------

  lemma {:induction false} SumAtMostMax(hist: seq<Sample>, most: real)
    requires forall i :: 0 <= i < |hist| ==> hist[i].cmd <= most
    ensures SumCmd(hist) <= |hist| as real * most
  {
    if hist != [] { SumAtMostMax(hist[..|hist| - 1], most); }
  }

  /** A speed averaged over the window is at most the fastest command in it. */
  lemma AverageAtMostMax(recent: seq<Sample>)
    requires |recent| == SPEED_WIN_TICKS
    ensures SumCmd(recent) * TICK_S / SPEED_WIN_S <= MaxCmd(recent)
  {
    SumAtMostMax(recent, MaxCmd(recent));
  }

  lemma MaxIsNonnegative(recent: seq<Sample>)
    requires recent != [] && forall i :: 0 <= i < |recent| ==> recent[i].cmd >= 0.0
    ensures MaxCmd(recent) >= 0.0
  {
  }

  /** Moving by at most one and a half times the commands never looks over-speed. */
  lemma {:induction false} NeverOverLimit(lim: Limits, hist: seq<Sample>, o: Tick, t0: real)
    requires lim.margin > 0.0 && o.t == t0 + |hist| as real * TICK_S
    requires forall i :: 0 <= i < |hist| ==> hist[i].t == t0 + i as real * TICK_S && hist[i].cmd >= 0.0
    requires |hist| >= SPEED_WIN_TICKS ==>
      var from := |hist| - SPEED_WIN_TICKS;
      o.progress - hist[from].progress <= OVERSPEED_K * (SumCmd(hist[from..]) * TICK_S)
    ensures !OverLimit(lim, hist, o)
  {
    hide WindowOf, SumCmd, MaxCmd;
    assert SPEED_WIN_S == SPEED_WIN_TICKS as real * TICK_S;
    WindowOnGrid(hist, t0, o.progress, SPEED_WIN_TICKS);
    if |hist| >= SPEED_WIN_TICKS {
      var recent := hist[|hist| - SPEED_WIN_TICKS..];
      assert Recent(hist, SPEED_WIN_TICKS) == recent;
      AverageAtMostMax(recent);
      MaxIsNonnegative(recent);
      var gained := o.progress - hist[|hist| - SPEED_WIN_TICKS].progress;
      SlowEnough(gained, SumCmd(recent) * TICK_S, MaxCmd(recent), lim.margin);
    }
  }

  lemma SlowEnough(gained: real, commanded: real, most: real, margin: real)
    requires gained <= OVERSPEED_K * commanded && commanded / SPEED_WIN_S <= most && margin > 0.0
    ensures gained / SPEED_WIN_S <= OVERSPEED_K * most + margin
  {
    assert gained / SPEED_WIN_S == 2.0 * gained && commanded / SPEED_WIN_S == 2.0 * commanded;
  }

  /** Moving by at least a quarter of the commands never looks blocked. */
  lemma NeverStalled(hist: seq<Sample>, el: real, o: Tick, t0: real)
    requires o.t == t0 + |hist| as real * TICK_S
    requires forall i :: 0 <= i < |hist| ==> hist[i].t == t0 + i as real * TICK_S && hist[i].cmd >= 0.0
    requires |hist| >= STALL_WIN_TICKS ==>
      var from := |hist| - STALL_WIN_TICKS;
      o.progress - hist[from].progress >= STALL_FRAC * (SumCmd(hist[from..]) * TICK_S)
    ensures !Stalled(hist, el, o)
  {
    assert STALL_WIN_S == STALL_WIN_TICKS as real * TICK_S;
    WindowOnGrid(hist, t0, o.progress, STALL_WIN_TICKS);
    if |hist| >= STALL_WIN_TICKS {
      var from := |hist| - STALL_WIN_TICKS;
      SumCmdDropFirst(hist[from..]);
      assert hist[from..][1..] == hist[from + 1..];
    }
  }

  lemma {:induction false} SumCmdDropFirst(hist: seq<Sample>)
    requires hist != []
    ensures SumCmd(hist) == hist[0].cmd + SumCmd(hist[1..])
  {
    if |hist| > 1 {
      var front := hist[..|hist| - 1];
      SumCmdDropFirst(front);
      assert hist[1..][..|hist| - 2] == front[1..];
    } else {
      assert hist[..|hist| - 1] == [] && hist[1..] == [];
    }
  }

  lemma {:induction false} HistoryOfRun(lim: Limits, ticks: seq<Tick>)
    requires ValidLimits(lim) && OnGrid(ticks) && ticks != [] && Running(lim, Front(ticks))
    ensures var hist := Samples(lim, Front(ticks));
            forall i :: 0 <= i < |hist| ==>
              && hist[i] == Sample(ticks[i].t, ticks[i].progress, Scalars(lim, ticks)[i])
              && hist[i].t == ticks[0].t + i as real * TICK_S && hist[i].cmd >= 0.0
    ensures Now(ticks).t == ticks[0].t + (|ticks| - 1) as real * TICK_S
  {
    hide Run, Samples, Scalars;
    var front := Front(ticks);
    GridIsNondecreasing(ticks);
    SamplesOfRun(lim, front);
    ScalarsAreNonnegative(lim, front);
    ScalarsOfPrefix(lim, ticks, |ticks| - 1);
  }

  /** Over any stretch of a running motion the gains add up. */
  lemma {:induction false} RoughGains(lim: Limits, ticks: seq<Tick>, a: nat, b: nat)
    requires lim.speed > 0.0 && RoughlyTracks(lim, ticks) && a <= b < |ticks| && Running(lim, Front(ticks))
    ensures RoughGain(ticks[b].progress - ticks[a].progress, TravelOf(Scalars(lim, ticks)[a..b]))
  {
    hide Run, Scalars, Running;
    var s := Scalars(lim, ticks);
    if a < b {
      RoughGains(lim, ticks, a, b - 1);
      RunningBefore(lim, Front(ticks), b);
      assert Front(ticks)[..b] == ticks[..b];
      assert s[a..b][..b - 1 - a] == s[a..b - 1];
      assert TravelOf(s[a..b]) == TravelOf(s[a..b - 1]) + s[b - 1] * TICK_S;
    }
  }

  lemma {:induction false} GainsInHistory(lim: Limits, ticks: seq<Tick>, hist: seq<Sample>, n: nat)
    requires lim.speed > 0.0 && RoughlyTracks(lim, ticks) && |ticks| == |hist| + 1 && 0 < n <= |hist|
    requires Running(lim, Front(ticks))
    requires forall i :: 0 <= i < |hist| ==> hist[i] == Sample(ticks[i].t, ticks[i].progress, Scalars(lim, ticks)[i])
    ensures var from := |hist| - n;
            RoughGain(Now(ticks).progress - hist[from].progress, SumCmd(hist[from..]) * TICK_S)
  {
    hide Run, Scalars, RoughlyTracks;
    var k, from := |hist|, |hist| - n;
    RoughGains(lim, ticks, from, k);
    SumCmdIsSum(hist[from..], Scalars(lim, ticks)[from..k]);
  }

  /** A tick that keeps roughly to its commands is not over the limit, */
  lemma {:induction false} NoOverSpeed(lim: Limits, ticks: seq<Tick>)
    requires ValidLimits(lim) && RoughlyTracks(lim, ticks) && ticks != [] && Running(lim, Front(ticks))
    ensures !OverNow(lim, ticks)
  {
    hide Run, Scalars, OverLimit;
    var hist := Samples(lim, Front(ticks));
    HistoryOfRun(lim, ticks);
    if |hist| >= SPEED_WIN_TICKS { GainsInHistory(lim, ticks, hist, SPEED_WIN_TICKS); }
    NeverOverLimit(lim, hist, Now(ticks), ticks[0].t);
  }

  /** and not stalled. */
  lemma {:induction false} NoStall(lim: Limits, ticks: seq<Tick>)
    requires ValidLimits(lim) && RoughlyTracks(lim, ticks) && ticks != [] && Running(lim, Front(ticks))
    ensures !Stalled(Samples(lim, Front(ticks)), Elapsed(ticks), Now(ticks))
  {
    hide Run, Scalars, Stalled;
    var hist := Samples(lim, Front(ticks));
    HistoryOfRun(lim, ticks);
    if |hist| >= STALL_WIN_TICKS { GainsInHistory(lim, ticks, hist, STALL_WIN_TICKS); }
    NeverStalled(hist, Elapsed(ticks), Now(ticks), ticks[0].t);
  }

  lemma {:induction false} RoughPrefix(lim: Limits, ticks: seq<Tick>, n: nat)
    requires lim.speed > 0.0 && n <= |ticks| && RoughlyTracks(lim, ticks)
    ensures RoughlyTracks(lim, ticks[..n])
  {
    hide Run, Scalars, Running, RoughGain;
    ScalarsOfPrefix(lim, ticks, n);
    forall i | 0 < i < n && Running(lim, ticks[..n][..i])
      ensures RoughGain(ticks[..n][i].progress - ticks[..n][i - 1].progress, Scalars(lim, ticks[..n])[i - 1] * TICK_S)
    {
      assert ticks[..n][..i] == ticks[..i];
      assert Scalars(lim, ticks[..n])[i - 1] == Scalars(lim, ticks)[i - 1];
    }
  }

  /** No run that keeps roughly to its commands is ever ended as over-speed or as a stall, whatever else is
      observed and however it ends. */
  lemma {:induction false} RoughTrackingNeverAlarms(lim: Limits, ticks: seq<Tick>)
    requires ValidLimits(lim) && RoughlyTracks(lim, ticks)
    ensures Run(lim, ticks).0.ended != Some(OverSpeed) && Run(lim, ticks).0.ended != Some(Stall)
  {
    hide Run, VerdictOf, RoughlyTracks;
    if ticks == [] {
      NothingYet(lim);
    } else {
      var front := Front(ticks);
      RoughPrefix(lim, ticks, |ticks| - 1);
      RoughTrackingNeverAlarms(lim, front);
      if Running(lim, front) {
        assert OnGrid(ticks) by { RoughOnGrid(lim, ticks); }
        GridIsNondecreasing(ticks);
        VerdictIsFinal(lim, ticks);
        NotAlarmed(lim, ticks);
      } else {
        VerdictIsLatched(lim, ticks, |ticks| - 1);
      }
    }
  }

  lemma RoughOnGrid(lim: Limits, ticks: seq<Tick>)
    requires lim.speed > 0.0 && RoughlyTracks(lim, ticks)
    ensures OnGrid(ticks)
  {
  }

  lemma {:induction false} NotAlarmed(lim: Limits, ticks: seq<Tick>)
    requires ValidLimits(lim) && RoughlyTracks(lim, ticks) && ticks != [] && Running(lim, Front(ticks))
    ensures VerdictOf(lim, ticks) != Some(OverSpeed) && VerdictOf(lim, ticks) != Some(Stall)
  {
    hide Run, Scalars, OverNow, Stalled, Samples, RoughlyTracks, HeldZero;
    NoOverSpeed(lim, ticks);
    NoStall(lim, ticks);
    assert ticks[..|ticks|] == ticks;
    assert !OverNow(lim, ticks[..|ticks|]);
  }

  /** Exact tracking is rough tracking. */
  lemma {:induction false} TracksRoughly(lim: Limits, ticks: seq<Tick>)
    requires ValidLimits(lim) && Tracks(lim, ticks)
    ensures RoughlyTracks(lim, ticks)
  {
    hide Run, Scalars, Running;
    GridIsNondecreasing(ticks);
    ScalarsAreNonnegative(lim, ticks);
  }

  /** While it is running, an exactly tracked motion can only be ended by reaching its target. */
  lemma {:induction false} OnlyDoneEnds(lim: Limits, ticks: seq<Tick>)
    requires ValidLimits(lim) && Tracks(lim, ticks) && ticks != []
    requires Running(lim, Front(ticks)) && Now(ticks).progress >= 0.0 && Elapsed(ticks) <= lim.timeout
    ensures VerdictOf(lim, ticks) == if lim.amount - Now(ticks).progress <= lim.tol then Some(Done) else None
  {
    hide Run, Scalars, OverNow, Stalled, Samples, OnGrid;
    TracksRoughly(lim, ticks);
    NoOverSpeed(lim, ticks);
    NoStall(lim, ticks);
    assert ticks[..|ticks|] == ticks;
    assert !OverNow(lim, ticks[..|ticks|]);
  }

  lemma {:induction false} ScalarsAreNonnegative(lim: Limits, ticks: seq<Tick>)
    requires ValidLimits(lim) && Nondecreasing(ticks)
    ensures forall i :: 0 <= i < |ticks| ==> Scalars(lim, ticks)[i] >= 0.0
  {
    hide Run, Command;
    if ticks != [] {
      ScalarsAreNonnegative(lim, Front(ticks));
      ScalarStaysInEnvelope(lim, ticks);
    }
  }

  // -- progress towards the target ----------------------------------------------

  /** Travel-equivalent of the time still needed: full speed outside the taper, its floor inside. */
  function Remaining(speed: real, rest: real): real {
    if rest >= TAPER_S * speed then rest + 1.4 * speed else rest / TAPER_MIN
  }

  lemma RemainingFalls(speed: real, rest: real)
    requires speed > 0.0 && rest > 0.0
    ensures Remaining(speed, rest - Tapered(speed, rest) * TICK_S) <= Remaining(speed, rest) - speed * TICK_S
  {
    hide Tapered;
    TaperForm(speed, rest);
  }

  lemma NoOvershoot(lim: Limits, el: real, progress: real)
    requires ValidLimits(lim) && lim.amount - progress > lim.tol && el >= 0.0
    ensures progress <= progress + Command(lim, el, progress) * TICK_S <= lim.amount + Overshoot(lim)
  {
    hide Tapered, Ramped;
    CommandBounds(lim, el, progress);
    TaperForm(lim.speed, lim.amount - progress);
  }

  /** The invariant of an exactly tracked run. */
  ghost predicate OnCourse(lim: Limits, ticks: seq<Tick>)
    requires lim.speed > 0.0 && ticks != []
  {
    var k, progress := |ticks| - 1, Now(ticks).progress;
    && 0.0 <= progress <= lim.amount + Overshoot(lim)
    && (Run(lim, ticks).0.ended.None? ==>
          && progress < lim.amount - lim.tol
          && (k >= 10 ==> k as real * (lim.speed * TICK_S) + Remaining(lim.speed, lim.amount - progress)
                          <= 0.5 * lim.speed + Remaining(lim.speed, lim.amount)))
    && (Run(lim, ticks).0.ended.Some? ==>
          Run(lim, ticks).0.ended.value.Done? && progress >= lim.amount - lim.tol)
  }

  lemma TravelTime(speed: real, amount: real, el: real)
    requires speed > 0.0 && speed * el <= amount + 1.9 * speed
    ensures el <= amount / speed + 1.9
  {
    var q := amount / speed;
    assert speed * q == amount;
    assert speed * (q + 1.9) == speed * q + 1.9 * speed;
    CancelScale(speed, el, q + 1.9);
  }

  /** A tracked motion that is still running after `k` ticks is well inside its timeout. */
  lemma WellInTime(lim: Limits, k: nat, rest: real)
    requires ValidLimits(lim) && rest > 0.0
    requires k >= 10 ==> k as real * (lim.speed * TICK_S) + Remaining(lim.speed, rest)
                          <= 0.5 * lim.speed + Remaining(lim.speed, lim.amount)
    ensures k as real * TICK_S <= lim.amount / lim.speed + 1.9
    ensures k as real * TICK_S + TICK_S < lim.timeout
  {
    var q, el := lim.amount / lim.speed, k as real * TICK_S;
    assert lim.speed * q == lim.amount && q > 0.0;
    if k >= 10 {
      var floor := Remaining(lim.speed, rest);
      assert floor >= 0.0 && Remaining(lim.speed, lim.amount) <= lim.amount + 1.4 * lim.speed;
      assert k as real * (lim.speed * TICK_S) == lim.speed * el;
      TravelTime(lim.speed, lim.amount, el);
    }
  }

  lemma LastScalar(lim: Limits, ticks: seq<Tick>)
    requires lim.speed > 0.0 && |ticks| > 1 && Tracks(lim, ticks)
    ensures Now(ticks).progress == Now(Front(ticks)).progress + Run(lim, Front(ticks)).1.scalar * TICK_S
  {
    hide Run;
    ScalarsOfPrefix(lim, ticks, |ticks| - 1);
    assert Scalars(lim, ticks)[|ticks| - 2] == Scalars(lim, Front(ticks))[|ticks| - 2];
  }

  lemma TracksOnGrid(lim: Limits, ticks: seq<Tick>)
    requires lim.speed > 0.0 && Tracks(lim, ticks) && ticks != []
    ensures Nondecreasing(ticks) && Nondecreasing(Front(ticks))
    ensures Elapsed(ticks) == (|ticks| - 1) as real * TICK_S
    ensures |ticks| > 1 ==> Elapsed(Front(ticks)) == (|ticks| - 2) as real * TICK_S
  {
    hide Run, Scalars;
  }

  /** One more tick of a running, exactly tracked motion stays on course. */
  lemma StaysOnCourse(lim: Limits, ticks: seq<Tick>)
    requires ValidLimits(lim) && Tracks(lim, ticks) && |ticks| > 1
    requires Running(lim, Front(ticks)) && OnCourse(lim, Front(ticks))
    ensures OnCourse(lim, ticks)
  {
    hide Run, Command, VerdictOf, Remaining, Tracks;
    var front, k := Front(ticks), |ticks| - 1;
    var before, el := Now(front).progress, Elapsed(front);
    TracksOnGrid(lim, ticks);
    RunningMeansNoVerdict(lim, front);
    LastScalar(lim, ticks);
    assert Run(lim, front).1.scalar == Command(lim, el, before);
    NoOvershoot(lim, el, before);
    WellInTime(lim, k - 1, lim.amount - before);
    OnlyDoneEnds(lim, ticks);
    VerdictIsFinal(lim, ticks);
    PotentialFalls(lim, k, before);
  }

  lemma {:induction false} VerdictIsFinal(lim: Limits, ticks: seq<Tick>)
    requires lim.speed > 0.0 && Nondecreasing(ticks) && ticks != [] && Running(lim, Front(ticks))
    ensures Run(lim, ticks).0.ended == VerdictOf(lim, ticks)
  {
    hide Run, VerdictOf;
    GuardRefinesHistory(lim, Front(ticks));
    GuardRefinesHistory(lim, ticks);
  }

  /** From the end of the ramp on, every running tick pays for its own time. */
  lemma PotentialFalls(lim: Limits, k: nat, before: real)
    requires ValidLimits(lim) && k > 0 && 0.0 <= before < lim.amount
    requires before + Command(lim, (k - 1) as real * TICK_S, before) * TICK_S >= 0.0
    requires k - 1 >= 10 ==> (k - 1) as real * (lim.speed * TICK_S) + Remaining(lim.speed, lim.amount - before)
                               <= 0.5 * lim.speed + Remaining(lim.speed, lim.amount)
    ensures var now := before + Command(lim, (k - 1) as real * TICK_S, before) * TICK_S;
            k >= 10 ==> k as real * (lim.speed * TICK_S) + Remaining(lim.speed, lim.amount - now)
                          <= 0.5 * lim.speed + Remaining(lim.speed, lim.amount)
  {
    hide Tapered, Ramped, Remaining;
    var d := lim.speed * TICK_S;
    var el := (k - 1) as real * TICK_S;
    var now := before + Command(lim, el, before) * TICK_S;
    if k > 10 {
      RampBounds(lim.speed, el);
      TaperForm(lim.speed, lim.amount - before);
      assert Command(lim, el, before) == Tapered(lim.speed, lim.amount - before);
      RemainingFalls(lim.speed, lim.amount - before);
      assert lim.amount - now == lim.amount - before - Tapered(lim.speed, lim.amount - before) * TICK_S;
      assert k as real * d == (k - 1) as real * d + d;
    } else if k == 10 {
      assert 10 as real * d == 0.5 * lim.speed;
      RemainingGrows(lim.speed, lim.amount - now, lim.amount);
    }
  }

  lemma RemainingGrows(speed: real, less: real, more: real)
    requires speed > 0.0 && less <= more
    ensures Remaining(speed, less) <= Remaining(speed, more)
  {
  }

  /** An exactly tracked run never leaves its course. */
  lemma {:induction false} TrackingStaysOnCourse(lim: Limits, ticks: seq<Tick>)
    requires ValidLimits(lim) && Tracks(lim, ticks) && ticks != []
    ensures OnCourse(lim, ticks)
  {
    hide Run, VerdictOf, Scalars;
    var front := Front(ticks);
    GridIsNondecreasing(ticks);
    if front == [] {
      StartsOnCourse(lim, ticks);
    } else {
      TracksPrefix(lim, ticks, |ticks| - 1);
      TrackingStaysOnCourse(lim, front);
      if Running(lim, front) {
        StaysOnCourse(lim, ticks);
      } else {
        LastScalar(lim, ticks);
        VerdictIsLatched(lim, ticks, |ticks| - 1);
        RunningMeansNoVerdict(lim, front);
      }
    }
  }

  lemma StartsOnCourse(lim: Limits, ticks: seq<Tick>)
    requires ValidLimits(lim) && Tracks(lim, ticks) && |ticks| == 1
    ensures OnCourse(lim, ticks)
  {
    hide Run, VerdictOf, Remaining;
    GridIsNondecreasing(ticks);
    assert Front(ticks) == [];
    NothingYet(lim);
    TimeoutTravel(lim.amount, lim.speed, lim.timeout);
    OnlyDoneEnds(lim, ticks);
    VerdictIsFinal(lim, ticks);
  }

  lemma NothingYet(lim: Limits)
    requires lim.speed > 0.0
    ensures Running(lim, [])
  {
  }

  // -- the main results -----------------------------------------------------------

  /** Exact tracking, at any speed the guard accepts: the only verdict is "done"; progress never passes the
      request, or by no more than the overshoot where the taper is coarse; a finished motion is within the
      tolerance; and a motion still running will get another tick in time. */
  lemma {:induction false} ExactTrackingIsSafe(lim: Limits, ticks: seq<Tick>)
    requires ValidLimits(lim) && Tracks(lim, ticks) && ticks != []
    ensures var ended := Run(lim, ticks).0.ended;
            && (ended.None? || ended == Some(Done))
            && 0.0 <= Now(ticks).progress <= lim.amount + Overshoot(lim)
            && (FineTaper(lim) ==> Now(ticks).progress <= lim.amount)
            && (ended == Some(Done) ==> Now(ticks).progress >= lim.amount - lim.tol)
            && (ended.None? ==> Elapsed(ticks) <= lim.amount / lim.speed + 1.9)
            && (ended.None? ==> Elapsed(ticks) + TICK_S < lim.timeout)
  {
    hide Run;
    TrackingStaysOnCourse(lim, ticks);
    if Run(lim, ticks).0.ended.None? {
      WellInTime(lim, |ticks| - 1, lim.amount - Now(ticks).progress);
    }
  }

  /** The exactly tracking robot, tick by tick. */
  function TrackingRun(lim: Limits, t0: real, n: nat): (ticks: seq<Tick>)
    requires lim.speed > 0.0
    ensures |ticks| == n
  {
    if n == 0 then []
    else
      var before := TrackingRun(lim, t0, n - 1);
      var progress := if n == 1 then 0.0 else Now(before).progress + Run(lim, before).1.scalar * TICK_S;
      before + [Tick(t0 + (n - 1) as real * TICK_S, progress, 0.0, false, false, false, false, true, "none")]
  }

  lemma {:induction false} ScalarsAppend(lim: Limits, before: seq<Tick>, o: Tick)
    requires lim.speed > 0.0
    ensures forall i :: 0 <= i < |before| ==> Scalars(lim, before + [o])[i] == Scalars(lim, before)[i]
    ensures before != [] ==> Scalars(lim, before)[|before| - 1] == Run(lim, before).1.scalar
  {
    hide Run;
    assert Front(before + [o]) == before;
  }

  lemma {:induction false} TracksAppend(lim: Limits, before: seq<Tick>, o: Tick)
    requires lim.speed > 0.0 && Tracks(lim, before) && Benign(o)
    requires before == [] ==> o.progress == 0.0
    requires before != [] ==> o.t == before[0].t + |before| as real * TICK_S
    requires before != [] ==> o.progress == Now(before).progress + Run(lim, before).1.scalar * TICK_S
    ensures Tracks(lim, before + [o])
  {
    hide Run, Scalars;
    var ticks := before + [o];
    ScalarsAppend(lim, before, o);
    forall i | 0 < i < |ticks|
      ensures ticks[i].progress == ticks[i - 1].progress + Scalars(lim, ticks)[i - 1] * TICK_S
    {
      assert Scalars(lim, ticks)[i - 1] == Scalars(lim, before)[i - 1];
    }
  }

  lemma {:induction false} TrackingRunTracks(lim: Limits, t0: real, n: nat)
    requires lim.speed > 0.0
    ensures Tracks(lim, TrackingRun(lim, t0, n))
    ensures n > 0 ==> TrackingRun(lim, t0, n)[0].t == t0
  {
    hide Run, Tracks;
    if n == 0 {
      NothingTracks(lim);
    } else {
      TrackingRunTracks(lim, t0, n - 1);
      var ticks := TrackingRun(lim, t0, n);
      TracksAppend(lim, TrackingRun(lim, t0, n - 1), ticks[n - 1]);
    }
  }

  lemma NothingTracks(lim: Limits)
    requires lim.speed > 0.0
    ensures Tracks(lim, [])
  {
  }

  /** Every exactly tracked motion is done at some tick strictly before its timeout, and not earlier. */
  lemma {:induction false} EveryTrackedMotionCompletes(lim: Limits, t0: real) returns (n: nat)
    requires ValidLimits(lim)
    ensures n > 0 && Tracks(lim, TrackingRun(lim, t0, n))
    ensures Run(lim, TrackingRun(lim, t0, n)).0.ended == Some(Done)
    ensures Running(lim, TrackingRun(lim, t0, n - 1))
    ensures Elapsed(TrackingRun(lim, t0, n)) < lim.timeout
  {
    hide Run, Tracks, TrackingRun;
    n := 1;
    TimeoutTravel(lim.amount, lim.speed, lim.timeout);
    TrackingRunTracks(lim, t0, 1);
    TrackingRunStarts(lim, t0, 1);
    ExactTrackingIsSafe(lim, TrackingRun(lim, t0, 1));
    while Running(lim, TrackingRun(lim, t0, n))
      invariant n > 0 && Running(lim, TrackingRun(lim, t0, n - 1))
      invariant Elapsed(TrackingRun(lim, t0, n)) == (n - 1) as real * TICK_S < lim.timeout
      decreases LastTick(lim.timeout) - n
    {
      TrackingRunTracks(lim, t0, n);
      ExactTrackingIsSafe(lim, TrackingRun(lim, t0, n));
      n := n + 1;
      TrackingRunStarts(lim, t0, n);
    }
    TrackingRunTracks(lim, t0, n);
    ExactTrackingIsSafe(lim, TrackingRun(lim, t0, n));
  }

  lemma TrackingRunStarts(lim: Limits, t0: real, n: nat)
    requires lim.speed > 0.0 && n > 0
    ensures Elapsed(TrackingRun(lim, t0, n)) == (n - 1) as real * TICK_S
    ensures n == 1 ==> Running(lim, TrackingRun(lim, t0, n - 1))
  {
    hide Run;
    NothingYet(lim);
    TrackingRunTracks(lim, t0, n);
  }

  // -- where the taper is coarse -------------------------------------------------------

  /** A tracked run goes on while it is outside the tolerance and in time. */
  lemma {:induction false} RunsOn(lim: Limits, t0: real, n: nat)
    requires ValidLimits(lim) && n > 0 && Running(lim, TrackingRun(lim, t0, n - 1))
    requires lim.amount - Now(TrackingRun(lim, t0, n)).progress > lim.tol && (n - 1) as real * TICK_S <= lim.timeout
    ensures Running(lim, TrackingRun(lim, t0, n))
  {
    hide Run, Tracks, VerdictOf, TrackingRun;
    var ticks := TrackingRun(lim, t0, n);
    TrackingRunTracks(lim, t0, n);
    TrackingRunStarts(lim, t0, n);
    FrontOfTrackingRun(lim, t0, n);
    TracksOnGrid(lim, ticks);
    ExactTrackingIsSafe(lim, ticks);
    OnlyDoneEnds(lim, ticks);
    VerdictIsFinal(lim, ticks);
  }

  lemma {:induction false} FrontOfTrackingRun(lim: Limits, t0: real, n: nat)
    requires lim.speed > 0.0 && n > 0
    ensures Front(TrackingRun(lim, t0, n)) == TrackingRun(lim, t0, n - 1)
  {
  }

  /** And then moves by its command. */
  lemma {:induction false} MovesOn(lim: Limits, t0: real, n: nat)
    requires ValidLimits(lim) && n > 0 && Running(lim, TrackingRun(lim, t0, n))
    ensures var before := Now(TrackingRun(lim, t0, n)).progress;
            Now(TrackingRun(lim, t0, n + 1)).progress
              == before + Command(lim, (n - 1) as real * TICK_S, before) * TICK_S
  {
    hide Run, Command;
    var ticks := TrackingRun(lim, t0, n);
    TrackingRunTracks(lim, t0, n);
    TrackingRunStarts(lim, t0, n);
    TracksOnGrid(lim, ticks);
    RunningMeansNoVerdict(lim, ticks);
  }

  /** Up to the taper floor the ramp alone decides. */
  lemma RampDecides(lim: Limits, k: nat, progress: real)
    requires lim.speed > 0.0 && k <= 3
    ensures Command(lim, k as real * TICK_S, progress) == k as real * 0.1 * lim.speed
  {
    var el, part := k as real * TICK_S, k as real * 0.1;
    TaperForm(lim.speed, lim.amount - progress);
    assert el / RAMP_S == part;
    assert Ramped(lim.speed, el) == lim.speed * part;
    hide Tapered, Ramped;
    ScaleMono(lim.speed, part, 0.3);
    assert lim.speed * part == part * lim.speed;
  }

  /** Where the taper floor is coarser than the tolerance there is always a request whose target an exactly
      tracking robot passes: so the fine taper is just what keeps it from doing so. */
  lemma {:induction false} CoarseTaperOvershoots(lim: Limits, t0: real)
    requires ValidLimits(lim) && !FineTaper(lim)
    requires 0.015 * lim.speed + lim.tol < lim.amount < 0.03 * lim.speed
    ensures Now(TrackingRun(lim, t0, 5)).progress > lim.amount
  {
    hide Run, Command, TrackingRun;
    TimeoutOverThree(lim);
    TrackingRunStarts(lim, t0, 1);
    TrackingRunTracks(lim, t0, 1);
    assert Now(TrackingRun(lim, t0, 1)).progress == 0.0 by { FirstProgress(lim, t0); }
    RunsOn(lim, t0, 1);
    MovesOn(lim, t0, 1);
    RampDecides(lim, 0, 0.0);
    RunsOn(lim, t0, 2);
    MovesOn(lim, t0, 2);
    RampDecides(lim, 1, 0.0);
    var third := 0.005 * lim.speed;
    assert Now(TrackingRun(lim, t0, 3)).progress == third;
    RunsOn(lim, t0, 3);
    MovesOn(lim, t0, 3);
    RampDecides(lim, 2, third);
    var fourth := 0.015 * lim.speed;
    assert Now(TrackingRun(lim, t0, 4)).progress == fourth;
    RunsOn(lim, t0, 4);
    MovesOn(lim, t0, 4);
    RampDecides(lim, 3, fourth);
  }

  lemma TimeoutOverThree(lim: Limits)
    requires ValidLimits(lim)
    ensures lim.timeout > 3.0
  {
    TimeoutTravel(lim.amount, lim.speed, lim.timeout);
    ScaleBack(lim.speed, lim.timeout, lim.amount);
  }

  lemma ScaleBack(speed: real, timeout: real, amount: real)
    requires speed > 0.0 && amount > 0.0 && speed * timeout == 2.0 * amount + 3.0 * speed
    ensures timeout > 3.0
  {
    if timeout <= 3.0 { ScaleMono(speed, timeout, 3.0); }
  }

  lemma FirstProgress(lim: Limits, t0: real)
    requires lim.speed > 0.0
    ensures Now(TrackingRun(lim, t0, 1)).progress == 0.0
  {
    assert TrackingRun(lim, t0, 0) == [];
  }
}
