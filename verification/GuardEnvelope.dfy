/** What the guard promises about any run: bounded speed, bounded travel, a timely
    end, and a bounded reaction to a robot that does not move. */
module GuardEnvelope {
  import opened Basics
  import opened MotionGuards
  import opened GuardHistory

  /** Ticks on the 20 Hz grid. */
  ghost predicate OnGrid(ticks: seq<Tick>) {
    forall i :: 0 <= i < |ticks| ==> ticks[i].t == ticks[0].t + i as real * TICK_S
  }

  lemma GridIsNondecreasing(ticks: seq<Tick>)
    requires OnGrid(ticks)
    ensures Nondecreasing(ticks)
  {
  }

  predicate Running(lim: Limits, ticks: seq<Tick>)
    requires lim.speed > 0.0
  {
    Run(lim, ticks).0.ended.None?
  }

  /** The scalar returned at each tick. */
  function Scalars(lim: Limits, ticks: seq<Tick>): (s: seq<real>)
    requires lim.speed > 0.0
    ensures |s| == |ticks|
  {
    if ticks == [] then [] else Scalars(lim, Front(ticks)) + [Run(lim, ticks).1.scalar]
  }

  function Sum(s: seq<real>): real {
    if s == [] then 0.0 else Sum(s[..|s| - 1]) + s[|s| - 1]
  }

  /** Travel commanded by these scalars, one tick each. */
  function TravelOf(scalars: seq<real>): real {
    Sum(scalars) * TICK_S
  }

  // -- speed ------------------------------------------------------------------

  /** The taper with its division multiplied out. */
  lemma TaperForm(speed: real, rest: real)
    requires speed > 0.0
    ensures Tapered(speed, rest) == Max(TAPER_MIN * speed, Min(speed, rest / TAPER_S))
  {
    var taper := rest / (speed * TAPER_S);
    assert taper * (speed * TAPER_S) == rest;
    assert speed * taper == rest / TAPER_S;
    if taper <= TAPER_MIN {
      ScaleMono(speed, taper, TAPER_MIN);
    } else if taper <= 1.0 {
      ScaleMono(speed, TAPER_MIN, taper);
      ScaleMono(speed, taper, 1.0);
    } else {
      ScaleMono(speed, 1.0, taper);
    }
  }

  lemma RampBounds(speed: real, el: real)
    requires speed > 0.0 && el >= 0.0
    ensures 0.0 <= Ramped(speed, el) <= speed
    ensures el >= RAMP_S ==> Ramped(speed, el) == speed
    ensures el == 0.0 ==> Ramped(speed, el) == 0.0
  {
    assert el / RAMP_S == 2.0 * el;
    ScaleMono(speed, 0.0, Min(1.0, el / RAMP_S));
    ScaleMono(speed, Min(1.0, el / RAMP_S), 1.0);
  }

  lemma CommandBounds(lim: Limits, el: real, progress: real)
    requires lim.speed > 0.0 && progress < lim.amount && el >= 0.0
    ensures 0.0 <= Command(lim, el, progress) <= lim.speed
    ensures el == 0.0 ==> Command(lim, el, progress) == 0.0
    ensures el >= RAMP_S ==> Command(lim, el, progress) >= TAPER_MIN * lim.speed
  {
    hide Ramped, Tapered;
    TaperForm(lim.speed, lim.amount - progress);
    RampBounds(lim.speed, el);
  }

  lemma {:induction false} RunningMeansNoVerdict(lim: Limits, ticks: seq<Tick>)
    requires lim.speed > 0.0 && Nondecreasing(ticks) && ticks != []
    ensures Running(lim, ticks) ==> VerdictOf(lim, ticks).None? && Run(lim, ticks).1.scalar == CommandNow(lim, ticks)
    ensures !Running(lim, ticks) ==> Run(lim, ticks).1.scalar == 0.0
  {
    GuardRefinesHistory(lim, ticks);
  }

  /** The scalar stays in [0, speed], is at least the taper floor once the ramp is over
      and the motion is running, and is zero at the first tick and once the motion has ended. */
  lemma {:induction false} ScalarStaysInEnvelope(lim: Limits, ticks: seq<Tick>)
    requires ValidLimits(lim) && Nondecreasing(ticks) && ticks != []
    ensures var scalar := Run(lim, ticks).1.scalar;
            && 0.0 <= scalar <= lim.speed
            && (Running(lim, ticks) && Elapsed(ticks) >= RAMP_S ==> scalar >= TAPER_MIN * lim.speed)
            && (!Running(lim, ticks) || Elapsed(ticks) == 0.0 ==> scalar == 0.0)
  {
    RunningMeansNoVerdict(lim, ticks);
    if Running(lim, ticks) {
      CommandBounds(lim, Elapsed(ticks), Now(ticks).progress);
    }
  }

  /** A verdict is a latch: every later tick repeats it, whatever is observed. */
  lemma {:induction false} VerdictIsLatched(lim: Limits, ticks: seq<Tick>, n: nat)
    requires lim.speed > 0.0 && n <= |ticks| && !Running(lim, ticks[..n])
    ensures Run(lim, ticks).0 == Run(lim, ticks[..n]).0
    ensures n < |ticks| ==> Run(lim, ticks).1 == GuardStep(0.0, Run(lim, ticks[..n]).0.ended)
  {
    if n == |ticks| {
      assert ticks[..n] == ticks;
    } else {
      assert Front(ticks)[..n] == ticks[..n];
      VerdictIsLatched(lim, Front(ticks), n);
    }
  }

  lemma RunningBefore(lim: Limits, ticks: seq<Tick>, n: nat)
    requires lim.speed > 0.0 && n <= |ticks| && Running(lim, ticks)
    ensures Running(lim, ticks[..n])
  {
    if !Running(lim, ticks[..n]) { VerdictIsLatched(lim, ticks, n); }
  }

  // -- time and travel --------------------------------------------------------

  /** No motion is still running past its timeout. */
  lemma EndsByTimeout(lim: Limits, ticks: seq<Tick>)
    requires ValidLimits(lim) && Nondecreasing(ticks) && ticks != []
    requires Elapsed(ticks) > lim.timeout
    ensures !Running(lim, ticks)
  {
    RunningMeansNoVerdict(lim, ticks);
  }

  /** The last tick on the grid that is not past the timeout. */
  function LastTick(timeout: real): int {
    (timeout / TICK_S).Floor
  }

  /** Nothing at the first tick, at most the speed up to tick `m`, nothing after it. */
  ghost predicate Capped(scalars: seq<real>, speed: real, m: int) {
    forall i :: 0 <= i < |scalars| ==> scalars[i] <= if 0 < i <= m then speed else 0.0
  }

  lemma {:induction false} ScalarsAreCapped(lim: Limits, ticks: seq<Tick>)
    requires ValidLimits(lim) && OnGrid(ticks)
    ensures Capped(Scalars(lim, ticks), lim.speed, LastTick(lim.timeout))
  {
    if ticks != [] {
      ScalarsAreCapped(lim, Front(ticks));
      GridIsNondecreasing(ticks);
      ScalarStaysInEnvelope(lim, ticks);
      if |ticks| - 1 > LastTick(lim.timeout) {
        assert Elapsed(ticks) == (|ticks| - 1) as real * TICK_S > lim.timeout;
        EndsByTimeout(lim, ticks);
      }
    }
  }

  lemma {:induction false} CappedSum(scalars: seq<real>, speed: real, m: nat)
    requires Capped(scalars, speed, m) && speed > 0.0
    ensures Sum(scalars) <= m as real * speed
    ensures scalars != [] ==> Sum(scalars) <= (|scalars| - 1) as real * speed
  {
    if |scalars| > 1 {
      var n := |scalars| - 1;
      CappedSum(scalars[..n], speed, m);
      assert n as real * speed == (n - 1) as real * speed + speed;
      if n <= m { assert (m - n) as real * speed >= 0.0; }
    } else if |scalars| == 1 {
      assert scalars[..|scalars| - 1] == [];
    }
  }

  /** Whatever is observed, the travel a motion commands in all is bounded by its request. */
  lemma TravelIsBounded(lim: Limits, ticks: seq<Tick>)
    requires ValidLimits(lim) && OnGrid(ticks)
    ensures TravelOf(Scalars(lim, ticks)) <= 2.0 * lim.amount + 3.0 * lim.speed
  {
    hide Run, Scalars, Sum;
    TimeoutTravel(lim.amount, lim.speed, lim.timeout);
    var m := LastTick(lim.timeout);
    ScalarsAreCapped(lim, ticks);
    CappedSum(Scalars(lim, ticks), lim.speed, m);
    TicksWithin(Sum(Scalars(lim, ticks)), lim.speed, m as real, lim.timeout);
  }

  lemma TicksWithin(sum: real, speed: real, m: real, timeout: real)
    requires speed > 0.0 && sum <= m * speed && m * TICK_S <= timeout
    ensures sum * TICK_S <= speed * timeout
  {
    ScaleMono(speed, m * TICK_S, timeout);
    assert speed * (m * TICK_S) == m * speed * TICK_S;
  }

  lemma TimeoutTravel(amount: real, speed: real, timeout: real)
    requires amount > 0.0 && speed > 0.0 && timeout == amount / speed * 2.0 + 3.0
    ensures speed * timeout == 2.0 * amount + 3.0 * speed
    ensures timeout > 0.0
  {
    var q := amount / speed;
    assert speed * q == amount;
    if q <= 0.0 { ScaleMono(speed, q, 0.0); }
    assert speed * (q * 2.0 + 3.0) == 2.0 * (speed * q) + 3.0 * speed;
  }

  // -- windows on the grid ----------------------------------------------------

  lemma {:induction false} SplitAtCut(hist: seq<Sample>, cut: real, m: nat)
    requires m <= |hist|
    requires forall i :: 0 <= i < m ==> hist[i].t <= cut
    requires forall i :: m <= i < |hist| ==> hist[i].t > cut
    ensures UpTo(hist, cut) == hist[..m] && After(hist, cut) == hist[m..]
  {
    if hist != [] {
      var n := |hist| - 1;
      var front := hist[..n];
      if m == |hist| {
        SplitAtCut(front, cut, n);
        assert hist[..m] == front[..n] + [hist[n]] && hist[m..] == [];
      } else {
        SplitAtCut(front, cut, m);
        assert hist[..m] == front[..m];
        assert hist[m..] == front[m..] + [hist[n]];
      }
    }
  }

  /** On the grid, the window over `n` ticks starts exactly `n` ticks back, once there are that many. */
  lemma WindowOnGrid(hist: seq<Sample>, t0: real, progress: real, n: nat)
    requires 1 <= n
    requires forall i :: 0 <= i < |hist| ==> hist[i].t == t0 + i as real * TICK_S
    ensures var k := |hist|;
            WindowOf(hist, progress, t0 + k as real * TICK_S, n as real * TICK_S) ==
              if k < n then None
              else Some(Window(n as real * TICK_S, progress - hist[k - n].progress,
                               SumCmd(hist[k - n + 1..]) * TICK_S))
  {
    hide UpTo, After, SumCmd;
    var k := |hist|;
    var cut := t0 + k as real * TICK_S - n as real * TICK_S;
    if k < n {
      NoOlderSample(hist, cut);
    } else {
      SplitAtCut(hist, cut, k - n + 1);
      SplitAtCut(hist, hist[k - n].t, k - n + 1);
    }
  }

  /** A running guard's samples are the grid, the progress seen and exactly the scalars it returned. */
  lemma {:induction false} SamplesOfRun(lim: Limits, ticks: seq<Tick>)
    requires lim.speed > 0.0 && Nondecreasing(ticks) && Running(lim, ticks)
    ensures var hist := Samples(lim, ticks);
            forall i :: 0 <= i < |ticks| ==>
              hist[i] == Sample(ticks[i].t, ticks[i].progress, Scalars(lim, ticks)[i])
  {
    if ticks != [] {
      RunningBefore(lim, ticks, |ticks| - 1);
      SamplesOfRun(lim, Front(ticks));
      RunningMeansNoVerdict(lim, ticks);
    }
  }

  lemma {:induction false} SumCmdIsSum(hist: seq<Sample>, scalars: seq<real>)
    requires |hist| == |scalars| && forall i :: 0 <= i < |hist| ==> hist[i].cmd == scalars[i]
    ensures SumCmd(hist) == Sum(scalars)
  {
    if hist != [] { SumCmdIsSum(hist[..|hist| - 1], scalars[..|scalars| - 1]); }
  }

  /** The window a running guard looks back over, in terms of what was observed and commanded. */
  lemma WindowOfRun(ticks: seq<Tick>, hist: seq<Sample>, scalars: seq<real>, n: nat)
    requires OnGrid(ticks) && 1 <= n < |ticks| && |ticks| == |hist| + 1 == |scalars| + 1
    requires forall i :: 0 <= i < |hist| ==> hist[i] == Sample(ticks[i].t, ticks[i].progress, scalars[i])
    ensures var k := |ticks| - 1;
            WindowOf(hist, Now(ticks).progress, Now(ticks).t, n as real * TICK_S) ==
              Some(Window(n as real * TICK_S, Now(ticks).progress - ticks[k - n].progress,
                          TravelOf(scalars[k - n + 1..])))
  {
    var k := |ticks| - 1;
    WindowOnGrid(hist, ticks[0].t, Now(ticks).progress, n);
    SumCmdIsSum(hist[k - n + 1..], scalars[k - n + 1..]);
  }

  // -- reaction ---------------------------------------------------------------

  const STALL_WIN_TICKS := 30
  const STALL_AFTER_TICKS := 40

  lemma {:induction false} SumAtLeast(s: seq<real>, least: real)
    requires forall i :: 0 <= i < |s| ==> s[i] >= least
    ensures Sum(s) >= |s| as real * least
  {
    if s != [] { SumAtLeast(s[..|s| - 1], least); }
  }

  /** Past the ramp, every scalar of a running guard is at least the taper floor. */
  lemma {:induction false} ScalarsKeepUp(lim: Limits, ticks: seq<Tick>)
    requires ValidLimits(lim) && OnGrid(ticks) && Running(lim, ticks)
    ensures forall i :: SPEED_WIN_TICKS <= i < |ticks| ==> Scalars(lim, ticks)[i] >= TAPER_MIN * lim.speed
  {
    if ticks != [] {
      RunningBefore(lim, ticks, |ticks| - 1);
      ScalarsKeepUp(lim, Front(ticks));
      GridIsNondecreasing(ticks);
      ScalarStaysInEnvelope(lim, ticks);
    }
  }

  /** At every tick past the start-up grace that does not end the motion, the progress gained over
      the stall window is at least a quarter of the travel commanded inside it, which is positive. */
  lemma {:induction false} ProgressKeepsUp(lim: Limits, ticks: seq<Tick>)
    requires ValidLimits(lim) && OnGrid(ticks) && |ticks| > STALL_AFTER_TICKS && Running(lim, ticks)
    ensures var k := |ticks| - 1;
            var commanded := TravelOf(Scalars(lim, ticks)[k - STALL_WIN_TICKS + 1..k]);
            Now(ticks).progress - ticks[k - STALL_WIN_TICKS].progress >= STALL_FRAC * commanded > 0.0
  {
    hide Run, VerdictOf, Samples, WindowOf, Nondecreasing, Sum;
    var k := |ticks| - 1;
    var front := Front(ticks);
    GridIsNondecreasing(ticks);
    RunningBefore(lim, ticks, k);
    SamplesOfRun(lim, front);
    WindowOfRun(ticks, Samples(lim, front), Scalars(lim, front), STALL_WIN_TICKS);
    ScalarsKeepUp(lim, ticks);
    var inside := Scalars(lim, ticks)[k - STALL_WIN_TICKS + 1..k];
    assert inside == Scalars(lim, front)[k - STALL_WIN_TICKS + 1..];
    SumAtLeast(inside, TAPER_MIN * lim.speed);
    assert |inside| == 29;
    NotStalled(lim, ticks);
    assert Elapsed(ticks) == k as real * TICK_S;
  }

  lemma NotStalled(lim: Limits, ticks: seq<Tick>)
    requires lim.speed > 0.0 && Nondecreasing(ticks) && ticks != [] && Running(lim, ticks)
    ensures !Stalled(Samples(lim, Front(ticks)), Elapsed(ticks), Now(ticks))
  {
    RunningMeansNoVerdict(lim, ticks);
  }

  /** A robot that has made no headway over the stall window is stopped at this very tick. */
  lemma FlatRunEnds(lim: Limits, ticks: seq<Tick>)
    requires ValidLimits(lim) && OnGrid(ticks) && |ticks| > STALL_AFTER_TICKS
    requires Now(ticks).progress <= ticks[|ticks| - 1 - STALL_WIN_TICKS].progress
    ensures !Running(lim, ticks)
  {
    if Running(lim, ticks) { ProgressKeepsUp(lim, ticks); }
  }
}
