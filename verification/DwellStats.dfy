/** The run-length statistics of scripts/diag/objects_tick_age.py and what they mean. */
module DwellStats {
  import opened Basics
  import AgeReplay

  /** Python's round(): to nearest, halves to even. */
  function RoundHalfEven(x: real): int {
    var f := x.Floor;
    var d := x - f as real;
    if d < 0.5 then f else if d > 0.5 then f + 1 else if f % 2 == 0 then f else f + 1
  }

  lemma RoundingIsMonotone(x: real, y: real)
    requires x <= y
    ensures RoundHalfEven(x) <= RoundHalfEven(y)
  {
  }

  lemma RoundingIsNearest(x: real)
    ensures -0.5 <= RoundHalfEven(x) as real - x <= 0.5
    ensures RoundHalfEven(x) as real - x == 0.5 || RoundHalfEven(x) as real - x == -0.5 ==> RoundHalfEven(x) % 2 == 0
  {
  }

  /** Which ticks are tier 1. */
  function Tier1(ages: seq<real>, thr: real): (flags: seq<bool>)
    ensures |flags| == |ages| && forall i :: 0 <= i < |ages| ==> flags[i] == (ages[i] <= thr)
  {
    seq(|ages|, i requires 0 <= i < |ages| => ages[i] <= thr)
  }

  /** Ticks that are not tier 1. */
  function Over(flags: seq<bool>): (n: nat)
    ensures n <= |flags|
  {
    if flags == [] then 0 else Over(Front(flags)) + if flags[|flags| - 1] then 0 else 1
  }

  /** The longest run of tier-1 ticks. */
  function Best(flags: seq<bool>): nat {
    if flags == [] then 0
    else
      var before := Best(Front(flags));
      if RunLength(flags) > before then RunLength(flags) else before
  }

  /** Ticks on which a dwell of `need` ticks completes: tier 1, with `need` of them in a row. */
  function Reach(flags: seq<bool>, need: int): (n: nat)
    ensures n <= |flags|
  {
    if flags == [] then 0
    else Reach(Front(flags), need) + if flags[|flags| - 1] && RunLength(flags) >= need then 1 else 0
  }

  /** (share over, longest run in seconds, share of completing ticks). */
  datatype Stats = Stats(over: real, best: real, reach: real)

  function Need(dwellS: real, tickMs: real): int
    requires tickMs > 0.0
  {
    RoundHalfEven(dwellS * 1000.0 / tickMs)
  }

  /** Part of the ticks, with an empty replay counted as one tick. */
  function Share(count: nat, ticks: nat): real {
    count as real / (if ticks > 1 then ticks else 1) as real
  }

  function Seconds(ticks: nat, tickMs: real): real {
    ticks as real * tickMs / 1000.0
  }

  function StatsOf(flags: seq<bool>, need: int, tickMs: real): Stats {
    Stats(Share(Over(flags), |flags|), Seconds(Best(flags), tickMs), Share(Reach(flags, need), |flags|))
  }

  lemma NearTimes(tickMs: real, need: real, q: real, span: real)
    requires tickMs > 0.0 && -0.5 <= need - q <= 0.5 && tickMs * q == span
    ensures -tickMs <= 2.0 * (need * tickMs - span) <= tickMs
  {
    Distributes(tickMs, q, 0.5);
    Distributes(tickMs, q, -0.5);
    ScaleMono(tickMs, need, q + 0.5);
    ScaleMono(tickMs, q + -0.5, need);
  }

  lemma Distributes(k: real, a: real, b: real)
    ensures k * (a + b) == k * a + k * b
  {
  }

  /** The ticks of a dwell are the nearest whole number of ticks, and the figures are what their units say. */
  lemma FiguresAreTrue(dwellS: real, tickMs: real, count: nat, ticks: nat)
    requires tickMs > 0.0
    ensures -tickMs <= 2.0 * (Need(dwellS, tickMs) as real * tickMs - 1000.0 * dwellS) <= tickMs
    ensures ticks > 0 ==> Share(count, ticks) * ticks as real == count as real
    ensures ticks == 0 ==> Share(count, ticks) == count as real
    ensures 1000.0 * Seconds(count, tickMs) == count as real * tickMs
  {
    NeedIsNearest(dwellS, tickMs);
    if ticks > 0 { QuotientTimes(ticks as real, count as real); }
  }

  lemma NeedIsNearest(dwellS: real, tickMs: real)
    requires tickMs > 0.0
    ensures -tickMs <= 2.0 * (Need(dwellS, tickMs) as real * tickMs - 1000.0 * dwellS) <= tickMs
  {
    var q, n := dwellS * 1000.0 / tickMs, Need(dwellS, tickMs);
    RoundingIsNearest(q);
    hide Need;
    assert tickMs * q == 1000.0 * dwellS;
    NearTimes(tickMs, n as real, q, 1000.0 * dwellS);
  }

  lemma QuotientTimes(n: real, c: real)
    requires n > 0.0
    ensures n * (c / n) == c
  {
  }

  method DwellStatistics(ages: seq<real>, thr: real, dwellS: real, tickMs: real) returns (s: Stats)
    requires tickMs > 0.0
    ensures s == StatsOf(Tier1(ages, thr), Need(dwellS, tickMs), tickMs)
  {
    var need := Need(dwellS, tickMs);
    var run, best, reach, over := 0, 0, 0, 0;
    ghost var flags := Tier1(ages, thr);
    for i := 0 to |ages|
      invariant run == RunLength(flags[..i]) && best == Best(flags[..i])
      invariant reach == Reach(flags[..i], need) && over == Over(flags[..i])
    {
      assert Front(flags[..i + 1]) == flags[..i];
      if ages[i] > thr {
        over := over + 1;
        run := 0;
      } else {
        run := run + 1;
        reach := reach + if run >= need then 1 else 0;
      }
      best := if run > best then run else best;
    }
    assert flags[..|ages|] == flags;
    return Stats(Share(over, |ages|), Seconds(best, tickMs), Share(reach, |ages|));
  }

  // -- what the counters mean -------------------------------------------------------

  /** The positions of ticks that are not tier 1. */
  function OverPositions(flags: seq<bool>): set<int> {
    set i | 0 <= i < |flags| && !flags[i]
  }

  /** The over counter is their number. */
  lemma {:induction false} OverCountsPositions(flags: seq<bool>)
    ensures Over(flags) == |OverPositions(flags)|
  {
    if flags == [] {
      assert OverPositions(flags) == {};
    } else {
      var n := |flags| - 1;
      OverCountsPositions(Front(flags));
      assert OverPositions(flags) == OverPositions(Front(flags)) + if flags[n] then {} else {n};
    }
  }

  /** The `n` ticks that end just before position `e` are all tier 1. */
  predicate Block(flags: seq<bool>, e: nat, n: nat) {
    n <= e <= |flags| && forall i :: e - n <= i < e ==> flags[i]
  }

  lemma BlockIsRun(flags: seq<bool>, e: nat, n: nat)
    requires e <= |flags|
    ensures Block(flags, e, n) <==> n <= RunLength(flags[..e])
  {
    if n <= e {
      RunLengthIsLongestSuffix(flags[..e], n);
      assert forall i :: 0 <= i < e ==> flags[..e][i] == flags[i];
    }
  }

  /** The longest run is the length of some tier-1 block, and no block is longer. */
  lemma {:induction false} BestIsLongestBlock(flags: seq<bool>) returns (end: nat)
    ensures Block(flags, end, Best(flags))
    ensures forall e: nat, n: nat :: Block(flags, e, n) ==> n <= Best(flags)
  {
    end := 0;
    if flags != [] {
      var front := Front(flags);
      end := BestIsLongestBlock(front);
      assert flags[..|flags|] == flags;
      BlockIsRun(flags, |flags|, RunLength(flags));
      assert Block(flags, end, Best(front));
      if RunLength(flags) > Best(front) { end := |flags|; }
      forall e: nat, n: nat | Block(flags, e, n) ensures n <= Best(flags) {
        if e < |flags| {
          assert Block(front, e, n);
        } else {
          BlockIsRun(flags, e, n);
        }
      }
    }
  }

  /** A dwell completes at position `e`: that tick is tier 1 and closes a full block of `need`. */
  predicate Completes(flags: seq<bool>, e: nat, need: int) {
    0 < e <= |flags| && Block(flags, e, if need > 1 then need else 1)
  }

  /** Some tick completes the dwell exactly when the counter is positive, and for a dwell of at least
      one tick that is exactly when the longest run is long enough. */
  lemma {:induction false} ReachMeansCompletion(flags: seq<bool>, need: int)
    ensures Reach(flags, need) > 0 <==> exists e :: Completes(flags, e, need)
    ensures need >= 1 ==> (Reach(flags, need) > 0 <==> Best(flags) >= need)
  {
    if flags != [] {
      var front := Front(flags);
      ReachMeansCompletion(front, need);
      assert flags[..|flags|] == flags;
      BlockIsRun(flags, |flags|, if need > 1 then need else 1);
      assert Completes(flags, |flags|, need) <==> flags[|flags| - 1] && RunLength(flags) >= need;
      forall e: nat | e < |flags| ensures Completes(flags, e, need) <==> Completes(front, e, need) {
        assert forall i :: 0 <= i < e ==> flags[i] == front[i];
      }
    }
  }

  /** Position `e` is one of the counted ones exactly when it completes the dwell. */
  lemma ReachCountsCompletions(flags: seq<bool>, need: int, e: nat)
    requires 0 < e <= |flags|
    ensures Reach(flags[..e], need) == Reach(flags[..e - 1], need) + if Completes(flags, e, need) then 1 else 0
  {
    assert Front(flags[..e]) == flags[..e - 1];
    BlockIsRun(flags, e, if need > 1 then need else 1);
  }

  // -- monotonicity -------------------------------------------------------------------

  /** Tier 1 wherever `f` is, and longer. */
  predicate Dominates(f: seq<bool>, g: seq<bool>) {
    |f| == |g| && forall i :: 0 <= i < |f| ==> f[i] ==> g[i]
  }

  lemma {:induction false} RunsGrow(f: seq<bool>, g: seq<bool>)
    requires Dominates(f, g)
    ensures RunLength(f) <= RunLength(g)
  {
    if f != [] && f[|f| - 1] { RunsGrow(f[..|f| - 1], g[..|g| - 1]); }
  }

  lemma {:induction false} MoreTier1IsBetter(f: seq<bool>, g: seq<bool>, need: int)
    requires Dominates(f, g)
    ensures Over(g) <= Over(f) && Best(f) <= Best(g) && Reach(f, need) <= Reach(g, need)
  {
    if f != [] {
      MoreTier1IsBetter(Front(f), Front(g), need);
      RunsGrow(f, g);
    }
  }

  lemma {:induction false} LongerDwellIsHarder(flags: seq<bool>, need: int, more: int)
    requires need <= more
    ensures Reach(flags, more) <= Reach(flags, need)
  {
    if flags != [] { LongerDwellIsHarder(Front(flags), need, more); }
  }

  lemma ShareGrows(a: nat, b: nat, ticks: nat)
    requires a <= b
    ensures Share(a, ticks) <= Share(b, ticks)
  {
    var n := (if ticks > 1 then ticks else 1) as real;
    var q, r := a as real / n, b as real / n;
    assert n * q == a as real && n * r == b as real;
    CancelScale(n, q, r);
  }

  lemma SecondsGrow(a: nat, b: nat, tickMs: real)
    requires a <= b && tickMs > 0.0
    ensures Seconds(a, tickMs) <= Seconds(b, tickMs)
  {
    ScaleMono(tickMs, a as real, b as real);
  }

  lemma {:induction false} StatsGrow(f: seq<bool>, g: seq<bool>, need: int, more: int, tickMs: real)
    requires |f| == |g| && tickMs > 0.0
    requires Over(g) <= Over(f) && Best(f) <= Best(g) && Reach(f, more) <= Reach(g, need)
    ensures var s, t := StatsOf(f, more, tickMs), StatsOf(g, need, tickMs);
            t.over <= s.over && s.best <= t.best && s.reach <= t.reach
  {
    hide Share, Seconds;
    ShareGrows(Over(g), Over(f), |f|);
    ShareGrows(Reach(f, more), Reach(g, need), |f|);
    SecondsGrow(Best(f), Best(g), tickMs);
  }

  /** Raising the threshold never raises the share over it and never lowers the longest run or the
      share of completing ticks; lengthening the dwell never raises the latter. */
  lemma {:induction false} LooserJudgement(ages: seq<real>, thr: real, thr': real, dwellS: real, dwellS': real,
                                           tickMs: real)
    requires thr <= thr' && dwellS' <= dwellS && tickMs > 0.0
    ensures var s := StatsOf(Tier1(ages, thr), Need(dwellS, tickMs), tickMs);
            var t := StatsOf(Tier1(ages, thr'), Need(dwellS', tickMs), tickMs);
            t.over <= s.over && s.best <= t.best && s.reach <= t.reach
  {
    hide Need, StatsOf;
    var f, g := Tier1(ages, thr), Tier1(ages, thr');
    NeedGrows(dwellS', dwellS, tickMs);
    var need, more := Need(dwellS', tickMs), Need(dwellS, tickMs);
    MoreTier1IsBetter(f, g, more);
    LongerDwellIsHarder(g, need, more);
    StatsGrow(f, g, need, more, tickMs);
  }

  lemma NeedGrows(a: real, b: real, tickMs: real)
    requires a <= b && tickMs > 0.0
    ensures Need(a, tickMs) <= Need(b, tickMs)
  {
    var q, r := a * 1000.0 / tickMs, b * 1000.0 / tickMs;
    assert tickMs * q == a * 1000.0 && tickMs * r == b * 1000.0;
    CancelScale(tickMs, q, r);
    RoundingIsMonotone(q, r);
  }

  /** Older ages never look better: on a shared prefix, a replay that is nowhere fresher has at least as
      many ticks over any threshold, no longer a run and no more completing ticks. */
  lemma OlderLooksNoBetter(older: seq<real>, ages: seq<real>, thr: real, need: int)
    requires |older| <= |ages| && forall i :: 0 <= i < |older| ==> older[i] >= ages[i]
    ensures var shared := ages[..|older|];
            && Over(Tier1(shared, thr)) <= Over(Tier1(older, thr))
            && Best(Tier1(older, thr)) <= Best(Tier1(shared, thr))
            && Reach(Tier1(older, thr), need) <= Reach(Tier1(shared, thr), need)
  {
    MoreTier1IsBetter(Tier1(older, thr), Tier1(ages[..|older|], thr), need);
  }

  /** So a slower perception rate never replays better: on the ticks both replays have, keeping every n-th
      accepted frame has at least as many ticks over any threshold, no longer a tier-1 run and no more
      ticks on which a dwell completes. */
  lemma DecimationLooksNoBetter(frames: seq<AgeReplay.Frame>, n: nat, tickMs: real, thr: real, need: int)
    requires AgeReplay.Replayable(frames, tickMs) && AgeReplay.CaptureIncreases(frames) && n >= 1
    ensures var kept := AgeReplay.EveryNth(frames, n);
            AgeReplay.Replayable(kept, tickMs)
    ensures var slow := AgeReplay.Replay(AgeReplay.EveryNth(frames, n), tickMs);
            var full := AgeReplay.Replay(frames, tickMs);
            |slow| <= |full|
            && (var shared := full[..|slow|];
                && Over(Tier1(shared, thr)) <= Over(Tier1(slow, thr))
                && Best(Tier1(slow, thr)) <= Best(Tier1(shared, thr))
                && Reach(Tier1(slow, thr), need) <= Reach(Tier1(shared, thr), need))
  {
    hide AgeReplay.Replay, AgeReplay.EveryNth, AgeReplay.Replayable, Tier1, Over, Best, Reach;
    AgeReplay.DecimationNeverFresher(frames, n, tickMs);
    OlderLooksNoBetter(AgeReplay.Replay(AgeReplay.EveryNth(frames, n), tickMs),
                       AgeReplay.Replay(frames, tickMs), thr, need);
  }
}
