/** The replay of scripts/diag/objects_tick_age.py: which frames are accepted and how old the
    newest one is on every control tick. */
module AgeReplay {
  import opened Basics

  /** Receive and capture time of one frame, in milliseconds of the same clock. */
  datatype Frame = Frame(rx: real, tc: real)

  predicate ByReceive(frames: seq<Frame>) {
    forall i, j :: 0 <= i <= j < |frames| ==> frames[i].rx <= frames[j].rx
  }

  predicate CaptureIncreases(frames: seq<Frame>) {
    forall i, j :: 0 <= i < j < |frames| ==> frames[i].tc < frames[j].tc
  }

  function Last<T>(s: seq<T>): T
    requires s != []
  {
    s[|s| - 1]
  }

  // -- acceptance ---------------------------------------------------------------

  predicate Fresher(accepted: seq<Frame>, f: Frame) {
    accepted == [] || f.tc > Last(accepted).tc
  }

  /** Continue accepting `frames` after `accepted`. */
  function AcceptMore(accepted: seq<Frame>, frames: seq<Frame>): seq<Frame> {
    if frames == [] then accepted
    else
      var before := AcceptMore(accepted, Front(frames));
      if Fresher(before, Last(frames)) then before + [Last(frames)] else before
  }

  function Accept(frames: seq<Frame>): seq<Frame> {
    AcceptMore([], frames)
  }

  method AcceptedOnly(frames: seq<Frame>) returns (out: seq<Frame>)
    ensures out == Accept(frames)
  {
    out := [];
    var last: Option<real> := None;
    for i := 0 to |frames|
      invariant out == Accept(frames[..i])
      invariant last == if out == [] then None else Some(Last(out).tc)
    {
      assert Front(frames[..i + 1]) == frames[..i];
      if last.None? || frames[i].tc > last.value {
        out := out + [frames[i]];
        last := Some(frames[i].tc);
      }
    }
    assert frames[..|frames|] == frames;
  }

  /** Frame `i` is newer than everything before it. */
  predicate IsRecord(frames: seq<Frame>, i: nat)
    requires i < |frames|
  {
    forall j :: 0 <= j < i ==> frames[j].tc < frames[i].tc
  }

  /** The strict running-maximum records, in order. */
  function Records(frames: seq<Frame>): seq<Frame> {
    if frames == [] then []
    else Records(Front(frames)) + if IsRecord(frames, |frames| - 1) then [Last(frames)] else []
  }

  /** The last accepted frame is the newest one received so far. */
  lemma {:induction false} LastAcceptedIsNewest(frames: seq<Frame>) returns (j: nat)
    requires frames != []
    ensures Accept(frames) != [] && j < |frames| && frames[j] == Last(Accept(frames))
    ensures forall i :: 0 <= i < |frames| ==> frames[i].tc <= frames[j].tc
  {
    var front := Front(frames);
    j := |front|;
    assert front == [] ==> Accept(front) == [];
    if front != [] {
      var k := LastAcceptedIsNewest(front);
      assert front[k] == frames[k];
      if !Fresher(Accept(front), Last(frames)) { j := k; }
      forall i | 0 <= i < |frames| ensures frames[i].tc <= frames[j].tc {
        if i < |front| { assert front[i] == frames[i]; }
      }
    }
  }

  /** The accepted frames are exactly the records. */
  lemma {:induction false} AcceptedAreRecords(frames: seq<Frame>)
    ensures Accept(frames) == Records(frames)
  {
    if frames != [] {
      var front := Front(frames);
      AcceptedAreRecords(front);
      if front != [] {
        var j := LastAcceptedIsNewest(front);
        assert frames[j] == front[j];
        assert forall i :: 0 <= i < |front| ==> frames[i] == front[i];
      }
    }
  }

  lemma {:induction false} AcceptedIncreases(frames: seq<Frame>)
    ensures CaptureIncreases(Accept(frames))
    ensures ByReceive(frames) ==> ByReceive(Accept(frames))
    ensures ByReceive(frames) && frames != [] ==> Last(Accept(frames)).rx <= Last(frames).rx
    ensures frames != [] ==> Accept(frames)[0] == frames[0]
  {
    if frames != [] {
      AcceptedIncreases(Front(frames));
      if Front(frames) == [] { assert Accept(frames) == [frames[0]]; }
    }
  }

  lemma {:induction false} AcceptConcat(accepted: seq<Frame>, a: seq<Frame>, b: seq<Frame>)
    ensures AcceptMore(accepted, a + b) == AcceptMore(AcceptMore(accepted, a), b)
  {
    if b == [] {
      assert a + b == a;
    } else {
      AcceptConcat(accepted, a, Front(b));
      assert Front(a + b) == a + Front(b);
    }
  }

  /** A duplicate or late frame, wherever it arrives, changes nothing. */
  lemma LateFrameChangesNothing(frames: seq<Frame>, p: nat, f: Frame)
    requires p <= |frames|
    requires exists j :: 0 <= j < p && frames[j].tc >= f.tc
    ensures Accept(frames[..p] + [f] + frames[p..]) == Accept(frames)
  {
    var before, after := frames[..p], frames[p..];
    var j :| 0 <= j < p && frames[j].tc >= f.tc;
    assert before[j] == frames[j];
    var newest := LastAcceptedIsNewest(before);
    assert Front([f]) == [];
    assert AcceptMore(Accept(before), [f]) == Accept(before);
    AcceptConcat([], before, [f]);
    AcceptConcat([], before + [f], after);
    AcceptConcat([], before, after);
    assert before + after == frames;
  }

  /** Conversely, a frame newer than everything before it is accepted where it arrives. */
  lemma NewerFrameIsAccepted(before: seq<Frame>, f: Frame)
    requires forall j :: 0 <= j < |before| ==> before[j].tc < f.tc
    ensures Accept(before + [f]) == Accept(before) + [f]
  {
    assert Front(before + [f]) == before;
    if before != [] {
      var j := LastAcceptedIsNewest(before);
    }
  }

  // -- the replay ---------------------------------------------------------------

  /** How many frames have been received by `t` (frames in receive order). */
  function Received(frames: seq<Frame>, t: real): (n: nat)
    ensures n <= |frames|
  {
    if frames == [] then 0
    else if Last(frames).rx <= t then |frames|
    else Received(Front(frames), t)
  }

  lemma {:induction false} ReceivedSplits(frames: seq<Frame>, t: real)
    requires ByReceive(frames)
    ensures forall i :: 0 <= i < |frames| ==> (frames[i].rx <= t <==> i < Received(frames, t))
  {
    if frames != [] { ReceivedSplits(Front(frames), t); }
  }

  predicate Replayable(frames: seq<Frame>, tickMs: real) {
    frames != [] && ByReceive(frames) && tickMs > 0.0
  }

  /** Tick `k` of the replay. */
  function TickTime(frames: seq<Frame>, tickMs: real, k: int): real
    requires frames != []
  {
    frames[0].rx + k as real * tickMs
  }

  /** Every tick from the first to the last receive time. */
  function TickCount(frames: seq<Frame>, tickMs: real): int
    requires frames != [] && tickMs > 0.0
  {
    ((Last(frames).rx - frames[0].rx) / tickMs).Floor + 1
  }

  lemma TickStep(frames: seq<Frame>, tickMs: real, k: nat)
    requires frames != [] && tickMs > 0.0
    ensures TickTime(frames, tickMs, k) >= frames[0].rx && TickTime(frames, tickMs, 0) == frames[0].rx
    ensures TickTime(frames, tickMs, k + 1) == TickTime(frames, tickMs, k) + tickMs
  {
  }

  /** `k` ticks fit into a span of `q` ticks exactly when k is at most q. */
  lemma TicksFit(tickMs: real, k: real, q: real, span: real)
    requires tickMs > 0.0 && tickMs * q == span
    ensures k * tickMs <= span <==> k <= q
  {
    assert k * tickMs == tickMs * k;
    if k <= q { ScaleMono(tickMs, k, q); } else { ScaleStrict(tickMs, q, k); }
  }

  /** A tick is inside the capture exactly when it is one of the counted ones. */
  lemma TickInSpan(frames: seq<Frame>, tickMs: real, k: int)
    requires frames != [] && tickMs > 0.0
    ensures TickTime(frames, tickMs, k) <= Last(frames).rx <==> k < TickCount(frames, tickMs)
  {
    var span := Last(frames).rx - frames[0].rx;
    var q := span / tickMs;
    assert tickMs * q == span;
    TicksFit(tickMs, k as real, q, span);
    FloorBounds(q);
    assert k as real <= q <==> k <= q.Floor;
  }

  /** The age, at time `t`, of the newest frame received by then. */
  function AgeAt(frames: seq<Frame>, t: real): real
    requires Received(frames, t) > 0
  {
    t - frames[Received(frames, t) - 1].tc
  }

  lemma SomethingReceived(frames: seq<Frame>, tickMs: real, k: nat)
    requires Replayable(frames, tickMs)
    ensures Received(frames, TickTime(frames, tickMs, k)) > 0
  {
    TickStep(frames, tickMs, k);
    ReceivedSplits(frames, TickTime(frames, tickMs, k));
  }

  /** The ages on the first `n` ticks. */
  function Ages(frames: seq<Frame>, tickMs: real, n: nat): (ages: seq<real>)
    requires Replayable(frames, tickMs)
    ensures |ages| == n
    ensures forall k :: 0 <= k < n ==>
              Received(frames, TickTime(frames, tickMs, k)) > 0
              && ages[k] == AgeAt(frames, TickTime(frames, tickMs, k))
  {
    if n == 0 then []
    else
      SomethingReceived(frames, tickMs, n - 1);
      Ages(frames, tickMs, n - 1) + [AgeAt(frames, TickTime(frames, tickMs, n - 1))]
  }

  /** The whole replay: one age per counted tick, none skipped. */
  function Replay(frames: seq<Frame>, tickMs: real): seq<real>
    requires Replayable(frames, tickMs)
  {
    TickInSpan(frames, tickMs, 0);
    Ages(frames, tickMs, TickCount(frames, tickMs))
  }

  method TickAges(frames: seq<Frame>, tickMs: real) returns (ages: seq<real>)
    requires Replayable(frames, tickMs)
    ensures ages == Replay(frames, tickMs)
  {
    hide TickTime, TickCount, AgeAt, Received;
    ages := [];
    var i: nat, lastTc: Option<real> := 0, None;
    var tick, end := frames[0].rx, Last(frames).rx;
    TickStep(frames, tickMs, 0);
    TickInSpan(frames, tickMs, 0);
    while tick <= end
      invariant tick == TickTime(frames, tickMs, |ages|) && |ages| <= TickCount(frames, tickMs)
      invariant i <= |frames| && lastTc == if i == 0 then None else Some(frames[i - 1].tc)
      invariant forall j :: 0 <= j < i ==> frames[j].rx <= tick
      invariant ages == Ages(frames, tickMs, |ages|)
      decreases TickCount(frames, tickMs) - |ages|
    {
      TickInSpan(frames, tickMs, |ages|);
      while i < |frames| && frames[i].rx <= tick
        invariant i <= |frames| && lastTc == if i == 0 then None else Some(frames[i - 1].tc)
        invariant forall j :: 0 <= j < i ==> frames[j].rx <= tick
      {
        lastTc := Some(frames[i].tc);
        i := i + 1;
      }
      TickStep(frames, tickMs, |ages|);
      SomethingReceived(frames, tickMs, |ages|);
      ReceivedIs(frames, tick, i);
      NewestAge(frames, tick, i);
      if lastTc.Some? {
        ages := ages + [tick - lastTc.value];
      }
      tick := tick + tickMs;
    }
    TickInSpan(frames, tickMs, |ages|);
  }

  lemma NewestAge(frames: seq<Frame>, t: real, i: nat)
    requires 0 < i <= |frames| && Received(frames, t) == i
    ensures AgeAt(frames, t) == t - frames[i - 1].tc
  {
  }

  lemma ReceivedIs(frames: seq<Frame>, t: real, i: nat)
    requires ByReceive(frames) && i <= |frames|
    requires forall j :: 0 <= j < i ==> frames[j].rx <= t
    requires i < |frames| ==> frames[i].rx > t
    ensures Received(frames, t) == i
  {
  }

  // -- the replay against its meaning --------------------------------------------

  /** `m` is the largest capture time among the frames received by `t`. */
  ghost predicate IsNewestBy(frames: seq<Frame>, t: real, m: real) {
    && (exists i :: 0 <= i < |frames| && frames[i].rx <= t && frames[i].tc == m)
    && (forall i :: 0 <= i < |frames| && frames[i].rx <= t ==> frames[i].tc <= m)
  }

  lemma {:induction false} AcceptedPrefix(frames: seq<Frame>, t: real)
    requires ByReceive(frames)
    ensures var n := Received(frames, t);
            Accept(frames)[..Received(Accept(frames), t)] == Accept(frames[..n])
  {
    AcceptedIncreases(frames);
    if frames != [] {
      var front, f := Front(frames), Last(frames);
      AcceptedIncreases(front);
      if f.rx <= t {
        assert frames[..|frames|] == frames;
        ReceivedSplits(Accept(frames), t);
        var a := Accept(frames);
        if a != [] { assert Last(a).rx <= t; }
        assert Received(a, t) == |a|;
        assert a[..|a|] == a;
      } else {
        AcceptedPrefix(front, t);
        var n := Received(front, t);
        assert front[..n] == frames[..n];
        var before := Accept(front);
        if Fresher(before, f) {
          assert Front(before + [f]) == before;
          assert Received(before + [f], t) == Received(before, t);
          assert (before + [f])[..Received(before, t)] == before[..Received(before, t)];
        }
      }
    }
  }

  /** The replayed age of the accepted frames is the naive one over ALL frames: tick minus the newest
      capture received by then; and there is one age per tick of the accepted capture. */
  lemma ReplayIsNaive(frames: seq<Frame>, tickMs: real, k: nat)
    requires Replayable(frames, tickMs)
    ensures Replayable(Accept(frames), tickMs) && |Replay(Accept(frames), tickMs)| == TickCount(Accept(frames), tickMs)
    ensures k < |Replay(Accept(frames), tickMs)| ==>
              var t := TickTime(frames, tickMs, k);
              IsNewestBy(frames, t, t - Replay(Accept(frames), tickMs)[k])
  {
    hide TickTime, TickCount;
    AcceptedIncreases(frames);
    var a := Accept(frames);
    var j0 := LastAcceptedIsNewest(frames);
    TickInSpan(a, tickMs, 0);
    TickStep(a, tickMs, 0);
    if k < |Replay(a, tickMs)| {
      var t := TickTime(a, tickMs, k);
      SameStart(frames, a, tickMs, k);
      SomethingReceived(a, tickMs, k);
      SomethingReceived(frames, tickMs, k);
      AcceptedPrefix(frames, t);
      ReceivedSplits(frames, t);
      var n := Received(frames, t);
      var got := frames[..n];
      var j := LastAcceptedIsNewest(got);
      assert frames[j] == got[j];
      assert Last(Accept(got)) == a[Received(a, t) - 1];
      forall i | 0 <= i < |frames| && frames[i].rx <= t ensures frames[i].tc <= frames[j].tc {
        assert got[i] == frames[i];
      }
    }
  }

  lemma SameStart(a: seq<Frame>, b: seq<Frame>, tickMs: real, k: int)
    requires a != [] && b != [] && a[0].rx == b[0].rx
    ensures TickTime(a, tickMs, k) == TickTime(b, tickMs, k)
  {
  }

  // -- the sawtooth ---------------------------------------------------------------

  /** Between a frame and the next one, the age is at least the frame's latency and strictly
      less than latency plus gap. */
  lemma AgeWithinGap(frames: seq<Frame>, t: real, i: nat)
    requires ByReceive(frames) && i + 1 < |frames| && frames[i].rx <= t < frames[i + 1].rx
    ensures Received(frames, t) == i + 1
    ensures var latency, gap := frames[i].rx - frames[i].tc, frames[i + 1].rx - frames[i].rx;
            latency <= AgeAt(frames, t) < latency + gap
  {
  }

  /** From one tick to the next the age grows by exactly a tick if and only if no accepted frame
      arrived; when one did, it grows by less. */
  lemma AgeGrowth(frames: seq<Frame>, tickMs: real, k: nat)
    requires Replayable(frames, tickMs) && CaptureIncreases(frames) && k + 1 < |Replay(frames, tickMs)|
    ensures var ages := Replay(frames, tickMs);
            var arrived := Received(frames, TickTime(frames, tickMs, k))
                           < Received(frames, TickTime(frames, tickMs, k + 1));
            && (ages[k + 1] - ages[k] == tickMs <==> !arrived)
            && (arrived ==> ages[k + 1] - ages[k] < tickMs)
  {
    hide TickTime, Received;
    var t, u := TickTime(frames, tickMs, k), TickTime(frames, tickMs, k + 1);
    TickStep(frames, tickMs, k);
    ReceivedSplits(frames, t);
    ReceivedSplits(frames, u);
    var i, j := Received(frames, t), Received(frames, u);
    assert i > 0 && frames[i - 1].rx <= u;
  }

  // -- decimation -------------------------------------------------------------------

  /** frames[::n] */
  function EveryNth(frames: seq<Frame>, n: nat): seq<Frame>
    requires n >= 1
  {
    if frames == [] then []
    else if |frames| <= n then [frames[0]]
    else [frames[0]] + EveryNth(frames[n..], n)
  }

  lemma {:induction false} EveryNthIsSubset(frames: seq<Frame>, n: nat)
    requires n >= 1 && ByReceive(frames)
    ensures var kept := EveryNth(frames, n);
            && ByReceive(kept) && (forall f :: f in kept ==> f in frames)
            && (frames != [] ==> kept != [] && kept[0] == frames[0])
  {
    if |frames| > n {
      EveryNthIsSubset(frames[n..], n);
      var rest := EveryNth(frames[n..], n);
      forall f | f in rest ensures f in frames && frames[0].rx <= f.rx {
        var i :| 0 <= i < |frames[n..]| && frames[n..][i] == f;
        assert frames[n + i] == f;
      }
      assert forall i :: 0 <= i < |rest| ==> rest[i] in rest;
    }
  }

  /** Frame `i` of the slice is frame `i * n`, and no multiple of `n` is left out. */
  lemma {:induction false} EveryNthIndices(frames: seq<Frame>, n: nat, i: nat)
    requires n >= 1
    ensures i < |EveryNth(frames, n)| <==> i * n < |frames|
    ensures i < |EveryNth(frames, n)| ==> EveryNth(frames, n)[i] == frames[i * n]
  {
    if i == 0 {
      assert i * n == 0;
    } else {
      assert i * n == (i - 1) * n + n;
      if |frames| > n { EveryNthIndices(frames[n..], n, i - 1); }
      assert (i - 1) * n >= 0;
    }
  }

  /** Fewer frames, older news: any replay of some of the frames, from the same start, is nowhere
      fresher than the full one and no longer. */
  lemma {:induction false} FewerFramesNeverFresher(full: seq<Frame>, kept: seq<Frame>, tickMs: real)
    requires Replayable(full, tickMs) && Replayable(kept, tickMs) && CaptureIncreases(full)
    requires kept[0].rx == full[0].rx && forall f :: f in kept ==> f in full
    ensures |Replay(kept, tickMs)| <= |Replay(full, tickMs)|
    ensures forall k :: 0 <= k < |Replay(kept, tickMs)| ==> Replay(kept, tickMs)[k] >= Replay(full, tickMs)[k]
  {
    hide TickTime, Received, TickCount;
    assert Last(kept) in full;
    var n, m := |Replay(full, tickMs)|, |Replay(kept, tickMs)|;
    TickInSpan(full, tickMs, 0);
    TickInSpan(kept, tickMs, 0);
    TickStep(full, tickMs, 0);
    TickStep(kept, tickMs, 0);
    SameStart(full, kept, tickMs, n);
    TickInSpan(full, tickMs, n);
    TickInSpan(kept, tickMs, n);
    forall k | 0 <= k < m ensures Replay(kept, tickMs)[k] >= Replay(full, tickMs)[k] {
      SameStart(full, kept, tickMs, k);
      KeptIsOlder(full, kept, TickTime(kept, tickMs, k));
    }
  }

  lemma KeptIsOlder(full: seq<Frame>, kept: seq<Frame>, t: real)
    requires ByReceive(full) && ByReceive(kept) && CaptureIncreases(full)
    requires Received(kept, t) > 0 && forall f :: f in kept ==> f in full
    ensures Received(full, t) > 0 && AgeAt(kept, t) >= AgeAt(full, t)
  {
    hide Received;
    ReceivedSplits(kept, t);
    ReceivedSplits(full, t);
    var f := kept[Received(kept, t) - 1];
    assert f in kept;
    var i :| 0 <= i < |full| && full[i] == f;
  }

  /** Keeping every n-th accepted frame never makes the replay look fresher. */
  lemma {:induction false} DecimationNeverFresher(frames: seq<Frame>, n: nat, tickMs: real)
    requires Replayable(frames, tickMs) && CaptureIncreases(frames) && n >= 1
    ensures var kept := EveryNth(frames, n);
            && Replayable(kept, tickMs) && |Replay(kept, tickMs)| <= |Replay(frames, tickMs)|
            && forall k :: 0 <= k < |Replay(kept, tickMs)| ==> Replay(kept, tickMs)[k] >= Replay(frames, tickMs)[k]
  {
    EveryNthIsSubset(frames, n);
    FewerFramesNeverFresher(frames, EveryNth(frames, n), tickMs);
  }
}
