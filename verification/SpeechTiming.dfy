/** Speech boundaries and the recommended margin of scripts/ai_runtime/measure_tts_timing.py. */
module SpeechTiming {
  import opened Basics

  const FRAME_MS := 20
  const ONSET_FRAMES := 3
  const SILENCE_FRAMES := 20
  const SAFETY_MS := 300
  const MIN_MARGIN_MS := 200
  const ROUND_MS := 50
  const SLOPE_WARN_MS := 500

  // -- boundaries -------------------------------------------------------------------------

  /** `n` frames from `s` on are all above the trigger. */
  predicate Loud(levels: seq<real>, trigger: real, s: nat, n: nat) {
    s + n <= |levels| && forall i :: s <= i < s + n ==> levels[i] > trigger
  }

  /** `n` frames from `s` on are all at or below it. */
  predicate Quiet(levels: seq<real>, trigger: real, s: nat, n: nat) {
    s + n <= |levels| && forall i :: s <= i < s + n ==> levels[i] <= trigger
  }

  /** The least start of three loud frames. */
  ghost predicate IsOnset(levels: seq<real>, trigger: real, onset: nat) {
    Loud(levels, trigger, onset, 3) && forall s: nat :: s < onset ==> !Loud(levels, trigger, s, 3)
  }

  /** The least frame from the onset on that opens the closing silence. */
  ghost predicate IsEnd(levels: seq<real>, trigger: real, onset: nat, end: nat) {
    onset <= end && Quiet(levels, trigger, end, 20)
    && forall s: nat :: onset <= s < end ==> !Quiet(levels, trigger, s, 20)
  }

  ghost predicate Utterance(levels: seq<real>, trigger: real, onset: nat, end: nat) {
    IsOnset(levels, trigger, onset) && IsEnd(levels, trigger, onset, end)
  }

  /** The first loop: stop at the frame that confirms an onset. */
  method FindOnset(levels: seq<real>, trigger: real) returns (onset: Option<nat>)
    ensures onset.Some? ==> IsOnset(levels, trigger, onset.value)
    ensures onset.None? ==> forall s: nat :: !Loud(levels, trigger, s, 3)
  {
    onset := None;
    var run := 0;
    for index := 0 to |levels|
      invariant run < ONSET_FRAMES && run <= index && Loud(levels, trigger, index - run, run)
      invariant index > run ==> levels[index - run - 1] <= trigger
      invariant forall s: nat :: s + ONSET_FRAMES <= index ==> !Loud(levels, trigger, s, ONSET_FRAMES)
    {
      if levels[index] > trigger {
        run := run + 1;
        if run >= ONSET_FRAMES {
          return Some(index - ONSET_FRAMES + 1);
        }
      } else {
        run := 0;
      }
    }
  }

  /** The two loops of _find_speech: an answer is given exactly when there is an utterance, and is it. */
  method FindSpeech(levels: seq<real>, trigger: real) returns (r: Option<(nat, nat)>)
    ensures r.Some? ==> Utterance(levels, trigger, r.value.0, r.value.1)
    ensures r.None? ==> forall onset: nat, end: nat :: !Utterance(levels, trigger, onset, end)
  {
    var found := FindOnset(levels, trigger);
    if found.None? {
      return None;
    }
    var onset, quiet := found.value, 0;
    for index := onset to |levels|
      invariant quiet < SILENCE_FRAMES && onset + quiet <= index && Quiet(levels, trigger, index - quiet, quiet)
      invariant index > onset + quiet ==> levels[index - quiet - 1] > trigger
      invariant forall s: nat :: onset <= s && s + SILENCE_FRAMES <= index ==>
                  !Quiet(levels, trigger, s, SILENCE_FRAMES)
    {
      if levels[index] > trigger {
        quiet := 0;
        continue;
      }
      quiet := quiet + 1;
      if quiet >= SILENCE_FRAMES {
        return Some((onset, index - SILENCE_FRAMES + 1));
      }
    }
    forall o: nat, e: nat ensures !Utterance(levels, trigger, o, e) {
      if Utterance(levels, trigger, o, e) { OnsetIsUnique(levels, trigger, o, onset); }
    }
    return None;
  }

  lemma OnsetIsUnique(levels: seq<real>, trigger: real, a: nat, b: nat)
    requires IsOnset(levels, trigger, a) && IsOnset(levels, trigger, b)
    ensures a == b
  {
  }

  lemma EndIsUnique(levels: seq<real>, trigger: real, onset: nat, a: nat, b: nat)
    requires IsEnd(levels, trigger, onset, a) && IsEnd(levels, trigger, onset, b)
    ensures a == b
  {
  }

  /** There is at most one utterance to find. */
  lemma UtteranceIsUnique(levels: seq<real>, trigger: real, o: nat, e: nat, o': nat, e': nat)
    requires Utterance(levels, trigger, o, e) && Utterance(levels, trigger, o', e')
    ensures o == o' && e == e'
  {
    OnsetIsUnique(levels, trigger, o, o');
    EndIsUnique(levels, trigger, o, e, e');
  }

  /** The frame before the end is loud, and the utterance is at least an onset long. */
  lemma EndFollowsSpeech(levels: seq<real>, trigger: real, onset: nat, end: nat)
    requires Utterance(levels, trigger, onset, end)
    ensures end >= onset + 3 && levels[end - 1] > trigger
  {
    assert levels[onset] > trigger && levels[onset + 1] > trigger && levels[onset + 2] > trigger;
    assert levels[end] <= trigger;
    if levels[end - 1] <= trigger { assert Quiet(levels, trigger, end - 1, SILENCE_FRAMES); }
  }

  /** Recording on never changes an answer that has been found. */
  lemma LongerRecordingAgrees(levels: seq<real>, more: seq<real>, trigger: real, onset: nat, end: nat)
    requires Utterance(levels, trigger, onset, end)
    ensures Utterance(levels + more, trigger, onset, end)
  {
    var all := levels + more;
    assert forall i :: 0 <= i < |levels| ==> all[i] == levels[i];
    forall s: nat | s < onset ensures !Loud(all, trigger, s, ONSET_FRAMES) {
      assert !Loud(levels, trigger, s, ONSET_FRAMES);
    }
    forall s: nat | onset <= s < end ensures !Quiet(all, trigger, s, SILENCE_FRAMES) {
      assert !Quiet(levels, trigger, s, SILENCE_FRAMES);
    }
  }

  // -- the margin ---------------------------------------------------------------------------

  datatype Timing = Timing(chars: nat, estMs: int, leadMs: int, endMs: int)
  {
    function Overrun(): int { endMs - estMs }
  }

  /** What is recorded of a phrase whose utterance lies between these frames. */
  function TimingOf(chars: nat, estMs: int, onset: nat, end: nat): Timing {
    Timing(chars, estMs, onset * FRAME_MS, end * FRAME_MS)
  }

  /** The next multiple of ROUND_MS, by Python's floor division of the negated value. */
  function RoundUp(value: int): int {
    ROUND_MS * -(-value / ROUND_MS)
  }

  lemma RoundUpIsLeastMultiple(value: int, k: int)
    ensures RoundUp(value) % 50 == 0 && value <= RoundUp(value) < value + 50
    ensures k % 50 == 0 && k >= value ==> RoundUp(value) <= k
  {
    var q := -value / ROUND_MS;
    assert -value == ROUND_MS * q + (-value) % ROUND_MS;
    assert RoundUp(value) == ROUND_MS * -q;
  }

  function Worst(timings: seq<Timing>): (w: int)
    requires timings != []
    ensures exists i :: 0 <= i < |timings| && timings[i].Overrun() == w
    ensures forall i :: 0 <= i < |timings| ==> timings[i].Overrun() <= w
  {
    var last := timings[|timings| - 1].Overrun();
    if |timings| == 1 then last
    else
      var before := Worst(timings[..|timings| - 1]);
      if last > before then last else before
  }

  /** min(timings, key=chars): the first of the shortest. */
  function Shortest(timings: seq<Timing>): (t: Timing)
    requires timings != []
    ensures t in timings && forall i :: 0 <= i < |timings| ==> t.chars <= timings[i].chars
  {
    var last := timings[|timings| - 1];
    if |timings| == 1 then last
    else
      var before := Shortest(timings[..|timings| - 1]);
      if last.chars < before.chars then last else before
  }

  /** max(timings, key=chars): the first of the longest. */
  function Longest(timings: seq<Timing>): (t: Timing)
    requires timings != []
    ensures t in timings && forall i :: 0 <= i < |timings| ==> timings[i].chars <= t.chars
  {
    var last := timings[|timings| - 1];
    if |timings| == 1 then last
    else
      var before := Longest(timings[..|timings| - 1]);
      if last.chars > before.chars then last else before
  }

  /** Among equally short phrases the slope compares the one measured first. */
  lemma {:induction false} ShortestIsFirst(timings: seq<Timing>) returns (i: nat)
    requires timings != []
    ensures i < |timings| && Shortest(timings) == timings[i]
    ensures forall j :: 0 <= j < i ==> timings[j].chars > timings[i].chars
  {
    i := |timings| - 1;
    if i > 0 {
      var front := timings[..i];
      var s := ShortestIsFirst(front);
      if timings[i].chars >= front[s].chars { i := s; }
    }
  }

  /** And among equally long ones. */
  lemma {:induction false} LongestIsFirst(timings: seq<Timing>) returns (i: nat)
    requires timings != []
    ensures i < |timings| && Longest(timings) == timings[i]
    ensures forall j :: 0 <= j < i ==> timings[j].chars < timings[i].chars
  {
    i := |timings| - 1;
    if i > 0 {
      var front := timings[..i];
      var l := LongestIsFirst(front);
      if timings[i].chars <= front[l].chars { i := l; }
    }
  }

  /** The recommended margin, or None where the overrun grows with length and no margin is right. */
  function Recommend(timings: seq<Timing>): Option<int>
    requires timings != []
  {
    var slope := Longest(timings).Overrun() - Shortest(timings).Overrun();
    if slope > SLOPE_WARN_MS then None
    else
      var rounded := RoundUp(Worst(timings) + SAFETY_MS);
      Some(if rounded > MIN_MARGIN_MS then rounded else MIN_MARGIN_MS)
  }

  /** No margin is recommended exactly where the first of the longest phrases overran its estimate by over half
      a second more than the first of the shortest. */
  lemma {:induction false} NoMarginIff(timings: seq<Timing>, s: nat, l: nat)
    requires s < |timings| && l < |timings|
    requires forall j :: 0 <= j < |timings| ==> timings[s].chars <= timings[j].chars <= timings[l].chars
    requires forall j :: 0 <= j < s ==> timings[j].chars != timings[s].chars
    requires forall j :: 0 <= j < l ==> timings[j].chars != timings[l].chars
    ensures Recommend(timings).None?
       <==> (timings[l].endMs - timings[l].estMs) - (timings[s].endMs - timings[s].estMs) > 500
  {
    hide Longest, Shortest, Worst;
    var i := ShortestIsFirst(timings);
    var j := LongestIsFirst(timings);
    assert i == s && j == l;
  }

  /** A margin that reopens the microphone only after the safety time past every measured end. */
  ghost predicate Covers(margin: int, timings: seq<Timing>) {
    forall i :: 0 <= i < |timings| ==> timings[i].estMs + margin >= timings[i].endMs + 300
  }

  /** The recommendation is the least round margin of at least the floor that covers every measured end. */
  lemma RecommendationIsLeast(timings: seq<Timing>, k: int)
    requires timings != [] && Recommend(timings).Some?
    ensures var m := Recommend(timings).value;
            && m % 50 == 0 && m >= 200 && Covers(m, timings)
            && (k % 50 == 0 && k >= 200 && Covers(k, timings) ==> m <= k)
  {
    var worst := Worst(timings);
    RoundUpIsLeastMultiple(worst + SAFETY_MS, k);
    forall i | 0 <= i < |timings|
      ensures timings[i].estMs + Recommend(timings).value >= timings[i].endMs + 300
    {
      assert timings[i].Overrun() <= worst;
    }
    var i :| 0 <= i < |timings| && timings[i].Overrun() == worst;
    if Covers(k, timings) { assert k >= worst + 300; }
  }

  /** From recording to gate: with the recommended margin, every frame of a measured utterance is over at
      least 300 ms before the gate of its phrase opens. */
  lemma GateStaysClosed(timings: seq<Timing>, p: nat, chars: nat, estMs: int, levels: seq<real>, trigger: real,
                        onset: nat, end: nat, i: nat)
    requires p < |timings| && Recommend(timings).Some?
    requires Utterance(levels, trigger, onset, end)
    requires timings[p] == TimingOf(chars, estMs, onset, end)
    requires i < end + 20 && levels[i] > trigger
    ensures timings[p].leadMs == 20 * onset && 20 * (i + 1) + 300 <= estMs + Recommend(timings).value
  {
    RecommendationIsLeast(timings, 0);
    assert i < end;
  }
}
