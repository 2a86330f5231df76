/** The console's threads -- the 20 Hz stream, the motion worker, the prompt and the
    subscriber callbacks -- as one state machine over their atomic steps. */
module BenchConsole {
  import opened Basics
  import opened MotionKinds
  import opened MotionGuards
  import opened GuardHistory
  import opened GuardEnvelope
  import ClosedLoop

  /** ChassisView: the readback the callbacks write. `foreign` is a latch. */
  datatype View = View(epoch: Option<int>, foreign: bool)

  /** int(st.get("estop_epoch") or 0) */
  function EpochOf(epoch: Option<int>): int {
    epoch.GetOr(0)
  }

  /** An enveloped message on the wire: a cmd_vel frame, or a ctrl / mode command from the prompt. */
  datatype Message =
    | CmdVel(seqNo: nat, v: Velocity, epoch: int, sawForeign: bool)
    | Ctrl(seqNo: nat)

  datatype Stream =
    | StreamIdle
    | StreamHolds(seqNo: nat, v: Velocity, epoch: int)
    | StreamChecked(frame: Message)

  datatype Worker =
    | Off
    | Started(kind: Kind, lim: Limits, epoch: Option<int>)
    | Waiting(kind: Kind, lim: Limits, guard: Guard)
    | Looked(kind: Kind, lim: Limits, guard: Guard, t: real, seen: View)
    | Judged(kind: Kind, lim: Limits, guard: Guard, scalar: real)
    | Settling

  datatype Prompt = Ready | Holds(seqNo: nat) | InMotion | Closing | Stopped

  datatype Console = Console(
    target: Velocity, echo: int, seqNo: nat, view: View, clock: real,
    stream: Stream, worker: Worker, prompt: Prompt, wire: seq<Message>)

  /** Everything one judged tick takes from outside the console. */
  datatype Observation = Observation(
    progress: real, offAxis: real, operatorStop: bool, stale: bool, odomValid: bool, stopReason: string)

  datatype Action =
    // the stream thread
    | StreamRead | StreamCheck | StreamPut
    // the motion worker
    | MotionStart(kind: Kind, amount: real, speed: real, pi: real)
    | Refuse | Arm | Look(t: real) | Judge(o: Observation) | Apply | Leave
    // the prompt
    | CommandSeq | CommandPut | EstopCommand | Join | Close | Stop
    // zenoh callbacks
    | OnState(epoch: Option<int>) | OnForeign

  function TickOf(w: Worker, echo: int, o: Observation): Tick
    requires w.Looked?
  {
    Tick(w.t, o.progress, o.offAxis, o.operatorStop, w.seen.epoch != Some(echo), w.seen.foreign,
         o.stale, o.odomValid, o.stopReason)
  }

  /** The effect of one atomic step, or None where it is not enabled. */
  function Next(s: Console, a: Action): Option<Console> {
    match a
    case StreamRead =>
      if s.stream.StreamIdle? && !s.prompt.Stopped? then
        Some(s.(seqNo := s.seqNo + 1, stream := StreamHolds(s.seqNo + 1, s.target, s.echo)))
      else None
    case StreamCheck =>
      if s.stream.StreamHolds? then
        var v := if s.view.foreign then STILL else s.stream.v;
        Some(s.(stream := StreamChecked(CmdVel(s.stream.seqNo, v, s.stream.epoch, s.view.foreign))))
      else None
    case StreamPut =>
      if s.stream.StreamChecked? then
        Some(s.(stream := StreamIdle, wire := s.wire + [s.stream.frame]))
      else None
    case MotionStart(kind, amount, speed, pi) =>
      var lim := LimitsOf(kind, amount, speed, pi);
      if s.prompt.Ready? && s.worker.Off? && lim.Some? && pi > 3.0
        && speed <= ClosedLoop.Ceiling(kind) && amount <= ClosedLoop.Longest(kind, pi) then
        Some(s.(prompt := InMotion, worker := Started(kind, lim.value, s.view.epoch)))
      else None
    case Refuse =>
      if s.worker.Started? then Some(s.(worker := Off)) else None
    case Arm =>
      if s.worker.Started? then
        Some(s.(echo := EpochOf(s.worker.epoch), worker := Waiting(s.worker.kind, s.worker.lim, FRESH)))
      else None
    case Look(t) =>
      if s.worker.Waiting? && t >= s.clock then
        Some(s.(clock := t, worker := Looked(s.worker.kind, s.worker.lim, s.worker.guard, t, s.view)))
      else None
    case Judge(o) =>
      if s.worker.Looked? && s.worker.lim.speed > 0.0 then
        var (g, r) := Step(s.worker.lim, s.worker.guard, TickOf(s.worker, s.echo, o));
        Some(s.(worker := Judged(s.worker.kind, s.worker.lim, g, r.scalar)))
      else None
    case Apply =>
      if s.worker.Judged? then
        Some(s.(target := CommandVector(s.worker.kind, s.worker.scalar),
                worker := if s.worker.guard.ended.None? then Waiting(s.worker.kind, s.worker.lim, s.worker.guard)
                          else Settling))
      else None
    case Leave =>
      if s.worker.Settling? then Some(s.(target := STILL, worker := Off)) else None
    case CommandSeq =>
      if s.prompt.Ready? then Some(s.(seqNo := s.seqNo + 1, prompt := Holds(s.seqNo + 1))) else None
    case CommandPut =>
      if s.prompt.Holds? then Some(s.(prompt := Ready, wire := s.wire + [Ctrl(s.prompt.seqNo)])) else None
    case EstopCommand =>
      if s.prompt.Ready? then Some(s.(target := STILL)) else None
    case Join =>
      if s.prompt.InMotion? && s.worker.Off? then Some(s.(prompt := Ready)) else None
    case Close =>
      if s.prompt.Ready? then Some(s.(target := STILL, prompt := Closing)) else None
    case Stop =>
      if s.prompt.Closing? then Some(s.(prompt := Stopped)) else None
    case OnState(epoch) => Some(s.(view := s.view.(epoch := epoch)))
    case OnForeign => Some(s.(view := s.view.(foreign := true)))
  }

  /** The console as main() starts it: the stream may run, the generation is adopted. */
  ghost predicate Init(s: Console) {
    s.target == STILL && s.echo == EpochOf(s.view.epoch) && s.seqNo == 0 && !s.view.foreign
    && s.stream.StreamIdle? && s.worker.Off? && s.prompt.Ready? && s.wire == []
  }

  /** Any interleaving: apply the actions in order. */
  function Execute(s: Console, actions: seq<Action>): Option<Console> {
    if actions == [] then Some(s)
    else
      var before := Execute(s, actions[..|actions| - 1]);
      if before.None? then None else Next(before.value, actions[|actions| - 1])
  }

  ghost predicate Reachable(s: Console) {
    exists s0, actions :: Init(s0) && Execute(s0, actions) == Some(s)
  }

  // -- the target ---------------------------------------------------------------

  /** A motion whose guard has not yet had its verdict applied. */
  predicate Moving(w: Worker) {
    (w.Waiting? || w.Looked? || w.Judged?)
  }

  /** A bounded command along the motion's own axis. */
  ghost predicate Commands(kind: Kind, lim: Limits, v: Velocity) {
    exists c :: 0.0 <= c <= lim.speed && v == CommandVector(kind, c)
  }

  ghost predicate GuardOk(lim: Limits, g: Guard, clock: real) {
    ValidLimits(lim) && (g.t0.Some? ==> g.t0.value <= clock)
  }

  ghost predicate TargetInv(s: Console) {
    var w := s.worker;
    && (s.target != STILL ==> Moving(w) && Commands(w.kind, w.lim, s.target))
    && (w.Started? ==> ValidLimits(w.lim) && w.lim.speed <= ClosedLoop.Ceiling(w.kind))
    && (Moving(w) ==> GuardOk(w.lim, w.guard, s.clock) && w.lim.speed <= ClosedLoop.Ceiling(w.kind))
    && (w.Waiting? || w.Looked? ==> w.guard.ended.None?)
    && (w.Looked? ==> w.t == s.clock)
    && (w.Judged? ==> 0.0 <= w.scalar <= w.lim.speed && (w.guard.ended.Some? ==> w.scalar == 0.0))
    && (!s.prompt.InMotion? ==> w.Off?)
  }

  /** One guard step keeps the scalar in [0, speed] and the guard's own start time in the past. */
  lemma {:induction false} StepIsBounded(lim: Limits, g: Guard, o: Tick)
    requires ValidLimits(lim) && (g.t0.Some? ==> g.t0.value <= o.t)
    ensures var (g', r) := Step(lim, g, o);
            && 0.0 <= r.scalar <= lim.speed
            && (g'.ended.Some? ==> r.scalar == 0.0)
            && (g'.t0.Some? ==> g'.t0.value <= o.t)
  {
    hide WindowOf, OverLimit, Stalled, Command;
    var el := o.t - g.t0.GetOr(o.t);
    if o.progress < lim.amount { CommandBounds(lim, el, o.progress); }
  }

  lemma StillIsNoCommand(kind: Kind)
    ensures CommandVector(kind, 0.0) == STILL
  {
  }

  lemma {:induction false} TargetInvStep(s: Console, a: Action)
    requires TargetInv(s) && Next(s, a).Some?
    ensures TargetInv(Next(s, a).value)
  {
    hide Step, CommandVector, ClosedLoop.Ceiling;
    match a
    case MotionStart(kind, amount, speed, pi) =>
      ClosedLoop.CeilingIsFine(kind, amount, speed, pi);
    case Judge(o) =>
      StepIsBounded(s.worker.lim, s.worker.guard, TickOf(s.worker, s.echo, o));
    case Apply =>
      StillIsNoCommand(s.worker.kind);
    case _ =>
  }

  // -- the wire -----------------------------------------------------------------

  function StreamSeq(s: Console): Option<nat> {
    match s.stream
    case StreamIdle => None
    case StreamHolds(q, _, _) => Some(q)
    case StreamChecked(f) => Some(f.seqNo)
  }

  function PromptSeq(s: Console): Option<nat> {
    if s.prompt.Holds? then Some(s.prompt.seqNo) else None
  }

  /** Numbers are never reused, and each publisher's messages go out in the order of their numbers. */
  ghost predicate Ordered(wire: seq<Message>) {
    forall i, j :: 0 <= i < j < |wire| ==>
      && wire[i].seqNo != wire[j].seqNo
      && (wire[i].CmdVel? == wire[j].CmdVel? ==> wire[i].seqNo < wire[j].seqNo)
  }

  /** `q` is a number its holder may put on the wire next. */
  ghost predicate Pending(wire: seq<Message>, q: nat, cmdVel: bool) {
    forall i :: 0 <= i < |wire| ==> wire[i].seqNo != q && (wire[i].CmdVel? == cmdVel ==> wire[i].seqNo < q)
  }

  predicate SafeFrame(m: Message) {
    m.CmdVel? && m.sawForeign ==> m.v == STILL
  }

  ghost predicate WireInv(s: Console) {
    var q, p := StreamSeq(s), PromptSeq(s);
    && Ordered(s.wire)
    && (forall i :: 0 <= i < |s.wire| ==> s.wire[i].seqNo <= s.seqNo && SafeFrame(s.wire[i]))
    && (q.Some? ==> q.value <= s.seqNo && Pending(s.wire, q.value, true))
    && (p.Some? ==> p.value <= s.seqNo && Pending(s.wire, p.value, false))
    && (q.Some? && p.Some? ==> q != p)
    && (s.stream.StreamChecked? ==> s.stream.frame.CmdVel? && SafeFrame(s.stream.frame))
  }

  predicate TouchesWire(a: Action) {
    a.StreamRead? || a.StreamCheck? || a.StreamPut? || a.CommandSeq? || a.CommandPut? || a.Close? || a.Stop?
  }

  lemma OtherStepsLeaveWire(s: Console, a: Action)
    requires Next(s, a).Some? && !TouchesWire(a)
    ensures var t := Next(s, a).value;
            t.wire == s.wire && t.stream == s.stream && t.seqNo == s.seqNo && PromptSeq(t) == PromptSeq(s)
  {
    hide Step, CommandVector, LimitsOf, ClosedLoop.Ceiling;
  }

  lemma StreamStepKeepsWireInv(s: Console, a: Action)
    requires WireInv(s) && Next(s, a).Some? && (a.StreamRead? || a.StreamCheck? || a.StreamPut?)
    ensures WireInv(Next(s, a).value)
  {
    hide Step, CommandVector, LimitsOf, ClosedLoop.Ceiling, Ordered;
    if a.StreamPut? { AppendOrdered(s.wire, s.stream.frame); }
  }

  lemma PromptStepKeepsWireInv(s: Console, a: Action)
    requires WireInv(s) && Next(s, a).Some? && (a.CommandSeq? || a.CommandPut? || a.Close? || a.Stop?)
    ensures WireInv(Next(s, a).value)
  {
    hide Step, CommandVector, LimitsOf, ClosedLoop.Ceiling, Ordered;
    if a.CommandPut? { AppendOrdered(s.wire, Ctrl(s.prompt.seqNo)); }
  }

  lemma {:induction false} WireInvStep(s: Console, a: Action)
    requires WireInv(s) && Next(s, a).Some?
    ensures WireInv(Next(s, a).value)
  {
    if !TouchesWire(a) {
      hide Next;
      OtherStepsLeaveWire(s, a);
    } else if a.StreamRead? || a.StreamCheck? || a.StreamPut? {
      hide Next;
      StreamStepKeepsWireInv(s, a);
    } else {
      hide Next;
      PromptStepKeepsWireInv(s, a);
    }
  }

  lemma AppendOrdered(wire: seq<Message>, m: Message)
    requires Ordered(wire) && Pending(wire, m.seqNo, m.CmdVel?)
    ensures Ordered(wire + [m])
  {
  }

  // -- every reachable state ----------------------------------------------------

  lemma {:induction false} InvariantsHold(s0: Console, actions: seq<Action>)
    requires Init(s0) && Execute(s0, actions).Some?
    ensures var s := Execute(s0, actions).value; TargetInv(s) && WireInv(s)
  {
    hide Next, TargetInv, WireInv;
    if actions == [] {
      InitInv(s0);
    } else {
      InvariantsHold(s0, actions[..|actions| - 1]);
      var before := Execute(s0, actions[..|actions| - 1]).value;
      TargetInvStep(before, actions[|actions| - 1]);
      WireInvStep(before, actions[|actions| - 1]);
    }
  }

  lemma InitInv(s: Console)
    requires Init(s)
    ensures TargetInv(s) && WireInv(s)
  {
  }

  /** In every reachable state the target is still unless a motion is under way and its guard has
      not ended (or has just ended, the zero about to be applied); and then it is one axis of that
      motion, no faster than its accepted speed. */
  lemma TargetOnlyDuringMotion(s: Console)
    requires Reachable(s) && s.target != STILL
    ensures s.prompt.InMotion? && Moving(s.worker)
    ensures s.worker.guard.ended.Some? ==> s.worker.Judged? && s.worker.scalar == 0.0
    ensures exists c :: 0.0 <= c <= ClosedLoop.Ceiling(s.worker.kind) && s.target == CommandVector(s.worker.kind, c)
  {
    hide Execute, WireInv, CommandVector, ClosedLoop.Ceiling;
    var s0, actions :| Init(s0) && Execute(s0, actions) == Some(s);
    InvariantsHold(s0, actions);
    var c :| 0.0 <= c <= s.worker.lim.speed && s.target == CommandVector(s.worker.kind, c);
  }

  /** On the wire of every reachable state, sequence numbers are distinct, increase per publisher,
      and a frame that saw a second publisher is zero. */
  lemma WireIsOrdered(s: Console)
    requires Reachable(s)
    ensures Ordered(s.wire)
    ensures forall i :: 0 <= i < |s.wire| && s.wire[i].CmdVel? && s.wire[i].sawForeign ==> s.wire[i].v == STILL
  {
    hide Execute, TargetInv;
    var s0, actions :| Init(s0) && Execute(s0, actions) == Some(s);
    InvariantsHold(s0, actions);
    assert forall i :: 0 <= i < |s.wire| ==> SafeFrame(s.wire[i]);
  }

  /** Still, or one axis within that axis' ceiling. */
  ghost predicate WithinCeiling(v: Velocity) {
    exists kind: Kind, c: real :: IsCommand(v, kind, c)
  }

  predicate IsCommand(v: Velocity, kind: Kind, c: real) {
    0.0 <= c <= ClosedLoop.Ceiling(kind) && v == CommandVector(kind, c)
  }

  /** Every frame that is published, or on its way, is within the ceiling. */
  ghost predicate FrameInv(s: Console) {
    && (s.stream.StreamHolds? ==> WithinCeiling(s.stream.v))
    && (s.stream.StreamChecked? && s.stream.frame.CmdVel? ==> WithinCeiling(s.stream.frame.v))
    && forall i :: 0 <= i < |s.wire| && s.wire[i].CmdVel? ==> WithinCeiling(s.wire[i].v)
  }

  lemma {:induction false} TargetWithinCeiling(s: Console)
    requires TargetInv(s)
    ensures WithinCeiling(s.target) && WithinCeiling(STILL)
  {
    hide CommandVector;
    StillIsNoCommand(Fwd);
    assert IsCommand(STILL, Fwd, 0.0);
    if s.target != STILL {
      var w := s.worker;
      var c :| 0.0 <= c <= w.lim.speed && s.target == CommandVector(w.kind, c);
      assert IsCommand(s.target, w.kind, c);
    }
  }

  lemma {:induction false} FrameInvStep(s: Console, a: Action)
    requires TargetInv(s) && FrameInv(s) && Next(s, a).Some?
    ensures FrameInv(Next(s, a).value)
  {
    hide Step, CommandVector, LimitsOf, ClosedLoop.Ceiling, WithinCeiling, TargetInv;
    TargetWithinCeiling(s);
  }

  lemma {:induction false} FrameInvHolds(s0: Console, actions: seq<Action>)
    requires Init(s0) && Execute(s0, actions).Some?
    ensures FrameInv(Execute(s0, actions).value)
  {
    hide Next, TargetInv, WireInv;
    if actions != [] {
      var front := actions[..|actions| - 1];
      FrameInvHolds(s0, front);
      InvariantsHold(s0, front);
      hide FrameInv;
      FrameInvStep(Execute(s0, front).value, actions[|actions| - 1]);
    }
  }

  /** At most one axis moves: half a metre per second ahead or back, 0.3 sideways, or half a radian per second. */
  predicate OneAxis(v: Velocity) {
    || (v.vy == 0.0 && v.wz == 0.0 && -0.5 <= v.vx <= 0.5)
    || (v.vx == 0.0 && v.wz == 0.0 && -0.3 <= v.vy <= 0.3)
    || (v.vx == 0.0 && v.vy == 0.0 && -0.5 <= v.wz <= 0.5)
  }

  lemma CeilingsInFigures(v: Velocity)
    requires WithinCeiling(v)
    ensures OneAxis(v)
  {
  }

  /** Whatever the threads do, every velocity ever published is still or a single axis within its ceiling. */
  lemma {:induction false} FramesAreBounded(s: Console)
    requires Reachable(s)
    ensures forall i :: 0 <= i < |s.wire| && s.wire[i].CmdVel? ==> WithinCeiling(s.wire[i].v) && OneAxis(s.wire[i].v)
  {
    hide Execute, WithinCeiling, OneAxis;
    var s0, actions :| Init(s0) && Execute(s0, actions) == Some(s);
    FrameInvHolds(s0, actions);
    forall i | 0 <= i < |s.wire| && s.wire[i].CmdVel? ensures OneAxis(s.wire[i].v) {
      CeilingsInFigures(s.wire[i].v);
    }
  }

  /** Which requests are accepted between two motions: positive, no faster than the axis may go, and no longer than
      two metres or half a turn. */
  lemma {:induction false} AcceptedRequests(s: Console, kind: Kind, amount: real, speed: real, pi: real)
    requires s.prompt.Ready? && s.worker.Off? && pi > 3.0
    ensures Next(s, MotionStart(kind, amount, speed, pi)).Some?
       <==> && 0.0 < speed <= (match kind case Left | Right => 0.3 case Fwd | Back | TurnL | TurnR => 0.5)
            && 0.0 < amount <= (match kind case TurnL | TurnR => pi case Fwd | Back | Left | Right => 2.0)
  {
  }

  /** How many numbers a run has drawn. */
  function Draws(actions: seq<Action>): nat {
    if actions == [] then 0
    else
      var last := actions[|actions| - 1];
      Draws(actions[..|actions| - 1]) + if last.StreamRead? || last.CommandSeq? then 1 else 0
  }

  lemma DrawStep(s: Console, a: Action)
    requires Next(s, a).Some?
    ensures Next(s, a).value.seqNo == s.seqNo + if a.StreamRead? || a.CommandSeq? then 1 else 0
  {
    hide Step, LimitsOf, CommandVector, ClosedLoop.Ceiling;
  }

  /** The counter is the number of frames and commands begun, so no number is skipped. */
  lemma {:induction false} NumbersAreConsecutive(s: Console, actions: seq<Action>)
    requires Execute(s, actions).Some?
    ensures Execute(s, actions).value.seqNo == s.seqNo + Draws(actions)
  {
    hide Next;
    if actions != [] {
      var front := actions[..|actions| - 1];
      NumbersAreConsecutive(s, front);
      DrawStep(Execute(s, front).value, actions[|actions| - 1]);
    }
  }

  /** Across publishers the numbers may go out in the wrong order: the prompt draws 1, the stream
      draws 2 and publishes first. */
  lemma NumbersMayCross(s: Console)
    requires Init(s)
    ensures var out := Execute(s, [CommandSeq, StreamRead, StreamCheck, StreamPut, CommandPut]);
            out.Some? && |out.value.wire| == 2 && out.value.wire[0].seqNo == 2 && out.value.wire[1].seqNo == 1
  {
    var a := [CommandSeq, StreamRead, StreamCheck, StreamPut, CommandPut];
    assert a[..4][..3] == a[..3] && a[..3][..2] == a[..2] && a[..2][..1] == a[..1] && a[..1][..0] == [];
    var s1 := Next(s, a[0]).value;
    assert Execute(s, a[..1]) == Some(s1);
    var s2 := Next(s1, a[1]).value;
    assert Execute(s, a[..2]) == Some(s2);
    var s3 := Next(s2, a[2]).value;
    assert Execute(s, a[..3]) == Some(s3);
    var s4 := Next(s3, a[3]).value;
    assert Execute(s, a[..4]) == Some(s4);
  }

  /** Numbers rise across both publishers. */
  ghost predicate Rising(wire: seq<Message>) {
    forall i, j :: 0 <= i < j < |wire| ==> wire[i].seqNo < wire[j].seqNo
  }

  ghost predicate AllBelow(wire: seq<Message>, q: nat) {
    forall i :: 0 <= i < |wire| ==> wire[i].seqNo < q
  }

  /** They do so far, and no number still held has been overtaken. */
  ghost predicate NothingOvertaken(s: Console) {
    var q, p := StreamSeq(s), PromptSeq(s);
    Rising(s.wire) && (q.Some? ==> AllBelow(s.wire, q.value)) && (p.Some? ==> AllBelow(s.wire, p.value))
  }

  /** A publisher puts its message on the wire while the other one holds a smaller number. */
  predicate Overtakes(s: Console, a: Action) {
    var q, p := StreamSeq(s), PromptSeq(s);
    q.Some? && p.Some? && ((a.StreamPut? && p.value < q.value) || (a.CommandPut? && q.value < p.value))
  }

  lemma {:induction false} PutRises(wire: seq<Message>, m: Message)
    ensures Rising(wire + [m]) <==> Rising(wire) && AllBelow(wire, m.seqNo)
    ensures forall q: nat :: AllBelow(wire + [m], q) <==> AllBelow(wire, q) && m.seqNo < q
  {
    var all := wire + [m];
    assert forall i :: 0 <= i < |wire| ==> all[i] == wire[i];
    assert all[|wire|] == m;
  }

  lemma {:induction false} OvertakingByStream(s: Console, a: Action)
    requires WireInv(s) && Next(s, a).Some? && (a.StreamRead? || a.StreamCheck? || a.StreamPut?)
    ensures NothingOvertaken(Next(s, a).value) <==> NothingOvertaken(s) && !Overtakes(s, a)
  {
    hide LimitsOf, CommandVector, Step, ClosedLoop.Ceiling, Ordered, Rising;
    if a.StreamPut? { PutRises(s.wire, s.stream.frame); }
  }

  lemma {:induction false} OvertakingByPrompt(s: Console, a: Action)
    requires WireInv(s) && Next(s, a).Some? && (a.CommandSeq? || a.CommandPut? || a.Close? || a.Stop?)
    ensures NothingOvertaken(Next(s, a).value) <==> NothingOvertaken(s) && !Overtakes(s, a)
  {
    hide LimitsOf, CommandVector, Step, ClosedLoop.Ceiling, Ordered, Rising;
    if a.CommandPut? { PutRises(s.wire, Ctrl(s.prompt.seqNo)); }
  }

  lemma {:induction false} OvertakingStep(s: Console, a: Action)
    requires WireInv(s) && Next(s, a).Some?
    ensures NothingOvertaken(Next(s, a).value) <==> NothingOvertaken(s) && !Overtakes(s, a)
  {
    hide Next, WireInv, Rising, AllBelow;
    if !TouchesWire(a) {
      OtherStepsLeaveWire(s, a);
    } else if a.StreamRead? || a.StreamCheck? || a.StreamPut? {
      OvertakingByStream(s, a);
    } else {
      OvertakingByPrompt(s, a);
    }
  }

  /** The run overtook at some step. */
  ghost predicate Overtook(s0: Console, actions: seq<Action>)
    requires Execute(s0, actions).Some?
  {
    if actions == [] then false
    else
      var front := actions[..|actions| - 1];
      Overtook(s0, front) || Overtakes(Execute(s0, front).value, actions[|actions| - 1])
  }

  /** Exactly when the numbers rise over both publishers: with nothing held back, the wire rises if and only
      if no message of the run was put on it while the other publisher held a smaller number. */
  lemma {:induction false} NumbersRiseIff(s0: Console, actions: seq<Action>)
    requires Init(s0) && Execute(s0, actions).Some?
    ensures var s := Execute(s0, actions).value;
            && (NothingOvertaken(s) <==> !Overtook(s0, actions))
            && (StreamSeq(s).None? && PromptSeq(s).None? ==> (Rising(s.wire) <==> !Overtook(s0, actions)))
  {
    hide Next, TargetInv, WireInv, Overtakes;
    if actions != [] {
      var front := actions[..|actions| - 1];
      NumbersRiseIff(s0, front);
      InvariantsHold(s0, front);
      OvertakingStep(Execute(s0, front).value, actions[|actions| - 1]);
    }
  }

  // -- runs from a given state ----------------------------------------------------

  /** No frame has been added to the first `from` messages, up to message `to`. */
  ghost predicate NoFrame(wire: seq<Message>, from: nat, to: nat) {
    forall i :: from <= i < to && i < |wire| ==> !wire[i].CmdVel?
  }

  /** What the run from `s` has published is still, save for one frame: the first, if `s` had it checked. */
  ghost predicate SilentSince(s: Console, t: Console) {
    && s.wire <= t.wire && t.view.foreign
    && (forall i :: |s.wire| <= i < |t.wire| && t.wire[i].CmdVel? && t.wire[i].v != STILL
                    ==> s.stream == StreamChecked(t.wire[i]) && NoFrame(t.wire, |s.wire|, i))
    && (t.stream.StreamChecked?
        ==> || (t.stream.frame.CmdVel? && t.stream.frame.v == STILL)
            || (t.stream == s.stream && NoFrame(t.wire, |s.wire|, |t.wire|)))
  }

  /** Once a second publisher is latched, every frame whose check is still to come goes out still,
      whatever the other threads do; one that was checked before may still go out, as the first. */
  lemma {:induction false} LatchSilencesStream(s: Console, actions: seq<Action>)
    requires s.view.foreign && Execute(s, actions).Some?
    ensures SilentSince(s, Execute(s, actions).value)
  {
    hide Step, LimitsOf, CommandVector, SilentSince;
    if actions == [] {
      SilentAtFirst(s);
    } else {
      var front := actions[..|actions| - 1];
      LatchSilencesStream(s, front);
      SilentStep(s, Execute(s, front).value, actions[|actions| - 1]);
    }
  }

  lemma {:induction false} SilentAtFirst(s: Console)
    requires s.view.foreign
    ensures SilentSince(s, s)
  {
  }

  lemma {:induction false} SilentStep(s: Console, t: Console, a: Action)
    requires SilentSince(s, t) && Next(t, a).Some?
    ensures SilentSince(s, Next(t, a).value)
  {
    hide Step, LimitsOf, CommandVector, ClosedLoop.Ceiling;
  }

  /** Number and generation of the frame the stream thread has read and not yet published. */
  function InFlight(s: Console): Option<(nat, int)> {
    match s.stream
    case StreamIdle => None
    case StreamHolds(q, _, epoch) => Some((q, epoch))
    case StreamChecked(f) => if f.CmdVel? then Some((f.seqNo, f.epoch)) else None
  }

  /** A frame of a run from `s`: it carries the generation of `s`, or was in flight at its start. */
  predicate Echoes(s: Console, q: nat, epoch: int) {
    epoch == s.echo || InFlight(s) == Some((q, epoch))
  }

  /** The generation the stream echoes, for a run with no motion start. */
  ghost predicate KeepsGeneration(s: Console, t: Console) {
    && t.echo == s.echo && s.wire <= t.wire
    && (InFlight(t).Some? ==> Echoes(s, InFlight(t).value.0, InFlight(t).value.1))
    && forall i :: |s.wire| <= i < |t.wire| && t.wire[i].CmdVel? ==> Echoes(s, t.wire[i].seqNo, t.wire[i].epoch)
  }

  /** Between two motion starts the echoed generation never changes, and every frame read meanwhile
      carries it: an estop bump is not echoed by the motion it interrupts. */
  lemma {:induction false} EchoIsSteady(s: Console, actions: seq<Action>)
    requires Arm !in actions && Execute(s, actions).Some?
    ensures KeepsGeneration(s, Execute(s, actions).value)
  {
    hide Step, LimitsOf, CommandVector;
    if actions != [] {
      assert Arm !in actions[..|actions| - 1];
      EchoIsSteady(s, actions[..|actions| - 1]);
    }
  }

  // -- a second publisher -------------------------------------------------------------

  lemma LatchStep(s: Console, a: Action)
    requires Next(s, a).Some?
    ensures Next(s, a).value.view.foreign <==> s.view.foreign || a == OnForeign
  {
    hide Step, LimitsOf, CommandVector, ClosedLoop.Ceiling;
  }

  /** The latch is set exactly by seeing another publisher, and never cleared. */
  lemma {:induction false} LatchedIffSeen(s0: Console, actions: seq<Action>)
    requires Init(s0) && Execute(s0, actions).Some?
    ensures Execute(s0, actions).value.view.foreign <==> OnForeign in actions
  {
    hide Next;
    if actions != [] {
      var front, last := actions[..|actions| - 1], actions[|actions| - 1];
      LatchedIffSeen(s0, front);
      LatchStep(Execute(s0, front).value, last);
      assert actions == front + [last];
    }
  }

  lemma {:induction false} ExecuteConcat(s: Console, a: seq<Action>, b: seq<Action>)
    ensures Execute(s, a + b) == if Execute(s, a).None? then None else Execute(Execute(s, a).value, b)
  {
    hide Next;
    if b == [] {
      assert a + b == a;
    } else {
      assert (a + b)[..|a + b| - 1] == a + b[..|b| - 1];
      ExecuteConcat(s, a, b[..|b| - 1]);
    }
  }

  /** A frame whose check comes after it goes out with zero velocity. */
  lemma CheckAfterForeign(s0: Console, actions: seq<Action>)
    requires Init(s0) && OnForeign in actions && Execute(s0, actions + [StreamCheck]).Some?
    ensures var frame := Execute(s0, actions + [StreamCheck]).value.stream.frame; frame.CmdVel? && frame.v == STILL
  {
    hide Step, LimitsOf, CommandVector, ClosedLoop.Ceiling;
    var all := actions + [StreamCheck];
    assert all[..|all| - 1] == actions;
    LatchedIffSeen(s0, actions);
  }

  /** And whatever is published after it is still, but for the one frame already checked. */
  lemma ForeignSilences(s0: Console, before: seq<Action>, after: seq<Action>)
    requires Init(s0) && OnForeign in before && Execute(s0, before + after).Some?
    ensures Execute(s0, before).Some? && SilentSince(Execute(s0, before).value, Execute(s0, before + after).value)
  {
    hide Next, SilentSince;
    ExecuteConcat(s0, before, after);
    LatchedIffSeen(s0, before);
    LatchSilencesStream(Execute(s0, before).value, after);
  }

  lemma {:induction false} LookedStays(s: Console, actions: seq<Action>)
    requires s.worker.Looked? && Execute(s, actions).Some? && forall a :: a in actions ==> !a.Judge?
    ensures Execute(s, actions).value.worker == s.worker
  {
    hide Step, LimitsOf, CommandVector, ClosedLoop.Ceiling;
    if actions != [] {
      assert actions == actions[..|actions| - 1] + [actions[|actions| - 1]];
      LookedStays(s, actions[..|actions| - 1]);
    }
  }

  /** A tick that looks after it ends the motion: with zero, and as foreign_cmd_vel unless the operator or an
      estop came first. */
  lemma {:induction false} LookAfterForeign(s0: Console, before: seq<Action>, t: real, mid: seq<Action>, o: Observation)
    requires Init(s0) && OnForeign in before && (forall a :: a in mid ==> !a.Judge?)
    requires Execute(s0, before + [Look(t)] + mid).Some?
    requires Next(Execute(s0, before + [Look(t)] + mid).value, Judge(o)).Some?
    ensures var w := Next(Execute(s0, before + [Look(t)] + mid).value, Judge(o)).value.worker;
            && w.Judged? && w.scalar == 0.0
            && (w.guard.ended == Some(ForeignCmdVel) || w.guard.ended == Some(Estop)
                || (o.operatorStop && w.guard.ended == Some(OperatorStop)))
            && (!o.operatorStop && w.guard.ended == Some(Estop) ==>
                  EstopMoved(Execute(s0, before + [Look(t)] + mid).value))
  {
    var all := before + [Look(t)];
    assert all[..|all| - 1] == before;
    ExecuteConcat(s0, all, mid);
    LatchedIffSeen(s0, before);
    InvariantsHold(s0, before);
    LookIsFresh(Execute(s0, before).value, t);
    LookedStays(Execute(s0, all).value, mid);
    hide Execute, Next, TargetInv, WireInv;
    JudgedForeign(Execute(s0, all + mid).value, o);
  }

  /** The generation the worker saw is not the one it echoes. */
  predicate EstopMoved(s: Console)
    requires s.worker.Looked?
  {
    s.worker.seen.epoch != Some(s.echo)
  }

  lemma LookIsFresh(s: Console, t: real)
    requires TargetInv(s) && Next(s, Look(t)).Some?
    ensures var w := Next(s, Look(t)).value.worker; w.Looked? && w.guard.ended.None? && w.seen == s.view
  {
  }

  lemma {:induction false} JudgedForeign(s: Console, o: Observation)
    requires s.worker.Looked? && s.worker.guard.ended.None? && s.worker.seen.foreign && Next(s, Judge(o)).Some?
    ensures var w := Next(s, Judge(o)).value.worker;
            && w.Judged? && w.scalar == 0.0
            && w.guard.ended == Some(if o.operatorStop then OperatorStop
                                     else if EstopMoved(s) then Estop else ForeignCmdVel)
  {
  }

  // -- one frame, and one motion, among all the other steps ----------------------------------

  predicate StreamStep(a: Action) {
    a.StreamRead? || a.StreamCheck? || a.StreamPut?
  }

  lemma OtherStepLeavesStream(s: Console, a: Action)
    requires Next(s, a).Some? && !StreamStep(a)
    ensures Next(s, a).value.stream == s.stream
  {
    hide Step, LimitsOf, CommandVector, ClosedLoop.Ceiling;
  }

  lemma {:induction false} OthersLeaveStream(s: Console, actions: seq<Action>)
    requires Execute(s, actions).Some? && forall a :: a in actions ==> !StreamStep(a)
    ensures Execute(s, actions).value.stream == s.stream
  {
    hide Next;
    if actions != [] {
      var front, last := actions[..|actions| - 1], actions[|actions| - 1];
      assert actions == front + [last];
      OthersLeaveStream(s, front);
      OtherStepLeavesStream(Execute(s, front).value, last);
    }
  }

  lemma {:induction false} ExecuteOne(s: Console, actions: seq<Action>, a: Action)
    ensures Execute(s, actions + [a]) == if Execute(s, actions).None? then None
                                         else Next(Execute(s, actions).value, a)
  {
    hide Next;
    assert (actions + [a])[..|actions + [a]| - 1] == actions;
  }

  /** A frame carries the target and the generation of the moment it was read and the next number, with zero
      velocity exactly if a second publisher was known when it was checked, whatever runs in between. */
  lemma {:induction false} FrameCarriesTarget(s: Console, mid: seq<Action>, rest: seq<Action>)
    requires (forall a :: a in mid ==> !StreamStep(a)) && (forall a :: a in rest ==> !StreamStep(a))
    requires Execute(s, [StreamRead] + mid + [StreamCheck] + rest + [StreamPut]).Some?
    ensures Execute(s, [StreamRead] + mid).Some?
    ensures var foreign := Execute(s, [StreamRead] + mid).value.view.foreign;
            var wire := Execute(s, [StreamRead] + mid + [StreamCheck] + rest + [StreamPut]).value.wire;
            wire != [] && wire[|wire| - 1] == CmdVel(s.seqNo + 1, if foreign then STILL else s.target, s.echo, foreign)
  {
    var upTo := [StreamRead] + mid;
    var checked := upTo + [StreamCheck];
    ExecuteOne(s, checked + rest, StreamPut);
    ExecuteConcat(s, checked, rest);
    ExecuteOne(s, upTo, StreamCheck);
    ExecuteConcat(s, [StreamRead], mid);
    RunOfOne(s, StreamRead);
    OthersLeaveStream(Next(s, StreamRead).value, mid);
    OthersLeaveStream(Execute(s, checked).value, rest);
  }

  /** The time and the readback of the worker's last look, and the rest as it is observed. */
  function SeenTick(s: Console, o: Observation): Tick
    requires s.worker.Looked?
  {
    Tick(t := s.worker.t, progress := o.progress, offAxis := o.offAxis, operatorStop := o.operatorStop,
         estopChanged := EstopMoved(s), foreign := s.worker.seen.foreign, stateStale := o.stale,
         odomValid := o.odomValid, stopReason := o.stopReason)
  }

  /** The ticks the current motion has judged. */
  function MotionTicks(s0: Console, actions: seq<Action>): seq<Tick>
    requires Execute(s0, actions).Some?
  {
    if actions == [] then []
    else
      var front, a := actions[..|actions| - 1], actions[|actions| - 1];
      var s := Execute(s0, front).value;
      match a
      case Arm => []
      case Judge(o) => MotionTicks(s0, front) + [SeenTick(s, o)]
      case _ => MotionTicks(s0, front)
  }

  /** What the guard has made of these ticks is where the worker stands, and what it was told to command is the
      target. */
  ghost predicate FollowsGuard(s: Console, ticks: seq<Tick>) {
    var w := s.worker;
    && (Moving(w) ==> w.lim.speed > 0.0)
    && (w.Waiting? || w.Looked? ==>
          w.guard == Run(w.lim, ticks).0 && s.target == CommandVector(w.kind, Run(w.lim, ticks).1.scalar))
    && (w.Judged? ==>
          && ticks != [] && w.guard == Run(w.lim, ticks).0 && w.scalar == Run(w.lim, ticks).1.scalar
          && s.target == CommandVector(w.kind, Run(w.lim, Front(ticks)).1.scalar))
  }

  lemma {:induction false} FollowsStep(s: Console, a: Action, ticks: seq<Tick>)
    requires TargetInv(s) && FollowsGuard(s, ticks) && Next(s, a).Some?
    ensures FollowsGuard(Next(s, a).value,
                         match a case Arm => [] case Judge(o) => ticks + [SeenTick(s, o)] case _ => ticks)
  {
    hide Step, LimitsOf, ClosedLoop.Ceiling;
    match a
    case Arm => StillIsNoCommand(s.worker.kind);
    case Judge(o) => RunAppends(s.worker.lim, ticks, SeenTick(s, o));
    case _ =>
  }

  lemma RunAppends(lim: Limits, ticks: seq<Tick>, o: Tick)
    requires lim.speed > 0.0
    ensures Front(ticks + [o]) == ticks && Run(lim, ticks + [o]) == Step(lim, Run(lim, ticks).0, o)
  {
    hide Step;
  }

  /** In any interleaving the worker's guard is the guard run on the ticks of its motion, and between two ticks
      the target is exactly what that run commands: so what is proved of runs holds of the console. */
  lemma {:induction false} ConsoleRunsGuard(s0: Console, actions: seq<Action>)
    requires Init(s0) && Execute(s0, actions).Some?
    ensures FollowsGuard(Execute(s0, actions).value, MotionTicks(s0, actions))
  {
    hide Next, TargetInv, WireInv, FollowsGuard;
    if actions == [] {
      InitFollows(s0);
    } else {
      var front := actions[..|actions| - 1];
      ConsoleRunsGuard(s0, front);
      InvariantsHold(s0, front);
      FollowsStep(Execute(s0, front).value, actions[|actions| - 1], MotionTicks(s0, front));
    }
  }

  lemma InitFollows(s: Console)
    requires Init(s)
    ensures FollowsGuard(s, [])
  {
  }

  predicate BeginsMotion(a: Action) {
    a.Arm? || a.Refuse?
  }

  lemma StartedStep(s: Console, a: Action)
    requires s.worker.Started? && s.prompt.InMotion? && Next(s, a).Some? && !BeginsMotion(a)
    ensures Next(s, a).value.worker == s.worker && Next(s, a).value.prompt == s.prompt
  {
    hide Step, LimitsOf, CommandVector, ClosedLoop.Ceiling;
  }

  lemma {:induction false} StartedStays(s: Console, actions: seq<Action>)
    requires s.worker.Started? && s.prompt.InMotion? && Execute(s, actions).Some?
    requires forall a :: a in actions ==> !BeginsMotion(a)
    ensures Execute(s, actions).value.worker == s.worker && Execute(s, actions).value.prompt == s.prompt
  {
    hide Next;
    if actions != [] {
      var front, last := actions[..|actions| - 1], actions[|actions| - 1];
      assert actions == front + [last];
      StartedStays(s, front);
      StartedStep(Execute(s, front).value, last);
    }
  }

  /** A motion that is armed echoes the generation its start saw, zero where none was reported, and is guarded
      from scratch by the limits of its request. */
  lemma {:induction false} ArmingAdopts(s: Console, kind: Kind, amount: real, speed: real, pi: real, mid: seq<Action>)
    requires forall a :: a in mid ==> !BeginsMotion(a)
    requires Execute(s, [MotionStart(kind, amount, speed, pi)] + mid + [Arm]).Some?
    ensures var t := Execute(s, [MotionStart(kind, amount, speed, pi)] + mid + [Arm]).value;
            && t.echo == (match s.view.epoch case Some(e) => e case None => 0)
            && LimitsOf(kind, amount, speed, pi).Some?
            && t.worker == Waiting(kind, LimitsOf(kind, amount, speed, pi).value, FRESH)
  {
    var start := MotionStart(kind, amount, speed, pi);
    ExecuteOne(s, [start] + mid, Arm);
    ExecuteConcat(s, [start], mid);
    RunOfOne(s, start);
    hide LimitsOf, ClosedLoop.Ceiling;
    StartedStays(Next(s, start).value, mid);
  }

  // -- nothing gets stuck ---------------------------------------------------------------------

  lemma {:induction false} StreamGoesOn(s: Console)
    ensures s.stream.StreamIdle? ==> (Next(s, StreamRead).Some? <==> !s.prompt.Stopped?)
    ensures s.stream.StreamHolds? ==> Next(s, StreamCheck).Some?
    ensures s.stream.StreamChecked? ==> Next(s, StreamPut).Some?
  {
  }

  lemma {:induction false} WorkerGoesOn(s: Console, t: real, o: Observation)
    requires TargetInv(s) && t >= s.clock
    ensures s.worker.Started? ==> Next(s, Refuse).Some? && Next(s, Arm).Some?
    ensures s.worker.Waiting? ==> Next(s, Look(t)).Some?
    ensures s.worker.Looked? ==> Next(s, Judge(o)).Some?
    ensures s.worker.Judged? ==> Next(s, Apply).Some?
    ensures s.worker.Settling? ==> Next(s, Leave).Some?
  {
    hide Step, LimitsOf, CommandVector, ClosedLoop.Ceiling;
  }

  lemma {:induction false} PromptGoesOn(s: Console)
    requires TargetInv(s)
    ensures s.prompt.InMotion? && s.worker.Off? ==> Next(s, Join).Some?
    ensures s.prompt.Ready? ==> s.worker.Off? && Next(s, CommandSeq).Some? && Next(s, EstopCommand).Some?
                                && Next(s, Close).Some?
    ensures s.prompt.Holds? ==> Next(s, CommandPut).Some?
    ensures s.prompt.Closing? ==> Next(s, Stop).Some?
  {
    hide Step, LimitsOf, CommandVector, ClosedLoop.Ceiling;
  }

  /** In every reachable state each thread can go on: the stream until the console stops, the worker whatever it
      observes, the prompt as soon as the motion is over. */
  lemma {:induction false} NoThreadIsStuck(s: Console, t: real, o: Observation)
    requires Reachable(s) && t >= s.clock
    ensures s.stream.StreamIdle? ==> (Next(s, StreamRead).Some? <==> !s.prompt.Stopped?)
    ensures s.stream.StreamHolds? ==> Next(s, StreamCheck).Some?
    ensures s.stream.StreamChecked? ==> Next(s, StreamPut).Some?
    ensures s.worker.Started? ==> Next(s, Refuse).Some? && Next(s, Arm).Some?
    ensures s.worker.Waiting? ==> Next(s, Look(t)).Some?
    ensures s.worker.Looked? ==> Next(s, Judge(o)).Some?
    ensures s.worker.Judged? ==> Next(s, Apply).Some?
    ensures s.worker.Settling? ==> Next(s, Leave).Some?
    ensures s.prompt.InMotion? && s.worker.Off? ==> Next(s, Join).Some?
    ensures s.prompt.Ready? ==> s.worker.Off? && Next(s, CommandSeq).Some? && Next(s, EstopCommand).Some?
                                && Next(s, Close).Some?
    ensures s.prompt.Holds? ==> Next(s, CommandPut).Some?
    ensures s.prompt.Closing? ==> Next(s, Stop).Some?
  {
    hide Execute, Next, TargetInv, WireInv;
    var s0, actions :| Init(s0) && Execute(s0, actions) == Some(s);
    InvariantsHold(s0, actions);
    StreamGoesOn(s);
    WorkerGoesOn(s, t, o);
    PromptGoesOn(s);
  }

  /** What is observed at a tick of a motion that the operator stops. */
  function Stopping(o: Observation): Observation {
    o.(operatorStop := true)
  }

  /** The worker's next step towards the end. */
  function StopStep(s: Console, o: Observation): Action {
    match s.worker
    case Off => Join
    case Started(_, _, _) => Refuse
    case Waiting(_, _, _) => Look(s.clock)
    case Looked(_, _, _, _, _) => Judge(Stopping(o))
    case Judged(_, _, _, _) => Apply
    case Settling => Leave
  }

  /** How many such steps are left. */
  function StepsToStop(w: Worker): nat {
    match w
    case Off => 1
    case Started(_, _, _) => 2
    case Waiting(_, _, _) => 5
    case Looked(_, _, _, _, _) => 4
    case Judged(_, _, guard, _) => if guard.ended.Some? then 3 else 6
    case Settling => 2
  }

  lemma {:induction false} StopStepCloser(s: Console, o: Observation)
    requires TargetInv(s) && s.prompt.InMotion?
    ensures Next(s, StopStep(s, o)).Some?
    ensures var t := Next(s, StopStep(s, o)).value;
            if s.worker.Off? then t.prompt.Ready? && t.target == STILL
            else t.prompt.InMotion? && StepsToStop(t.worker) == StepsToStop(s.worker) - 1
  {
    hide LimitsOf, CommandVector, ClosedLoop.Ceiling, WindowOf, OverLimit, Stalled, Command;
  }

  /** The operator can end any motion: wherever it stands, at most six steps of the worker and the prompt lead back
      to the prompt with a still target. */
  lemma {:induction false} OperatorEndsMotion(s: Console, o: Observation) returns (actions: seq<Action>)
    requires TargetInv(s) && s.prompt.InMotion?
    ensures Execute(s, actions).Some? && Execute(s, actions).value.prompt.Ready?
    ensures Execute(s, actions).value.target == STILL && |actions| == StepsToStop(s.worker) <= 6
    decreases StepsToStop(s.worker)
  {
    hide Next, TargetInv, Execute;
    var a := StopStep(s, o);
    StopStepCloser(s, o);
    var t := Next(s, a).value;
    assert Execute(s, [a]) == Some(t) by { RunOfOne(s, a); }
    if s.worker.Off? {
      actions := [a];
    } else {
      TargetInvStep(s, a);
      var rest := OperatorEndsMotion(t, o);
      actions := [a] + rest;
      ExecuteConcat(s, [a], rest);
    }
  }

  lemma RunOfOne(s: Console, a: Action)
    ensures Execute(s, [a]) == Next(s, a)
  {
    ExecuteOne(s, [], a);
    assert [] + [a] == [a];
  }

  /** The generation that quadruped reported last. */
  function LastReported(epoch: Option<int>, actions: seq<Action>): Option<int> {
    if actions == [] then epoch
    else
      match actions[|actions| - 1]
      case OnState(reported) => reported
      case _ => LastReported(epoch, actions[..|actions| - 1])
  }

  lemma EpochStep(s: Console, a: Action)
    requires Next(s, a).Some?
    ensures Next(s, a).value.view.epoch == match a case OnState(reported) => reported case _ => s.view.epoch
  {
    hide Step, LimitsOf, CommandVector, ClosedLoop.Ceiling;
  }

  /** The readback is what was reported last, whatever the other threads do. */
  lemma {:induction false} ViewIsLastReported(s: Console, actions: seq<Action>)
    requires Execute(s, actions).Some?
    ensures Execute(s, actions).value.view.epoch == LastReported(s.view.epoch, actions)
  {
    hide Next;
    if actions != [] {
      var front := actions[..|actions| - 1];
      ViewIsLastReported(s, front);
      EpochStep(Execute(s, front).value, actions[|actions| - 1]);
    }
  }

  lemma StoppedStep(s: Console, a: Action)
    requires s.prompt.Stopped? && Next(s, a).Some?
    ensures Next(s, a).value.prompt.Stopped? && !a.StreamRead?
  {
    hide Step, LimitsOf, CommandVector, ClosedLoop.Ceiling;
  }

  /** Leaving the prompt stills the target and then stops the stream, for good. */
  lemma {:induction false} ClosingStops(s: Console, after: seq<Action>)
    requires s.prompt.Ready?
    ensures Execute(s, [Close]).Some? && Execute(s, [Close]).value.target == STILL
    ensures Execute(s, [Close, Stop]).Some?
    ensures Execute(s, [Close, Stop] + after).Some? ==>
              Execute(s, [Close, Stop] + after).value.prompt.Stopped? && StreamRead !in after
  {
    hide Execute;
    RunOfOne(s, Close);
    ExecuteOne(s, [Close], Stop);
    assert [Close] + [Stop] == [Close, Stop];
    ExecuteConcat(s, [Close, Stop], after);
    if Execute(s, [Close, Stop] + after).Some? { StoppedStays(Execute(s, [Close, Stop]).value, after); }
  }

  lemma {:induction false} StoppedStays(s: Console, actions: seq<Action>)
    requires s.prompt.Stopped? && Execute(s, actions).Some?
    ensures Execute(s, actions).value.prompt.Stopped? && StreamRead !in actions
  {
    hide Next;
    if actions != [] {
      var front, last := actions[..|actions| - 1], actions[|actions| - 1];
      StoppedStays(s, front);
      StoppedStep(Execute(s, front).value, last);
      assert actions == front + [last];
    }
  }

  // -- an estop bump, wherever it lands ---------------------------------------------

  /** The generation a motion works under; one that is not armed yet will adopt the one it started with. */
  function Generation(s: Console): int {
    if s.worker.Started? then EpochOf(s.worker.epoch) else s.echo
  }

  /** How many more ticks a motion may judge once the generation has moved on from `g`: the next one it looks
      at ends it, but a tick that was looked at before the bump is still judged as if nothing had happened. */
  function Budget(w: Worker, g: int): nat {
    match w
    case Started(_, _, _) => 1
    case Waiting(_, _, _) => 1
    case Looked(_, _, _, _, seen) => if seen.epoch == Some(g) then 2 else 1
    case Judged(_, _, guard, _) => if guard.ended.None? then 1 else 0
    case _ => 0
  }

  /** How many more commands it may set: that of a tick looked at before the bump. */
  function Stale(w: Worker, g: int): nat {
    match w
    case Looked(_, _, _, _, seen) => if seen.epoch == Some(g) then 1 else 0
    case Judged(_, _, guard, _) => if guard.ended.None? then 1 else 0
    case _ => 0
  }

  function Judges(actions: seq<Action>): nat {
    if actions == [] then 0
    else Judges(actions[..|actions| - 1]) + if actions[|actions| - 1].Judge? then 1 else 0
  }

  /** The worker sets the command of a tick that did not end the motion. */
  predicate SetsCommand(s: Console, a: Action) {
    a.Apply? && s.worker.Judged? && s.worker.guard.ended.None?
  }

  function NewCommands(s: Console, actions: seq<Action>): nat
    requires Execute(s, actions).Some?
  {
    if actions == [] then 0
    else
      var front := actions[..|actions| - 1];
      NewCommands(s, front) + if SetsCommand(Execute(s, front).value, actions[|actions| - 1]) then 1 else 0
  }

  /** A worker as every reachable state has it: its guard runs between ticks, an ended one commands zero, and
      without a motion the target is still. */
  ghost predicate WorkerInv(s: Console) {
    var w := s.worker;
    && (w.Waiting? || w.Looked? ==> w.guard.ended.None?)
    && (w.Judged? && w.guard.ended.Some? ==> w.scalar == 0.0)
    && (!Moving(w) ==> s.target == STILL)
  }

  lemma {:induction false} TargetInvMakesWorkerInv(s: Console)
    requires TargetInv(s)
    ensures WorkerInv(s)
  {
  }

  lemma {:induction false} EndedIsStill(lim: Limits, g: Guard, o: Tick)
    requires lim.speed > 0.0
    ensures Step(lim, g, o).0.ended.Some? ==> Step(lim, g, o).1.scalar == 0.0
  {
    hide WindowOf, OverLimit, Stalled, Command, ImmediateStop;
  }

  /** A judged tick that saw another generation ends the motion with zero. */
  lemma {:induction false} BumpEndsTick(s: Console, o: Observation)
    requires s.worker.Looked? && s.worker.lim.speed > 0.0 && s.worker.guard.ended.None?
    requires s.worker.seen.epoch != Some(s.echo)
    ensures var w := Next(s, Judge(o)).value.worker;
            && w.scalar == 0.0
            && w.guard.ended == Some(if o.operatorStop then OperatorStop else Estop)
  {
  }

  /** The actions of a run after a bump: no later motion starts, and quadruped does not go back to `g`. */
  predicate StaysBumped(actions: seq<Action>, g: int) {
    forall i :: 0 <= i < |actions| ==> !actions[i].MotionStart? && actions[i] != OnState(Some(g))
  }

  /** The readback has moved on from the generation `g` of the motion. */
  ghost predicate Bumped(s: Console, g: int) {
    WorkerInv(s) && s.view.epoch != Some(g) && (s.worker.Started? || Moving(s.worker) ==> Generation(s) == g)
  }

  /** Every step pays for the tick it judges and the command it sets. */
  lemma {:induction false} BumpedStep(t: Console, a: Action, g: int)
    requires Bumped(t, g) && Next(t, a).Some? && !a.MotionStart? && a != OnState(Some(g))
    ensures var t' := Next(t, a).value;
            && Bumped(t', g)
            && Budget(t'.worker, g) + (if a.Judge? then 1 else 0) <= Budget(t.worker, g)
            && Stale(t'.worker, g) + (if SetsCommand(t, a) then 1 else 0) <= Stale(t.worker, g)
            && (!SetsCommand(t, a) ==> t'.target == t.target || t'.target == STILL)
            && (t'.echo == t.echo || t'.echo == g) && (t'.worker.Started? ==> t.worker.Started?)
  {
    hide LimitsOf, CommandVector, Step, ClosedLoop.Ceiling;
    match a
    case Judge(o) =>
      var w := t.worker;
      EndedIsStill(w.lim, w.guard, TickOf(w, t.echo, o));
      if w.seen.epoch != Some(g) { BumpEndsTick(t, o); }
    case Apply => StillIsNoCommand(t.worker.kind);
    case _ =>
  }

  lemma {:induction false} BumpedRun(s: Console, actions: seq<Action>, g: int)
    requires Bumped(s, g) && StaysBumped(actions, g) && Execute(s, actions).Some?
    ensures var t := Execute(s, actions).value;
            && Bumped(t, g)
            && Judges(actions) + Budget(t.worker, g) <= Budget(s.worker, g)
            && NewCommands(s, actions) + Stale(t.worker, g) <= Stale(s.worker, g)
            && (NewCommands(s, actions) == 0 ==> t.target == s.target || t.target == STILL)
            && (t.echo == s.echo || t.echo == g) && (t.worker.Started? ==> s.worker.Started?)
  {
    hide Bumped, Next, Budget, Stale, SetsCommand;
    if actions != [] {
      var front, a := actions[..|actions| - 1], actions[|actions| - 1];
      BumpedRun(s, front, g);
      assert actions[|actions| - 1] == a;
      BumpedStep(Execute(s, front).value, a, g);
    }
  }

  /** From an estop bump on, wherever in its tick it finds the motion, and under every interleaving: the motion
      judges at most two more ticks and sets at most one more command, both only where a tick had been looked
      at before the bump; the target it leaves is still; and the generation that is echoed is the motion's own. */
  lemma {:induction false} BumpStopsAnyMotion(s: Console, actions: seq<Action>)
    requires TargetInv(s) && s.view.epoch != Some(Generation(s))
    requires StaysBumped(actions, Generation(s)) && Execute(s, actions).Some?
    ensures var t, g := Execute(s, actions).value, Generation(s);
            && Judges(actions) + Budget(t.worker, g) <= Budget(s.worker, g) <= 2
            && NewCommands(s, actions) + Stale(t.worker, g) <= Stale(s.worker, g) <= 1
            && (NewCommands(s, actions) == 0 ==> t.target == s.target || t.target == STILL)
            && (!Moving(t.worker) ==> t.target == STILL)
            && (t.echo == s.echo || t.echo == g) && (Moving(t.worker) ==> t.echo == g) && t.view.epoch != Some(g)
  {
    TargetInvMakesWorkerInv(s);
    hide TargetInv, Execute;
    BumpedRun(s, actions, Generation(s));
  }

  lemma {:induction false} OneMore(s: Console, actions: seq<Action>, a: Action)
    requires Execute(s, actions).Some?
    ensures Execute(s, actions + [a]) == Next(Execute(s, actions).value, a)
    ensures Judges(actions + [a]) == Judges(actions) + if a.Judge? then 1 else 0
    ensures Execute(s, actions + [a]).Some?
            ==> NewCommands(s, actions + [a])
                == NewCommands(s, actions) + if SetsCommand(Execute(s, actions).value, a) then 1 else 0
  {
    assert (actions + [a])[..|actions + [a]| - 1] == actions;
  }

  /** A tick that was looked at under generation `echo` and does not end the motion. */
  predicate Oblivious(s: Console, o: Observation) {
    && s.worker.Looked? && s.worker.lim.speed > 0.0 && s.worker.seen.epoch == Some(s.echo)
    && Step(s.worker.lim, s.worker.guard, TickOf(s.worker, s.echo, o)).0.ended.None?
  }

  lemma {:induction false} ObliviousTick(s: Console, o: Observation, g: int, t: real)
    returns (s1: Console, s2: Console, s3: Console, s4: Console)
    requires Oblivious(s, o) && t >= s.clock
    ensures Next(s, OnState(Some(g))) == Some(s1) && Next(s1, Judge(o)) == Some(s2)
    ensures Next(s2, Apply) == Some(s3) && SetsCommand(s2, Apply)
    ensures Next(s3, Look(t)) == Some(s4) && Next(s4, Judge(o)).Some?
  {
    hide Step, CommandVector, LimitsOf, ClosedLoop.Ceiling;
    s1 := Next(s, OnState(Some(g))).value;
    s2 := Next(s1, Judge(o)).value;
    s3 := Next(s2, Apply).value;
    s4 := Next(s3, Look(t)).value;
  }

  lemma {:induction false} FirstTwo(s: Console, a: Action, b: Action, s1: Console, s2: Console)
    requires Next(s, a) == Some(s1) && Next(s1, b) == Some(s2)
    ensures Execute(s, [a, b]) == Some(s2)
    ensures Judges([a, b]) == (if a.Judge? then 1 else 0) + (if b.Judge? then 1 else 0)
    ensures NewCommands(s, [a, b]) == (if SetsCommand(s, a) then 1 else 0) + (if SetsCommand(s1, b) then 1 else 0)
  {
    assert Execute(s, []) == Some(s) && Judges([]) == 0 && NewCommands(s, []) == 0;
    hide Next, Execute, Judges, NewCommands, SetsCommand;
    OneMore(s, [], a);
    assert [] + [a] == [a];
    OneMore(s, [a], b);
    assert [a] + [b] == [a, b];
  }

  /** The bounds are met: a bump that lands on a tick already looked at lets that tick set a new command,
      and one more tick be judged. */
  lemma {:induction false} BumpInTickStillCommands(s: Console, o: Observation, g: int, t: real)
    requires Oblivious(s, o) && g != s.echo && t >= s.clock
    ensures var run := [OnState(Some(g)), Judge(o)] + [Apply] + [Look(t)] + [Judge(o)];
            && Execute(s, run).Some? && StaysBumped(run, s.echo)
            && Judges(run) == 2 && NewCommands(s, run) == 1
  {
    var s1, s2, s3, s4 := ObliviousTick(s, o, g, t);
    hide Oblivious, Next, Execute, Judges, NewCommands;
    var run := [OnState(Some(g)), Judge(o)];
    FirstTwo(s, run[0], run[1], s1, s2);
    OneMore(s, run, Apply);
    OneMore(s, run + [Apply], Look(t));
    OneMore(s, run + [Apply] + [Look(t)], Judge(o));
  }

  /** The state of a motion that an estop bump has caught between two ticks. */
  ghost predicate Caught(s: Console, t: Console, judged: bool) {
    var w := t.worker;
    && t.echo == s.echo && t.view.epoch != Some(s.echo)
    && (t.target == s.target || t.target == STILL)
    && (w.Waiting? || w.Looked? || w.Judged? || w.Settling? || w.Off?)
    && (w.Waiting? ==> !judged && w.guard.ended.None?)
    && (w.Looked? ==> !judged && w.guard.ended.None? && w.seen.epoch != Some(s.echo))
    && (w.Judged? ==> w.guard.ended.Some? && w.scalar == 0.0)
    && (w.Settling? || w.Off? ==> t.target == STILL)
  }

  predicate IsJudge(a: Action) {
    a.Judge?
  }

  lemma {:induction false} NoJudges(actions: seq<Action>)
    ensures Judges(actions) == 0 <==> !exists i :: 0 <= i < |actions| && IsJudge(actions[i])
  {
    if actions != [] {
      var front := actions[..|actions| - 1];
      NoJudges(front);
      assert forall i :: 0 <= i < |front| ==> front[i] == actions[i];
    }
  }

  /** A bump that lands between two ticks stops the motion at once: it judges at most one more tick and never
      commands anything new. */
  lemma {:induction false} BumpStopsMotion(s: Console, actions: seq<Action>)
    requires s.worker.Waiting? && s.worker.guard.ended.None? && s.view.epoch != Some(s.echo)
    requires forall i :: 0 <= i < |actions| ==> !actions[i].MotionStart? && actions[i] != OnState(Some(s.echo))
    requires Execute(s, actions).Some?
    ensures Caught(s, Execute(s, actions).value, exists i :: 0 <= i < |actions| && IsJudge(actions[i]))
  {
    hide Execute;
    BumpedRun(s, actions, s.echo);
    NoJudges(actions);
  }
}
