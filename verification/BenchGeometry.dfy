/** The geometry under the guard: progress along the start heading and a continuous yaw. */
module BenchGeometry {
  import opened Basics
  import opened MotionKinds

  datatype Pose = Pose(x: real, y: real, yaw: real)

  /** Cosine and sine of the start yaw. */
  datatype Heading = Heading(c: real, s: real)

  predicate Unit(h: Heading) {
    h.c * h.c + h.s * h.s == 1.0
  }

  /** `d` is math.hypot of the displacement from `a` to `b`. */
  predicate IsHypot(d: real, a: Pose, b: Pose) {
    d >= 0.0 && d * d == (b.x - a.x) * (b.x - a.x) + (b.y - a.y) * (b.y - a.y)
  }

  /** Body-x and body-y (left) of a displacement, in the start pose's frame. */
  function AlongX(h: Heading, dx: real, dy: real): real {
    dx * h.c + dy * h.s
  }

  function AlongY(h: Heading, dx: real, dy: real): real {
    -dx * h.s + dy * h.c
  }

  /** (progress, off-axis); `walked` is the hypotenuse the turn branch computes. */
  function ProgressOf(kind: Kind, start: Pose, h: Heading, now: Pose, walked: real): (real, real) {
    var dx, dy := now.x - start.x, now.y - start.y;
    match kind.Axis()
    case AxisX => (kind.Sign() * AlongX(h, dx, dy), Abs(AlongY(h, dx, dy)))
    case AxisY => (kind.Sign() * AlongY(h, dx, dy), Abs(AlongX(h, dx, dy)))
    case AxisYaw => (kind.Sign() * (now.yaw - start.yaw), walked)
  }

  /** World displacement of a body-frame one. */
  function WorldX(h: Heading, vx: real, vy: real): real {
    vx * h.c - vy * h.s
  }

  function WorldY(h: Heading, vx: real, vy: real): real {
    vx * h.s + vy * h.c
  }

  /** Move by `v`, expressed in the body frame of heading `h`. */
  function Displace(p: Pose, h: Heading, v: Velocity): Pose {
    Pose(p.x + WorldX(h, v.vx, v.vy), p.y + WorldY(h, v.vx, v.vy), p.yaw + v.wz)
  }

  lemma DisplacementInBodyFrame(p: Pose, h: Heading, v: Velocity)
    requires Unit(h)
    ensures var q := Displace(p, h, v);
            AlongX(h, q.x - p.x, q.y - p.y) == v.vx && AlongY(h, q.x - p.x, q.y - p.y) == v.vy
  {
    RotateBack(h.c, h.s, v.vx, v.vy);
    var q := Displace(p, h, v);
    assert q.x - p.x == WorldX(h, v.vx, v.vy) && q.y - p.y == WorldY(h, v.vx, v.vy);
    assert AlongX(h, WorldX(h, v.vx, v.vy), WorldY(h, v.vx, v.vy)) == v.vx;
    assert AlongY(h, WorldX(h, v.vx, v.vy), WorldY(h, v.vx, v.vy)) == v.vy;
  }

  lemma RotateBack(c: real, s: real, vx: real, vy: real)
    requires c * c + s * s == 1.0
    ensures (vx * c - vy * s) * c + (vx * s + vy * c) * s == vx
    ensures -(vx * c - vy * s) * s + (vx * s + vy * c) * c == vy
  {
    assert (vx * c - vy * s) * c + (vx * s + vy * c) * s == vx * (c * c + s * s);
    assert -(vx * c - vy * s) * s + (vx * s + vy * c) * c == vy * (c * c + s * s);
  }

  lemma NoWalk(d: real, p: Pose, q: Pose)
    requires IsHypot(d, p, q) && p.x == q.x && p.y == q.y
    ensures d == 0.0
  {
    assert d * d == 0.0 * 0.0 + 0.0 * 0.0;
    if d > 0.0 { ZeroFactor(d, d); }
  }

  lemma ZeroFactor(a: real, b: real)
    requires a > 0.0 && a * b == 0.0
    ensures b == 0.0
  {
  }

  /** Moving by a command gives exactly that progress and no off-axis part, for every kind and start pose. */
  lemma CommandMakesProgress(kind: Kind, start: Pose, h: Heading, d: real, walked: real)
    requires Unit(h) && IsHypot(walked, start, Displace(start, h, CommandVector(kind, d)))
    ensures ProgressOf(kind, start, h, Displace(start, h, CommandVector(kind, d)), walked) == (d, 0.0)
  {
    hide AlongX, AlongY, IsHypot;
    var v := CommandVector(kind, d);
    var q := Displace(start, h, v);
    DisplacementInBodyFrame(start, h, v);
    if kind.Turns() { NoWalk(walked, start, q); }
  }

  /** Which way each command moves the robot: ahead is along the heading, left and a left turn are
      counter-clockwise from it. */
  lemma CommandsMoveThatWay(start: Pose, h: Heading, d: real)
    ensures Displace(start, h, CommandVector(Fwd, d)) == Pose(start.x + d * h.c, start.y + d * h.s, start.yaw)
    ensures Displace(start, h, CommandVector(Back, d)) == Pose(start.x - d * h.c, start.y - d * h.s, start.yaw)
    ensures Displace(start, h, CommandVector(Left, d)) == Pose(start.x - d * h.s, start.y + d * h.c, start.yaw)
    ensures Displace(start, h, CommandVector(Right, d)) == Pose(start.x + d * h.s, start.y - d * h.c, start.yaw)
    ensures Displace(start, h, CommandVector(TurnL, d)) == Pose(start.x, start.y, start.yaw + d)
    ensures Displace(start, h, CommandVector(TurnR, d)) == Pose(start.x, start.y, start.yaw - d)
  {
  }

  function Opposite(kind: Kind): Kind {
    match kind
    case Fwd => Back case Back => Fwd
    case Left => Right case Right => Left
    case TurnL => TurnR case TurnR => TurnL
  }

  /** Going the opposite way reads as exactly that much negative progress. */
  lemma WrongWayIsNegative(kind: Kind, start: Pose, h: Heading, d: real, walked: real)
    requires Unit(h)
    ensures ProgressOf(kind, start, h, Displace(start, h, CommandVector(Opposite(kind), d)), walked).0 == -d
  {
    hide AlongX, AlongY;
    DisplacementInBodyFrame(start, h, CommandVector(Opposite(kind), d));
  }

  /** A translation's progress and off-axis part account for the whole displacement. */
  lemma NothingIsHidden(kind: Kind, start: Pose, h: Heading, now: Pose, walked: real)
    requires Unit(h) && IsHypot(walked, start, now) && !kind.Turns()
    ensures var (p, off) := ProgressOf(kind, start, h, now, walked); p * p + off * off == walked * walked
  {
    var dx, dy, c, s := now.x - start.x, now.y - start.y, h.c, h.s;
    assert (dx * c + dy * s) * (dx * c + dy * s) + (-dx * s + dy * c) * (-dx * s + dy * c)
        == (dx * dx + dy * dy) * (c * c + s * s);
  }

  // -- the continuous yaw -------------------------------------------------------

  ghost predicate Congruent(a: real, b: real, pi: real) {
    exists m: int :: IsTurns(a, b, m, pi)
  }

  predicate IsTurns(a: real, b: real, m: int, pi: real) {
    a - b == m as real * (2.0 * pi)
  }

  /** Whole turns to take off an angle to bring it into (-pi, pi]. */
  function Turns(a: real, pi: real): int
    requires pi > 0.0
  {
    -((pi - a) / (2.0 * pi)).Floor
  }

  /** atan2(sin a, cos a). */
  function WrapPi(a: real, pi: real): (w: real)
    requires pi > 0.0
    ensures -pi < w <= pi && IsTurns(a, w, Turns(a, pi), pi)
  {
    WrapRange(a, pi);
    a - Turns(a, pi) as real * (2.0 * pi)
  }

  lemma PartOfPeriod(period: real, part: real)
    requires period > 0.0 && 0.0 <= part < 1.0
    ensures 0.0 <= period * part < period
  {
    ScaleMono(period, 0.0, part);
    ScaleStrict(period, part, 1.0);
  }

  /** Taking the whole periods off an offset leaves less than a period. */
  lemma WithinOnePeriod(offset: real, period: real, whole: real, part: real)
    requires period > 0.0 && 0.0 <= part < 1.0 && offset == period * whole + period * part
    ensures 0.0 <= offset - whole * period < period
  {
    PartOfPeriod(period, part);
  }

  lemma Negated(k: int, period: real)
    ensures (-k) as real * period == -(k as real * period)
  {
  }

  lemma WrapRange(a: real, pi: real)
    requires pi > 0.0
    ensures -pi < a - Turns(a, pi) as real * (2.0 * pi) <= pi
  {
    var period := 2.0 * pi;
    var q := (pi - a) / period;
    FloorBounds(q);
    var whole := q.Floor as real;
    assert period * q == pi - a;
    assert period * q == period * whole + period * (q - whole);
    WithinOnePeriod(pi - a, period, whole, q - whole);
    Negated(q.Floor, period);
  }

  lemma OnlyZeroFits(n: int, period: real, x: real)
    requires x == n as real * period && -period < x < period
    ensures n == 0
  {
    if n >= 1 { ScaleMono(period, 1.0, n as real); }
    if n <= -1 { ScaleMono(period, n as real, -1.0); }
  }

  /** Range and congruence determine the wrapped angle. */
  lemma WrapIsUnique(a: real, w: real, m: int, pi: real)
    requires pi > 0.0 && -pi < w <= pi && IsTurns(a, w, m, pi)
    ensures w == WrapPi(a, pi)
  {
    hide Turns;
    var k, v := Turns(a, pi), WrapPi(a, pi);
    var x, period := v - w, 2.0 * pi;
    assert a - v == k as real * period && a - w == m as real * period;
    assert (m - k) as real * period == m as real * period - k as real * period;
    OnlyZeroFits(m - k, period, x);
  }

  datatype Yaw = Yaw(raw: real, total: real)

  function Feed(u: Yaw, sample: real, pi: real): Yaw
    requires pi > 0.0
  {
    Yaw(sample, u.total + WrapPi(sample - u.raw, pi))
  }

  function FeedAll(u: Yaw, samples: seq<real>, pi: real): Yaw
    requires pi > 0.0
  {
    if samples == [] then u else Feed(FeedAll(u, samples[..|samples| - 1], pi), samples[|samples| - 1], pi)
  }

  class YawUnwrapper {
    const pi: real
    var raw: real
    var total: real

    function State(): Yaw
      reads this
    {
      Yaw(raw, total)
    }

    constructor (yaw0: real, pi: real)
      ensures State() == Yaw(yaw0, yaw0) && this.pi == pi
    {
      this.pi := pi;
      raw, total := yaw0, yaw0;
    }

    method FeedSample(yaw: real) returns (continuous: real)
      requires pi > 0.0
      modifies this
      ensures State() == Feed(old(State()), yaw, pi) && continuous == total
    {
      total := total + WrapPi(yaw - raw, pi);
      raw := yaw;
      return total;
    }
  }

  lemma TurnsSubtract(a: real, b: real, m: int, c: real, d: real, n: int, pi: real)
    requires IsTurns(a, b, m, pi) && IsTurns(c, d, n, pi)
    ensures a + d - (b + c) == (m - n) as real * (2.0 * pi)
  {
    assert (m - n) as real * (2.0 * pi) == m as real * (2.0 * pi) - n as real * (2.0 * pi);
  }

  /** One sample adds the true turn exactly when that turn lies in (-pi, pi]. */
  lemma FeedIsExactIff(u: Yaw, before: real, after: real, sample: real, pi: real)
    requires pi > 0.0 && Congruent(u.raw, before, pi) && Congruent(sample, after, pi)
    ensures Feed(u, sample, pi).total - u.total == after - before <==> -pi < after - before <= pi
  {
    var m: int :| IsTurns(u.raw, before, m, pi);
    var n: int :| IsTurns(sample, after, n, pi);
    assert (n - m) as real * (2.0 * pi) == n as real * (2.0 * pi) - m as real * (2.0 * pi);
    assert IsTurns(sample - u.raw, after - before, n - m, pi);
    if -pi < after - before <= pi {
      WrapIsUnique(sample - u.raw, after - before, n - m, pi);
    }
  }

  /** Through any number of seam crossings the unwrapper reproduces the true turn, whatever representative
      of the yaw each sample is, as long as every step is under pi. */
  lemma {:induction false} UnwrapIsExact(yaws: seq<real>, samples: seq<real>, u: Yaw, pi: real)
    requires pi > 0.0 && |yaws| == |samples| > 0 && u.raw == samples[0]
    requires forall i :: 0 <= i < |yaws| ==> Congruent(samples[i], yaws[i], pi)
    requires forall i :: 0 < i < |yaws| ==> -pi < yaws[i] - yaws[i - 1] < pi
    ensures var last := |yaws| - 1;
            FeedAll(u, samples, pi) == Yaw(samples[last], u.total + yaws[last] - yaws[0])
  {
    var last := |yaws| - 1;
    assert samples[..|samples| - 1] == samples[..last];
    if last == 0 {
      assert samples[..0] == [];
      assert FeedAll(u, samples, pi) == Feed(u, samples[0], pi);
      FeedIsExactIff(u, yaws[0], yaws[0], samples[0], pi);
    } else {
      UnwrapIsExact(yaws[..last], samples[..last], u, pi);
      FeedIsExactIff(FeedAll(u, samples[..last], pi), yaws[last - 1], yaws[last], samples[last], pi);
    }
  }

  /** Whatever the samples, the continuous yaw never leaves the raw one's congruence class. */
  lemma {:induction false} UnwrapStaysCongruent(u: Yaw, samples: seq<real>, pi: real)
    requires pi > 0.0 && Congruent(u.total, u.raw, pi)
    ensures var v := FeedAll(u, samples, pi); Congruent(v.total, v.raw, pi)
  {
    hide WrapPi, Turns;
    if samples != [] {
      var before := FeedAll(u, samples[..|samples| - 1], pi);
      UnwrapStaysCongruent(u, samples[..|samples| - 1], pi);
      var sample := samples[|samples| - 1];
      var m: int :| IsTurns(before.total, before.raw, m, pi);
      var k := Turns(sample - before.raw, pi);
      TurnsSubtract(before.total, before.raw, m, sample - before.raw, WrapPi(sample - before.raw, pi), k, pi);
      assert IsTurns(Feed(before, sample, pi).total, sample, m - k, pi);
    }
  }
}
