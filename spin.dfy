/**
  The spin state machine both copies share: idle, spinning, decelerating.
  The state is the source's pair of flags `isSpinning`/`decelerating`, the
  latched `decelerationStartTime`, the speed and the angle (in turns). One
  animation frame is `Tick`; the copies differ only in when they refresh
  the timestamp their `dt` is measured from (`Rule`).
 */
module Spin {

  import opened Wrappers
  import opened Pointer

  /** `decelerationDuration`: a deceleration lasts 12 500 ms. */
  const DecelerationDuration: int := 12500

  /**
    The two physical inputs that the source computes in floating point:
    `v0`, the initial speed `rotationSpeedInitial` (0.05 rad/ms) in turns per
    ms, and `decay(elapsed)`, the friction factor `Math.exp(-0.24 * elapsed / 1000)`.
   */
  datatype Physics = Physics(v0: real, decay: int -> real)

  datatype Motion = Motion(
    spinning: bool,          // isSpinning
    decelerating: bool,      // decelerating
    decelStart: Option<int>, // decelerationStartTime, None for null
    speed: real,             // rotationSpeed, turns per ms
    angle: real)             // currentAngle, turns

  /** JavaScript truthiness of an optional timestamp: `null`, `undefined` and 0 are all falsy. */
  predicate Truthy(t: Option<int>) {
    t.Some? && t.value != 0
  }

  /** What every reachable state satisfies. */
  predicate Consistent(m: Motion) {
    && (m.decelerating ==> m.spinning)
    && (m.decelStart.Some? ==> m.decelerating)
    && -1.0 < m.angle < 1.0
  }

  /** `timestamp - (last || timestamp)`: 0 when no usable previous timestamp exists. */
  function Dt(last: Option<int>, now: int): int {
    if Truthy(last) then now - last.value else 0
  }

  /** The deceleration block of a frame: latch the start, decay the speed, stop after the duration. */
  function Brake(p: Physics, m: Motion, now: int): (r: Motion)
    ensures r.angle == m.angle
    ensures r.decelStart.Some? ==>
      now - r.decelStart.value < DecelerationDuration && (Truthy(m.decelStart) ==> r.decelStart == m.decelStart)
    ensures r.decelStart.None? ==> !r.spinning && !r.decelerating
    ensures Consistent(m) && m.decelerating ==> Consistent(r)
  {
    var start := if Truthy(m.decelStart) then m.decelStart.value else now;
    var elapsed := now - start;
    var speed := p.v0 * p.decay(elapsed);
    if elapsed >= DecelerationDuration then
      m.(spinning := false, decelerating := false, decelStart := None, speed := speed)
    else
      m.(decelStart := Some(start), speed := speed)
  }

  /** The distance covered at `speed` turns per ms in `dt` ms. */
  function Travel(speed: real, dt: int): real {
    speed * dt as real
  }

  /** `currentAngle += rotationSpeed * dt; currentAngle %= 2π`, in turns. */
  function Advance(m: Motion, dt: int): Motion {
    m.(angle := TruncMod1(m.angle + Travel(m.speed, dt)))
  }

  /** One animation frame `dt` ms after the previous one, at time `now`. */
  function Tick(p: Physics, m: Motion, now: int, dt: int): (r: Motion)
    ensures !m.spinning ==> r == m
    ensures Consistent(m) ==> Consistent(r)
  {
    if !m.spinning then m
    else if m.decelerating then Advance(Brake(p, m, now), dt)
    else Advance(m, dt)
  }

  // ----- commands -----

  /** The guard of `startSpin`: there is something to spin and no spin is running. */
  predicate CanStartSpin(m: Motion, hasMenus: bool) {
    hasMenus && !m.spinning
  }

  /** `startSpin` when its guard holds. */
  function StartSpin(p: Physics, m: Motion): (r: Motion)
    ensures r.angle == m.angle
    ensures Consistent(m) ==> Consistent(r)
  {
    m.(spinning := true, decelerating := false, speed := p.v0, decelStart := None)
  }

  /** The guard of `startDeceleration`: spinning and not yet decelerating. */
  predicate CanDecelerate(m: Motion) {
    m.spinning && !m.decelerating
  }

  /** `startDeceleration` when its guard holds; the start time is latched by the next frame. */
  function StartDeceleration(m: Motion): (r: Motion)
    ensures r.angle == m.angle && r.speed == m.speed
    ensures Consistent(m) && m.spinning ==> Consistent(r)
  {
    m.(decelerating := true, decelStart := None)
  }

  /** The spin button handler of the standalone page. */
  function PageSpinClick(p: Physics, m: Motion, hasMenus: bool): (r: Motion)
    ensures r.angle == m.angle
    ensures Consistent(m) ==> Consistent(r)
  {
    if !m.spinning then
      if !hasMenus then m
      else m.(spinning := true, decelerating := false, speed := p.v0)
    else if m.spinning && !m.decelerating then
      m.(decelerating := true)
    else m
  }

  // ----- frames and runs of frames -----

  /** When the timestamp `dt` is measured from is refreshed. */
  datatype Rule =
    | WhileSpinning // the model class: `_lastTimestamp` is written only by frames that spin
    | EveryFrame    // the standalone page: `lastTime` is written by every frame

  datatype Clock = Clock(motion: Motion, last: Option<int>)

  function Frame(rule: Rule, p: Physics, c: Clock, now: int): (r: Clock)
    ensures !c.motion.spinning ==> r.motion == c.motion
    ensures rule == WhileSpinning && !c.motion.spinning ==> r == c
    ensures rule == EveryFrame || c.motion.spinning ==> r.last == Some(now)
    ensures Consistent(c.motion) ==> Consistent(r.motion)
  {
    match rule
    case WhileSpinning =>
      if c.motion.spinning then Clock(Tick(p, c.motion, now, Dt(c.last, now)), Some(now)) else c
    case EveryFrame =>
      Clock(Tick(p, c.motion, now, Dt(c.last, now)), Some(now))
  }

  /** The clock after one frame per timestamp of `frames`, in order. */
  function Run(rule: Rule, p: Physics, c: Clock, frames: seq<int>): Clock
    decreases |frames|
  {
    if frames == [] then c else Run(rule, p, Frame(rule, p, c, frames[0]), frames[1..])
  }

  // ----- what one frame does -----

  /** A spinning, not decelerating wheel keeps its speed and advances by `Travel(speed, dt)`, wrapped. */
  lemma SpinningFrame(p: Physics, m: Motion, now: int, dt: int)
    requires m.spinning && !m.decelerating
    ensures var r := Tick(p, m, now, dt);
      && r.spinning && !r.decelerating && r.speed == m.speed && r.decelStart == m.decelStart
      && r.angle == TruncMod1(m.angle + Travel(m.speed, dt))
  {
    assert Tick(p, m, now, dt) == Advance(m, dt);
    assert Advance(m, dt).angle == TruncMod1(m.angle + Travel(m.speed, dt));
  }

  /** The first decelerating frame latches its own timestamp as the start and runs at `v0 * decay(0)`. */
  lemma BrakeLatches(p: Physics, m: Motion, now: int, dt: int)
    requires m.spinning && m.decelerating && !Truthy(m.decelStart)
    ensures var r := Tick(p, m, now, dt);
      r.spinning && r.decelerating && r.decelStart == Some(now) && r.speed == p.v0 * p.decay(0)
  {
  }

  /** Before the duration has elapsed a decelerating wheel keeps its start and slows to `v0 * decay(elapsed)`. */
  lemma BrakeContinues(p: Physics, m: Motion, now: int, dt: int, start: int)
    requires m.spinning && m.decelerating && m.decelStart == Some(start) && start != 0
    requires now - start < DecelerationDuration
    ensures var r := Tick(p, m, now, dt);
      r.spinning && r.decelerating && r.decelStart == Some(start) && r.speed == p.v0 * p.decay(now - start)
  {
  }

  /**
    Once `now - start >= 12500` the frame clears both flags and the start,
    keeps the last decayed speed (it is not reset to 0) and still advances
    the angle with it.
   */
  lemma BrakeStops(p: Physics, m: Motion, now: int, dt: int, start: int)
    requires m.spinning && m.decelerating && m.decelStart == Some(start) && start != 0
    requires now - start >= DecelerationDuration
    ensures var r := Tick(p, m, now, dt);
      && !r.spinning && !r.decelerating && r.decelStart == None
      && r.speed == p.v0 * p.decay(now - start)
      && r.angle == TruncMod1(m.angle + Travel(r.speed, dt))
  {
    var b := Brake(p, m, now);
    assert b.angle == m.angle && b.speed == p.v0 * p.decay(now - start);
    assert Tick(p, m, now, dt) == Advance(b, dt);
    assert Advance(b, dt).angle == TruncMod1(b.angle + Travel(b.speed, dt));
  }

  /** Repeating a frame with the same timestamp changes nothing more. */
  lemma FrameIdempotent(rule: Rule, p: Physics, c: Clock, now: int)
    requires Consistent(c.motion)
    ensures Frame(rule, p, Frame(rule, p, c, now), now) == Frame(rule, p, c, now)
  {
    var c1 := Frame(rule, p, c, now);
    var m1 := c1.motion;
    if m1.spinning {
      assert c1.last == Some(now);
      assert Dt(c1.last, now) == 0;
      assert Trunc(m1.angle) == 0;
      var b := if m1.decelerating then Brake(p, m1, now) else m1;
      assert b.angle == m1.angle;
      assert Advance(b, 0) == b.(angle := m1.angle);
    }
  }

  /**
    The wheel cannot run backwards: with a non-negative initial speed and
    decay factor and time moving forward, the speed stays non-negative and
    the angle stays in [0, 1) turn.
   */
  lemma TickForward(p: Physics, m: Motion, now: int, dt: int)
    requires p.v0 >= 0.0 && forall e :: p.decay(e) >= 0.0
    requires 0.0 <= m.angle < 1.0 && m.speed >= 0.0
    requires dt >= 0
    ensures var r := Tick(p, m, now, dt); 0.0 <= r.angle < 1.0 && r.speed >= 0.0
  {
    if m.spinning {
      var b := if m.decelerating then Brake(p, m, now) else m;
      assert b.speed >= 0.0;
      assert Travel(b.speed, dt) >= 0.0;
      assert Tick(p, m, now, dt) == Advance(b, dt);
    }
  }

  // ----- what a run of frames does -----

  /** An idle wheel stays as it is however many frames pass; the model class does not even move its timestamp. */
  lemma {:induction false} RunIdle(rule: Rule, p: Physics, c: Clock, frames: seq<int>)
    requires !c.motion.spinning
    ensures Run(rule, p, c, frames).motion == c.motion
    ensures rule == WhileSpinning ==> Run(rule, p, c, frames) == c
    decreases |frames|
  {
    if frames != [] {
      RunIdle(rule, p, Frame(rule, p, c, frames[0]), frames[1..]);
    }
  }

  /**
    A latched deceleration ends at the first frame at least 12 500 ms after
    its start, whatever the frame spacing: after a run the wheel still spins
    exactly when no frame reached the duration, and then it is still
    decelerating from the same start.
   */
  lemma {:induction false} RunStops(rule: Rule, p: Physics, c: Clock, frames: seq<int>, start: int)
    requires c.motion.spinning && c.motion.decelerating && c.motion.decelStart == Some(start) && start != 0
    ensures var r := Run(rule, p, c, frames).motion;
      r.spinning <==> forall j :: 0 <= j < |frames| ==> frames[j] - start < DecelerationDuration
    ensures var r := Run(rule, p, c, frames).motion;
      r.spinning ==> r.decelerating && r.decelStart == Some(start)
    ensures var r := Run(rule, p, c, frames).motion;
      !r.spinning ==> !r.decelerating && r.decelStart == None
    decreases |frames|
  {
    if frames != [] {
      var c1 := Frame(rule, p, c, frames[0]);
      if frames[0] - start >= DecelerationDuration {
        assert !c1.motion.spinning && c1.motion.decelStart == None && !c1.motion.decelerating;
        RunIdle(rule, p, c1, frames[1..]);
      } else {
        RunStops(rule, p, c1, frames[1..], start);
        assert forall j :: 1 <= j < |frames| ==> frames[j] == frames[1..][j - 1];
      }
    }
  }

  /** Under the page's rule, the timestamp after a run is that of its last frame. */
  lemma {:induction false} RunEveryFrameLast(p: Physics, c: Clock, frames: seq<int>)
    requires frames != []
    ensures Run(EveryFrame, p, c, frames).last == Some(frames[|frames| - 1])
    decreases |frames|
  {
    if |frames| > 1 {
      RunEveryFrameLast(p, Frame(EveryFrame, p, c, frames[0]), frames[1..]);
    }
  }

  /**
    The two `dt` rules compared. After the wheel stopped and some idle frames
    passed, the first frame of a new spin measures `dt` from the last
    spinning frame under the model class's rule (the whole idle gap), but
    from the previous frame under the page's rule.
   */
  lemma RestartGap(p: Physics, c: Clock, idle: seq<int>, now: int)
    requires !c.motion.spinning && Truthy(c.last)
    requires idle != [] && idle[|idle| - 1] != 0
    ensures Dt(StartSpinClock(p, Run(WhileSpinning, p, c, idle)).last, now) == now - c.last.value
    ensures Dt(StartSpinClock(p, Run(EveryFrame, p, c, idle)).last, now) == now - idle[|idle| - 1]
  {
    RunIdle(WhileSpinning, p, c, idle);
    RunEveryFrameLast(p, c, idle);
  }

  /** A spin start leaves the frame timestamp alone. */
  function StartSpinClock(p: Physics, c: Clock): Clock {
    c.(motion := StartSpin(p, c.motion))
  }

  /**
    The page's spin button does what the model class's view does with
    `startSpin`/`startDeceleration`: start when idle and there are entries,
    decelerate while spinning, ignore the click otherwise.
   */
  lemma ClickMatchesModel(p: Physics, m: Motion, hasMenus: bool)
    requires Consistent(m)
    ensures PageSpinClick(p, m, hasMenus) ==
      if CanStartSpin(m, hasMenus) then StartSpin(p, m)
      else if CanDecelerate(m) then StartDeceleration(m)
      else m
  {
  }
}
