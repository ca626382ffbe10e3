/** The spin physics shared by both wheels: the same constants, the same
    order of updates in a tick, and the same clock clamp.

    Rotation is measured in turns (one turn is 2*pi radians); velocity and
    acceleration keep the source's units, radians per second and radians
    per second squared, and the tick converts with `Tau`. */
module Physics {
  import opened Reals

  /** `2 * Math.PI` as JavaScript evaluates it, to 16 digits. */
  const Tau: real := 6.283185307179586

  const InitialAcceleration: real := 10.0
  const InitialAccelerationVariance: real := 3.0
  const AccelerationDecay: real := 5.0
  const VelocityDecay: real := 1.0

  /** The smallest tick length in seconds: the 0.001 ms floor over 1000. */
  const MinDelta: real := 0.000001

  datatype Motion = Motion(rotation: real, velocity: real, acceleration: real)

  function Max(a: real, b: real): real
  {
    if a >= b then a else b
  }

  /** Seconds between two clock readings in milliseconds; a clock that
      stands still or runs backwards yields the floor, never zero. */
  function Delta(now: int, lastTick: int): (dt: real)
    ensures dt >= MinDelta
    ensures now > lastTick ==> dt * 1000.0 == (now - lastTick) as real
    ensures now <= lastTick ==> dt == MinDelta
  {
    Max((now - lastTick) as real, 0.001) / 1000.0
  }

  /** The acceleration `start` draws from a uniform `u` in [0, 1). */
  function LaunchAcceleration(u: real): (a: real)
    requires 0.0 <= u < 1.0
    ensures InitialAcceleration - InitialAccelerationVariance <= a
    ensures a < InitialAcceleration + InitialAccelerationVariance
  {
    InitialAcceleration + (2.0 * u - 1.0) * InitialAccelerationVariance
  }

  /** JavaScript `x % 1` (here: `% 2*pi` in turns): the remainder keeps
      the sign of `x` and stays strictly inside one turn. */
  function RemTurn(x: real): (r: real)
    ensures -1.0 < r < 1.0
    ensures x >= 0.0 ==> r >= 0.0
    ensures x <= 0.0 ==> r <= 0.0
    ensures -1.0 < x < 1.0 ==> r == x
    ensures (x - r).Floor as real == x - r
  {
    var n := if x >= 0.0 then x.Floor else -(-x).Floor;
    assert x - (x - n as real) == n as real;
    WholeFloor(n);
    x - n as real
  }

  /** A whole number is its own floor. */
  lemma WholeFloor(n: int)
    ensures (n as real).Floor == n
  {
  }

  /** The rotation after turning at `velocity` radians per second for `dt`
      seconds, in turns. */
  function Turned(rotation: real, velocity: real, dt: real): real
  {
    rotation + velocity * dt / Tau
  }

  /** One tick of length `dt` seconds: accelerate, advance and wrap the
      rotation, then decay velocity and acceleration towards zero. */
  function Step(m: Motion, dt: real): (r: Motion)
    requires dt > 0.0
    ensures r.velocity >= 0.0 && r.acceleration >= 0.0
    ensures -1.0 < r.rotation < 1.0
    ensures m.acceleration >= 0.0 ==> r.acceleration <= m.acceleration
    ensures m.acceleration > 0.0 ==> r.acceleration < m.acceleration
    ensures r.acceleration == 0.0 <==> m.acceleration <= AccelerationDecay * dt
  {
    var v := m.velocity + m.acceleration * dt;
    Motion(
      RemTurn(Turned(m.rotation, v, dt)),
      Max(0.0, v - VelocityDecay * dt),
      Max(0.0, m.acceleration - AccelerationDecay * dt))
  }

  /** `Step` with the launched velocity named. */
  lemma StepUnfold(m: Motion, dt: real, v: real)
    requires dt > 0.0 && v == m.velocity + m.acceleration * dt
    ensures Step(m, dt) == Motion(RemTurn(Turned(m.rotation, v, dt)),
      Max(0.0, v - VelocityDecay * dt), Max(0.0, m.acceleration - AccelerationDecay * dt))
  {
    assert Step(m, dt).rotation == RemTurn(Turned(m.rotation, v, dt));
    assert Step(m, dt).velocity == Max(0.0, v - VelocityDecay * dt);
  }

  /** A wheel launched with more acceleration than the velocity decay is
      still turning after its first tick, however long that tick is: the
      acceleration may run out, but the velocity it added outweighs the
      decay. */
  lemma LaunchKeepsMoving(m: Motion, dt: real)
    requires m.velocity >= 0.0 && m.acceleration > VelocityDecay && dt > 0.0
    ensures Step(m, dt).velocity > 0.0
  {
    MulStrict(VelocityDecay, m.acceleration, dt);
    assert m.velocity + m.acceleration * dt - VelocityDecay * dt > 0.0;
  }

  /** The tick chain stops: neither velocity nor acceleration is positive. */
  predicate Idle(m: Motion)
  {
    !(m.velocity > 0.0 || m.acceleration > 0.0)
  }

  /** The motion after `n` ticks whose clock readings are `clock(j + 1)`,
      ..., `clock(j + n)`, the previous tick having read `clock(j)`. */
  function RunFrom(m: Motion, clock: nat -> int, j: nat, n: nat): Motion
    decreases n
  {
    if n == 0 then m else RunFrom(Step(m, Delta(clock(j + 1), clock(j))), clock, j + 1, n - 1)
  }

  /** Ticks of the floor length that a positive value still needs to reach
      zero when it loses `rate` per second. */
  function StepsLeft(x: real, rate: real): nat
    requires rate > 0.0
  {
    if x <= 0.0 then 0 else (x / (rate * MinDelta)).Floor as nat + 1
  }

  lemma StepsLeftDecrease(x: real, x': real, rate: real, dt: real)
    requires rate > 0.0 && dt >= MinDelta && x > 0.0
    requires x' == Max(0.0, x - rate * dt)
    ensures StepsLeft(x', rate) < StepsLeft(x, rate)
  {
    var c := rate * MinDelta;
    if x' > 0.0 {
      assert rate * dt - c == rate * (dt - MinDelta);
      assert rate * (dt - MinDelta) >= 0.0;
      assert x' <= x - c;
      DivMonotone(x', x - c, c);
      assert (x - c) / c * c == x - c;
      assert (x / c - 1.0) * c == x - c;
      MulCancel((x - c) / c, x / c - 1.0, c);
    }
  }

  /** Every tick of a moving wheel makes progress in the lexicographic
      order of (acceleration ticks left, velocity ticks left). */
  lemma StepProgress(m: Motion, dt: real)
    requires m.velocity >= 0.0 && m.acceleration >= 0.0 && !Idle(m) && dt >= MinDelta
    ensures var r := Step(m, dt);
      StepsLeft(r.acceleration, AccelerationDecay) < StepsLeft(m.acceleration, AccelerationDecay)
      || (StepsLeft(r.acceleration, AccelerationDecay) == StepsLeft(m.acceleration, AccelerationDecay)
          && StepsLeft(r.velocity, VelocityDecay) < StepsLeft(m.velocity, VelocityDecay))
  {
    var r := Step(m, dt);
    if m.acceleration > 0.0 {
      StepsLeftDecrease(m.acceleration, r.acceleration, AccelerationDecay, dt);
    } else {
      assert m.acceleration * dt == 0.0;
      StepsLeftDecrease(m.velocity, r.velocity, VelocityDecay, dt);
    }
  }

  /** A spin comes to rest after finitely many ticks, whatever the clock
      reads: the velocity and acceleration decays always win. */
  lemma {:induction false} SpinComesToRest(m: Motion, clock: nat -> int, j: nat)
    requires m.velocity >= 0.0 && m.acceleration >= 0.0
    ensures exists n: nat :: Idle(RunFrom(m, clock, j, n))
    decreases StepsLeft(m.acceleration, AccelerationDecay), StepsLeft(m.velocity, VelocityDecay)
  {
    if Idle(m) {
      assert Idle(RunFrom(m, clock, j, 0));
    } else {
      var dt := Delta(clock(j + 1), clock(j));
      var m' := Step(m, dt);
      StepProgress(m, dt);
      SpinComesToRest(m', clock, j + 1);
      var n: nat :| Idle(RunFrom(m', clock, j + 1, n));
      assert RunFrom(m, clock, j, n + 1) == RunFrom(m', clock, j + 1, n);
    }
  }
}
