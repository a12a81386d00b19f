/**
 * The local planner's state, its parameters, the dynamic window, the motion
 * model, the simulated trajectory of one velocity command and the speed
 * cost. Floating-point values are modelled as reals; cos and sin are
 * parameters of the model (Geometry), not computed.
 */
module DwaModel {
  import opened Angles

  /** The tuning parameters read at start-up (all of them doubles). */
  datatype Params = Params(
    dt: real, dv: real, dyaw: real,
    maxSpeed: real, minSpeed: real, maxAccel: real,
    maxYawrate: real, maxDyawrate: real, radius: real,
    limitSpeed: real, limitYawrate: real, predictTime: real,
    speedGain: real, omegaGain: real)

  /** The stepped loops over time, v and omega only end when their steps are positive. */
  predicate PositiveSteps(p: Params)
  {
    p.dt > 0.0 && p.dv > 0.0 && p.dyaw > 0.0
  }

  /** struct Status: a pose with its current velocities. */
  datatype Status = Status(x: real, y: real, yaw: real, v: real, omega: real)

  /** struct Speed: a velocity command. */
  datatype Speed = Speed(v: real, omega: real)

  /** struct Dw: a window of admissible velocities. */
  datatype Dw = Dw(minV: real, maxV: real, minOmega: real, maxOmega: real)

  /** The trigonometric functions of the C library, left uninterpreted. */
  datatype Geometry = Geometry(cos: real -> real, sin: real -> real)

  function Max(a: real, b: real): (m: real)
    ensures m >= a && m >= b && (m == a || m == b)
  {
    if a >= b then a else b
  }

  function Min(a: real, b: real): (m: real)
    ensures m <= a && m <= b && (m == a || m == b)
  {
    if a <= b then a else b
  }

  /** The static window: the speed and turn-rate limits. */
  function StaticWindow(p: Params): Dw
  {
    Dw(p.minSpeed, p.limitSpeed, -p.limitYawrate, p.limitYawrate)
  }

  /** The dynamic window: the velocities reachable within one control period. */
  function ReachableWindow(p: Params, s: Status): Dw
  {
    Dw(s.v - p.maxAccel * p.dt, s.v + p.maxAccel * p.dt,
       s.omega - p.maxDyawrate * p.dt, s.omega + p.maxDyawrate * p.dt)
  }

  /** A window lies inside another. */
  predicate Inside(inner: Dw, outer: Dw)
  {
    outer.minV <= inner.minV && inner.maxV <= outer.maxV
    && outer.minOmega <= inner.minOmega && inner.maxOmega <= outer.maxOmega
  }

  /** A command lies in a window. */
  predicate InWindow(c: Speed, w: Dw)
  {
    w.minV <= c.v <= w.maxV && w.minOmega <= c.omega <= w.maxOmega
  }

  /**
   * calc_dynamic_window: the intersection of the static and the reachable
   * window. Each bound is the tighter of the two, so the result lies inside
   * both, and a command lies in it exactly when it lies in both.
   */
  function CalcDynamicWindow(p: Params, s: Status): (dw: Dw)
    ensures Inside(dw, StaticWindow(p)) && Inside(dw, ReachableWindow(p, s))
    ensures dw.minV == StaticWindow(p).minV || dw.minV == ReachableWindow(p, s).minV
    ensures dw.maxV == StaticWindow(p).maxV || dw.maxV == ReachableWindow(p, s).maxV
    ensures dw.minOmega == StaticWindow(p).minOmega || dw.minOmega == ReachableWindow(p, s).minOmega
    ensures dw.maxOmega == StaticWindow(p).maxOmega || dw.maxOmega == ReachableWindow(p, s).maxOmega
    ensures forall c :: InWindow(c, dw) <==> InWindow(c, StaticWindow(p)) && InWindow(c, ReachableWindow(p, s))
  {
    var vs := StaticWindow(p);
    var vd := ReachableWindow(p, s);
    Dw(Max(vs.minV, vd.minV), Min(vs.maxV, vd.maxV), Max(vs.minOmega, vd.minOmega), Min(vs.maxOmega, vd.maxOmega))
  }

  /**
   * When the robot's own velocities are within the static limits and the
   * acceleration limits are not negative, the current command is in the window.
   */
  lemma CurrentSpeedInWindow(p: Params, s: Status)
    requires p.dt >= 0.0 && p.maxAccel >= 0.0 && p.maxDyawrate >= 0.0
    requires InWindow(Speed(s.v, s.omega), StaticWindow(p))
    ensures InWindow(Speed(s.v, s.omega), CalcDynamicWindow(p, s))
  {
    assert p.maxAccel * p.dt >= 0.0;
    assert p.maxDyawrate * p.dt >= 0.0;
  }

  /**
   * motion: turn by omega * dt (wrapped once), then advance v * dt along the
   * new heading; the commanded velocities become the state's velocities.
   */
  function Motion(geo: Geometry, p: Params, s: Status, v: real, omega: real): (r: Status)
    ensures r.v == v && r.omega == omega
    ensures r.yaw == AngleRange(s.yaw + omega * p.dt)
  {
    var yaw := AngleRange(s.yaw + omega * p.dt);
    Status(s.x + v * geo.cos(yaw) * p.dt, s.y + v * geo.sin(yaw) * p.dt, yaw, v, omega)
  }

  /** A heading in [-PI, PI] stays there after a turn of at most 2PI. */
  lemma MotionKeepsYawInRange(geo: Geometry, p: Params, s: Status, v: real, omega: real)
    requires -PI <= s.yaw <= PI && -2.0 * PI <= omega * p.dt <= 2.0 * PI
    ensures -PI <= Motion(geo, p, s, v, omega).yaw <= PI
  {
  }

  /** The all-zero state every simulated trajectory starts from. */
  const Origin: Status := Status(0.0, 0.0, 0.0, 0.0, 0.0)

  /**
   * The number of values x, x + step, x + 2 step, ... that are at most hi:
   * the measure by which the planner's real-valued stepping loops terminate.
   */
  function Remaining(x: real, hi: real, step: real): int
    requires step > 0.0
  {
    if x <= hi then ((hi - x) / step).Floor + 1 else 0
  }

  /** Each step uses up one of the values remaining. */
  lemma RemainingDecreases(x: real, hi: real, step: real)
    requires step > 0.0 && x <= hi
    ensures 0 <= Remaining(x + step, hi, step) < Remaining(x, hi, step)
  {
    var q := (hi - x) / step;
    assert q * step == hi - x;
    assert (q - 1.0) * step == hi - (x + step);
    var q' := (hi - (x + step)) / step;
    assert q' * step == hi - (x + step);
    assert (q' - (q - 1.0)) * step == 0.0;
    ZeroProduct(q' - (q - 1.0), step);
    assert (q - 1.0).Floor == q.Floor - 1;
  }

  lemma PositiveProduct(a: real, b: real)
    requires a > 0.0 && b > 0.0
    ensures a * b > 0.0
  {
  }

  lemma NonNegativeProduct(a: real, b: real)
    requires a >= 0.0 && b >= 0.0
    ensures a * b >= 0.0
  {
    if a > 0.0 && b > 0.0 {
      PositiveProduct(a, b);
    }
  }

  lemma ZeroProduct(a: real, b: real)
    requires a * b == 0.0 && b > 0.0
    ensures a == 0.0
  {
    if a > 0.0 {
      PositiveProduct(a, b);
    } else if a < 0.0 {
      PositiveProduct(-a, b);
    }
  }

  /** The simulated time after k steps of dt from t. */
  function TimeAt(t: real, k: int, dt: real): real
  {
    t + k as real * dt
  }

  /**
   * The trajectory the simulation loop records from time t and state s:
   * while t is below the horizon, s is recorded and one motion step taken;
   * the state reached at the end is recorded last.
   */
  function RolloutFrom(geo: Geometry, p: Params, s: Status, t: real, v: real, omega: real): seq<Status>
    requires p.dt > 0.0
    decreases Remaining(t, p.predictTime, p.dt)
  {
    if t < p.predictTime then
      RemainingDecreases(t, p.predictTime, p.dt);
      [s] + RolloutFrom(geo, p, Motion(geo, p, s, v, omega), t + p.dt, v, omega)
    else [s]
  }

  /** The trajectory of command (v, omega): the simulation from the origin at time 0. */
  function Rollout(geo: Geometry, p: Params, v: real, omega: real): (r: seq<Status>)
    requires p.dt > 0.0
    ensures |r| >= 1 && r[0] == Origin
  {
    RolloutFromShape(geo, p, Origin, 0.0, v, omega);
    RolloutFrom(geo, p, Origin, 0.0, v, omega)
  }

  /**
   * The shape of a rollout from (s, t): it starts with s, each entry is one
   * motion step from the one before, and it holds one entry more than the
   * number n of steps, where n is the first count with t + n * dt at or
   * beyond the horizon.
   */
  lemma {:induction false} RolloutFromShape(geo: Geometry, p: Params, s: Status, t: real, v: real, omega: real)
    requires p.dt > 0.0
    ensures var r := RolloutFrom(geo, p, s, t, v, omega);
      && |r| >= 1 && r[0] == s
      && (forall k :: 0 <= k < |r| - 1 ==> r[k + 1] == Motion(geo, p, r[k], v, omega))
      && (forall k :: 0 <= k < |r| - 1 ==> TimeAt(t, k, p.dt) < p.predictTime)
      && TimeAt(t, |r| - 1, p.dt) >= p.predictTime
    decreases Remaining(t, p.predictTime, p.dt)
  {
    var r := RolloutFrom(geo, p, s, t, v, omega);
    if t < p.predictTime {
      RemainingDecreases(t, p.predictTime, p.dt);
      var s' := Motion(geo, p, s, v, omega);
      var rest := RolloutFrom(geo, p, s', t + p.dt, v, omega);
      RolloutFromShape(geo, p, s', t + p.dt, v, omega);
      assert r == [s] + rest;
      forall k | 0 <= k < |r| - 1
        ensures r[k + 1] == Motion(geo, p, r[k], v, omega)
      {
        if k > 0 {
          assert r[k + 1] == rest[k] && r[k] == rest[k - 1];
        }
      }
      forall k | 0 <= k < |r| - 1
        ensures TimeAt(t, k, p.dt) < p.predictTime
      {
        if k > 0 {
          assert TimeAt(t + p.dt, k - 1, p.dt) < p.predictTime;
        }
      }
      assert TimeAt(t + p.dt, |rest| - 1, p.dt) >= p.predictTime;
    }
  }

  /**
   * calc_l_traj's result: the origin first, the final simulated state last,
   * one entry more than the number of motion steps, and every entry after
   * the first carrying the commanded velocities.
   */
  lemma RolloutShape(geo: Geometry, p: Params, v: real, omega: real)
    requires p.dt > 0.0
    ensures var r := Rollout(geo, p, v, omega);
      && |r| >= 1 && r[0] == Origin
      && (forall k :: 0 <= k < |r| - 1 ==> r[k + 1] == Motion(geo, p, r[k], v, omega))
      && (forall k :: 0 <= k < |r| - 1 ==> TimeAt(0.0, k, p.dt) < p.predictTime)
      && TimeAt(0.0, |r| - 1, p.dt) >= p.predictTime
      && (p.predictTime > 0.0 <==> |r| > 1)
      && (forall k :: 0 < k < |r| ==> r[k].v == v && r[k].omega == omega)
  {
    RolloutFromShape(geo, p, Origin, 0.0, v, omega);
    var r := Rollout(geo, p, v, omega);
    forall k | 0 < k < |r|
      ensures r[k].v == v && r[k].omega == omega
    {
      assert r[k] == Motion(geo, p, r[k - 1], v, omega);
    }
  }

  /**
   * calc_l_traj: the trajectory vector is cleared, then the state is
   * recorded before each motion step while t < predict_time, and once more
   * at the end.
   */
  method CalcLTraj(geo: Geometry, p: Params, v: real, omega: real) returns (traj: seq<Status>)
    requires p.dt > 0.0
    ensures traj == Rollout(geo, p, v, omega)
  {
    ghost var whole := Rollout(geo, p, v, omega);
    var roomba := Origin;
    traj := [];
    var t := 0.0;
    while t < p.predictTime
      invariant traj + RolloutFrom(geo, p, roomba, t, v, omega) == whole
      decreases Remaining(t, p.predictTime, p.dt)
    {
      RemainingDecreases(t, p.predictTime, p.dt);
      var next := Motion(geo, p, roomba, v, omega);
      ghost var rest := RolloutFrom(geo, p, next, t + p.dt, v, omega);
      assert RolloutFrom(geo, p, roomba, t, v, omega) == [roomba] + rest;
      assert traj + ([roomba] + rest) == (traj + [roomba]) + rest;
      traj := traj + [roomba];
      roomba := next;
      t := t + p.dt;
    }
    assert RolloutFrom(geo, p, roomba, t, v, omega) == [roomba];
    traj := traj + [roomba];
  }

  /** calc_speed_cost: weighted shortfall from the top speed plus the weighted turn rate, of the last state. */
  function SpeedCost(p: Params, traj: seq<Status>): real
    requires |traj| > 0
  {
    var last := traj[|traj| - 1];
    p.speedGain * (p.maxSpeed - last.v) + p.omegaGain * Abs(last.omega)
  }

  /**
   * The speed cost of a command's trajectory depends only on the command when
   * the horizon is positive, and is that of the origin state otherwise.
   */
  lemma SpeedCostOfCommand(geo: Geometry, p: Params, v: real, omega: real)
    requires p.dt > 0.0
    ensures p.predictTime > 0.0 ==>
      SpeedCost(p, Rollout(geo, p, v, omega)) == p.speedGain * (p.maxSpeed - v) + p.omegaGain * Abs(omega)
    ensures p.predictTime <= 0.0 ==>
      SpeedCost(p, Rollout(geo, p, v, omega)) == p.speedGain * p.maxSpeed
  {
    RolloutShape(geo, p, v, omega);
    var r := Rollout(geo, p, v, omega);
    var last := r[|r| - 1];
    if p.predictTime > 0.0 {
      assert last.v == v && last.omega == omega;
    } else {
      assert |r| == 1 && last == Origin;
      assert Abs(last.omega) == 0.0;
    }
  }

  /** With a non-negative speed gain, a faster command with the same turn rate never costs more. */
  lemma SpeedCostFasterCheaper(geo: Geometry, p: Params, v1: real, v2: real, omega: real)
    requires p.dt > 0.0 && p.predictTime > 0.0
    requires p.speedGain >= 0.0 && v1 <= v2
    ensures SpeedCost(p, Rollout(geo, p, v2, omega)) <= SpeedCost(p, Rollout(geo, p, v1, omega))
  {
    SpeedCostOfCommand(geo, p, v1, omega);
    SpeedCostOfCommand(geo, p, v2, omega);
    ScaleMonotone(p.speedGain, p.maxSpeed - v2, p.maxSpeed - v1);
    SumOrder(p.speedGain * (p.maxSpeed - v2), p.speedGain * (p.maxSpeed - v1), p.omegaGain * Abs(omega),
      SpeedCost(p, Rollout(geo, p, v2, omega)), SpeedCost(p, Rollout(geo, p, v1, omega)));
  }

  /** With a non-negative turn gain, a straight command never costs more than a turning one of the same speed. */
  lemma SpeedCostStraightCheaper(geo: Geometry, p: Params, v: real, omega: real)
    requires p.dt > 0.0 && p.predictTime > 0.0
    requires p.omegaGain >= 0.0
    ensures SpeedCost(p, Rollout(geo, p, v, 0.0)) <= SpeedCost(p, Rollout(geo, p, v, omega))
  {
    SpeedCostOfCommand(geo, p, v, omega);
    SpeedCostOfCommand(geo, p, v, 0.0);
    NonNegativeProduct(p.omegaGain, Abs(omega));
    assert Abs(0.0) == 0.0;
    assert p.omegaGain * Abs(0.0) == 0.0;
  }

  lemma SumOrder(a: real, b: real, w: real, x: real, y: real)
    requires a <= b && x == a + w && y == b + w
    ensures x <= y
  {
  }

  lemma ScaleMonotone(g: real, a: real, b: real)
    requires g >= 0.0 && a <= b
    ensures g * a <= g * b
  {
    NonNegativeProduct(g, b - a);
    assert g * b == g * a + g * (b - a);
  }
}
