/**
 * calc_to_g_path_cost: find the global path point nearest the robot, look
 * (int)predict_time points further along the path (cyclically) and charge
 * the heading cost of reaching that point. The heading cost itself
 * (calc_to_g_goal_cost: a frame transform with atan and trigonometry) is a
 * parameter of the model.
 */
module DwaPathCost {
  import opened Wrappers
  import opened DwaModel

  /** A pose of the global path, by its position (its orientation is never used). */
  datatype PathPoint = PathPoint(x: real, y: real)

  /** The heading cost of a trajectory from the robot's global state towards a target point. */
  type ToGoalCost = (seq<Status>, Status, PathPoint) -> real

  /**
   * Squared planar distance from the robot to a path point. The source
   * compares square roots; the square root is monotone, so the comparisons
   * have the same outcome on the squares.
   */
  function SqDistTo(robot: Status, q: PathPoint): (d: real)
    ensures d >= 0.0
  {
    (q.x - robot.x) * (q.x - robot.x) + (q.y - robot.y) * (q.y - robot.y)
  }

  function DistancesTo(robot: Status, path: seq<PathPoint>): (d: seq<real>)
    ensures |d| == |path|
    ensures forall k :: 0 <= k < |path| ==> d[k] == SqDistTo(robot, path[k])
  {
    seq(|path|, k requires 0 <= k < |path| => SqDistTo(robot, path[k]))
  }

  /** The initial "nearest distance" 10000.0, squared. */
  const NoneNearer: real := 100000000.0

  /** The running minimum of the scan: an index and its distance. */
  datatype Best = Best(index: nat, dist: real)

  /**
   * The nearest-point scan over the distances d: an entry replaces the
   * running best only when it is strictly smaller, starting from index 0 at
   * distance NoneNearer. The result is the first entry below NoneNearer that
   * no entry undercuts; when no entry is below NoneNearer, index 0 is kept.
   */
  function Nearest(d: seq<real>): (b: Best)
    ensures b.dist <= NoneNearer
    ensures forall j :: 0 <= j < |d| ==> b.dist <= d[j]
    ensures || (b.dist == NoneNearer && b.index == 0 && (forall j :: 0 <= j < |d| ==> d[j] >= NoneNearer))
            || (b.index < |d| && b.dist == d[b.index] && b.dist < NoneNearer
                && (forall j :: 0 <= j < b.index ==> b.dist < d[j]))
  {
    if |d| == 0 then Best(0, NoneNearer)
    else
      var b := Nearest(d[..|d| - 1]);
      assert forall j :: 0 <= j < |d| - 1 ==> d[..|d| - 1][j] == d[j];
      if b.dist > d[|d| - 1] then Best(|d| - 1, d[|d| - 1]) else b
  }

  /** The index the nearest point is taken to be: in range for a non-empty path. */
  lemma NearestInRange(d: seq<real>)
    requires |d| > 0
    ensures Nearest(d).index < |d|
  {
  }

  /** The first loop of calc_to_g_path_cost: the index of the nearest path point. */
  method NearestPathPoint(robot: Status, path: seq<PathPoint>) returns (nearest: nat)
    ensures nearest == Nearest(DistancesTo(robot, path)).index
  {
    ghost var d := DistancesTo(robot, path);
    var nearestDist := NoneNearer;
    nearest := 0;
    for i := 0 to |path|
      invariant Nearest(d[..i]) == Best(nearest, nearestDist)
    {
      var dist := SqDistTo(robot, path[i]);
      assert d[..i + 1][..i] == d[..i];
      if nearestDist > dist {
        nearestDist := dist;
        nearest := i;
      }
    }
    assert d[..|path|] == d;
  }

  /** The C++ (int) conversion of a double: truncation toward zero. */
  function TruncToInt(x: real): (r: int)
    ensures x >= 0.0 ==> 0 <= r && r as real <= x < r as real + 1.0
    ensures x < 0.0 ==> r <= 0 && r as real - 1.0 < x <= r as real
  {
    if x >= 0.0 then x.Floor else -((-x).Floor)
  }

  /** 2 to the 64: the look-ahead sum is converted to the unsigned size type. */
  const SizeTypeRange: int := 0x1_0000_0000_0000_0000

  /**
   * The look-ahead index (nearest + (int)predict_time) % size. The sum is an
   * int that is converted to the unsigned 64-bit size type before the
   * remainder, so a negative sum wraps around. There is no index for an
   * empty path: the remainder would divide by zero.
   */
  function LookAheadIndex(nearest: int, predictTime: real, size: nat): (r: Option<nat>)
    ensures r.None? <==> size == 0
    ensures r.Some? ==> r.value < size
  {
    if size == 0 then None
    else Some(((nearest + TruncToInt(predictTime)) % SizeTypeRange) % size)
  }

  /** For a sum that needs no wrap-around, the look-ahead is the sum, cyclically. */
  lemma LookAheadCyclic(nearest: nat, predictTime: real, size: nat)
    requires size > 0 && predictTime >= 0.0
    requires nearest + TruncToInt(predictTime) < SizeTypeRange
    ensures LookAheadIndex(nearest, predictTime, size) == Some((nearest + predictTime.Floor) % size)
  {
  }

  /** A whole-number horizon of one full lap of the path looks at the nearest point itself. */
  lemma LookAheadFullLap(nearest: nat, size: nat)
    requires 0 < size && nearest < size && 2 * size <= SizeTypeRange
    ensures LookAheadIndex(nearest, size as real, size) == Some(nearest)
  {
    assert TruncToInt(size as real) == size;
    SmallRemainder(nearest + size, SizeTypeRange);
    RemainderAfterLap(nearest, size);
  }

  lemma RemainderAfterLap(a: int, b: int)
    requires 0 <= a < b
    ensures (a + b) % b == a
  {
    SmallRemainder(a, b);
    assert a % b == (a + b) % b;
  }

  lemma SmallRemainder(a: int, b: int)
    requires 0 <= a < b
    ensures a % b == a
  {
  }

  /**
   * A horizon that takes the sum below zero wraps around the unsigned range:
   * the index is that of the sum plus 2 to the 64.
   */
  lemma LookAheadNegativeWraps(nearest: nat, predictTime: real, size: nat)
    requires size > 0
    requires -SizeTypeRange <= nearest + TruncToInt(predictTime) < 0
    ensures LookAheadIndex(nearest, predictTime, size)
         == Some((SizeTypeRange + nearest + TruncToInt(predictTime)) % size)
  {
    var s := nearest + TruncToInt(predictTime);
    SmallRemainder(s + SizeTypeRange, SizeTypeRange);
    assert s % SizeTypeRange == (s + SizeTypeRange) % SizeTypeRange;
  }

  /** The path point the heading cost aims at; none for an empty path. */
  function LookAheadPoint(robot: Status, predictTime: real, path: seq<PathPoint>): (q: Option<PathPoint>)
    ensures q.None? <==> |path| == 0
    ensures q.Some? ==> q.value in path
  {
    match LookAheadIndex(Nearest(DistancesTo(robot, path)).index, predictTime, |path|)
    case None => None
    case Some(k) => Some(path[k])
  }

  /** The path cost of a trajectory: the heading cost towards the look-ahead point. */
  function PathCost(toGoal: ToGoalCost, p: Params, traj: seq<Status>, robot: Status, path: seq<PathPoint>): real
    requires |path| > 0
  {
    toGoal(traj, robot, LookAheadPoint(robot, p.predictTime, path).value)
  }

  /**
   * calc_to_g_path_cost. The source takes the remainder by the path size
   * without a check, so callers must supply a non-empty path.
   */
  method CalcToGPathCost(toGoal: ToGoalCost, p: Params, traj: seq<Status>, robot: Status, path: seq<PathPoint>)
    returns (cost: real)
    requires |path| > 0
    ensures cost == PathCost(toGoal, p, traj, robot, path)
  {
    var nearest := NearestPathPoint(robot, path);
    var next := ((nearest + TruncToInt(p.predictTime)) % SizeTypeRange) % |path|;
    cost := toGoal(traj, robot, path[next]);
  }
}
