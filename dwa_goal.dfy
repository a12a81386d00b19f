/**
 * is_goal: the goal-mode code sent to the robot, 0 when it stands within
 * its radius of the goal with its heading within PI/90 of the goal's, and
 * 11 otherwise.
 */
module DwaGoal {
  import opened Angles
  import opened DwaModel

  /** struct Position: a planar pose. */
  datatype Position = Position(x: real, y: real, yaw: real)

  const Reached: int := 0
  const NotReached: int := 11

  /** The heading tolerance: two degrees. */
  const YawTolerance: real := PI / 90.0

  /**
   * The planar distance to the goal is at most the robot's radius. The
   * source compares a square root with the radius: that holds exactly when
   * the radius is not negative and the squared distance is at most its square.
   */
  predicate WithinRadius(p: Params, robot: Status, goal: Position)
  {
    var dx := goal.x - robot.x;
    var dy := goal.y - robot.y;
    p.radius >= 0.0 && dx * dx + dy * dy <= p.radius * p.radius
  }

  /** is_goal as written: the heading error is compared signed, without its magnitude. */
  function IsGoalAsWritten(p: Params, robot: Status, goal: Position): (mode: int)
    ensures mode == Reached || mode == NotReached
  {
    if WithinRadius(p, robot, goal) && goal.yaw - robot.yaw < YawTolerance then Reached else NotReached
  }

  /**
   * As written, any negative heading error passes the heading test: a robot
   * on the goal position turned a quarter turn past the goal heading is
   * reported as arrived, although its heading is PI/2 off.
   */
  lemma IsGoalAsWrittenAcceptsMisaligned(p: Params)
    requires p.radius >= 0.0
    ensures var robot := Status(0.0, 0.0, PI / 2.0, 0.0, 0.0);
      var goal := Position(0.0, 0.0, 0.0);
      && IsGoalAsWritten(p, robot, goal) == Reached
      && Abs(AngleRange(goal.yaw - robot.yaw)) >= YawTolerance
  {
  }

  /**
   * A heading error is within the tolerance once wrapped into [-PI, PI] and
   * taken in magnitude, as calc_to_g_goal_cost treats its heading error.
   */
  predicate HeadingAligned(error: real)
  {
    Abs(AngleRange(error)) < YawTolerance
  }

  /** is_goal with the heading error wrapped and taken in magnitude. */
  function IsGoal(p: Params, robot: Status, goal: Position): (mode: int)
    ensures mode == Reached || mode == NotReached
  {
    if WithinRadius(p, robot, goal) && HeadingAligned(goal.yaw - robot.yaw) then Reached else NotReached
  }

  /**
   * For a heading error in [-PI, PI] the corrected test accepts only robots
   * that the test as written accepts too, and the two differ exactly on the
   * robots within the radius whose heading error is at or below -PI/90.
   */
  lemma IsGoalStricterThanAsWritten(p: Params, robot: Status, goal: Position)
    requires -PI <= goal.yaw - robot.yaw <= PI
    ensures IsGoal(p, robot, goal) == Reached ==> IsGoalAsWritten(p, robot, goal) == Reached
    ensures IsGoalAsWritten(p, robot, goal) == Reached && IsGoal(p, robot, goal) == NotReached
      <==> WithinRadius(p, robot, goal) && goal.yaw - robot.yaw <= -YawTolerance
  {
  }

  /** The corrected test does not depend on the side the robot's heading is off to. */
  lemma IsGoalSymmetric(p: Params, robot: Status, goal: Position)
    ensures IsGoal(p, robot.(yaw := goal.yaw), goal.(yaw := robot.yaw)) == IsGoal(p, robot, goal)
  {
    AngleRangeOdd(goal.yaw - robot.yaw);
    assert robot.yaw - goal.yaw == -(goal.yaw - robot.yaw);
  }

  /** Headings a full turn apart count as the same heading. */
  lemma HeadingAlignedFullTurn(error: real)
    requires -PI <= error <= PI
    ensures HeadingAligned(error + 2.0 * PI) == HeadingAligned(error)
  {
  }

  /** A robot on the goal pose has arrived exactly when the radius is not negative. */
  lemma IsGoalAtGoal(p: Params, robot: Status)
    ensures IsGoal(p, robot, Position(robot.x, robot.y, robot.yaw)) == Reached <==> p.radius >= 0.0
  {
    assert AngleRange(0.0) == 0.0;
  }

  /** The quarter-turn misalignment accepted as written is rejected once corrected. */
  lemma IsGoalRejectsMisaligned(p: Params)
    ensures IsGoal(p, Status(0.0, 0.0, PI / 2.0, 0.0, 0.0), Position(0.0, 0.0, 0.0)) == NotReached
  {
  }
}
