/** Angles in radians, as used by both planners. */
module Angles {

  /** The value of M_PI as a decimal literal. */
  const PI: real := 3.141592653589793

  /**
   * angle_range: a single conditional correction by one full turn.
   * Inputs within three half-turns of zero end in [-PI, PI]; inputs already there are kept.
   */
  function AngleRange(theta: real): (r: real)
    ensures r == theta || r == theta - 2.0 * PI || r == theta + 2.0 * PI
    ensures -3.0 * PI <= theta <= 3.0 * PI ==> -PI <= r <= PI
    ensures -PI <= theta <= PI ==> r == theta
  {
    if theta > PI then theta - 2.0 * PI
    else if theta < -PI then theta + 2.0 * PI
    else theta
  }

  /** Applying the correction twice gives the same angle as applying it once, for inputs in [-3PI, 3PI]. */
  lemma AngleRangeIdempotent(theta: real)
    requires -3.0 * PI <= theta <= 3.0 * PI
    ensures AngleRange(AngleRange(theta)) == AngleRange(theta)
  {
  }

  /** Outside [-3PI, 3PI] one correction is not enough: the result stays outside [-PI, PI]. */
  lemma AngleRangeSingleCorrection(theta: real)
    requires theta > 3.0 * PI || theta < -3.0 * PI
    ensures AngleRange(theta) > PI || AngleRange(theta) < -PI
  {
  }

  /** The correction is odd: a reversed angle is corrected to the reversed result. */
  lemma AngleRangeOdd(theta: real)
    ensures AngleRange(-theta) == -AngleRange(theta)
  {
  }

  function Abs(x: real): (r: real)
    ensures r >= 0.0 && (r == x || r == -x)
  {
    if x < 0.0 then -x else x
  }
}
