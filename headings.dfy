/** Compass headings and the signed turn between two of them. */
module Headings {
  /** A heading as turf's rhumb bearing reports it. */
  predicate IsHeading(h: real) {
    -180.0 < h <= 180.0
  }

  /**
   * The signed turn from `startHeading` to `endHeading`: the raw difference,
   * corrected once by a full circle when it lies outside [-180, 180].
   */
  function TurnAngle(startHeading: real, endHeading: real): (angle: real)
    // the result differs from the raw difference by a whole number of turns (0 or one)
    ensures angle == endHeading - startHeading
         || angle == endHeading - startHeading + 360.0
         || angle == endHeading - startHeading - 360.0
    // a turn that is already short is left alone
    ensures -180.0 <= endHeading - startHeading <= 180.0 ==> angle == endHeading - startHeading
    // one correction suffices while the raw difference is within one and a half turns
    ensures -540.0 <= endHeading - startHeading <= 540.0 ==> -180.0 <= angle <= 180.0
  {
    var raw := endHeading - startHeading;
    var once := if raw < -180.0 then raw + 360.0 else raw;
    if once > 180.0 then once - 360.0 else once
  }

  /** Turning from b to a is the mirror image of turning from a to b, for every pair. */
  lemma TurnAngleAntisymmetric(a: real, b: real)
    ensures TurnAngle(a, b) == -TurnAngle(b, a)
  {
  }

  /** Between two headings the turn is the shorter arc: at most half a circle. */
  lemma TurnAngleOfHeadings(a: real, b: real)
    requires IsHeading(a) && IsHeading(b)
    ensures -180.0 <= TurnAngle(a, b) <= 180.0
    ensures TurnAngle(a, b) == 0.0 <==> a == b
  {
  }
}
