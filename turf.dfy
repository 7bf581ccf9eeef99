/**
 * The geometry the trip builder borrows from turf: rhumb-line distance and
 * bearing between two positions, and the `atan2` used for pitch.  Their
 * internals are not modelled; a trip is built against any `Primitives`
 * value, and `Sound` states the two facts the model relies on.
 */
module Turf {
  import Headings

  /** A waypoint `[longitude, latitude, altitude]`. */
  datatype Point = Point(lon: real, lat: real, alt: real)

  /** The part of a point turf looks at: rhumb computations ignore altitude. */
  datatype LonLat = LonLat(lon: real, lat: real)

  function Horizontal(p: Point): LonLat {
    LonLat(p.lon, p.lat)
  }

  /**
   * `rhumbDistanceKm` is `@turf/rhumb-distance` called with
   * `{units: 'kilometers'}`, `rhumbBearing` is `@turf/rhumb-bearing`, and
   * `atan2Degrees(y, x)` is `Math.atan2(y, x)` converted to degrees.
   */
  datatype Primitives = Primitives(
    rhumbDistanceKm: (LonLat, LonLat) -> real,
    rhumbBearing: (LonLat, LonLat) -> real,
    atan2Degrees: (real, real) -> real)

  /** Distances are never negative and bearings lie in (-180, 180]. */
  ghost predicate Sound(prims: Primitives) {
    && (forall a, b :: prims.rhumbDistanceKm(a, b) >= 0.0)
    && (forall a, b :: Headings.IsHeading(prims.rhumbBearing(a, b)))
  }

  /** Horizontal distance in meters, as trip-builder.js computes it (kilometers times 1000). */
  function DistanceMeters(prims: Primitives, p: Point, q: Point): (d: real)
    ensures Sound(prims) ==> d >= 0.0
  {
    prims.rhumbDistanceKm(Horizontal(p), Horizontal(q)) * 1000.0
  }

  /** Bearing from `p` to `q` in degrees. */
  function Bearing(prims: Primitives, p: Point, q: Point): (b: real)
    ensures Sound(prims) ==> Headings.IsHeading(b)
  {
    prims.rhumbBearing(Horizontal(p), Horizontal(q))
  }
}
