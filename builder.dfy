/**
 * The `TripBuilder` class: the constructor walks the waypoints, and
 * `MoveTo` / `TurnTo` grow the keyframe list and the accumulated time in
 * place.  Each method is proved to do exactly what the matching function of
 * module Keyframes describes, and to keep the keyframe invariant.
 */
module Builder {
  import opened Wrappers
  import opened Turf
  import opened Keyframes
  import Sampler

  /** The input record: the entity's identity and its `[lon, lat, alt]` coordinates. */
  datatype Waypoints = Waypoints(name: string, flag: string, color: seq<real>, model: string, coords: seq<Point>)

  class TripBuilder {
    const prims: Primitives
    const name: string
    const flag: string
    const color: seq<real>
    const model: string
    const speed: real
    const turnSpeed: real
    const loop: bool
    var keyframes: seq<Keyframe>
    var totalTime: real

    ghost predicate Valid()
      reads this
    {
      Sound(prims) && WellFormed(prims, speed, keyframes, totalTime)
    }

    /** The state the methods change, as a value. */
    function State(): Track
      reads this
    {
      Track(keyframes, totalTime)
    }

    /** Speed in meters per second and turn speed in degrees per second, with the source's defaults. */
    constructor (prims: Primitives, waypoints: Waypoints, speed: real := 10.0, turnSpeed: real := 45.0, loop: bool := false)
      requires Sound(prims) && speed > 0.0
      ensures Valid()
      ensures this.prims == prims && this.speed == speed && this.turnSpeed == turnSpeed && this.loop == loop
      ensures name == waypoints.name && flag == waypoints.flag && color == waypoints.color && model == waypoints.model
      ensures State() == Built(prims, speed, waypoints.coords, loop)
    {
      this.prims := prims;
      name := waypoints.name;
      flag := waypoints.flag;
      color := waypoints.color;
      model := waypoints.model;
      keyframes := [];
      this.speed := speed;
      this.turnSpeed := turnSpeed;
      this.loop := loop;
      totalTime := 0.0;
      new;
      var coords := waypoints.coords;
      for k := 0 to |coords|
        invariant Valid()
        invariant State() == MovedThrough(prims, speed, EmptyTrack, coords[..k])
      {
        assert coords[..k + 1][..k] == coords[..k];
        MoveTo(coords[k]);
      }
      assert coords[..|coords|] == coords;
      if loop && |coords| > 2 {
        MoveTo(coords[0]);
        TurnTo(keyframes[0].heading);
      }
    }

    /** `_moveTo(point)`. */
    method MoveTo(point: Point)
      requires Valid()
      modifies this
      ensures Valid()
      ensures State() == MovedTo(prims, speed, old(State()), point)
    {
      MovedToWellFormed(prims, speed, State(), point);
      if |keyframes| == 0 {
        keyframes := keyframes + [Keyframe(point, None, 0.0)];
        return;
      }
      var prevKeyframe := keyframes[|keyframes| - 1];
      var distance := DistanceMeters(prims, prevKeyframe.point, point);
      var heading := Bearing(prims, prevKeyframe.point, point);
      if distance < MinMoveMeters {
        return;
      }
      if prevKeyframe.heading.None? {
        keyframes := keyframes[|keyframes| - 1 := prevKeyframe.(heading := Some(heading))];
      } else {
        TurnTo(Some(heading));
      }
      var duration := distance / speed;
      totalTime := totalTime + duration;
      keyframes := keyframes + [Keyframe(point, Some(heading), totalTime)];
    }

    /** `_turnTo(heading)`; the constructor may pass keyframe 0's still undefined heading. */
    method TurnTo(heading: Option<real>)
      requires Valid() && |keyframes| > 0
      requires heading.Some? ==> Headings.IsHeading(heading.value)
      modifies this
      ensures Valid()
      ensures State() == TurnedTo(old(State()), heading)
    {
      TurnedToWellFormed(prims, speed, State(), heading);
      var prevKeyframe := keyframes[|keyframes| - 1];
      if prevKeyframe.heading.Some? && heading.Some?
         && Abs(Headings.TurnAngle(prevKeyframe.heading.value, heading.value)) > 0.0
      {
        var duration := TurnDuration;
        totalTime := totalTime + duration;
        keyframes := keyframes + [Keyframe(prevKeyframe.point, heading, totalTime)];
      }
    }

    /** The built trip as the sampler sees it. */
    function Trip(): Sampler.Trip
      reads this
    {
      Sampler.Trip(Sampler.Identity(name, flag, color, model), keyframes, totalTime, loop)
    }

    /** `getFrame(timestamp)`: reads the fields, changes nothing. */
    function GetFrame(timestamp: real): (r: Result<Sampler.Frame, Sampler.FrameError>)
      reads this
      requires Valid()
      ensures r.Ok? ==> && r.value.name == name && r.value.flag == flag
                        && r.value.color == color && r.value.model == model
      ensures r.Ok? <==> Sampler.Defined(Trip(), timestamp)
    {
      Sampler.WellFormedSampleable(prims, speed, Trip());
      Sampler.FrameDefinedIff(prims, speed, Trip(), timestamp);
      Sampler.GetFrame(prims, Trip(), timestamp)
    }
  }
}
