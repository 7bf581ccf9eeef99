/**
 * Keyframe synthesis of trip-builder.js as functions on values: what one
 * `_moveTo` or `_turnTo` does to the keyframe list and the accumulated time,
 * what the constructor builds from a waypoint list, and the shape every
 * built keyframe list has.  The class in builder.dfy runs these steps in
 * place and is proved to agree with them.
 */
module Keyframes {
  import opened Wrappers
  import opened Turf
  import opened Headings

  /** A waypoint closer than this many meters to the previous keyframe is dropped. */
  const MinMoveMeters: real := 0.1

  /** Turns take no time: `turnSpeed` is stored by the builder but never used. */
  const TurnDuration: real := 0.0

  /** `heading` is `None` for keyframe 0 until the first real move sets it. */
  datatype Keyframe = Keyframe(point: Point, heading: Option<real>, time: real)

  /** The builder's mutable state: the keyframe list and `totalTime`. */
  datatype Track = Track(keyframes: seq<Keyframe>, totalTime: real)

  const EmptyTrack := Track([], 0.0)

  function Last(kfs: seq<Keyframe>): Keyframe
    requires |kfs| > 0
  {
    kfs[|kfs| - 1]
  }

  /** `_turnTo(heading)`: a zero-duration keyframe at the last point, when the turn is not zero. */
  function TurnedTo(t: Track, heading: Option<real>): (r: Track)
    requires |t.keyframes| > 0
    // at most one keyframe is appended and the earlier ones are kept
    ensures |t.keyframes| <= |r.keyframes| <= |t.keyframes| + 1
    ensures r.keyframes[..|t.keyframes|] == t.keyframes
    // a keyframe is appended exactly when both headings are defined and differ by a nonzero turn
    ensures |r.keyframes| > |t.keyframes| <==>
      Last(t.keyframes).heading.Some? && heading.Some?
      && TurnAngle(Last(t.keyframes).heading.value, heading.value) != 0.0
    // the turn keyframe stays at the previous point and takes no time
    ensures |r.keyframes| > |t.keyframes| ==>
      Last(r.keyframes) == Keyframe(Last(t.keyframes).point, heading, t.totalTime)
    ensures r.totalTime == t.totalTime
  {
    var prev := Last(t.keyframes);
    // an undefined heading on either side makes the JavaScript angle NaN, and `NaN > 0` is false
    if prev.heading.Some? && heading.Some? && Abs(TurnAngle(prev.heading.value, heading.value)) > 0.0 then
      var time := t.totalTime + TurnDuration;
      Track(t.keyframes + [Keyframe(prev.point, heading, time)], time)
    else
      t
  }

  function Abs(x: real): real {
    if x < 0.0 then -x else x
  }

  /** `_moveTo(point)`. */
  function MovedTo(prims: Primitives, speed: real, t: Track, point: Point): (r: Track)
    requires speed > 0.0
    ensures |r.keyframes| >= 1
    ensures |t.keyframes| <= |r.keyframes| <= |t.keyframes| + 2
  {
    if |t.keyframes| == 0 then
      Track([Keyframe(point, None, 0.0)], t.totalTime)
    else
      var prev := Last(t.keyframes);
      var distance := DistanceMeters(prims, prev.point, point);
      var heading := Bearing(prims, prev.point, point);
      if distance < MinMoveMeters then
        t
      else
        var turned :=
          if prev.heading.None? then
            Track(t.keyframes[|t.keyframes| - 1 := prev.(heading := Some(heading))], t.totalTime)
          else
            TurnedTo(t, Some(heading));
        var time := turned.totalTime + distance / speed;
        Track(turned.keyframes + [Keyframe(point, Some(heading), time)], time)
  }

  /** `_moveTo` applied to each point in order. */
  function MovedThrough(prims: Primitives, speed: real, t: Track, points: seq<Point>): (r: Track)
    requires speed > 0.0
    ensures |points| > 0 ==> |r.keyframes| > 0
    ensures |t.keyframes| <= |r.keyframes|
  {
    if |points| == 0 then t
    else MovedTo(prims, speed, MovedThrough(prims, speed, t, points[..|points| - 1]), points[|points| - 1])
  }

  /** The keyframes and total time the constructor leaves behind. */
  function Built(prims: Primitives, speed: real, coords: seq<Point>, loop: bool): (r: Track)
    requires speed > 0.0
    ensures |r.keyframes| > 0 <==> |coords| > 0
  {
    var walked := MovedThrough(prims, speed, EmptyTrack, coords);
    if loop && |coords| > 2 then
      var closed := MovedTo(prims, speed, walked, coords[0]);
      TurnedTo(closed, closed.keyframes[0].heading)
    else
      walked
  }

  // ---------------------------------------------------------------------------
  // The shape of a built keyframe list

  /** `next` is a move keyframe after `prev`: at least 0.1 m away, facing along the move, later by distance/speed. */
  ghost predicate IsMove(prims: Primitives, speed: real, prev: Keyframe, next: Keyframe) {
    var d := DistanceMeters(prims, prev.point, next.point);
    && d >= MinMoveMeters
    && next.heading == Some(Bearing(prims, prev.point, next.point))
    && speed > 0.0
    && next.time == prev.time + d / speed
  }

  /** `next` is a turn keyframe after `prev`: same point, same time, a nonzero change of heading. */
  ghost predicate IsTurn(prev: Keyframe, next: Keyframe) {
    && next.point == prev.point
    && next.time == prev.time
    && prev.heading.Some? && next.heading.Some?
    && TurnAngle(prev.heading.value, next.heading.value) != 0.0
  }

  /** Every keyframe after the first is a move or a turn from its predecessor. */
  ghost predicate Steps(prims: Primitives, speed: real, kfs: seq<Keyframe>) {
    forall i :: 1 <= i < |kfs| ==> IsMove(prims, speed, kfs[i - 1], kfs[i]) || IsTurn(kfs[i - 1], kfs[i])
  }

  /** Every defined heading is a bearing in (-180, 180]. */
  predicate HeadingsAreBearings(kfs: seq<Keyframe>) {
    forall k :: 0 <= k < |kfs| && kfs[k].heading.Some? ==> IsHeading(kfs[k].heading.value)
  }

  /** The invariant of a trip's keyframes and total time. */
  ghost predicate WellFormed(prims: Primitives, speed: real, kfs: seq<Keyframe>, totalTime: real) {
    && speed > 0.0
    && (|kfs| == 0 ==> totalTime == 0.0)
    && (|kfs| > 0 ==> kfs[0].time == 0.0 && Last(kfs).time == totalTime)
    // headings are defined everywhere as soon as there is a second keyframe, and nowhere before
    && (forall i :: 0 <= i < |kfs| ==> (kfs[i].heading.Some? <==> |kfs| >= 2))
    && HeadingsAreBearings(kfs)
    // keyframe 1 is the first move, and keyframe 0 faces along it
    && (|kfs| >= 2 ==> IsMove(prims, speed, kfs[0], kfs[1]) && kfs[0].heading == kfs[1].heading)
    && Steps(prims, speed, kfs)
  }

  ghost predicate WellFormedTrack(prims: Primitives, speed: real, t: Track) {
    WellFormed(prims, speed, t.keyframes, t.totalTime)
  }

  // ---------------------------------------------------------------------------
  // What one step does

  /** A waypoint within 0.1 m of the last keyframe changes nothing. */
  lemma DedupLeavesTrackUnchanged(prims: Primitives, speed: real, t: Track, point: Point)
    requires speed > 0.0 && |t.keyframes| > 0
    requires DistanceMeters(prims, Last(t.keyframes).point, point) < MinMoveMeters
    ensures MovedTo(prims, speed, t, point) == t
  {
  }

  /**
   * A move that is not dropped either gives the heading-less keyframe 0 its
   * heading, or appends the turn `_turnTo` makes; then it appends one move
   * keyframe, later than the old total by distance/speed.
   */
  lemma MovedToShape(prims: Primitives, speed: real, t: Track, point: Point)
    requires WellFormedTrack(prims, speed, t) && |t.keyframes| > 0
    requires DistanceMeters(prims, Last(t.keyframes).point, point) >= MinMoveMeters
    ensures var r := MovedTo(prims, speed, t, point);
            var prev := Last(t.keyframes);
            var h := Bearing(prims, prev.point, point);
            var time := t.totalTime + DistanceMeters(prims, prev.point, point) / speed;
            && r.totalTime == time
            && Last(r.keyframes) == Keyframe(point, Some(h), time)
            && (prev.heading.None? ==> r.keyframes == [prev.(heading := Some(h)), Last(r.keyframes)])
            && (prev.heading.Some? ==> r.keyframes[..|r.keyframes| - 1] == TurnedTo(t, Some(h)).keyframes)
  {
  }

  /** A turn keyframe reuses the previous keyframe's point and time. */
  lemma TurnedToShape(prims: Primitives, speed: real, t: Track, heading: Option<real>)
    requires WellFormedTrack(prims, speed, t) && |t.keyframes| > 0
    ensures var r := TurnedTo(t, heading);
            |r.keyframes| > |t.keyframes| ==>
              && Last(r.keyframes).point == Last(t.keyframes).point
              && Last(r.keyframes).time == Last(t.keyframes).time
              && Last(r.keyframes).heading == heading
  {
  }

  // ---------------------------------------------------------------------------
  // Every step keeps the invariant

  lemma TurnedToWellFormed(prims: Primitives, speed: real, t: Track, heading: Option<real>)
    requires WellFormedTrack(prims, speed, t) && |t.keyframes| > 0
    requires heading.Some? ==> IsHeading(heading.value)
    ensures WellFormedTrack(prims, speed, TurnedTo(t, heading))
  {
    var r := TurnedTo(t, heading);
    if |r.keyframes| > |t.keyframes| {
      var n := |t.keyframes|;
      assert r.keyframes == t.keyframes + [r.keyframes[n]];
      assert n >= 2;
      assert IsTurn(r.keyframes[n - 1], r.keyframes[n]);
      forall i | 1 <= i <= n
        ensures IsMove(prims, speed, r.keyframes[i - 1], r.keyframes[i]) || IsTurn(r.keyframes[i - 1], r.keyframes[i])
      {
        if i < n {
          assert r.keyframes[i - 1] == t.keyframes[i - 1] && r.keyframes[i] == t.keyframes[i];
        }
      }
    }
  }

  lemma MovedToWellFormed(prims: Primitives, speed: real, t: Track, point: Point)
    requires Sound(prims) && WellFormedTrack(prims, speed, t)
    ensures WellFormedTrack(prims, speed, MovedTo(prims, speed, t, point))
  {
    var r := MovedTo(prims, speed, t, point);
    if |t.keyframes| > 0 && r != t {
      var prev := Last(t.keyframes);
      var d := DistanceMeters(prims, prev.point, point);
      var h := Bearing(prims, prev.point, point);
      var move := Keyframe(point, Some(h), t.totalTime + d / speed);
      if prev.heading.None? {
        assert |t.keyframes| == 1;
        assert r.keyframes == [prev.(heading := Some(h)), move];
        assert IsMove(prims, speed, r.keyframes[0], r.keyframes[1]);
      } else {
        var turned := TurnedTo(t, Some(h));
        TurnedToWellFormed(prims, speed, t, Some(h));
        var n := |turned.keyframes|;
        assert r.keyframes == turned.keyframes + [move];
        assert Last(turned.keyframes).point == prev.point;
        assert IsMove(prims, speed, r.keyframes[n - 1], r.keyframes[n]);
        forall i | 1 <= i <= n
          ensures IsMove(prims, speed, r.keyframes[i - 1], r.keyframes[i]) || IsTurn(r.keyframes[i - 1], r.keyframes[i])
        {
          if i < n {
            assert r.keyframes[i - 1] == turned.keyframes[i - 1] && r.keyframes[i] == turned.keyframes[i];
          }
        }
      }
    }
  }

  lemma {:induction false} MovedThroughWellFormed(prims: Primitives, speed: real, t: Track, points: seq<Point>)
    requires Sound(prims) && WellFormedTrack(prims, speed, t)
    ensures WellFormedTrack(prims, speed, MovedThrough(prims, speed, t, points))
  {
    if |points| > 0 {
      MovedThroughWellFormed(prims, speed, t, points[..|points| - 1]);
      MovedToWellFormed(prims, speed, MovedThrough(prims, speed, t, points[..|points| - 1]), points[|points| - 1]);
    }
  }

  /** Whatever the waypoints, the constructor leaves a well-formed keyframe list behind. */
  lemma BuiltWellFormed(prims: Primitives, speed: real, coords: seq<Point>, loop: bool)
    requires Sound(prims) && speed > 0.0
    ensures WellFormedTrack(prims, speed, Built(prims, speed, coords, loop))
  {
    var walked := MovedThrough(prims, speed, EmptyTrack, coords);
    MovedThroughWellFormed(prims, speed, EmptyTrack, coords);
    if loop && |coords| > 2 {
      var closed := MovedTo(prims, speed, walked, coords[0]);
      MovedToWellFormed(prims, speed, walked, coords[0]);
      TurnedToWellFormed(prims, speed, closed, closed.keyframes[0].heading);
    }
  }

  // ---------------------------------------------------------------------------
  // Consequences of the invariant

  /** Keyframe times never decrease. */
  lemma {:induction false} TimesMonotone(prims: Primitives, speed: real, kfs: seq<Keyframe>, totalTime: real, i: nat, j: nat)
    requires WellFormed(prims, speed, kfs, totalTime)
    requires i <= j < |kfs|
    ensures kfs[i].time <= kfs[j].time
  {
    if i < j {
      TimesMonotone(prims, speed, kfs, totalTime, i, j - 1);
      assert IsMove(prims, speed, kfs[j - 1], kfs[j]) || IsTurn(kfs[j - 1], kfs[j]);
    }
  }

  /** Every keyframe after the first comes strictly after time 0, and no keyframe after the total. */
  lemma TimesWithinTrip(prims: Primitives, speed: real, kfs: seq<Keyframe>, totalTime: real, i: nat)
    requires WellFormed(prims, speed, kfs, totalTime)
    requires i < |kfs|
    ensures 0.0 <= kfs[i].time <= totalTime
    ensures i >= 1 ==> kfs[i].time > 0.0
  {
    TimesMonotone(prims, speed, kfs, totalTime, 0, i);
    TimesMonotone(prims, speed, kfs, totalTime, i, |kfs| - 1);
    if i >= 1 {
      TimesMonotone(prims, speed, kfs, totalTime, 1, i);
      var d := DistanceMeters(prims, kfs[0].point, kfs[1].point);
      assert kfs[1].time == d / speed;
    }
  }

  // ---------------------------------------------------------------------------
  // Whole trips

  /** After construction keyframe 0 is at time 0, times never decrease, and the last keyframe is at the total time. */
  lemma BuiltTimes(prims: Primitives, speed: real, coords: seq<Point>, loop: bool)
    requires Sound(prims) && speed > 0.0 && |coords| > 0
    ensures var r := Built(prims, speed, coords, loop);
            && r.keyframes[0].time == 0.0
            && Last(r.keyframes).time == r.totalTime
            && forall i, j :: 0 <= i <= j < |r.keyframes| ==> r.keyframes[i].time <= r.keyframes[j].time
  {
    var r := Built(prims, speed, coords, loop);
    BuiltWellFormed(prims, speed, coords, loop);
    forall i, j | 0 <= i <= j < |r.keyframes|
      ensures r.keyframes[i].time <= r.keyframes[j].time
    {
      TimesMonotone(prims, speed, r.keyframes, r.totalTime, i, j);
    }
  }

  /** One waypoint gives one heading-less keyframe at time 0, loop or not. */
  lemma SingleWaypoint(prims: Primitives, speed: real, p: Point, loop: bool)
    requires speed > 0.0
    ensures Built(prims, speed, [p], loop) == Track([Keyframe(p, None, 0.0)], 0.0)
  {
    assert [p][..0] == [];
    assert MovedThrough(prims, speed, EmptyTrack, []) == EmptyTrack;
    assert MovedThrough(prims, speed, EmptyTrack, [p]) == MovedTo(prims, speed, EmptyTrack, p);
  }

  /**
   * Two waypoints at least 0.1 m apart give two keyframes, both facing along
   * the move, and a total time of distance/speed; closer ones collapse to one.
   */
  lemma TwoWaypoints(prims: Primitives, speed: real, p: Point, q: Point, loop: bool)
    requires speed > 0.0
    ensures var r := Built(prims, speed, [p, q], loop);
            var d := DistanceMeters(prims, p, q);
            var h := Some(Bearing(prims, p, q));
            && (d >= MinMoveMeters ==>
                  r == Track([Keyframe(p, h, 0.0), Keyframe(q, h, d / speed)], d / speed))
            && (d < MinMoveMeters ==> r == Track([Keyframe(p, None, 0.0)], 0.0))
  {
    assert [p, q][..1] == [p];
    assert [p][..0] == [];
    var one := Track([Keyframe(p, None, 0.0)], 0.0);
    assert MovedThrough(prims, speed, EmptyTrack, []) == EmptyTrack;
    assert MovedThrough(prims, speed, EmptyTrack, [p]) == one;
    assert MovedThrough(prims, speed, EmptyTrack, [p, q]) == MovedTo(prims, speed, one, q);
  }

  /**
   * A looping trip of more than two waypoints ends facing the way it
   * started, and ends at its first waypoint unless the last keyframe was
   * already within 0.1 m of it.
   */
  lemma LoopCloses(prims: Primitives, speed: real, coords: seq<Point>)
    requires Sound(prims) && speed > 0.0
    requires |coords| > 2
    ensures var kfs := Built(prims, speed, coords, true).keyframes;
            && Last(kfs).heading == kfs[0].heading
            && (Last(kfs).point == coords[0] || DistanceMeters(prims, Last(kfs).point, coords[0]) < MinMoveMeters)
  {
    var walked := MovedThrough(prims, speed, EmptyTrack, coords);
    MovedThroughWellFormed(prims, speed, EmptyTrack, coords);
    MovedThroughFirstPoint(prims, speed, coords);
    var closed := MovedTo(prims, speed, walked, coords[0]);
    MovedToWellFormed(prims, speed, walked, coords[0]);
    var r := TurnedTo(closed, closed.keyframes[0].heading);
    assert r.keyframes[0] == closed.keyframes[0];
    var prev := Last(closed.keyframes);
    if |r.keyframes| == |closed.keyframes| {
      var first := closed.keyframes[0];
      if prev.heading.Some? {
        assert |closed.keyframes| >= 2 && first.heading.Some?;
        TurnAngleOfHeadings(prev.heading.value, first.heading.value);
      }
    }
    if DistanceMeters(prims, Last(walked.keyframes).point, coords[0]) >= MinMoveMeters {
      assert Last(closed.keyframes).point == coords[0];
    } else {
      assert closed == walked;
    }
  }

  /** The first waypoint is where keyframe 0 sits, whatever follows it. */
  lemma {:induction false} MovedThroughFirstPoint(prims: Primitives, speed: real, coords: seq<Point>)
    requires speed > 0.0 && |coords| > 0
    ensures MovedThrough(prims, speed, EmptyTrack, coords).keyframes[0].point == coords[0]
  {
    if |coords| > 1 {
      var prefix := coords[..|coords| - 1];
      assert prefix[0] == coords[0];
      MovedThroughFirstPoint(prims, speed, prefix);
    } else {
      assert coords[..0] == [];
    }
  }
}
