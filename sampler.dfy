/**
 * `getFrame`: the frame a built trip shows at a timestamp.  The timestamp
 * is wrapped (looping trips) or capped (other trips) to the trip's length,
 * the first keyframe at or after it ends the bracketing interval, and
 * position and heading are interpolated linearly inside that interval.
 * Where the JavaScript reads a keyframe that does not exist and throws, the
 * model returns `Err`.
 */
module Sampler {
  import opened Wrappers
  import opened Turf
  import opened Headings
  import opened Keyframes

  datatype Identity = Identity(name: string, flag: string, color: seq<real>, model: string)

  /** What `getFrame` reads from a built `TripBuilder`. */
  datatype Trip = Trip(identity: Identity, keyframes: seq<Keyframe>, totalTime: real, loop: bool)

  datatype Frame = Frame(point: Point, heading: real, pitch: real,
                         name: string, flag: string, color: seq<real>, model: string)

  /** `keyframes[index]` is undefined, so reading its `time` throws a TypeError. */
  datatype FrameError = UndefinedKeyframe(index: int)

  /** What a built trip guarantees the sampler: a non-negative length, and headings wherever it can interpolate. */
  predicate Sampleable(trip: Trip) {
    && trip.totalTime >= 0.0
    && (|trip.keyframes| >= 2 ==> forall k :: 0 <= k < |trip.keyframes| ==> trip.keyframes[k].heading.Some?)
  }

  predicate IsIntegral(x: real) {
    x == x.Floor as real
  }

  /** `q` rounded towards zero. */
  function Truncate(q: real): (n: int)
    ensures q >= 0.0 ==> n as real <= q < n as real + 1.0
    ensures q < 0.0 ==> n as real - 1.0 < q <= n as real
  {
    if q >= 0.0 then q.Floor else -((-q).Floor)
  }

  /** JavaScript's `x % y` for `y > 0`: the remainder of the quotient truncated towards zero. */
  function JsRemainder(x: real, y: real): (r: real)
    requires y > 0.0
    ensures x >= 0.0 ==> 0.0 <= r < y
    ensures x < 0.0 ==> -y < r <= 0.0
    ensures IsIntegral((x - r) / y)
  {
    var n := Truncate(x / y);
    RemainderBounds(x, y, n);
    x - y * n as real
  }

  lemma RemainderBounds(x: real, y: real, n: int)
    requires y > 0.0 && n == Truncate(x / y)
    ensures (x - (x - y * n as real)) / y == n as real
    ensures x >= 0.0 ==> 0.0 <= x - y * n as real < y
    ensures x < 0.0 ==> -y < x - y * n as real <= 0.0
  {
    var q, m := x / y, n as real;
    assert y * q == x;
    if x >= 0.0 {
      assert m <= q < m + 1.0;
      MulLess(y, 0.0, q - m);
      MulLess(y, q - m, 1.0);
      assert x - y * m == y * (q - m) >= y * 0.0;
      calc {
        x - y * m;
        y * (q - m);
      <
        y * 1.0;
        y;
      }
    } else {
      assert m - 1.0 < q <= m;
      MulLess(y, q - m, 0.0);
      MulLess(y, -1.0, q - m);
      assert x - y * m == y * (q - m) <= y * 0.0;
      calc {
        x - y * m;
        y * (q - m);
      >
        y * -1.0;
        -y;
      }
    }
  }

  lemma MulLess(y: real, a: real, b: real)
    requires y > 0.0
    ensures a < b ==> y * a < y * b
    ensures a <= b ==> y * a <= y * b
  {
  }

  function Min(a: real, b: real): real {
    if a <= b then a else b
  }

  /** The timestamp `getFrame` looks up; `None` stands for NaN (`x % 0` on a looping trip of length 0). */
  function NormalizedTimestamp(trip: Trip, timestamp: real): (t: Option<real>)
    requires trip.totalTime >= 0.0
    ensures t.None? <==> trip.loop && trip.totalTime == 0.0
    ensures t.Some? && trip.loop && timestamp >= 0.0 ==> 0.0 <= t.value < trip.totalTime
    ensures t.Some? && trip.loop && timestamp < 0.0 ==> -trip.totalTime < t.value <= 0.0
    ensures t.Some? && trip.loop ==> IsIntegral((timestamp - t.value) / trip.totalTime)
    ensures t.Some? && !trip.loop ==> t.value <= trip.totalTime && t.value <= timestamp
    ensures t.Some? && !trip.loop ==> t.value == timestamp || t.value == trip.totalTime
  {
    if trip.loop then
      if trip.totalTime == 0.0 then None else Some(JsRemainder(timestamp, trip.totalTime))
    else
      Some(Min(timestamp, trip.totalTime))
  }

  /** `findIndex(s => s.time >= t)`: the first keyframe at or after `t`, or -1. */
  function FindIndex(kfs: seq<Keyframe>, t: real): (i: int)
    ensures -1 <= i < |kfs|
    ensures i >= 0 ==> kfs[i].time >= t
    ensures forall j :: 0 <= j < |kfs| && (i == -1 || j < i) ==> kfs[j].time < t
  {
    if |kfs| == 0 then -1
    else if kfs[0].time >= t then 0
    else
      var k := FindIndex(kfs[1..], t);
      if k == -1 then -1 else k + 1
  }

  /** How far `t` lies through the interval from `startTime` to `endTime`. */
  function Ratio(t: real, startTime: real, endTime: real): real
    requires startTime < endTime
  {
    (t - startTime) / (endTime - startTime)
  }

  function Lerp(a: real, b: real, r: real): real {
    a * (1.0 - r) + b * r
  }

  function Interpolate(s: Point, e: Point, r: real): Point {
    Point(Lerp(s.lon, e.lon, r), Lerp(s.lat, e.lat, r), Lerp(s.alt, e.alt, r))
  }

  /** The heading a fraction `r` of the way through the turn from `sh` to `eh`. */
  function InterpolateHeading(sh: real, eh: real, r: real): real {
    sh + TurnAngle(sh, eh) * r
  }

  /** Climb angle over the interval: atan2 of the altitude change over the horizontal distance. */
  function Pitch(prims: Primitives, s: Point, e: Point): real {
    prims.atan2Degrees(e.alt - s.alt, DistanceMeters(prims, s, e))
  }

  /** The frame between keyframes `s` and `e` at time `t`, for the trip's identity. */
  function Blend(prims: Primitives, id: Identity, s: Keyframe, e: Keyframe, t: real): Frame
    requires s.time < e.time && s.heading.Some? && e.heading.Some?
  {
    var r := Ratio(t, s.time, e.time);
    Frame(
      Interpolate(s.point, e.point, r),
      InterpolateHeading(s.heading.value, e.heading.value, r),
      Pitch(prims, s.point, e.point),
      id.name, id.flag, id.color, id.model)
  }

  /** `getFrame(timestamp)`, as written. */
  function GetFrame(prims: Primitives, trip: Trip, timestamp: real): (r: Result<Frame, FrameError>)
    requires Sampleable(trip)
    ensures r.Ok? ==> && r.value.name == trip.identity.name && r.value.flag == trip.identity.flag
                      && r.value.color == trip.identity.color && r.value.model == trip.identity.model
    ensures r.Err? ==> r.error.index < 0
  {
    var kfs := trip.keyframes;
    match NormalizedTimestamp(trip, timestamp)
    case None =>
      // every comparison with NaN is false, so findIndex gives -1
      Err(UndefinedKeyframe(-2))
    case Some(t) =>
      var i := FindIndex(kfs, t);
      if i < 1 then Err(UndefinedKeyframe(i - 1))
      else Ok(Blend(prims, trip.identity, kfs[i - 1], kfs[i], t))
  }

  /** The timestamps for which a well-formed trip has a frame: normalized, they fall strictly after time 0. */
  predicate Defined(trip: Trip, timestamp: real) {
    && trip.totalTime >= 0.0
    && |trip.keyframes| >= 2
    && var t := NormalizedTimestamp(trip, timestamp);
       t.Some? && t.value > 0.0
  }

  // ---------------------------------------------------------------------------
  // Properties of the sampler

  /** A built trip gives the sampler what it needs. */
  lemma WellFormedSampleable(prims: Primitives, speed: real, trip: Trip)
    requires WellFormed(prims, speed, trip.keyframes, trip.totalTime)
    ensures Sampleable(trip) && HeadingsAreBearings(trip.keyframes)
    ensures |trip.keyframes| >= 2 ==> trip.totalTime > 0.0
  {
    if |trip.keyframes| > 0 {
      TimesWithinTrip(prims, speed, trip.keyframes, trip.totalTime, |trip.keyframes| - 1);
    }
  }

  /** On a built trip, `getFrame` succeeds exactly for the timestamps that normalize to after time 0. */
  lemma FrameDefinedIff(prims: Primitives, speed: real, trip: Trip, timestamp: real)
    requires WellFormed(prims, speed, trip.keyframes, trip.totalTime)
    ensures Sampleable(trip)
    ensures GetFrame(prims, trip, timestamp).Ok? <==> Defined(trip, timestamp)
  {
    WellFormedSampleable(prims, speed, trip);
    var kfs := trip.keyframes;
    var nt := NormalizedTimestamp(trip, timestamp);
    if nt.Some? {
      var t := nt.value;
      var i := FindIndex(kfs, t);
      if |kfs| >= 2 && t > 0.0 {
        assert t <= Last(kfs).time;
        assert i != 0;
      }
    }
  }

  /** Timestamp 0 never has a frame: the lookup stops at keyframe 0, which has no predecessor. */
  lemma GetFrameFailsAtZero(prims: Primitives, speed: real, trip: Trip)
    requires WellFormed(prims, speed, trip.keyframes, trip.totalTime)
    ensures Sampleable(trip)
    ensures GetFrame(prims, trip, 0.0).Err?
  {
    FrameDefinedIff(prims, speed, trip, 0.0);
    if trip.loop && trip.totalTime > 0.0 {
      assert Truncate(0.0 / trip.totalTime) == 0;
    }
  }

  predicate InRange(a: real, b: real, v: real) {
    (a <= v <= b) || (b <= v <= a)
  }

  /** `p` is the point a fraction `r` of the way from `s` to `e`, in all three coordinates at once. */
  predicate AlongBy(s: Point, e: Point, r: real, p: Point) {
    && p.lon - s.lon == r * (e.lon - s.lon)
    && p.lat - s.lat == r * (e.lat - s.lat)
    && p.alt - s.alt == r * (e.alt - s.alt)
  }

  /** Component by component, `p` lies between `s` and `e`. */
  predicate Between(s: Point, e: Point, p: Point) {
    InRange(s.lon, e.lon, p.lon) && InRange(s.lat, e.lat, p.lat) && InRange(s.alt, e.alt, p.alt)
  }

  /** A fraction r in [0, 1] of `c` lies between 0 and `c`. */
  lemma ScaleByFraction(c: real, r: real)
    requires 0.0 <= r <= 1.0
    ensures InRange(0.0, c, c * r)
  {
    if c >= 0.0 {
      if c > 0.0 {
        MulLess(c, 0.0, r);
        MulLess(c, r, 1.0);
      }
    } else {
      MulLess(-c, 0.0, r);
      MulLess(-c, r, 1.0);
      assert (-c) * r == -(c * r);
    }
  }

  lemma LerpInRange(a: real, b: real, r: real)
    requires 0.0 <= r <= 1.0
    ensures InRange(a, b, Lerp(a, b, r))
  {
    ScaleByFraction(b - a, r);
    calc {
      Lerp(a, b, r);
      a * (1.0 - r) + b * r;
      a + (b - a) * r;
    }
  }

  /** Interpolating with r in [0, 1] moves every coordinate by the same fraction r, and so stays between the ends. */
  lemma InterpolateOnSegment(s: Point, e: Point, r: real)
    requires 0.0 <= r <= 1.0
    ensures AlongBy(s, e, r, Interpolate(s, e, r))
    ensures Between(s, e, Interpolate(s, e, r))
  {
    LerpInRange(s.lon, e.lon, r);
    LerpInRange(s.lat, e.lat, r);
    LerpInRange(s.alt, e.alt, r);
  }

  lemma RatioInUnit(t: real, s: real, e: real)
    requires s < t <= e
    ensures 0.0 < Ratio(t, s, e) <= 1.0
    ensures t == e ==> Ratio(t, s, e) == 1.0
  {
    var r := Ratio(t, s, e);
    var d := e - s;
    assert d * r == t - s;
    if r <= 0.0 {
      MulLess(d, r, 0.0);
      assert false;
    }
    if r > 1.0 {
      MulLess(d, 1.0, r);
      assert false;
    }
  }

  /**
   * Position: a frame sits on the segment between the two keyframes that
   * bracket its timestamp, a fraction r in (0, 1] of the way along it.
   */
  lemma FrameOnSegment(prims: Primitives, trip: Trip, timestamp: real)
    requires Sampleable(trip) && GetFrame(prims, trip, timestamp).Ok?
    ensures var t := NormalizedTimestamp(trip, timestamp).value;
            var kfs := trip.keyframes;
            var i := FindIndex(kfs, t);
            && 1 <= i < |kfs|
            && kfs[i - 1].time < t <= kfs[i].time
            && var r := Ratio(t, kfs[i - 1].time, kfs[i].time);
               var p := GetFrame(prims, trip, timestamp).value.point;
               && 0.0 < r <= 1.0
               && AlongBy(kfs[i - 1].point, kfs[i].point, r, p)
               && Between(kfs[i - 1].point, kfs[i].point, p)
  {
    var t := NormalizedTimestamp(trip, timestamp).value;
    var kfs := trip.keyframes;
    var i := FindIndex(kfs, t);
    var s, e := kfs[i - 1], kfs[i];
    RatioInUnit(t, s.time, e.time);
    var r := Ratio(t, s.time, e.time);
    assert GetFrame(prims, trip, timestamp) == Ok(Blend(prims, trip.identity, s, e, t));
    InterpolateOnSegment(s.point, e.point, r);
  }

  /** Turning a fraction r in (0, 1] of the way from one heading to another stays on the shorter arc. */
  lemma PartialTurn(sh: real, eh: real, r: real)
    requires IsHeading(sh) && IsHeading(eh) && 0.0 < r <= 1.0
    ensures var h := InterpolateHeading(sh, eh, r);
            && -180.0 <= h - sh <= 180.0
            && InRange(sh, sh + TurnAngle(sh, eh), h)
            && (r == 1.0 ==> h == eh || h == eh + 360.0 || h == eh - 360.0)
  {
    var turn := TurnAngle(sh, eh);
    TurnAngleOfHeadings(sh, eh);
    ScaleByFraction(turn, r);
  }

  /**
   * Heading: a frame turns from the start keyframe's heading along the
   * shorter arc towards the end keyframe's, by at most half a circle, and
   * at the end keyframe's time faces its heading up to a full circle.
   */
  lemma FrameHeadingOnShortArc(prims: Primitives, trip: Trip, timestamp: real)
    requires Sampleable(trip) && HeadingsAreBearings(trip.keyframes)
    requires GetFrame(prims, trip, timestamp).Ok?
    ensures var t := NormalizedTimestamp(trip, timestamp).value;
            var kfs := trip.keyframes;
            var i := FindIndex(kfs, t);
            && 1 <= i < |kfs| && kfs[i - 1].heading.Some? && kfs[i].heading.Some?
            && var sh := kfs[i - 1].heading.value;
               var eh := kfs[i].heading.value;
               var h := GetFrame(prims, trip, timestamp).value.heading;
               && -180.0 <= h - sh <= 180.0
               && InRange(sh, sh + TurnAngle(sh, eh), h)
               && (t == kfs[i].time ==> h == eh || h == eh + 360.0 || h == eh - 360.0)
  {
    FrameOnSegment(prims, trip, timestamp);
    var t := NormalizedTimestamp(trip, timestamp).value;
    var kfs := trip.keyframes;
    var i := FindIndex(kfs, t);
    var s, e := kfs[i - 1], kfs[i];
    assert GetFrame(prims, trip, timestamp) == Ok(Blend(prims, trip.identity, s, e, t));
    assert IsHeading(s.heading.value) && IsHeading(e.heading.value);
    var r := Ratio(t, s.time, e.time);
    RatioInUnit(t, s.time, e.time);
    PartialTurn(s.heading.value, e.heading.value, r);
  }

  /** Keyframes that share a time share a point: only turn keyframes take no time. */
  lemma {:induction false} SamePointWhileTimeStands(prims: Primitives, speed: real, kfs: seq<Keyframe>, totalTime: real, i: nat, k: nat)
    requires WellFormed(prims, speed, kfs, totalTime)
    requires i <= k < |kfs| && kfs[i].time == kfs[k].time
    ensures kfs[i].point == kfs[k].point
  {
    if i < k {
      TimesMonotone(prims, speed, kfs, totalTime, i, k - 1);
      TimesMonotone(prims, speed, kfs, totalTime, k - 1, k);
      assert kfs[k - 1].time == kfs[k].time;
      SamePointWhileTimeStands(prims, speed, kfs, totalTime, i, k - 1);
    }
  }

  /** A trip that does not loop shows each keyframe's point at that keyframe's time. */
  lemma FrameAtKeyframeTime(prims: Primitives, speed: real, trip: Trip, k: nat)
    requires WellFormed(prims, speed, trip.keyframes, trip.totalTime) && !trip.loop
    requires 1 <= k < |trip.keyframes|
    ensures Sampleable(trip)
    ensures var r := GetFrame(prims, trip, trip.keyframes[k].time);
            r.Ok? && r.value.point == trip.keyframes[k].point
  {
    var kfs := trip.keyframes;
    var tk := kfs[k].time;
    TimesWithinTrip(prims, speed, kfs, trip.totalTime, k);
    FrameDefinedIff(prims, speed, trip, tk);
    assert NormalizedTimestamp(trip, tk) == Some(tk);
    var i := FindIndex(kfs, tk);
    assert 1 <= i <= k;
    TimesMonotone(prims, speed, kfs, trip.totalTime, i, k);
    SamePointWhileTimeStands(prims, speed, kfs, trip.totalTime, i, k);
    RatioInUnit(tk, kfs[i - 1].time, kfs[i].time);
  }

  /** A trip that does not loop stands still at its end: later timestamps are capped at the total time. */
  lemma ClampedAfterEnd(prims: Primitives, trip: Trip, timestamp: real)
    requires Sampleable(trip) && !trip.loop && timestamp >= trip.totalTime
    ensures GetFrame(prims, trip, timestamp) == GetFrame(prims, trip, trip.totalTime)
  {
  }

  lemma MulCancel(y: real, a: real, b: real)
    requires y > 0.0 && y * a == y * b
    ensures a == b
  {
    if a < b {
      MulLess(y, a, b);
    } else if b < a {
      MulLess(y, b, a);
    }
  }

  lemma RemainderPeriodic(x: real, y: real)
    requires y > 0.0 && x >= 0.0
    ensures JsRemainder(x + y, y) == JsRemainder(x, y)
  {
    var q, q' := x / y, (x + y) / y;
    assert y * q' == x + y;
    assert y * (q + 1.0) == x + y;
    MulCancel(y, q', q + 1.0);
    assert Truncate(q') == Truncate(q) + 1;
    var n := Truncate(q) as real;
    calc {
      JsRemainder(x + y, y);
      x + y - y * (n + 1.0);
      x - y * n;
      JsRemainder(x, y);
    }
  }

  /** A looping trip repeats itself: from time 0 on, adding the total time gives the same frame. */
  lemma LoopPeriodic(prims: Primitives, trip: Trip, timestamp: real)
    requires Sampleable(trip) && trip.loop && trip.totalTime > 0.0 && timestamp >= 0.0
    ensures GetFrame(prims, trip, timestamp + trip.totalTime) == GetFrame(prims, trip, timestamp)
  {
    RemainderPeriodic(timestamp, trip.totalTime);
  }

  // ---------------------------------------------------------------------------
  // The lookup with its start floored

  /** The first interval of the trip has positive length. */
  predicate StartsMoving(kfs: seq<Keyframe>) {
    |kfs| >= 2 ==> kfs[0].time < kfs[1].time
  }

  /**
   * `getFrame` as its interval lookup is evidently meant to work: a
   * normalized timestamp before 0 is wrapped forward by one trip on a
   * looping trip and held at 0 otherwise, and a lookup that stops at
   * keyframe 0 uses the first interval instead, so the start of the trip
   * has a frame.
   */
  function GetFrameFromStart(prims: Primitives, trip: Trip, timestamp: real): (r: Result<Frame, FrameError>)
    requires Sampleable(trip) && StartsMoving(trip.keyframes)
    ensures r.Ok? ==> && r.value.name == trip.identity.name && r.value.flag == trip.identity.flag
                      && r.value.color == trip.identity.color && r.value.model == trip.identity.model
  {
    var kfs := trip.keyframes;
    match NormalizedTimestamp(trip, timestamp)
    case None => Err(UndefinedKeyframe(-2))
    case Some(t0) =>
      var t := if t0 >= 0.0 then t0 else if trip.loop then t0 + trip.totalTime else 0.0;
      var found := FindIndex(kfs, t);
      var i := if found == 0 then 1 else found;
      if i < 1 || i >= |kfs| then Err(UndefinedKeyframe(i - 1))
      else Ok(Blend(prims, trip.identity, kfs[i - 1], kfs[i], t))
  }

  lemma WellFormedStartsMoving(prims: Primitives, speed: real, trip: Trip)
    requires WellFormed(prims, speed, trip.keyframes, trip.totalTime)
    ensures Sampleable(trip) && StartsMoving(trip.keyframes)
  {
    WellFormedSampleable(prims, speed, trip);
    if |trip.keyframes| >= 2 {
      TimesWithinTrip(prims, speed, trip.keyframes, trip.totalTime, 1);
    }
  }

  /** With the floored lookup, timestamp 0 shows keyframe 0: its point and its heading. */
  lemma FromStartAtZero(prims: Primitives, speed: real, trip: Trip)
    requires WellFormed(prims, speed, trip.keyframes, trip.totalTime)
    requires |trip.keyframes| >= 2
    ensures Sampleable(trip) && StartsMoving(trip.keyframes)
    ensures var r := GetFrameFromStart(prims, trip, 0.0);
            && r.Ok?
            && r.value.point == trip.keyframes[0].point
            && r.value.heading == trip.keyframes[0].heading.value
  {
    WellFormedStartsMoving(prims, speed, trip);
    WellFormedSampleable(prims, speed, trip);
    var kfs := trip.keyframes;
    if trip.loop {
      assert Truncate(0.0 / trip.totalTime) == 0;
    }
    assert NormalizedTimestamp(trip, 0.0) == Some(0.0);
    assert FindIndex(kfs, 0.0) == 0;
    assert Ratio(0.0, kfs[0].time, kfs[1].time) == 0.0;
  }

  /** The floored lookup changes nothing where the original one succeeds. */
  lemma FromStartAgrees(prims: Primitives, speed: real, trip: Trip, timestamp: real)
    requires WellFormed(prims, speed, trip.keyframes, trip.totalTime)
    requires Sampleable(trip) && GetFrame(prims, trip, timestamp).Ok?
    ensures StartsMoving(trip.keyframes)
    ensures GetFrameFromStart(prims, trip, timestamp) == GetFrame(prims, trip, timestamp)
  {
    WellFormedStartsMoving(prims, speed, trip);
    FrameOnSegment(prims, trip, timestamp);
  }

  /** With the floored lookup, a trip with at least two keyframes has a frame at every timestamp. */
  lemma FromStartAlwaysDefined(prims: Primitives, speed: real, trip: Trip, timestamp: real)
    requires WellFormed(prims, speed, trip.keyframes, trip.totalTime)
    requires |trip.keyframes| >= 2
    ensures Sampleable(trip) && StartsMoving(trip.keyframes)
    ensures GetFrameFromStart(prims, trip, timestamp).Ok?
  {
    WellFormedStartsMoving(prims, speed, trip);
    WellFormedSampleable(prims, speed, trip);
    var kfs := trip.keyframes;
    var t0 := NormalizedTimestamp(trip, timestamp).value;
    var t := if t0 >= 0.0 then t0 else if trip.loop then t0 + trip.totalTime else 0.0;
    assert t <= Last(kfs).time;
  }

  /** A quotient strictly between -1 and 1 truncates to 0. */
  lemma TruncateSmall(q: real)
    requires -1.0 < q < 1.0
    ensures Truncate(q) == 0
  {
  }

  lemma QuotientSmall(x: real, y: real)
    requires -y < x < y
    ensures -1.0 < x / y < 1.0
  {
    var q := x / y;
    assert y * q == x;
    MulLess(y, q, -1.0);
    MulLess(y, 1.0, q);
  }

  /** Strictly inside one period either side of 0, JavaScript's `%` returns its operand. */
  lemma RemainderWithinOnePeriod(x: real, y: real)
    requires -y < x < y
    ensures JsRemainder(x, y) == x
  {
    QuotientSmall(x, y);
    TruncateSmall(x / y);
  }

  /** Within one trip before 0, the corrected lookup on a looping trip shows what one trip later shows. */
  lemma FromStartLoopsBackwards(prims: Primitives, trip: Trip, timestamp: real)
    requires Sampleable(trip) && StartsMoving(trip.keyframes)
    requires trip.loop && -trip.totalTime < timestamp < 0.0
    ensures GetFrameFromStart(prims, trip, timestamp) == GetFrameFromStart(prims, trip, timestamp + trip.totalTime)
  {
    var y := trip.totalTime;
    RemainderWithinOnePeriod(timestamp, y);
    RemainderWithinOnePeriod(timestamp + y, y);
    assert NormalizedTimestamp(trip, timestamp) == Some(timestamp);
    assert NormalizedTimestamp(trip, timestamp + y) == Some(timestamp + y);
  }
}
