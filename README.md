# Trip keyframes and frame sampling, in Dafny

This project models `TripBuilder`, the core of a map animation of vehicles and
aircraft. A trip is built once from a waypoint list, an entity's name, flag,
color and 3D model plus `[longitude, latitude, altitude]` points. Building
turns the points into a list of time-stamped keyframes. After that, `getFrame`
is called with an advancing timestamp and returns the entity's interpolated
position and heading and its pitch.

Modules:

- `Turf` (turf.dfy): points, and the foreign geometry. Rhumb distance, rhumb
  bearing and `atan2` are fields of a `Primitives` record of total functions.
  A trip is built against any such record. `Sound` states the two facts the
  model uses: distances are never negative, and bearings lie in (-180, 180].
- `Headings` (headings.dfy): `getTurnAngle`.
- `Keyframes` (keyframes.dfy): what `_moveTo`, `_turnTo` and the constructor
  do to the keyframe list and `totalTime`, written as functions on values.
  `WellFormed` is the shape every built list has: each keyframe after the first
  is a move or a turn from its predecessor. The file also holds the lemmas
  about all of these.
- `Builder` (builder.dfy): the `TripBuilder` class. The constructor, `MoveTo`
  and `TurnTo` update `keyframes` and `totalTime` in place. Each is proved to
  produce exactly the `Keyframes` function of the old state and to keep
  `WellFormed`.
- `Sampler` (sampler.dfy): `getFrame` as a function of the built trip. It covers
  timestamp normalisation, including JavaScript's `%`, the `findIndex` lookup,
  and linear interpolation of position and heading. Where the JavaScript reads
  a keyframe that does not exist and throws a `TypeError`, the model returns
  `Err(UndefinedKeyframe(index))`.

Behaviours of the code that a reader might not expect:

- An empty coordinate list is not rejected. It builds a trip with no keyframes,
  and every later `getFrame` fails.
- `speed` is not validated by the code. The model requires `speed > 0`.
- `turnSpeed` is stored but unused. Turn keyframes always take no time
  (`TurnDuration`).
- The loop closure checks the raw number of coordinates (`> 2`), not the number
  of distinct points.
- The lookup is the first keyframe with `time >= t`, not `>`, and nothing stops
  it from landing on index 0. See Findings.
- A looping trip of total time 0 is not rejected at construction. Sampling it
  computes `x % 0 = NaN`, and every lookup fails.

## Model

| member | source | states |
|---|---|---|
| `Turf.DistanceMeters` | trip-builder.js:40 | the move distance is turf's kilometers times 1000, and never negative for sound primitives |
| `Turf.Bearing` | trip-builder.js:41 | the move heading is turf's rhumb bearing, in (-180, 180] for sound primitives |
| `Headings.TurnAngle` | trip-builder.js:110-115 | the turn differs from `end - start` by 0 or ±360; a difference already in [-180, 180] is unchanged; a difference within ±540 gives a result in [-180, 180] |
| `Headings.TurnAngleAntisymmetric` | trip-builder.js:110-115 | `TurnAngle(a, b) == -TurnAngle(b, a)` for every pair of reals |
| `Headings.TurnAngleOfHeadings` | trip-builder.js:110-115 | between two bearings the turn is at most half a circle, and it is zero exactly when the headings are equal |
| `Keyframes.TurnedTo` | trip-builder.js:61-73 | `_turnTo` appends at most one keyframe and keeps the earlier ones; it appends exactly when both headings are defined and the turn is nonzero; that keyframe stays at the last point and adds no time |
| `Keyframes.MovedTo` | trip-builder.js:30-59 | `_moveTo` leaves at least one keyframe and appends at most two (a turn and a move) |
| `Keyframes.MovedThrough` | trip-builder.js:21-23 | moving through a non-empty point list leaves a non-empty keyframe list that never shrinks |
| `Keyframes.Built` | trip-builder.js:20-27 | the constructor's keyframe list is non-empty exactly when the coordinate list is |
| `Keyframes.DedupLeavesTrackUnchanged` | trip-builder.js:43-45 | a point closer than 0.1 m to the last keyframe leaves the keyframes and `totalTime` unchanged |
| `Keyframes.MovedToShape` | trip-builder.js:46-58 | a move that is kept either gives the heading-less keyframe 0 its heading, or first appends `_turnTo`'s turn; then it appends one move keyframe at the point, facing the bearing, at old `totalTime` + distance/speed, which is also the new `totalTime` |
| `Keyframes.TurnedToShape` | trip-builder.js:61-73 | a turn keyframe reuses the previous keyframe's point and time and carries the new heading |
| `Keyframes.TurnedToWellFormed` | trip-builder.js:61-73 | `_turnTo` keeps the keyframe invariant |
| `Keyframes.MovedToWellFormed` | trip-builder.js:30-59 | `_moveTo` keeps the keyframe invariant |
| `Keyframes.MovedThroughWellFormed` | trip-builder.js:21-23 | the constructor's waypoint loop keeps the keyframe invariant |
| `Keyframes.BuiltWellFormed` | trip-builder.js:20-27 | every constructed trip is well formed: times start at 0 and end at `totalTime`; each keyframe after the first is a move or a turn; headings are bearings and are set once there are two keyframes |
| `Keyframes.TimesMonotone` | trip-builder.js:52-58 | in a well-formed list keyframe times never decrease |
| `Keyframes.TimesWithinTrip` | trip-builder.js:31-35 | every keyframe time lies in [0, totalTime], and every keyframe after the first lies strictly after 0 |
| `Keyframes.BuiltTimes` | trip-builder.js:31-35 | after construction keyframe 0 is at time 0, times are non-decreasing, and the last keyframe is at `totalTime` |
| `Keyframes.SingleWaypoint` | trip-builder.js:31-36 | one waypoint gives one heading-less keyframe at time 0 and total time 0, looping or not |
| `Keyframes.TwoWaypoints` | trip-builder.js:30-58 | two waypoints at least 0.1 m apart give two keyframes facing the bearing and a total time of distance/speed; closer ones give one keyframe |
| `Keyframes.LoopCloses` | trip-builder.js:24-27 | a looping trip of more than two coordinates ends with keyframe 0's heading, at the first waypoint or within 0.1 m of it |
| `Keyframes.MovedThroughFirstPoint` | trip-builder.js:31-35 | keyframe 0 sits at the first waypoint |
| `Builder.TripBuilder.constructor` | trip-builder.js:5-28 | copies the identity and settings, and leaves exactly the keyframes and total time of `Built`, well formed |
| `Builder.TripBuilder.MoveTo` | trip-builder.js:30-59 | updates the keyframes and `totalTime` in place to `MovedTo` of the old state and keeps the invariant |
| `Builder.TripBuilder.TurnTo` | trip-builder.js:61-73 | updates the keyframes and `totalTime` in place to `TurnedTo` of the old state and keeps the invariant |
| `Builder.TripBuilder.GetFrame` | trip-builder.js:75-107 | a built trip's frame carries its own name, flag, color and model, and exists exactly for the timestamps that normalize to after time 0 |
| `Sampler.JsRemainder` | trip-builder.js:76 | JavaScript `%` with a positive divisor: the result is in [0, y) for x ≥ 0 and in (-y, 0] for x < 0, and x minus it is a whole multiple of y |
| `Sampler.NormalizedTimestamp` | trip-builder.js:76 | looping: NaN exactly when the total time is 0; otherwise it differs from the timestamp by a whole multiple of the total time, and lies in [0, total) for timestamps ≥ 0 and in (-total, 0] for negative ones. Not looping: it is the smaller of the timestamp and the total time (it equals one of them and is at most both) |
| `Sampler.FindIndex` | trip-builder.js:77 | the first keyframe whose time is ≥ t, or -1 when there is none |
| `Sampler.GetFrame` | trip-builder.js:75-107 | a frame carries the trip's name, flag, color and model unchanged; a failure always names a negative keyframe index |
| `Sampler.WellFormedSampleable` | trip-builder.js:75-107 | a built trip gives the sampler headings wherever it interpolates and a total time ≥ 0, positive once there are two keyframes |
| `Sampler.FrameDefinedIff` | trip-builder.js:76-80 | on a built trip `getFrame` succeeds if and only if there are two keyframes and the normalized timestamp is defined and greater than 0 |
| `Sampler.GetFrameFailsAtZero` | trip-builder.js:76-78 | on every built trip `getFrame(0)` fails, because the lookup stops at keyframe 0 |
| `Sampler.LerpInRange` | trip-builder.js:95-99 | interpolating a coordinate with r in [0, 1] stays between the two end values |
| `Sampler.RatioInUnit` | trip-builder.js:80 | with start time < t ≤ end time the ratio lies in (0, 1], and it is 1 at the end time |
| `Sampler.FrameOnSegment` | trip-builder.js:77-99 | a frame's position lies on the segment between the two keyframes that bracket its timestamp (start time < t ≤ end time). One weight r in (0, 1], the elapsed fraction of the interval, moves all three coordinates, so each lies between the two end values |
| `Sampler.InterpolateOnSegment` | trip-builder.js:95-99 | interpolating with r in [0, 1] moves longitude, latitude and altitude each by the same fraction r of the way from start to end, and keeps each between its end values |
| `Sampler.PartialTurn` | trip-builder.js:100 | part of a turn between two bearings stays on the shorter arc, within 180° of the start, and the whole turn lands on the end heading up to ±360 |
| `Sampler.FrameHeadingOnShortArc` | trip-builder.js:100 | a frame's heading lies between the start heading and start + turn, within 180° of the start, and at the end keyframe's time equals its heading up to ±360 |
| `Sampler.SamePointWhileTimeStands` | trip-builder.js:61-73 | keyframes with equal times share their point, because only turns take no time |
| `Sampler.FrameAtKeyframeTime` | trip-builder.js:76-99 | a non-looping trip sampled at any later keyframe's time shows that keyframe's point |
| `Sampler.ClampedAfterEnd` | trip-builder.js:76 | a non-looping trip gives the same result for every timestamp at or after its total time |
| `Sampler.RemainderWithinOnePeriod` | trip-builder.js:76 | JavaScript `%` leaves a value strictly between -y and y unchanged |
| `Sampler.RemainderPeriodic` | trip-builder.js:76 | for x ≥ 0, `(x + y) % y == x % y` |
| `Sampler.LoopPeriodic` | trip-builder.js:76 | a looping trip gives the same result at `timestamp + totalTime` as at `timestamp`, for timestamps ≥ 0 |
| `Sampler.GetFrameFromStart` | trip-builder.js:76-80 | the corrected lookup carries the trip's identity unchanged. It floors the index at 1, wraps a negative looping timestamp forward by one trip, and holds a negative non-looping timestamp at 0 |
| `Sampler.WellFormedStartsMoving` | trip-builder.js:52-58 | on a built trip keyframe 1 comes strictly after keyframe 0 |
| `Sampler.FromStartAtZero` | trip-builder.js:76-100 | with the corrected lookup, timestamp 0 shows keyframe 0's point and heading |
| `Sampler.FromStartAgrees` | trip-builder.js:76-80 | the corrected lookup gives the same frame as `getFrame` wherever `getFrame` succeeds |
| `Sampler.FromStartAlwaysDefined` | trip-builder.js:76-80 | with the corrected lookup, a trip with two keyframes has a frame at every timestamp |
| `Sampler.FromStartLoopsBackwards` | trip-builder.js:76 | with the corrected lookup, a looping trip at a timestamp within one trip before 0 shows the same frame as one trip later |

## Left out

- The internals of `@turf/rhumb-distance`, `@turf/rhumb-bearing` and `Math.atan2` (trip-builder.js:1-2, 83-92). They are opaque functions in `Primitives`. Pitch is `atan2Degrees(altitude change, distance)` of the bracketing interval. Nothing is proved about pitch beyond the inputs it is computed from.
- Floating point. Times, coordinates and headings are exact reals, so rounding in `distance / speed`, in the interpolation and in `%` is not modelled. JavaScript's `%` is exact on doubles, so the exact-real remainder matches it up to the rounding of its inputs.
- NaN and infinite inputs, apart from the two NaNs the code itself produces: an undefined heading in `_turnTo` (the turn is skipped, as `NaN > 0` is false), and `x % 0` for a looping trip of length 0 (the lookup fails).
- Builder.TripBuilder.TurnTo: requires a heading that is a bearing in (-180, 180]. Its two callers only pass bearings or keyframe 0's heading, and the invariant needs this.
- Keyframes.MovedTo: requires `speed > 0`, which the code never checks. A zero speed would give infinite times.
- Builder.TripBuilder.constructor: requires `speed > 0` for the same reason, and requires sound primitives.
- The frame is a plain value, not an object literal with a `point` array. `getFrame` in the class reads the fields through `Trip()`.
- `app.jsx` (rendering, data fetching, the animation loop) and `scripts/trips-gen.py` (an offline data generator) are not part of this model.

## Findings

| source | as written | input that shows it | evidently intended | confidence | as-written member | corrected member |
|---|---|---|---|---|---|---|
| trip-builder.js:77-78 | `findIndex(s => s.time >= timestamp)` returns 0 when the timestamp is ≤ keyframe 0's time (0). `keyframes[i - 1]` is then `keyframes[-1]`, which is undefined, and reading `.time` throws. | `getFrame(0)` on any trip; also a looping trip at any whole multiple of its total time or any negative timestamp, and a non-looping trip at any negative timestamp | the start of the trip shows keyframe 0: the lookup uses the first interval when it lands on index 0. A negative timestamp, where `%` returns a negative value, is wrapped forward by one trip when looping and held at 0 otherwise | medium; not executed | `Sampler.GetFrame`, shown by `Sampler.GetFrameFailsAtZero` | `Sampler.GetFrameFromStart`, proved by `Sampler.FromStartAtZero`, `Sampler.FromStartAgrees`, `Sampler.FromStartAlwaysDefined` and `Sampler.FromStartLoopsBackwards` |

`Builder.TripBuilder.GetFrame` keeps the code's behaviour. Nothing else in the
model consumes frames. The corrected lookup stands beside it.
