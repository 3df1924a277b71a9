# MatterSlice layer planner and integer points, in Dafny

This project models two parts of MatterSlice, a slicer that turns 3D models into printer G-code.

- **The layer planner** (`LayerGCodePlanner`). Before a layer is written out, the planner queues its
  moves as a list of G-code paths. An extrusion move appends a point to the latest path when that path
  has the same feature configuration and is still open; otherwise it opens a new path. A travel move
  goes to a travel path. It may be routed through the path finder's via-points, and it requests or
  forces a retraction. A polygon is queued as a travel to its start vertex followed by its vertices in
  walking order: around a closed loop, forward from vertex 0, or backward from a later start vertex.
  A fan command opens a marker path. Once the layer time is known, every fan marker is raised to the
  layer's fan percentage.
- **The integer point types** (`Point3` and `Point`). These are their operators and vector helpers,
  with C#'s unchecked 32- and 64-bit wrap-around and truncating division written out.

Layout:

- `geometry.dfy` (module `Geometry`): the integer points of `utils/intpoint.cs`, pure.
- `gcode_path.dfy` (module `GCodePaths`): the values the planner queues. These are points, path
  configurations, paths, retraction kinds and the path finder.
- `layer_queue.dfy` (module `LayerQueue`): each planner operation as a function on a `Queue` value.
  It holds the paths, the last position and the two travel flags. Beside each function are the lemmas
  that say what the operation does.
- `fan_control.dfy` (module `FanControl`): the layer fan percentage.
- `planner.dfy` (module `Planner`): the class `LayerGCodePlanner`, with the fields the source updates
  in place. Each method is proved to change the queue exactly as its `LayerQueue` function says. Its
  invariant `Valid()` has four parts:
  - every fan marker names a queued path;
  - the last queued point is at the last position in X and Y;
  - travel paths have width 0;
  - a set path finder is also the last valid one.

## Model

| member | source | states |
|---|---|---|
| Geometry.Wrap32 | utils/intpoint.cs:49 | unchecked `int` arithmetic: the result differs from the exact value by a multiple of 2^32 and equals it when it fits |
| Geometry.Wrap64 | utils/intpoint.cs:137 | unchecked `long` arithmetic: the result differs from the exact value by a multiple of 2^64 and equals it when it fits |
| Geometry.TruncDiv | utils/intpoint.cs:59 | C# integer division: the remainder is smaller than the divisor and has the dividend's sign, and the quotient is no larger in magnitude than the dividend |
| Geometry.TruncQuotientUnique | utils/intpoint.cs:152 | the truncated quotient is determined by dividend and divisor, so `/` is a function |
| Geometry.Add3ThenSub3 | utils/intpoint.cs:47-55 | Point3 `-` undoes `+` for every pair of points, wrap-around included |
| Geometry.Add3 | utils/intpoint.cs:47-50 | Point3 `+`: each component the 32-bit wrapped sum; Add3ThenSub3 shows `-` undoes it |
| Geometry.Sub3 | utils/intpoint.cs:52-55 | Point3 `-`: each component the 32-bit wrapped difference; Add3ThenSub3 shows it undoes `+` |
| Geometry.Div3 | utils/intpoint.cs:57-60 | Point3 `/` fails exactly where C# throws (divisor 0, or `int.MinValue / -1` in a component); otherwise each component is the truncated quotient |
| Geometry.TruncDivFits32 | utils/intpoint.cs:59 | a truncated quotient of two ints is an int unless it is `int.MinValue / -1` |
| Geometry.Equal3 | utils/intpoint.cs:62-65 | Point3 `==` holds exactly when the points are equal |
| Geometry.NotEqual3 | utils/intpoint.cs:67-70 | Point3 `!=` is the negation of `==` |
| Geometry.Max3 | utils/intpoint.cs:72-84 | `max()` is one of the components and at least each of them |
| Geometry.VSize2Of3 | utils/intpoint.cs:97-100 | `vSize2()` is the exact squared length whenever that fits in a long |
| Geometry.TestLengthBelowWrap | utils/intpoint.cs:86-95 | for 0 <= len <= 46340, `testLength` holds exactly when the squared length is at most len squared |
| Geometry.TestLengthFixedIsSquaredLength | utils/intpoint.cs:86-95 | with `len * len` taken in 64 bits, `testLength` holds exactly when the squared length is at most len squared, for every non-negative len with 3 * len * len below 2^63; the fast reject never changes the answer |
| Geometry.TestLengthWrapsAt46341 | utils/intpoint.cs:94 | as written, `testLength(46341)` is false for the origin; the corrected version is true |
| Geometry.TestLength | utils/intpoint.cs:86-95 | `testLength` as written, with the 32-bit `len * len`; TestLengthBelowWrap and TestLengthWrapsAt46341 say where it is and is not the squared-length test |
| Geometry.CrossAntiCommutative | utils/intpoint.cs:107-113 | `b.cross(a)` is the component-wise negation of `a.cross(b)`, also under wrap-around |
| Geometry.CrossSelfIsZero | utils/intpoint.cs:107-113 | the cross product of a vector with itself is the zero vector |
| Geometry.Cross | utils/intpoint.cs:107-113 | `cross`: the vector product with 32-bit wrapped products and differences; CrossAntiCommutative and CrossSelfIsZero state its laws |
| Geometry.Add | utils/intpoint.cs:135-138 | Point `+`: each component the 64-bit wrapped sum; AddExact and AddThenSub state what it computes |
| Geometry.Sub | utils/intpoint.cs:140-143 | Point `-`: each component the 64-bit wrapped difference; AddThenSub shows it undoes `+` |
| Geometry.Scale | utils/intpoint.cs:145-148 | Point `* int`: each component the 64-bit wrapped product; ScaleThenDivide shows `/` undoes it without overflow |
| Geometry.AddThenSub | utils/intpoint.cs:135-143 | Point `-` undoes `+` for every pair of points, wrap-around included |
| Geometry.AddExact | utils/intpoint.cs:135-138 | without overflow, Point `+` is exact component-wise addition |
| Geometry.Div | utils/intpoint.cs:150-153 | Point `/` fails exactly where C# throws (divisor 0, or `long.MinValue / -1`); otherwise each component is the truncated quotient |
| Geometry.TruncDivFits64 | utils/intpoint.cs:152 | a long divided by an int is a long unless it is `long.MinValue / -1` |
| Geometry.ScaleThenDivide | utils/intpoint.cs:145-153 | `(p * i) / i == p` for non-zero i when the product does not overflow |
| Geometry.Equal | utils/intpoint.cs:155-158 | Point `==` holds exactly when the points are equal |
| Geometry.NotEqual | utils/intpoint.cs:160-163 | Point `!=` is the negation of `==` |
| Geometry.VSize2ZeroOnlyAtOrigin | utils/intpoint.cs:165-168 | when the squared length fits in a long, `vSize2` is that squared length: it is non-negative and zero only at the origin |
| Geometry.VSize2 | utils/intpoint.cs:165-168 | `vSize2`: the squared length with 64-bit wrap-around; VSize2ZeroOnlyAtOrigin says when it is the exact squared length |
| Geometry.ShorterThen | utils/intpoint.cs:175-182 | `shorterThen` as written, with the 32-bit `len * len`; ShorterThenBelowWrap and ShorterThenWrapsAt46341 say where it is and is not the squared-length test |
| Geometry.ShorterThenBelowWrap | utils/intpoint.cs:175-182 | for 0 <= len <= 46340, `shorterThen` holds exactly when the squared length is at most len squared |
| Geometry.ShorterThenFixedIsSquaredLength | utils/intpoint.cs:175-182 | with `len * len` taken in 64 bits, `shorterThen` holds exactly when the squared length is at most len squared, for every non-negative len |
| Geometry.ShorterThenWrapsAt46341 | utils/intpoint.cs:181 | as written, `shorterThen(origin, 46341)` is false; the corrected version is true |
| Geometry.WithinLengthIsSquaredLength | utils/intpoint.cs:175-182 | the fast-reject-then-square test over exact integers is exactly the squared-length bound |
| Geometry.CrossZTwiceNegates | utils/intpoint.cs:204-207 | two `crossZ` quarter turns negate the vector, with wrap-around at `long.MinValue` |
| Geometry.DotCrossZIsZero | utils/intpoint.cs:204-212 | `dot(p, crossZ(p))` is 0 for every p: a vector is perpendicular to its quarter turn |
| Geometry.CrossZ | utils/intpoint.cs:204-207 | `crossZ`: the quarter turn (-Y, X) with 64-bit negation; CrossZTwiceNegates and DotCrossZIsZero state its laws |
| Geometry.Dot | utils/intpoint.cs:209-212 | `dot`: the scalar product with 64-bit wrap-around; DotCrossZIsZero relates it to crossZ |
| GCodePaths.FloorSqrt | MatterSliceLib/LayerGCodePlanner.cs:394 | a leg's length is the integer square root, r*r <= n < (r+1)*(r+1) |
| GCodePaths.LongerThenIsSquaredDistance | MatterSliceLib/LayerGCodePlanner.cs:414 | for a non-negative distance, `LongerThen` holds exactly when the squared XY distance exceeds the distance squared |
| GCodePaths.LongerThen | MatterSliceLib/LayerGCodePlanner.cs:406-414 | `(a - b).LongerThen(len)` on the XY displacement; LongerThenIsSquaredDistance states it is the squared-distance comparison |
| GCodePaths.Length | MatterSliceLib/LayerGCodePlanner.cs:394 | `(to - from).Length()`: the XY distance rounded down, through FloorSqrt's bracketing contract |
| LayerQueue.WithLatestPath | MatterSliceLib/LayerGCodePlanner.cs:630-642 | there is always a latest path to append to |
| LayerQueue.LatestPathSelection | MatterSliceLib/LayerGCodePlanner.cs:630-657 | the last path is reused exactly when the call does not force a unique path and the last path has the same configuration and is not done; otherwise a fresh empty path is appended with no retraction, the current extruder and no fan percentage; earlier paths and the point count are kept |
| LayerQueue.AppendToLastOutcome | MatterSliceLib/LayerGCodePlanner.cs:200 | appending points changes only the last path, whose polygon grows by exactly those points |
| LayerQueue.ExtrusionMoveOutcome | MatterSliceLib/LayerGCodePlanner.cs:198-204 | an extrusion move adds exactly one point, the destination at the current height, to the selected path; it opens a path exactly when the last one cannot be reused; earlier paths and the flags are unchanged; the last position is the destination |
| LayerQueue.ExtrusionMove | MatterSliceLib/LayerGCodePlanner.cs:198-204 | `QueueExtrusionMove` on the queue value; ExtrusionMoveOutcome states its effect and QueueExtrusionMove is proved to perform it |
| LayerQueue.ExtrusionMovesOutcome | MatterSliceLib/LayerGCodePlanner.cs:219-224 | a run of extrusion moves adds one point per destination, ends at the last destination and leaves the flags unchanged |
| LayerQueue.ExtrusionMovesFillOnePath | MatterSliceLib/LayerGCodePlanner.cs:219-224 | a run of moves with one configuration ends on a single path whose polygon ends with all the destinations, in order, at the current height |
| LayerQueue.TravelOutcome | MatterSliceLib/LayerGCodePlanner.cs:366-427 | a travel clears the forced retraction, sets travel appending to `!forceUniquePath`, ends at the destination on a travel path whose last point is the destination with width 0, and adds the via-points plus one point |
| LayerQueue.Travel | MatterSliceLib/LayerGCodePlanner.cs:366-427 | `QueueTravel` on the queue value; TravelOutcome, TravelRetraction and TravelKeepsEarlierPaths state its effect, and QueueTravel is proved to perform it |
| LayerQueue.RoutedRetract | MatterSliceLib/LayerGCodePlanner.cs:377-411 | the retraction after the path-finder block; TravelRetraction states when it is Requested and that a forced one is kept |
| LayerQueue.ExtendTravelOutcome | MatterSliceLib/LayerGCodePlanner.cs:377-422 | the travel path keeps its configuration and done flag; its polygon gains the stamped via-points and then the destination |
| LayerQueue.ExtendTravel | MatterSliceLib/LayerGCodePlanner.cs:377-422 | the edits to the selected travel path; ExtendTravelOutcome states what they add and keep |
| LayerQueue.TravelAfterUniqueOpensPath | MatterSliceLib/LayerGCodePlanner.cs:365-369 | a travel forced to a unique path opens a path, and so does the travel that follows it |
| LayerQueue.TravelRetraction | MatterSliceLib/LayerGCodePlanner.cs:371-417 | a retraction is requested for a move longer than the minimum distance, for a failed search longer than a tenth of it and for a long found route; a forced or earlier retraction is never dropped; otherwise the retraction is the forced or earlier one |
| LayerQueue.TravelKeepsEarlierPaths | MatterSliceLib/LayerGCodePlanner.cs:368-422 | a travel leaves every earlier path unchanged and only extends the selected travel path, and every point it adds has width 0 |
| LayerQueue.TravelPointsHaveNoWidth | MatterSliceLib/LayerGCodePlanner.cs:388-422 | every via-point and the destination a travel appends after the existing points carries width 0 |
| LayerQueue.PolygonOrder | MatterSliceLib/LayerGCodePlanner.cs:217-251 | every visited index is a vertex of the polygon |
| LayerQueue.ClosedLoopOrder | MatterSliceLib/LayerGCodePlanner.cs:217-230 | a closed loop visits each vertex after the start once in ring order, ending on the start vertex when there are more than two vertices |
| LayerQueue.ClosedLoopShape | MatterSliceLib/LayerGCodePlanner.cs:219-230 | the ring order from its entries: successive indices step by one modulo n, all distinct, never the start, covering every other vertex |
| LayerQueue.OpenPolylineOrder | MatterSliceLib/LayerGCodePlanner.cs:232-251 | an open polyline visits every vertex but the start exactly once: ascending from vertex 0, or stepping backward around the ring from a later start |
| LayerQueue.BackwardShape | MatterSliceLib/LayerGCodePlanner.cs:245-250 | the backward order from its entries: it starts at the vertex before the start, steps back by one modulo n, and its entries are distinct and cover every vertex but the start |
| LayerQueue.PolygonMovesOutcome | MatterSliceLib/LayerGCodePlanner.cs:206-253 | queuing a polygon adds one point per visited vertex, plus the travel's points when a travel was needed; it clears the forced retraction exactly when it travels; it ends at the last visited vertex on a path of the polygon's configuration whose polygon ends with the visited vertices |
| LayerQueue.PolygonMoves | MatterSliceLib/LayerGCodePlanner.cs:206-253 | `QueuePolygon` on the queue value; PolygonMovesOutcome and ClosedPolygonEndsAtStart state its effect |
| LayerQueue.PolygonMovesCounts | MatterSliceLib/LayerGCodePlanner.cs:206-253 | the point count, retraction flag and final position after queuing a polygon |
| LayerQueue.PolygonMovesPath | MatterSliceLib/LayerGCodePlanner.cs:217-251 | after queuing a polygon, the last path has its configuration and ends with its visited vertices |
| LayerQueue.ClosedPolygonEndsAtStart | MatterSliceLib/LayerGCodePlanner.cs:226-230 | a closed loop of more than two vertices ends at, and last queues, its start vertex |
| LayerQueue.PolygonsMoves | MatterSliceLib/LayerGCodePlanner.cs:320-326 | queuing polygons adds at least the vertices an open walk visits |
| LayerQueue.OrderedPolygonMoves | MatterSliceLib/LayerGCodePlanner.cs:356-360 | queuing in the optimizer's order never removes points |
| LayerQueue.FanCommandOutcome | MatterSliceLib/LayerGCodePlanner.cs:312-318 | a fan command appends one empty path carrying the percentage and changes nothing else |
| LayerQueue.FanCommand | MatterSliceLib/LayerGCodePlanner.cs:312-318 | `QueueFanCommand` on the queue value; FanCommandOutcome states its effect |
| LayerQueue.RaiseFanMarkers | MatterSliceLib/LayerGCodePlanner.cs:264-267 | the marker loop of `FinalizeLayerFanSpeeds`; RaiseFanMarkersOutcome and RaiseFanMarkersIdempotent state its effect |
| LayerQueue.RaiseFanMarkersSnoc | MatterSliceLib/LayerGCodePlanner.cs:264-267 | raising one more marker raises that path on top of the markers raised so far |
| LayerQueue.RaiseFanMarkersOutcome | MatterSliceLib/LayerGCodePlanner.cs:264-267 | marker paths end at least at the layer percentage; no percentage decreases; each one either keeps its value or becomes the layer's; other paths and other fields are untouched |
| LayerQueue.RaiseFanMarkersIdempotent | MatterSliceLib/LayerGCodePlanner.cs:264-267 | raising the markers twice is the same as raising them once |
| LayerQueue.ExtrusionTracksLastPosition | MatterSliceLib/LayerGCodePlanner.cs:200-201 | after an extrusion move, the last queued point is at the last position |
| LayerQueue.TravelTracksLastPosition | MatterSliceLib/LayerGCodePlanner.cs:419-424 | after a travel, the last queued point is at the last position |
| LayerQueue.SamePointsSameLastPoint | MatterSliceLib/LayerGCodePlanner.cs:266 | changing only path fields other than the points keeps the last queued point |
| LayerQueue.BookkeepingKeepsTracking | MatterSliceLib/LayerGCodePlanner.cs:312-318 | fan commands, raising fan markers and closing the last path keep the last queued point at the last position |
| LayerQueue.DoneLastPathForcesNewPath | MatterSliceLib/LayerGCodePlanner.cs:622-642 | after the last path is marked done, the next extrusion move opens a new path |
| FanControl.TruncToInt | MatterSliceLib/LayerGCodePlanner.cs:298 | the `(int)` cast drops the fraction, rounding toward zero |
| FanControl.RampRatio | MatterSliceLib/LayerGCodePlanner.cs:289-296 | the ramp ratio lies in [0, 1] |
| FanControl.RampPercent | MatterSliceLib/LayerGCodePlanner.cs:298 | the ramp percentage; RampPercentBounds and RampPercentMonotone state its range and monotonicity |
| FanControl.FanPercent | MatterSliceLib/LayerGCodePlanner.cs:270-304 | `GetFanPercent`; FanPercentBranches, FanPercentWithinBounds and FanPercentAntitone state its branches, range and monotonicity |
| FanControl.FanPercentBranches | MatterSliceLib/LayerGCodePlanner.cs:270-304 | the fan is off below the first fan layer and for layers at least as slow as the larger threshold; it is at maximum when the maximum threshold is the larger one and the layer is faster |
| FanControl.RampPercentBounds | MatterSliceLib/LayerGCodePlanner.cs:298 | a ramp percentage lies between the minimum and maximum percentages |
| FanControl.RampPercentMonotone | MatterSliceLib/LayerGCodePlanner.cs:298 | a larger ramp ratio gives no smaller percentage |
| FanControl.FanPercentWithinBounds | MatterSliceLib/LayerGCodePlanner.cs:270-304 | the layer fan percentage is 0 or between the minimum and maximum percentages |
| FanControl.RampRatioAntitone | MatterSliceLib/LayerGCodePlanner.cs:289-296 | a slower layer gets no larger ramp ratio |
| FanControl.ScaledShareMonotone | MatterSliceLib/LayerGCodePlanner.cs:298 | the truncated share of the span is monotone in the ratio |
| FanControl.FanPercentAntitone | MatterSliceLib/LayerGCodePlanner.cs:270-304 | a faster layer never gets a lower fan percentage than a slower one on the same layer |
| Planner.Clamp01 | MatterSliceLib/LayerGCodePlanner.cs:72 | the overlap ratio is clamped into [0, 1]: kept inside it, 0 below, 1 above |
| Planner.PathCanAdjustSpeed | MatterSliceLib/LayerGCodePlanner.cs:143-146 | a path may have its speed scaled when it extrudes and is not a bridge; TravelPathNotAdjustable and ExtrusionPathAdjustable state what that means for queued paths |
| Planner.TravelPathNotAdjustable | MatterSliceLib/LayerGCodePlanner.cs:143-146 | the travel path a travel ends on is never speed-adjusted, because the travel configuration has width 0 (constructor, lines 64-65) |
| Planner.ExtrusionPathAdjustable | MatterSliceLib/LayerGCodePlanner.cs:143-146 | the path an extrusion move ends on is speed-adjustable exactly when the move's configuration extrudes and is not a bridge |
| Planner.LayerGCodePlanner.constructor | MatterSliceLib/LayerGCodePlanner.cs:59-73 | an empty queue at the start position with no forced retraction; travel config of the given speed and width 0; the overlap ratio clamped; the invariant holds |
| Planner.LayerGCodePlanner.SetCurrentZ | MatterSliceLib/LayerGCodePlanner.cs:75-79 | later points are stamped with the new height; nothing else read by the queue changes |
| Planner.LayerGCodePlanner.SetPathFinder | MatterSliceLib/LayerGCodePlanner.cs:83-96 | the path finder becomes the value; the last valid one becomes it when it is non-null and is otherwise kept |
| Planner.LayerGCodePlanner.GetExtruder | MatterSliceLib/LayerGCodePlanner.cs:193-196 | the current extruder; SetExtruder and ToolChangeRequired state how it is set and used |
| Planner.LayerGCodePlanner.ToolChangeRequired | MatterSliceLib/LayerGCodePlanner.cs:429-437 | a tool change is required exactly when the extruder differs from `GetExtruder()` |
| Planner.LayerGCodePlanner.SetExtruder | MatterSliceLib/LayerGCodePlanner.cs:439-442 | after the call `GetExtruder()` is the extruder, no tool change to it is required and one to any other is |
| Planner.LayerGCodePlanner.ForceRetract | MatterSliceLib/LayerGCodePlanner.cs:188-191 | only the forced-retraction flag changes, to true |
| Planner.LayerGCodePlanner.ForceNewPathStart | MatterSliceLib/LayerGCodePlanner.cs:622-628 | the last path, if any, is marked done; nothing else changes |
| Planner.LayerGCodePlanner.GetNewPath | MatterSliceLib/LayerGCodePlanner.cs:644-657 | one fresh path is appended and its index returned |
| Planner.LayerGCodePlanner.GetLatestPathWithConfig | MatterSliceLib/LayerGCodePlanner.cs:630-642 | the path list becomes `WithLatestPath` of the old one, and the returned index is the last path |
| Planner.LayerGCodePlanner.QueueExtrusionMove | MatterSliceLib/LayerGCodePlanner.cs:198-204 | the queue becomes `ExtrusionMove` of the old queue, and the invariant is kept |
| Planner.LayerGCodePlanner.QueuePolygon | MatterSliceLib/LayerGCodePlanner.cs:206-253 | the queue becomes `PolygonMoves` of the old queue, and the invariant is kept |
| Planner.LayerGCodePlanner.QueueClosedLoop | MatterSliceLib/LayerGCodePlanner.cs:217-231 | the queue is extruded through the closed-loop order's vertices |
| Planner.LayerGCodePlanner.QueueRing | MatterSliceLib/LayerGCodePlanner.cs:219-224 | the ring loop extrudes through the first n-1 closed-loop destinations |
| Planner.LayerGCodePlanner.QueueWalkStep | MatterSliceLib/LayerGCodePlanner.cs:222 | one loop step extends the run of extrusion moves by one destination |
| Planner.LayerGCodePlanner.QueueForward | MatterSliceLib/LayerGCodePlanner.cs:234-242 | the queue is extruded through vertices 1 to n-1 in order |
| Planner.LayerGCodePlanner.QueueForwardStep | MatterSliceLib/LayerGCodePlanner.cs:238-239 | one forward step extends the run of extrusion moves by the next vertex |
| Planner.LayerGCodePlanner.QueueBackward | MatterSliceLib/LayerGCodePlanner.cs:243-251 | the queue is extruded through the backward order's vertices |
| Planner.LayerGCodePlanner.QueueBackwardStep | MatterSliceLib/LayerGCodePlanner.cs:247-248 | one backward step extends the run of extrusion moves by the next backward destination |
| Planner.LayerGCodePlanner.QueuePolygons | MatterSliceLib/LayerGCodePlanner.cs:320-326 | the queue becomes `PolygonsMoves` of the old queue |
| Planner.LayerGCodePlanner.QueuePolygonByOptimizer | MatterSliceLib/LayerGCodePlanner.cs:328-342 | the single polygon is queued once per entry of the optimizer's order, from its chosen start; the result is true |
| Planner.LayerGCodePlanner.QueuePolygonsByOptimizer | MatterSliceLib/LayerGCodePlanner.cs:344-363 | false and nothing queued for no polygons; otherwise the polygons in the optimizer's order from their chosen starts, and true |
| Planner.LayerGCodePlanner.QueueOrderedStep | MatterSliceLib/LayerGCodePlanner.cs:337-338 | one entry of the optimizer's order queues that polygon from its chosen start |
| Planner.LayerGCodePlanner.QueueFanCommand | MatterSliceLib/LayerGCodePlanner.cs:312-318 | the queue becomes `FanCommand` of the old queue, and the new path's index is remembered as a fan marker |
| Planner.LayerGCodePlanner.FinalizeLayerFanSpeeds | MatterSliceLib/LayerGCodePlanner.cs:260-268 | every fan-marker path is raised to at least the layer's `FanPercent` (`RaiseFanMarkers`); the layer time is the corrected one |
| Planner.LayerGCodePlanner.QueueTravel | MatterSliceLib/LayerGCodePlanner.cs:366-427 | the queue becomes `Travel` of the old queue, and the invariant is kept |
| Planner.LayerGCodePlanner.WriteTravel | MatterSliceLib/LayerGCodePlanner.cs:368-424 | on the selected travel path, the forced retraction, routing, distance check and destination give `Travel` |
| Planner.LayerGCodePlanner.ExtendTravelPath | MatterSliceLib/LayerGCodePlanner.cs:377-422 | the path-finder block, the distance check and the final destination point give `ExtendTravel` |
| Planner.LayerGCodePlanner.RouteTravel | MatterSliceLib/LayerGCodePlanner.cs:377-411 | the path-finder block appends the found route's via-points and sets the retraction `RoutedRetract` says |
| Planner.FollowRoute | MatterSliceLib/LayerGCodePlanner.cs:382-396 | the via-point loop appends every via-point as a width-0 travel point and returns the summed leg lengths from the start |

## Left out

- `GetLayerTimes` and `CorrectLayerTimeConsideringMinimumLayerTime` (MatterSliceLib/LayerGCodePlanner.cs:107-186) are not modelled. They estimate print time from speeds and floating-point lengths. `FinalizeLayerFanSpeeds` therefore takes the corrected layer time as a parameter.
- `WriteQueuedGCode`, `TrimGCodePathEnd` and `ValidatePaths` are not modelled. They emit G-code or only inspect the queue, and are outside the queue state machine.
- The G-code exporter (`GCodeExport`) is not part of this model. The start position, extruder, current height and layer index it supplies are constructor arguments and fields. `CurrentZ` is a field rather than a forwarded property.
- The path-order optimizer is an oracle function parameter (`Optimizer`). The path finder's search is a fixed function held by the `PathFinder` object. Neither search is modelled.
- `PointMatrix`, the `double` constructors of `Point3` and `Point`, `vSize`, `vSizeMM`, `vSize2f` and `normal` are not modelled. They use floating point.
- Path speeds and the rest of `GCodePathConfig` are not modelled. The configuration class is not part of this model; only the fields the planner reads are kept.
- `IntPoint` comes from the clipper library, which is not part of this model. The planner's points have unbounded integer coordinates, so the planner's own subtractions do not wrap.
- `IntPoint` copying with a new height, `new IntPoint(p, z)`, is assumed to keep X, Y and Width. `GCodePaths.AtZ` and `GCodePaths.TravelPoint` rely on this, and so does the extrusion move at MatterSliceLib/LayerGCodePlanner.cs:200.
- `IntPoint.LongerThen` and `IntPoint.Length` are assumed to look only at X and Y. `GCodePaths.LongerThen` and `GCodePaths.Length` rely on this.
- Leg length is `(to - from).Length()`, a double square root cast to `long`. It is modelled as the exact integer square root, so double rounding is not modelled.
- Planner.LayerGCodePlanner.QueuePolygon: requires a start index inside the polygon. The source indexes the polygon there and would throw otherwise.
- Planner.LayerGCodePlanner.QueuePolygons: requires every polygon to be non-empty. The source indexes vertex 0 of each and would throw for an empty one.
- Planner.LayerGCodePlanner.QueuePolygonsByOptimizer: requires the optimizer's order to name existing polygons and valid start vertices. The source indexes with them and would throw otherwise.
- Planner.LayerGCodePlanner.QueuePolygonByOptimizer: requires the same of its one-polygon order.
- Geometry.TestLengthFixedIsSquaredLength: is stated for lengths with 3 * len * len below 2^63 (len up to about 1.75 * 10^9). Above that the three squares inside the fast-reject box can overflow the corrected test's 64-bit sum.
- FanControl.FanPercentAntitone: is stated for non-negative minimum percentages at most the maximum. The source imposes no order on the settings.
- FanControl.FanPercentWithinBounds: is stated for a minimum percentage at most the maximum.
- `GetFanPercent` computes in doubles and in C# `int`. The model uses exact reals and does not model overflow of the percentage span.
- Planner.LayerGCodePlanner.WriteTravel: the selected path is edited as a value and stored back once, and the four queue fields are assigned together. The source mutates the path object in place and sets the fields one by one. The final state is the same.
- The source shares `GCodePath` objects between `paths` and `queuedFanSpeeds`. The model keeps paths as values and the fan markers as indices into `paths`. These agree because the planner only appends to `paths`.
- LayerQueue.PolygonsMoves: its contract is a lower bound on the queued points. The exact queue is given by the function and by `QueuePolygons`' postcondition.
- LayerQueue.OrderedPolygonMoves: its contract only says that no points are removed. The exact queue is given by the function and by the optimizer methods' postconditions.

## Findings

| source | as written | input that shows it | evidently intended | confidence | as-written member | corrected member |
|---|---|---|---|---|---|---|
| utils/intpoint.cs:181 | `shorterThen` compares `vSize2(p0)` with `len * len` computed in 32-bit `int`, which wraps for len > 46340 | p0 = (0, 0), len = 46341: `len * len` wraps to -2147479015, so the origin is reported not shorter than 46341 | the square taken in 64 bits: `vSize2(p0) <= (long)len * len` | not executed | Geometry.ShorterThenWrapsAt46341 | Geometry.ShorterThenFixedIsSquaredLength |
| utils/intpoint.cs:94 | `testLength` compares `vSize2()` with `len * len` computed in 32-bit `int`, which wraps for len > 46340 | the point (0, 0, 0), len = 46341: the test is false for the origin | the square taken in 64 bits: `vSize2() <= (long)len * len` | not executed | Geometry.TestLengthWrapsAt46341 | Geometry.TestLengthFixedIsSquaredLength |
