/*
 * The per-layer move queue of the layer planner, as values: what each queue
 * operation of MatterSliceLib/LayerGCodePlanner.cs does to the list of paths,
 * the last position and the two one-shot flags. The planner class proves its
 * methods against these functions; the lemmas here state what they mean.
 */
module LayerQueue {
  import Geometry
  import opened GCodePaths

  /** The state a queue operation reads and writes. */
  datatype Queue = Queue(
    paths: seq<GCodePath>,
    lastPosition: IntPoint,
    forceRetraction: bool,
    canAppendTravel: bool)

  /** What a queue operation reads but does not change. */
  datatype Env = Env(
    travelConfig: GCodePathConfig,
    extruder: int,
    currentZ: int,
    pathFinder: PathFinder?,
    layerIndex: int,
    retractionMinimumDistance: int)

  function Last<T>(s: seq<T>): T
    requires |s| > 0
  {
    s[|s| - 1]
  }

  /** A fresh, empty path as `GetNewPath` creates it. */
  function NewPath(config: GCodePathConfig, extruder: int): GCodePath
  {
    GCodePath(config, [], None, extruder, -1, false)
  }

  /** Whether `GetLatestPathWithConfig` hands back the last path instead of opening a new one. */
  predicate ReusesLast(paths: seq<GCodePath>, config: GCodePathConfig, forceUniquePath: bool)
  {
    !forceUniquePath && |paths| > 0 && Last(paths).config == config && !Last(paths).done
  }

  /** The total number of queued points over all paths. */
  function TotalPoints(paths: seq<GCodePath>): nat
  {
    if paths == [] then 0 else TotalPoints(paths[..|paths| - 1]) + |Last(paths).polygon|
  }

  /**
   * The path list after `GetLatestPathWithConfig`: the selected path is the
   * last one, it has the requested configuration and is open; either nothing
   * changed (reuse) or exactly one fresh path was appended.
   */
  function WithLatestPath(paths: seq<GCodePath>, config: GCodePathConfig, forceUniquePath: bool, extruder: int): (r: seq<GCodePath>)
    ensures |r| > 0
  {
    if ReusesLast(paths, config, forceUniquePath) then paths else paths + [NewPath(config, extruder)]
  }

  /**
   * What `GetLatestPathWithConfig` selects: an open path with the requested
   * configuration, last in the list; the list is unchanged exactly when the
   * last path is reused, and otherwise grows by one empty path on the
   * current extruder; no point is added or lost.
   */
  lemma LatestPathSelection(paths: seq<GCodePath>, config: GCodePathConfig, forceUniquePath: bool, extruder: int)
    ensures var r := WithLatestPath(paths, config, forceUniquePath, extruder);
      && |paths| <= |r| && Last(r).config == config && !Last(r).done
      && r[..|paths|] == paths
      && (ReusesLast(paths, config, forceUniquePath) <==> |r| == |paths|)
      && (!ReusesLast(paths, config, forceUniquePath) ==>
        |r| == |paths| + 1 && Last(r).polygon == [] && Last(r).retract == None &&
        Last(r).extruderIndex == extruder && Last(r).fanPercent == -1)
      && TotalPoints(r) == TotalPoints(paths)
  {
    var r := WithLatestPath(paths, config, forceUniquePath, extruder);
    assert r[..|paths|] == paths;
  }

  /** Appends points to the last path. */
  function AppendToLast(paths: seq<GCodePath>, points: seq<IntPoint>): (r: seq<GCodePath>)
    requires |paths| > 0
    ensures |r| == |paths|
  {
    paths[|paths| - 1 := Last(paths).(polygon := Last(paths).polygon + points)]
  }

  /** Appending to the last path changes no other path and adds exactly the appended points. */
  lemma AppendToLastOutcome(paths: seq<GCodePath>, points: seq<IntPoint>)
    requires |paths| > 0
    ensures var r := AppendToLast(paths, points);
      && r[..|r| - 1] == paths[..|paths| - 1]
      && Last(r) == Last(paths).(polygon := Last(paths).polygon + points)
      && TotalPoints(r) == TotalPoints(paths) + |points|
  {
    var r := AppendToLast(paths, points);
    assert r[..|r| - 1] == paths[..|paths| - 1];
  }

  /** The points as queued for extrusion: each stamped with the layer height. */
  function Stamped(points: seq<IntPoint>, z: int): (r: seq<IntPoint>)
    ensures |r| == |points|
  {
    seq(|points|, i requires 0 <= i < |points| => AtZ(points[i], z))
  }

  /** The points as queued for travel: each stamped with the layer height and width 0. */
  function TravelStamped(points: seq<IntPoint>, z: int): (r: seq<IntPoint>)
    ensures |r| == |points|
  {
    seq(|points|, i requires 0 <= i < |points| => TravelPoint(points[i], z))
  }

  /**
   * `QueueExtrusionMove`: exactly one point, the destination at the current
   * height, lands at the end of the selected path; earlier paths keep their
   * contents and the last position becomes the destination.
   */
  function ExtrusionMove(q: Queue, env: Env, destination: IntPoint, config: GCodePathConfig): Queue
  {
    var ps := WithLatestPath(q.paths, config, false, env.extruder);
    q.(paths := AppendToLast(ps, [AtZ(destination, env.currentZ)]), lastPosition := destination)
  }

  /** The outcome of one extrusion move, path by path. */
  lemma ExtrusionMoveOutcome(q: Queue, env: Env, destination: IntPoint, config: GCodePathConfig)
    ensures var r := ExtrusionMove(q, env, destination, config);
      && r.lastPosition == destination
      && r.forceRetraction == q.forceRetraction && r.canAppendTravel == q.canAppendTravel
      && |r.paths| == |q.paths| + (if ReusesLast(q.paths, config, false) then 0 else 1)
      && r.paths[..|r.paths| - 1] == q.paths[..|r.paths| - 1]
      && Last(r.paths).config == config && !Last(r.paths).done
      && Last(r.paths).polygon ==
        (if ReusesLast(q.paths, config, false) then Last(q.paths).polygon else []) + [AtZ(destination, env.currentZ)]
      && TotalPoints(r.paths) == TotalPoints(q.paths) + 1
  {
    var ps := WithLatestPath(q.paths, config, false, env.extruder);
    LatestPathSelection(q.paths, config, false, env.extruder);
    AppendToLastOutcome(ps, [AtZ(destination, env.currentZ)]);
    assert ps[..|ps| - 1] == q.paths[..|ps| - 1];
  }

  /** Extrusion moves to each destination in turn. */
  function ExtrusionMoves(q: Queue, env: Env, destinations: seq<IntPoint>, config: GCodePathConfig): Queue
    decreases |destinations|
  {
    if destinations == [] then
      q
    else
      ExtrusionMove(ExtrusionMoves(q, env, destinations[..|destinations| - 1], config), env, Last(destinations), config)
  }

  /** Extrusion moves end on the last destination, keep both flags and queue one point per destination. */
  lemma {:induction false} ExtrusionMovesOutcome(q: Queue, env: Env, destinations: seq<IntPoint>, config: GCodePathConfig)
    ensures var r := ExtrusionMoves(q, env, destinations, config);
      && r.lastPosition == (if destinations == [] then q.lastPosition else Last(destinations))
      && r.forceRetraction == q.forceRetraction && r.canAppendTravel == q.canAppendTravel
      && TotalPoints(r.paths) == TotalPoints(q.paths) + |destinations|
    decreases |destinations|
  {
    if destinations != [] {
      var prefix := destinations[..|destinations| - 1];
      ExtrusionMovesOutcome(q, env, prefix, config);
      ExtrusionMoveOutcome(ExtrusionMoves(q, env, prefix, config), env, Last(destinations), config);
    }
  }

  /**
   * `r` is `q` with `points` appended, with configuration `config`, to the
   * path `GetLatestPathWithConfig` selects in `q`, and every earlier path kept.
   */
  predicate FilledOnePath(q: Queue, r: Queue, config: GCodePathConfig, points: seq<IntPoint>)
  {
    && |r.paths| == |q.paths| + (if ReusesLast(q.paths, config, false) then 0 else 1)
    && r.paths[..|r.paths| - 1] == q.paths[..|r.paths| - 1]
    && Last(r.paths).config == config && !Last(r.paths).done
    && Last(r.paths).polygon ==
      (if ReusesLast(q.paths, config, false) then Last(q.paths).polygon else []) + points
  }

  /**
   * Consecutive extrusion moves with one configuration all land in one
   * path: the one `GetLatestPathWithConfig` selects for the first move.
   */
  lemma {:induction false} ExtrusionMovesFillOnePath(q: Queue, env: Env, destinations: seq<IntPoint>, config: GCodePathConfig)
    requires destinations != []
    ensures FilledOnePath(q, ExtrusionMoves(q, env, destinations, config), config, Stamped(destinations, env.currentZ))
    decreases |destinations|
  {
    var n := |destinations|;
    var z := env.currentZ;
    var prefix := destinations[..n - 1];
    assert destinations == prefix + [Last(destinations)];
    StampedAppend(prefix, Last(destinations), z);
    if n == 1 {
      ExtrusionMoveOutcome(q, env, destinations[0], config);
      assert Stamped(destinations, z) == [AtZ(destinations[0], z)];
    } else {
      ExtrusionMovesFillOnePath(q, env, prefix, config);
      FillStep(q, ExtrusionMoves(q, env, prefix, config), env, Last(destinations), config, Stamped(prefix, z));
    }
  }

  /** One more extrusion move with the same configuration extends the filled path. */
  lemma FillStep(q: Queue, mid: Queue, env: Env, destination: IntPoint, config: GCodePathConfig, points: seq<IntPoint>)
    requires FilledOnePath(q, mid, config, points)
    ensures FilledOnePath(q, ExtrusionMove(mid, env, destination, config), config, points + [AtZ(destination, env.currentZ)])
  {
    assert ReusesLast(mid.paths, config, false);
    ExtrusionMoveOutcome(mid, env, destination, config);
  }

  lemma StampedAppend(points: seq<IntPoint>, p: IntPoint, z: int)
    ensures Stamped(points + [p], z) == Stamped(points, z) + [AtZ(p, z)]
  {
  }

  /** One more destination is one more extrusion move. */
  lemma ExtrusionMovesSnoc(q: Queue, env: Env, destinations: seq<IntPoint>, j: nat, config: GCodePathConfig)
    requires j < |destinations|
    ensures ExtrusionMoves(q, env, destinations[..j + 1], config) ==
      ExtrusionMove(ExtrusionMoves(q, env, destinations[..j], config), env, destinations[j], config)
  {
    assert destinations[..j + 1][..j] == destinations[..j];
  }

  /** The summed lengths of the legs from `start` through each via-point. */
  function RouteLength(start: IntPoint, via: seq<IntPoint>): nat
    decreases |via|
  {
    if via == [] then 0
    else
      var previous := if |via| == 1 then start else via[|via| - 2];
      RouteLength(start, via[..|via| - 1]) + Length(Last(via), previous)
  }

  /** One more via-point: its travel point is appended and its leg from the previous point is added. */
  lemma RouteSnoc(start: IntPoint, via: seq<IntPoint>, i: nat, z: int)
    requires i < |via|
    ensures TravelStamped(via[..i + 1], z) == TravelStamped(via[..i], z) + [TravelPoint(via[i], z)]
    ensures RouteLength(start, via[..i + 1])
            == RouteLength(start, via[..i]) + Length(via[i], if i == 0 then start else via[i - 1])
  {
    assert via[..i + 1][..i] == via[..i];
  }

  /** What the path finder answers for a travel from the last position, or a failure when there is none. */
  function RouteFor(start: IntPoint, env: Env, destination: IntPoint): Route
  {
    if env.pathFinder == null then Route(false, [])
    else env.pathFinder.createPathInsideBoundary(start, destination, true, env.layerIndex)
  }

  /** The via-points a travel passes through before its destination. */
  function ViaPoints(start: IntPoint, env: Env, destination: IntPoint): seq<IntPoint>
  {
    var route := RouteFor(start, env, destination);
    if env.pathFinder != null && route.found then route.polygon else []
  }

  /** The path finder's say on the retraction, starting from `forced`: a long found route or a failed one requests it. */
  function RoutedRetract(forced: RetractType, start: IntPoint, env: Env, destination: IntPoint): RetractType
  {
    var route := RouteFor(start, env, destination);
    if env.pathFinder == null then forced
    else if route.found then
      if |route.polygon| > 0 && RouteLength(start, route.polygon) > env.retractionMinimumDistance then Requested else forced
    else if LongerThen(start, destination, Geometry.TruncDiv(env.retractionMinimumDistance, 10)) then Requested
    else forced
  }

  /** The path list with the travel path `QueueTravel` writes into selected. */
  function TravelPaths(q: Queue, env: Env, forceUniquePath: bool): (r: seq<GCodePath>)
    ensures |r| > 0
  {
    WithLatestPath(q.paths, env.travelConfig, forceUniquePath || !q.canAppendTravel, env.extruder)
  }

  /**
   * `QueueTravel`: the via-points and then the destination, all at the
   * current height with width 0, are appended to a travel path; both
   * one-shot flags are consumed or set.
   */
  function Travel(q: Queue, env: Env, destination: IntPoint, forceUniquePath: bool): (r: Queue)
    ensures |r.paths| > 0
  {
    var ps := TravelPaths(q, env, forceUniquePath);
    var afterForce := if q.forceRetraction then Last(ps).(retract := Force) else Last(ps);
    Queue(ps[|ps| - 1 := ExtendTravel(afterForce, q.lastPosition, env, destination)], destination, false, !forceUniquePath)
  }

  /**
   * A travel consumes the pending forced retraction, ends on the destination
   * and leaves the travel path last, open and ending on the destination
   * point with width 0, with one point per via-point and one for the
   * destination added.
   */
  lemma TravelOutcome(q: Queue, env: Env, destination: IntPoint, forceUniquePath: bool)
    ensures var r := Travel(q, env, destination, forceUniquePath);
      && !r.forceRetraction && r.canAppendTravel == !forceUniquePath
      && r.lastPosition == destination
      && Last(r.paths).config == env.travelConfig && !Last(r.paths).done
      && Last(r.paths).polygon != [] && Last(Last(r.paths).polygon) == TravelPoint(destination, env.currentZ)
      && Last(Last(r.paths).polygon).Width == 0
      && TotalPoints(r.paths) == TotalPoints(q.paths) + |ViaPoints(q.lastPosition, env, destination)| + 1
  {
    var ps := TravelPaths(q, env, forceUniquePath);
    LatestPathSelection(q.paths, env.travelConfig, forceUniquePath || !q.canAppendTravel, env.extruder);
    var afterForce := if q.forceRetraction then Last(ps).(retract := Force) else Last(ps);
    var travelled := ExtendTravel(afterForce, q.lastPosition, env, destination);
    ExtendTravelOutcome(afterForce, q.lastPosition, env, destination);
    TotalPointsReplaceLast(ps, travelled);
  }

  /** Extending a travel path keeps its configuration and state and appends the via-points and the destination. */
  lemma ExtendTravelOutcome(afterForce: GCodePath, start: IntPoint, env: Env, destination: IntPoint)
    ensures var p := ExtendTravel(afterForce, start, env, destination);
      && p.config == afterForce.config && p.done == afterForce.done
      && p.polygon == afterForce.polygon + TravelStamped(ViaPoints(start, env, destination), env.currentZ) + [TravelPoint(destination, env.currentZ)]
  {
  }

  /** Replacing the last path changes the point count by the difference of the two paths' sizes. */
  lemma TotalPointsReplaceLast(paths: seq<GCodePath>, p: GCodePath)
    requires |paths| > 0
    ensures TotalPoints(paths[|paths| - 1 := p]) == TotalPoints(paths) - |Last(paths).polygon| + |p.polygon|
  {
    assert paths[|paths| - 1 := p][..|paths| - 1] == paths[..|paths| - 1];
  }

  /**
   * The selected travel path after the path finder's points and verdict,
   * the straight-distance check and the destination point, starting from
   * the path with any pending forced retraction already applied.
   */
  function ExtendTravel(afterForce: GCodePath, start: IntPoint, env: Env, destination: IntPoint): GCodePath
  {
    var routed := afterForce.(
      polygon := afterForce.polygon + TravelStamped(ViaPoints(start, env, destination), env.currentZ),
      retract := RoutedRetract(afterForce.retract, start, env, destination));
    var checked := if LongerThen(start, destination, env.retractionMinimumDistance) then routed.(retract := Requested) else routed;
    checked.(polygon := checked.polygon + [TravelPoint(destination, env.currentZ)])
  }

  /** A travel writes the extended selected path back in place of the selected one. */
  lemma TravelWrites(q: Queue, env: Env, destination: IntPoint, forceUniquePath: bool, ps: seq<GCodePath>, afterForce: GCodePath)
    requires ps == TravelPaths(q, env, forceUniquePath)
    requires afterForce == if q.forceRetraction then Last(ps).(retract := Force) else Last(ps)
    ensures Travel(q, env, destination, forceUniquePath) ==
      Queue(ps[|ps| - 1 := ExtendTravel(afterForce, q.lastPosition, env, destination)], destination, false, !forceUniquePath)
  {
  }

  /** The travel path before and after a travel; the one the travel wrote into. */
  function TravelledPath(q: Queue, env: Env, destination: IntPoint, forceUniquePath: bool): GCodePath
  {
    Last(Travel(q, env, destination, forceUniquePath).paths)
  }

  /** A travel following a forced-unique travel always opens a fresh path, and so does every forced-unique travel. */
  lemma TravelAfterUniqueOpensPath(q: Queue, env: Env, first: IntPoint, second: IntPoint, forceUniquePath: bool)
    ensures var q1 := Travel(q, env, first, true);
      |Travel(q1, env, second, forceUniquePath).paths| == |q1.paths| + 1 &&
      |q1.paths| == |q.paths| + 1
  {
    var q1 := Travel(q, env, first, true);
    LatestPathSelection(q.paths, env.travelConfig, true, env.extruder);
    TravelOutcome(q, env, first, true);
    LatestPathSelection(q1.paths, env.travelConfig, forceUniquePath || !q1.canAppendTravel, env.extruder);
  }

  /**
   * The retraction outcomes of a travel: a long straight move or a failed
   * route over a tenth of the threshold requests one (even over a forced
   * one), a pending forced retraction never leaves `None`, nothing resets a
   * retraction to `None`, and with no pending force and no trigger the
   * path keeps what it had.
   */
  lemma TravelRetraction(q: Queue, env: Env, destination: IntPoint, forceUniquePath: bool)
    ensures var prior := Last(TravelPaths(q, env, forceUniquePath)).retract;
      var r := TravelledPath(q, env, destination, forceUniquePath).retract;
      var route := RouteFor(q.lastPosition, env, destination);
      var longMove := LongerThen(q.lastPosition, destination, env.retractionMinimumDistance);
      var failedRoute := env.pathFinder != null && !route.found &&
        LongerThen(q.lastPosition, destination, Geometry.TruncDiv(env.retractionMinimumDistance, 10));
      var longRoute := env.pathFinder != null && route.found && |route.polygon| > 0 &&
        RouteLength(q.lastPosition, route.polygon) > env.retractionMinimumDistance;
      && (longMove ==> r == Requested)
      && (failedRoute ==> r == Requested)
      && (longRoute ==> r == Requested)
      && (q.forceRetraction ==> r != None)
      && (prior != None ==> r != None)
      && (!longMove && !failedRoute && !longRoute ==> r == if q.forceRetraction then Force else prior)
  {
  }

  /** A travel leaves every path before the travel path as it was, and only adds travel points to it. */
  lemma TravelKeepsEarlierPaths(q: Queue, env: Env, destination: IntPoint, forceUniquePath: bool)
    ensures var ps := TravelPaths(q, env, forceUniquePath);
      var r := Travel(q, env, destination, forceUniquePath);
      && |r.paths| == |ps|
      && r.paths[..|r.paths| - 1] == q.paths[..|r.paths| - 1]
      && Last(r.paths).polygon == Last(ps).polygon + TravelStamped(ViaPoints(q.lastPosition, env, destination), env.currentZ) + [TravelPoint(destination, env.currentZ)]
      && forall k :: |Last(ps).polygon| <= k < |Last(r.paths).polygon| ==> Last(r.paths).polygon[k].Width == 0
  {
    var ps := TravelPaths(q, env, forceUniquePath);
    var afterForce := if q.forceRetraction then Last(ps).(retract := Force) else Last(ps);
    var extended := ExtendTravel(afterForce, q.lastPosition, env, destination);
    TravelWrites(q, env, destination, forceUniquePath, ps, afterForce);
    ExtendTravelOutcome(afterForce, q.lastPosition, env, destination);
    LatestPathSelection(q.paths, env.travelConfig, forceUniquePath || !q.canAppendTravel, env.extruder);
    ReplaceLastKeepsPrefix(q.paths, ps, extended);
    TravelPointsHaveNoWidth(Last(ps).polygon, ViaPoints(q.lastPosition, env, destination), env.currentZ, destination);
  }

  /** Every point a travel appends after `base` has width 0. */
  lemma TravelPointsHaveNoWidth(base: seq<IntPoint>, via: seq<IntPoint>, z: int, destination: IntPoint)
    ensures var s := base + TravelStamped(via, z) + [TravelPoint(destination, z)];
      forall k :: |base| <= k < |s| ==> s[k].Width == 0
  {
    var added := TravelStamped(via, z) + [TravelPoint(destination, z)];
    var s := base + TravelStamped(via, z) + [TravelPoint(destination, z)];
    assert s == base + added;
    forall k | |base| <= k < |s|
      ensures s[k].Width == 0
    {
      assert s[k] == added[k - |base|];
    }
  }

  /** Replacing the last of a sequence of paths that extends `prefix` keeps everything before the last. */
  lemma ReplaceLastKeepsPrefix(prefix: seq<GCodePath>, ps: seq<GCodePath>, last: GCodePath)
    requires |prefix| <= |ps| <= |prefix| + 1 && |ps| > 0 && ps[..|prefix|] == prefix
    ensures var r := ps[|ps| - 1 := last];
      |r| == |ps| && Last(r) == last && r[..|r| - 1] == prefix[..|r| - 1]
  {
    var r := ps[|ps| - 1 := last];
    assert r[..|r| - 1] == ps[..|ps| - 1];
  }

  /**
   * The vertex indices `QueuePolygon` visits after starting at `startIndex`:
   * closed loops walk forward around the ring and come back to the start
   * (when there are more than two vertices); open polylines walk forward
   * from index 0, or backward around the ring from the start otherwise.
   */
  function PolygonOrder(n: nat, startIndex: nat, closedLoop: bool): (order: seq<nat>)
    requires startIndex < n
    ensures forall k :: 0 <= k < |order| ==> order[k] < n
  {
    if closedLoop then
      seq(n - 1, k => (startIndex + k + 1) % n) + (if n > 2 then [startIndex] else [])
    else if startIndex == 0 then
      seq(n - 1, k => k + 1)
    else
      seq(n - 1, k => (startIndex + n - 1 - k) % n)
  }

  /** Whether one of the first `count` entries of `order` is `j`. */
  predicate Visits(order: seq<nat>, count: int, j: int)
  {
    exists k :: 0 <= k < count && k < |order| && order[k] == j
  }

  /** Every index below `n` other than `skipped` is among the first `count` entries of `order`. */
  predicate VisitsAllBut(order: seq<nat>, count: int, n: int, skipped: int)
  {
    forall j :: 0 <= j < n && j != skipped ==> Visits(order, count, j)
  }

  /** For 0 <= x < 2n, x % n is x or x - n. */
  lemma ModOnce(x: int, n: int)
    requires 0 <= x < 2 * n
    ensures x % n == if x < n then x else x - n
  {
  }

  /** The entries of a closed loop's order without the modulus. */
  lemma ClosedLoopEntries(n: nat, startIndex: nat)
    requires startIndex < n
    ensures var order := PolygonOrder(n, startIndex, true);
      && |order| == (if n > 2 then n else n - 1)
      && (n > 2 ==> order[n - 1] == startIndex)
      && forall k :: 0 <= k < n - 1 ==> order[k] == if startIndex + k + 1 < n then startIndex + k + 1 else startIndex + k + 1 - n
  {
    var order := PolygonOrder(n, startIndex, true);
    forall k | 0 <= k < n - 1
      ensures order[k] == if startIndex + k + 1 < n then startIndex + k + 1 else startIndex + k + 1 - n
    {
      ModOnce(startIndex + k + 1, n);
    }
  }

  /**
   * A closed loop visits every other vertex exactly once going forward
   * around the ring, and with more than two vertices ends on the start.
   */
  lemma ClosedLoopOrder(n: nat, startIndex: nat)
    requires startIndex < n
    ensures var order := PolygonOrder(n, startIndex, true);
      && |order| == (if n > 2 then n else n - 1)
      && (n > 2 ==> Last(order) == startIndex)
      && (n > 1 ==> order[0] == (startIndex + 1) % n)
      && (forall k :: 0 < k < n - 1 ==> order[k] == (order[k - 1] + 1) % n)
      && (forall a, b :: 0 <= a < b < n - 1 ==> order[a] != order[b])
      && (forall k :: 0 <= k < n - 1 ==> order[k] != startIndex)
      && VisitsAllBut(order, n - 1, n, startIndex)
  {
    ClosedLoopEntries(n, startIndex);
    ClosedLoopShape(PolygonOrder(n, startIndex, true), n, startIndex);
  }

  /** The closed-loop properties of any order with the entries of `ClosedLoopEntries`. */
  lemma ClosedLoopShape(order: seq<nat>, n: nat, s: nat)
    requires s < n && |order| == (if n > 2 then n else n - 1)
    requires n > 2 ==> order[n - 1] == s
    requires forall k :: 0 <= k < n - 1 ==> order[k] == if s + k + 1 < n then s + k + 1 else s + k + 1 - n
    ensures n > 2 ==> Last(order) == s
    ensures n > 1 ==> order[0] == (s + 1) % n
    ensures forall k :: 0 < k < n - 1 ==> order[k] == (order[k - 1] + 1) % n
    ensures forall a, b :: 0 <= a < b < n - 1 ==> order[a] != order[b]
    ensures forall k :: 0 <= k < n - 1 ==> order[k] != s
    ensures VisitsAllBut(order, n - 1, n, s)
  {
    if n > 1 {
      ModOnce(s + 1, n);
    }
    forall k | 0 < k < n - 1
      ensures order[k] == (order[k - 1] + 1) % n
    {
      ModOnce(order[k - 1] + 1, n);
    }
    var count := n - 1;
    forall j | 0 <= j < n && j != s
      ensures Visits(order, count, j)
    {
      var k := if j > s then j - s - 1 else j + n - s - 1;
      assert order[k] == j;
    }
  }

  /**
   * An open polyline visits every vertex but the start exactly once:
   * ascending from 1 when it starts at 0, and otherwise backward around the
   * ring beginning just before the start.
   */
  lemma OpenPolylineOrder(n: nat, startIndex: nat)
    requires startIndex < n
    ensures var order := PolygonOrder(n, startIndex, false);
      && |order| == n - 1
      && (forall a, b :: 0 <= a < b < n - 1 ==> order[a] != order[b])
      && (forall k :: 0 <= k < n - 1 ==> order[k] != startIndex)
      && VisitsAllBut(order, n - 1, n, startIndex)
      && (startIndex == 0 ==> forall a, b :: 0 <= a < b < n - 1 ==> order[a] < order[b])
      && (startIndex != 0 ==> order[0] == startIndex - 1)
      && (startIndex != 0 ==> forall k :: 0 < k < n - 1 ==> order[k] == (order[k - 1] + n - 1) % n)
  {
    var order := PolygonOrder(n, startIndex, false);
    if startIndex == 0 {
      var count := n - 1;
      forall j | 0 <= j < n && j != 0
        ensures Visits(order, count, j)
      {
        assert order[j - 1] == j;
      }
    } else {
      forall k | 0 <= k < n - 1
        ensures order[k] == if k < startIndex then startIndex - 1 - k else startIndex + n - 1 - k
      {
        ModOnce(startIndex + n - 1 - k, n);
      }
      BackwardShape(order, n, startIndex);
    }
  }

  /** The backward-walk properties of any order with those entries. */
  lemma BackwardShape(order: seq<nat>, n: nat, s: nat)
    requires 0 < s < n && |order| == n - 1
    requires forall k :: 0 <= k < n - 1 ==> order[k] == if k < s then s - 1 - k else s + n - 1 - k
    ensures forall a, b :: 0 <= a < b < n - 1 ==> order[a] != order[b]
    ensures forall k :: 0 <= k < n - 1 ==> order[k] != s
    ensures VisitsAllBut(order, n - 1, n, s)
    ensures order[0] == s - 1
    ensures forall k :: 0 < k < n - 1 ==> order[k] == (order[k - 1] + n - 1) % n
  {
    forall k | 0 < k < n - 1
      ensures order[k] == (order[k - 1] + n - 1) % n
    {
      ModOnce(order[k - 1] + n - 1, n);
    }
    var count := n - 1;
    forall j | 0 <= j < n && j != s
      ensures Visits(order, count, j)
    {
      var k := if j < s then s - 1 - j else s + n - 1 - j;
      assert order[k] == j;
    }
  }

  /** The vertices at the given indices. */
  function Visit(polygon: seq<IntPoint>, order: seq<nat>): (r: seq<IntPoint>)
    requires forall k :: 0 <= k < |order| ==> order[k] < |polygon|
    ensures |r| == |order|
  {
    seq(|order|, k requires 0 <= k < |order| => polygon[order[k]])
  }

  /** The destinations of a closed-loop walk, entry by entry. */
  lemma ClosedLoopDestinations(polygon: seq<IntPoint>, startIndex: nat)
    requires startIndex < |polygon|
    ensures var n := |polygon|;
      var ds := Visit(polygon, PolygonOrder(n, startIndex, true));
      && |ds| == (if n > 2 then n else n - 1)
      && (forall k :: 0 <= k < n - 1 ==> ds[k] == polygon[(startIndex + k + 1) % n])
      && (n > 2 ==> ds[n - 1] == polygon[startIndex])
  {
  }

  /** The destinations of the open walk from vertex 0: every later vertex in ascending order. */
  lemma ForwardDestinations(polygon: seq<IntPoint>)
    requires 0 < |polygon|
    ensures var ds := Visit(polygon, PolygonOrder(|polygon|, 0, false));
      && |ds| == |polygon| - 1
      && forall k :: 0 <= k < |polygon| - 1 ==> ds[k] == polygon[k + 1]
  {
  }

  /** The destinations of an open walk from a later vertex, entry by entry. */
  lemma BackwardDestinations(polygon: seq<IntPoint>, startIndex: nat)
    requires 0 < startIndex < |polygon|
    ensures var n := |polygon|;
      var ds := Visit(polygon, PolygonOrder(n, startIndex, false));
      && |ds| == n - 1
      && forall k :: 0 <= k < n - 1 ==> ds[k] == polygon[(startIndex + n - 1 - k) % n]
  {
  }

  /** Whether `QueuePolygon` travels to the start vertex before extruding. */
  predicate NeedsTravel(q: Queue, polygon: seq<IntPoint>, startIndex: nat, config: GCodePathConfig)
    requires startIndex < |polygon|
  {
    !config.spiralize && DiffersInXY(q.lastPosition, polygon[startIndex])
  }

  /** `QueuePolygon`: an optional travel to the start vertex, then extrusion moves along `PolygonOrder`. */
  function PolygonMoves(q: Queue, env: Env, polygon: seq<IntPoint>, startIndex: nat, config: GCodePathConfig): Queue
    requires startIndex < |polygon|
  {
    var afterTravel := if NeedsTravel(q, polygon, startIndex, config) then Travel(q, env, polygon[startIndex], false) else q;
    ExtrusionMoves(afterTravel, env, Visit(polygon, PolygonOrder(|polygon|, startIndex, config.closedLoop)), config)
  }

  /**
   * What `QueuePolygon` queues: one point per visited vertex, plus the
   * travel's points exactly when the travel condition holds; the pending
   * forced retraction is consumed exactly when it travels; the visited
   * vertices end one path and the position is the last of them.
   */
  lemma PolygonMovesOutcome(q: Queue, env: Env, polygon: seq<IntPoint>, startIndex: nat, config: GCodePathConfig)
    requires startIndex < |polygon|
    ensures var order := PolygonOrder(|polygon|, startIndex, config.closedLoop);
      var travels := NeedsTravel(q, polygon, startIndex, config);
      var r := PolygonMoves(q, env, polygon, startIndex, config);
      && TotalPoints(r.paths) == TotalPoints(q.paths) + |order| +
        (if travels then |ViaPoints(q.lastPosition, env, polygon[startIndex])| + 1 else 0)
      && r.forceRetraction == (q.forceRetraction && !travels)
      && (order != [] ==> r.lastPosition == polygon[Last(order)])
      && (order != [] ==> Last(r.paths).config == config)
      && (order != [] ==> exists before :: Last(r.paths).polygon == before + Stamped(Visit(polygon, order), env.currentZ))
  {
    PolygonMovesCounts(q, env, polygon, startIndex, config);
    PolygonMovesPath(q, env, polygon, startIndex, config);
  }

  /** The point count, the pending forced retraction and the last position after `QueuePolygon`. */
  lemma PolygonMovesCounts(q: Queue, env: Env, polygon: seq<IntPoint>, startIndex: nat, config: GCodePathConfig)
    requires startIndex < |polygon|
    ensures var order := PolygonOrder(|polygon|, startIndex, config.closedLoop);
      var travels := NeedsTravel(q, polygon, startIndex, config);
      var r := PolygonMoves(q, env, polygon, startIndex, config);
      && TotalPoints(r.paths) == TotalPoints(q.paths) + |order| +
        (if travels then |ViaPoints(q.lastPosition, env, polygon[startIndex])| + 1 else 0)
      && r.forceRetraction == (q.forceRetraction && !travels)
      && (order != [] ==> r.lastPosition == polygon[Last(order)])
  {
    var order := PolygonOrder(|polygon|, startIndex, config.closedLoop);
    var ds := Visit(polygon, order);
    var travels := NeedsTravel(q, polygon, startIndex, config);
    var afterTravel := if travels then Travel(q, env, polygon[startIndex], false) else q;
    if travels {
      TravelOutcome(q, env, polygon[startIndex], false);
    }
    ExtrusionMovesOutcome(afterTravel, env, ds, config);
    if order != [] {
      assert Last(ds) == polygon[Last(order)];
    }
  }

  /** After `QueuePolygon` the visited vertices, at the current height, end the last path, which has the polygon's configuration. */
  lemma PolygonMovesPath(q: Queue, env: Env, polygon: seq<IntPoint>, startIndex: nat, config: GCodePathConfig)
    requires startIndex < |polygon|
    ensures var order := PolygonOrder(|polygon|, startIndex, config.closedLoop);
      var r := PolygonMoves(q, env, polygon, startIndex, config);
      && (order != [] ==> Last(r.paths).config == config)
      && (order != [] ==> exists before :: Last(r.paths).polygon == before + Stamped(Visit(polygon, order), env.currentZ))
  {
    var order := PolygonOrder(|polygon|, startIndex, config.closedLoop);
    var afterTravel := if NeedsTravel(q, polygon, startIndex, config) then Travel(q, env, polygon[startIndex], false) else q;
    if order != [] {
      var ds := Visit(polygon, order);
      ExtrusionMovesFillOnePath(afterTravel, env, ds, config);
      var before := if ReusesLast(afterTravel.paths, config, false) then Last(afterTravel.paths).polygon else [];
      assert Last(ExtrusionMoves(afterTravel, env, ds, config).paths).polygon == before + Stamped(ds, env.currentZ);
    }
  }

  /** A closed polygon of more than two vertices ends on its start vertex. */
  lemma ClosedPolygonEndsAtStart(q: Queue, env: Env, polygon: seq<IntPoint>, startIndex: nat, config: GCodePathConfig)
    requires startIndex < |polygon| && config.closedLoop && |polygon| > 2
    ensures PolygonMoves(q, env, polygon, startIndex, config).lastPosition == polygon[startIndex]
    ensures var r := PolygonMoves(q, env, polygon, startIndex, config);
      Last(Last(r.paths).polygon) == AtZ(polygon[startIndex], env.currentZ)
  {
    var order := PolygonOrder(|polygon|, startIndex, true);
    ClosedLoopOrder(|polygon|, startIndex);
    PolygonMovesOutcome(q, env, polygon, startIndex, config);
    var r := PolygonMoves(q, env, polygon, startIndex, config);
    var before :| Last(r.paths).polygon == before + Stamped(Visit(polygon, order), env.currentZ);
    assert Last(Last(r.paths).polygon) == Last(Stamped(Visit(polygon, order), env.currentZ));
  }

  /** The number of extrusion points `QueuePolygons` queues at least: every vertex but the first of each polygon. */
  function OpenPoints(polygons: seq<seq<IntPoint>>): nat
  {
    if polygons == [] then 0 else OpenPoints(polygons[..|polygons| - 1]) + (if |Last(polygons)| > 0 then |Last(polygons)| - 1 else 0)
  }

  /** Every polygon has a vertex (indexing an empty one fails in the source). */
  predicate AllNonEmpty(polygons: seq<seq<IntPoint>>)
  {
    forall i :: 0 <= i < |polygons| ==> |polygons[i]| > 0
  }

  /** `QueuePolygons`: each polygon in turn, from vertex 0; it queues at least one point per vertex beyond the first. */
  function PolygonsMoves(q: Queue, env: Env, polygons: seq<seq<IntPoint>>, config: GCodePathConfig): (r: Queue)
    requires AllNonEmpty(polygons)
    ensures TotalPoints(r.paths) >= TotalPoints(q.paths) + OpenPoints(polygons)
    decreases |polygons|
  {
    if polygons == [] then q
    else
      var mid := PolygonsMoves(q, env, polygons[..|polygons| - 1], config);
      var polygon := Last(polygons);
      PolygonMovesOutcome(mid, env, polygon, 0, config);
      assert |PolygonOrder(|polygon|, 0, config.closedLoop)| >= |polygon| - 1;
      PolygonMoves(mid, env, polygon, 0, config)
  }

  /** One more polygon is one more `QueuePolygon` from vertex 0. */
  lemma PolygonsMovesSnoc(q: Queue, env: Env, polygons: seq<seq<IntPoint>>, i: nat, config: GCodePathConfig)
    requires AllNonEmpty(polygons) && i < |polygons|
    ensures AllNonEmpty(polygons[..i]) && AllNonEmpty(polygons[..i + 1])
    ensures PolygonsMoves(q, env, polygons[..i + 1], config) ==
      PolygonMoves(PolygonsMoves(q, env, polygons[..i], config), env, polygons[i], 0, config)
  {
    assert polygons[..i + 1][..i] == polygons[..i];
  }

  /** What the path order optimizer answers: the polygons' order, and a start vertex per polygon. */
  datatype Ordering = Ordering(islandOrder: seq<nat>, startIndexInPolygon: seq<nat>)

  /** The optimizer's answer names existing polygons and a vertex of each. */
  predicate FitsPolygons(ordering: Ordering, polygons: seq<seq<IntPoint>>)
  {
    && |ordering.startIndexInPolygon| == |polygons|
    && (forall i :: 0 <= i < |ordering.islandOrder| ==> ordering.islandOrder[i] < |polygons|)
    && (forall j :: 0 <= j < |polygons| ==> ordering.startIndexInPolygon[j] < |polygons[j]|)
  }

  /** `QueuePolygonsByOptimizer`'s loop: the polygons in the optimizer's order, each from its chosen start. */
  function OrderedPolygonMoves(q: Queue, env: Env, polygons: seq<seq<IntPoint>>, ordering: Ordering, count: nat, config: GCodePathConfig): (r: Queue)
    requires FitsPolygons(ordering, polygons) && count <= |ordering.islandOrder|
    ensures TotalPoints(r.paths) >= TotalPoints(q.paths)
    decreases count
  {
    if count == 0 then q
    else
      var mid := OrderedPolygonMoves(q, env, polygons, ordering, count - 1, config);
      var index := ordering.islandOrder[count - 1];
      PolygonMovesOutcome(mid, env, polygons[index], ordering.startIndexInPolygon[index], config);
      PolygonMoves(mid, env, polygons[index], ordering.startIndexInPolygon[index], config)
  }

  /** `QueueFanCommand`: a fresh path carrying only the fan percentage. */
  function FanCommand(q: Queue, env: Env, fanSpeedPercent: int, config: GCodePathConfig): Queue
  {
    q.(paths := q.paths + [NewPath(config, env.extruder).(fanPercent := fanSpeedPercent)])
  }

  /** A fan command adds one empty path carrying the percentage and changes nothing else. */
  lemma FanCommandOutcome(q: Queue, env: Env, fanSpeedPercent: int, config: GCodePathConfig)
    ensures var r := FanCommand(q, env, fanSpeedPercent, config);
      && |r.paths| == |q.paths| + 1 && r.paths[..|q.paths|] == q.paths
      && Last(r.paths).fanPercent == fanSpeedPercent && Last(r.paths).polygon == []
      && TotalPoints(r.paths) == TotalPoints(q.paths)
      && r.lastPosition == q.lastPosition && r.forceRetraction == q.forceRetraction && r.canAppendTravel == q.canAppendTravel
  {
    var r := FanCommand(q, env, fanSpeedPercent, config);
    assert r.paths[..|q.paths|] == q.paths;
  }

  /** Replacing the element just appended is appending the replacement instead. */
  lemma ReplaceAppended(paths: seq<GCodePath>, appended: GCodePath, replacement: GCodePath)
    ensures (paths + [appended])[|paths| := replacement] == paths + [replacement]
  {
  }

  function Max(a: int, b: int): int
  {
    if a < b then b else a
  }

  /** `FinalizeLayerFanSpeeds`' update: each fan-marker path's percentage raised to at least the layer's. */
  function RaiseFanMarkers(paths: seq<GCodePath>, markers: seq<nat>, layerFanPercent: int): (r: seq<GCodePath>)
    ensures |r| == |paths|
  {
    seq(|paths|, i requires 0 <= i < |paths| =>
      if i in markers then paths[i].(fanPercent := Max(paths[i].fanPercent, layerFanPercent)) else paths[i])
  }

  /** Raising one more marker updates that one path on top of the markers raised so far. */
  lemma RaiseFanMarkersSnoc(paths: seq<GCodePath>, markers: seq<nat>, i: nat, layerFanPercent: int)
    requires i < |markers| && markers[i] < |paths|
    ensures var raised := RaiseFanMarkers(paths, markers[..i], layerFanPercent);
      var m := markers[i];
      RaiseFanMarkers(paths, markers[..i + 1], layerFanPercent) ==
        raised[m := raised[m].(fanPercent := Max(raised[m].fanPercent, layerFanPercent))]
  {
    var raised := RaiseFanMarkers(paths, markers[..i], layerFanPercent);
    var m := markers[i];
    var next := RaiseFanMarkers(paths, markers[..i + 1], layerFanPercent);
    assert markers[..i + 1] == markers[..i] + [m];
    forall j | 0 <= j < |paths|
      ensures next[j] == raised[m := raised[m].(fanPercent := Max(raised[m].fanPercent, layerFanPercent))][j]
    {
      assert (j in markers[..i + 1]) == (j in markers[..i] || j == m);
    }
  }

  /**
   * Raising the markers never lowers a percentage, lifts every marker to at
   * least the layer's percentage, keeps the marker's own percentage when it
   * was already higher, and touches nothing but the markers' percentages.
   */
  lemma RaiseFanMarkersOutcome(paths: seq<GCodePath>, markers: seq<nat>, layerFanPercent: int)
    ensures var r := RaiseFanMarkers(paths, markers, layerFanPercent);
      forall i :: 0 <= i < |paths| ==>
        && r[i].fanPercent >= paths[i].fanPercent
        && (i in markers ==> r[i].fanPercent >= layerFanPercent)
        && (r[i].fanPercent == paths[i].fanPercent || (i in markers && r[i].fanPercent == layerFanPercent))
        && r[i].(fanPercent := paths[i].fanPercent) == paths[i]
        && (i !in markers ==> r[i] == paths[i])
  {
  }

  /** Raising the markers twice with one percentage is raising them once. */
  lemma RaiseFanMarkersIdempotent(paths: seq<GCodePath>, markers: seq<nat>, layerFanPercent: int)
    ensures RaiseFanMarkers(RaiseFanMarkers(paths, markers, layerFanPercent), markers, layerFanPercent) ==
      RaiseFanMarkers(paths, markers, layerFanPercent)
  {
  }

  /** The last point queued over all paths, if any. */
  function LastQueuedPoint(paths: seq<GCodePath>): Geometry.Option<IntPoint>
  {
    if paths == [] then Geometry.None
    else if Last(paths).polygon != [] then Geometry.Some(Last(Last(paths).polygon))
    else LastQueuedPoint(paths[..|paths| - 1])
  }

  /** The last position agrees in X and Y with the last queued point, when there is one. */
  predicate TracksLastPosition(q: Queue)
  {
    match LastQueuedPoint(q.paths)
    case None => true
    case Some(p) => !DiffersInXY(p, q.lastPosition)
  }

  /** Whatever came before, an extrusion move leaves the last position on the last queued point. */
  lemma ExtrusionTracksLastPosition(q: Queue, env: Env, destination: IntPoint, config: GCodePathConfig)
    ensures TracksLastPosition(ExtrusionMove(q, env, destination, config))
  {
    ExtrusionMoveOutcome(q, env, destination, config);
  }

  /** Whatever came before, a travel leaves the last position on the last queued point. */
  lemma TravelTracksLastPosition(q: Queue, env: Env, destination: IntPoint, forceUniquePath: bool)
    ensures TracksLastPosition(Travel(q, env, destination, forceUniquePath))
  {
    TravelOutcome(q, env, destination, forceUniquePath);
  }

  /** Two path lists with the same point lists have the same last queued point. */
  lemma {:induction false} SamePointsSameLastPoint(a: seq<GCodePath>, b: seq<GCodePath>)
    requires |a| == |b| && forall i :: 0 <= i < |a| ==> a[i].polygon == b[i].polygon
    ensures LastQueuedPoint(a) == LastQueuedPoint(b)
    decreases |a|
  {
    if a != [] {
      SamePointsSameLastPoint(a[..|a| - 1], b[..|b| - 1]);
    }
  }

  /** Appending a path with no points keeps the last position tracked. */
  lemma EmptyPathKeepsTracking(q: Queue, p: GCodePath)
    requires TracksLastPosition(q) && p.polygon == []
    ensures TracksLastPosition(q.(paths := q.paths + [p]))
  {
    assert (q.paths + [p])[..|q.paths|] == q.paths;
  }

  /** A fan command, a marker update or closing the last path keep the last position tracked. */
  lemma BookkeepingKeepsTracking(q: Queue, env: Env, percent: int, config: GCodePathConfig, markers: seq<nat>)
    requires TracksLastPosition(q)
    ensures TracksLastPosition(FanCommand(q, env, percent, config))
    ensures TracksLastPosition(q.(paths := RaiseFanMarkers(q.paths, markers, percent)))
    ensures q.paths != [] ==> TracksLastPosition(q.(paths := q.paths[|q.paths| - 1 := Last(q.paths).(done := true)]))
  {
    var f := FanCommand(q, env, percent, config);
    FanCommandOutcome(q, env, percent, config);
    assert f.paths[..|f.paths| - 1] == q.paths;
    SamePointsSameLastPoint(q.paths, RaiseFanMarkers(q.paths, markers, percent));
    if q.paths != [] {
      SamePointsSameLastPoint(q.paths, q.paths[|q.paths| - 1 := Last(q.paths).(done := true)]);
    }
  }

  /** After `ForceNewPathStart`, the next extrusion move opens a fresh path whatever its configuration. */
  lemma DoneLastPathForcesNewPath(q: Queue, env: Env, destination: IntPoint, config: GCodePathConfig)
    requires q.paths != []
    ensures var closed := q.(paths := q.paths[|q.paths| - 1 := Last(q.paths).(done := true)]);
      |ExtrusionMove(closed, env, destination, config).paths| == |q.paths| + 1
  {
    var closed := q.(paths := q.paths[|q.paths| - 1 := Last(q.paths).(done := true)]);
    ExtrusionMoveOutcome(closed, env, destination, config);
  }
}
