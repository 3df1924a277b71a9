/*
 * The layer planner of MatterSliceLib/LayerGCodePlanner.cs as a class: the
 * queue fields it updates in place, and one method per queue operation,
 * each proved against the function of module LayerQueue that says what it
 * does to the queue. The G-code exporter it writes to is not modelled; the
 * position, extruder, height and layer index it reads from it are
 * constructor arguments and fields.
 */
module Planner {
  import Geometry
  import opened GCodePaths
  import opened LayerQueue
  import opened FanControl

  /** `Math.Max(0, Math.Min(1, x))`: x clamped into [0, 1]. */
  function Clamp01(x: real): (r: real)
    ensures 0.0 <= r <= 1.0
    ensures 0.0 <= x <= 1.0 ==> r == x
    ensures x < 0.0 ==> r == 0.0
    ensures x > 1.0 ==> r == 1.0
  {
    var upper := if 1.0 < x then 1.0 else x;
    if 0.0 < upper then upper else 0.0
  }

  /** Whether a path's speed may be scaled for the minimum layer time: it extrudes and is not a bridge. */
  predicate PathCanAdjustSpeed(path: GCodePath)
  {
    path.config.lineWidthUM > 0 && path.config.gcodeComment != "BRIDGE"
  }

  /** With the travel configuration at width 0, the path a travel ends on never has its speed scaled. */
  lemma TravelPathNotAdjustable(q: LayerQueue.Queue, env: LayerQueue.Env, destination: IntPoint, forceUniquePath: bool)
    requires env.travelConfig.lineWidthUM == 0
    ensures !PathCanAdjustSpeed(Last(Travel(q, env, destination, forceUniquePath).paths))
  {
    TravelOutcome(q, env, destination, forceUniquePath);
  }

  /**
   * The path an extrusion move ends on may have its speed scaled exactly
   * when the move's configuration extrudes and is not a bridge.
   */
  lemma ExtrusionPathAdjustable(q: LayerQueue.Queue, env: LayerQueue.Env, destination: IntPoint, config: GCodePathConfig)
    ensures PathCanAdjustSpeed(Last(ExtrusionMove(q, env, destination, config).paths))
      <==> config.lineWidthUM > 0 && config.gcodeComment != "BRIDGE"
  {
    ExtrusionMoveOutcome(q, env, destination, config);
  }

  /** The optimizer that chooses an order and start vertices for a set of polygons; its search is not modelled. */
  type Optimizer = (IntPoint, seq<seq<IntPoint>>, PathFinder?, int, GCodePathConfig) -> Ordering

  class LayerGCodePlanner {
    var paths: seq<GCodePath>
    var lastPosition: IntPoint
    var forceRetraction: bool
    var canAppendTravel: bool
    var currentExtruderIndex: int
    /** The fan-marker paths, as indices into `paths`. */
    var queuedFanSpeeds: seq<nat>
    var pathFinder: PathFinder?
    var lastValidPathFinder: PathFinder?
    var currentZ: int
    var layerTime: real

    const travelConfig: GCodePathConfig
    const retractionMinimumDistance: int
    const perimeterStartEndOverlapRatio: real
    /** The layer index of the exporter, passed to the path finder. */
    const exportLayerIndex: int
    const settings: FanSettings

    /** The queue state the operations of LayerQueue act on. */
    ghost function Queue(): LayerQueue.Queue
      reads this`paths, this`lastPosition, this`forceRetraction, this`canAppendTravel
    {
      LayerQueue.Queue(paths, lastPosition, forceRetraction, canAppendTravel)
    }

    /** What the queue operations read without changing. */
    ghost function Env(): LayerQueue.Env
      reads this`currentExtruderIndex, this`currentZ, this`pathFinder
    {
      LayerQueue.Env(travelConfig, currentExtruderIndex, currentZ, pathFinder, exportLayerIndex, retractionMinimumDistance)
    }

    /**
     * The planner's invariant: every fan marker names a queued path, the
     * last position is where the last queued point is, travel paths do not
     * extrude, and a set path finder is also the last valid one.
     */
    ghost predicate Valid()
      reads this`paths, this`lastPosition, this`forceRetraction, this`canAppendTravel,
        this`queuedFanSpeeds, this`pathFinder, this`lastValidPathFinder
    {
      && (forall i :: 0 <= i < |queuedFanSpeeds| ==> queuedFanSpeeds[i] < |paths|)
      && TracksLastPosition(Queue())
      && travelConfig.lineWidthUM == 0
      && (pathFinder != null ==> lastValidPathFinder == pathFinder)
    }

    constructor (settings: FanSettings, startPosition: IntPoint, extruderIndex: int, currentZ: int, layerIndex: int,
                 travelSpeed: int, retractionMinimumDistance: int, perimeterStartEndOverlap: real)
      ensures Valid()
      ensures paths == [] && queuedFanSpeeds == [] && lastPosition == startPosition
      ensures !forceRetraction && canAppendTravel
      ensures currentExtruderIndex == extruderIndex && this.currentZ == currentZ && exportLayerIndex == layerIndex
      ensures pathFinder == null && lastValidPathFinder == null && layerTime == 0.0
      ensures fresh(travelConfig) && travelConfig.speed == travelSpeed && travelConfig.lineWidthUM == 0
      ensures this.retractionMinimumDistance == retractionMinimumDistance && this.settings == settings
      ensures perimeterStartEndOverlapRatio == Clamp01(perimeterStartEndOverlap)
      ensures 0.0 <= perimeterStartEndOverlapRatio <= 1.0
    {
      this.settings := settings;
      travelConfig := new GCodePathConfig(travelSpeed, 0, "travel", false, false);
      lastPosition := startPosition;
      forceRetraction := false;
      canAppendTravel := true;
      currentExtruderIndex := extruderIndex;
      this.retractionMinimumDistance := retractionMinimumDistance;
      perimeterStartEndOverlapRatio := Clamp01(perimeterStartEndOverlap);
      paths := [];
      queuedFanSpeeds := [];
      pathFinder := null;
      lastValidPathFinder := null;
      this.currentZ := currentZ;
      exportLayerIndex := layerIndex;
      layerTime := 0.0;
    }

    /** The `CurrentZ` setter: later points are stamped with the new height. */
    method SetCurrentZ(z: int)
      modifies this`currentZ
      ensures currentZ == z && Env() == old(Env()).(currentZ := z)
    {
      currentZ := z;
    }

    /** The `PathFinder` setter: the path finder becomes `value`; the last valid one is the last non-null value set. */
    method SetPathFinder(value: PathFinder?)
      requires Valid()
      modifies this`pathFinder, this`lastValidPathFinder
      ensures Valid()
      ensures pathFinder == value
      ensures lastValidPathFinder == if value != null then value else old(lastValidPathFinder)
    {
      if value != null && lastValidPathFinder != value {
        lastValidPathFinder := value;
      }
      pathFinder := value;
    }

    function GetExtruder(): (r: int)
      reads this`currentExtruderIndex
    {
      currentExtruderIndex
    }

    /** A tool change is required exactly when the extruder differs from the current one. */
    function ToolChangeRequired(extruder: int): (r: bool)
      reads this`currentExtruderIndex
      ensures r <==> extruder != GetExtruder()
    {
      if extruder == currentExtruderIndex then false else true
    }

    /** After selecting an extruder it is the current one, and no tool change to it is required. */
    method SetExtruder(extruder: int)
      modifies this`currentExtruderIndex
      ensures GetExtruder() == extruder && !ToolChangeRequired(extruder)
      ensures forall other :: other != extruder ==> ToolChangeRequired(other)
      ensures Env() == old(Env()).(extruder := extruder)
    {
      currentExtruderIndex := extruder;
    }

    /** The next travel retracts with `Force`. */
    method ForceRetract()
      requires Valid()
      modifies this`forceRetraction
      ensures Valid()
      ensures Queue() == old(Queue()).(forceRetraction := true)
    {
      forceRetraction := true;
    }

    /** Marks the last path done, so that the next move opens a new path. */
    method ForceNewPathStart()
      requires Valid()
      modifies this`paths
      ensures Valid()
      ensures old(paths) == [] ==> paths == []
      ensures old(paths) != [] ==> paths == old(paths)[|old(paths)| - 1 := Last(old(paths)).(done := true)]
    {
      if |paths| > 0 {
        BookkeepingKeepsTracking(Queue(), Env(), 0, travelConfig, []);
        paths := paths[|paths| - 1 := paths[|paths| - 1].(done := true)];
      }
    }

    /** Appends a fresh path with the configuration on the current extruder and returns its index. */
    method GetNewPath(config: GCodePathConfig) returns (index: nat)
      requires Valid()
      modifies this`paths
      ensures paths == old(paths) + [NewPath(config, currentExtruderIndex)]
      ensures index == |old(paths)| && index < |paths|
      ensures Valid()
    {
      var path := NewPath(config, currentExtruderIndex);
      EmptyPathKeepsTracking(Queue(), path);
      paths := paths + [path];
      index := |paths| - 1;
    }

    /** Returns the index of the path to append to: the last path when it can be reused, else a fresh one. */
    method GetLatestPathWithConfig(config: GCodePathConfig, forceUniquePath: bool) returns (index: nat)
      requires Valid()
      modifies this`paths
      ensures paths == WithLatestPath(old(paths), config, forceUniquePath, currentExtruderIndex)
      ensures index == |paths| - 1
      ensures Valid()
    {
      if !forceUniquePath && |paths| > 0 && paths[|paths| - 1].config == config && !paths[|paths| - 1].done {
        return |paths| - 1;
      }
      index := GetNewPath(config);
    }

    /** `QueueExtrusionMove`. */
    method QueueExtrusionMove(destination: IntPoint, config: GCodePathConfig)
      requires Valid()
      modifies this`paths, this`lastPosition
      ensures Valid()
      ensures Queue() == ExtrusionMove(old(Queue()), Env(), destination, config)
    {
      ghost var q0 := Queue();
      var k := GetLatestPathWithConfig(config, false);
      paths := paths[k := paths[k].(polygon := paths[k].polygon + [AtZ(destination, currentZ)])];
      lastPosition := destination;
      ExtrusionTracksLastPosition(q0, Env(), destination, config);
    }

    /** `QueuePolygon`: a travel to the start vertex when needed, then the vertices in walking order. */
    method QueuePolygon(polygon: seq<IntPoint>, startIndex: nat, config: GCodePathConfig)
      requires Valid() && startIndex < |polygon|
      modifies this`paths, this`lastPosition, this`forceRetraction, this`canAppendTravel
      ensures Valid()
      ensures Queue() == PolygonMoves(old(Queue()), Env(), polygon, startIndex, config)
    {
      ghost var q0 := Queue();
      var currentPosition := polygon[startIndex];
      if !config.spiralize && (lastPosition.X != currentPosition.X || lastPosition.Y != currentPosition.Y) {
        QueueTravel(currentPosition, false);
      }
      if config.closedLoop {
        QueueClosedLoop(polygon, startIndex, config);
      } else if startIndex == 0 {
        QueueForward(polygon, config);
      } else {
        QueueBackward(polygon, startIndex, config);
      }
    }

    /** The closed-loop walk of `QueuePolygon`: forward around the ring from the start, then back to it. */
    method QueueClosedLoop(polygon: seq<IntPoint>, startIndex: nat, config: GCodePathConfig)
      requires Valid() && startIndex < |polygon|
      modifies this`paths, this`lastPosition
      ensures Valid()
      ensures Queue() == ExtrusionMoves(old(Queue()), Env(), Visit(polygon, PolygonOrder(|polygon|, startIndex, true)), config)
    {
      ghost var q1 := Queue();
      var n := |polygon|;
      ghost var ds := Visit(polygon, PolygonOrder(n, startIndex, true));
      ClosedLoopDestinations(polygon, startIndex);
      QueueRing(polygon, startIndex, q1, ds, config);
      if n > 2 {
        QueueWalkStep(q1, ds, n - 1, polygon[startIndex], config);
        assert ds[..n] == ds;
      } else {
        assert ds[..n - 1] == ds;
      }
    }

    /** The loop of a closed-loop walk: every vertex after the start, once around the ring. */
    method QueueRing(polygon: seq<IntPoint>, startIndex: nat, ghost q1: LayerQueue.Queue, ghost ds: seq<IntPoint>,
                     config: GCodePathConfig)
      requires Valid() && startIndex < |polygon| && Queue() == q1 && |polygon| - 1 <= |ds|
      requires forall k :: 0 <= k < |polygon| - 1 ==> ds[k] == polygon[(startIndex + k + 1) % |polygon|]
      modifies this`paths, this`lastPosition
      ensures Valid()
      ensures Queue() == ExtrusionMoves(q1, Env(), ds[..|polygon| - 1], config)
    {
      var n := |polygon|;
      var positionIndex := 1;
      while positionIndex < n
        invariant 1 <= positionIndex <= n
        invariant Valid()
        invariant Queue() == ExtrusionMoves(q1, Env(), ds[..positionIndex - 1], config)
      {
        var destination := polygon[(startIndex + positionIndex) % n];
        assert destination == ds[positionIndex - 1];
        QueueWalkStep(q1, ds, positionIndex - 1, destination, config);
        positionIndex := positionIndex + 1;
      }
    }

    /** One vertex of a polygon walk: the queue advances by the next destination of `ds`. */
    method QueueWalkStep(ghost q1: LayerQueue.Queue, ghost ds: seq<IntPoint>, ghost j: nat, destination: IntPoint,
                         config: GCodePathConfig)
      requires Valid() && j < |ds| && destination == ds[j]
      requires Queue() == ExtrusionMoves(q1, Env(), ds[..j], config)
      modifies this`paths, this`lastPosition
      ensures Valid()
      ensures Queue() == ExtrusionMoves(q1, Env(), ds[..j + 1], config)
    {
      ExtrusionMovesSnoc(q1, Env(), ds, j, config);
      QueueExtrusionMove(destination, config);
    }

    /** The open walk of `QueuePolygon` from vertex 0: every later vertex in ascending order. */
    method QueueForward(polygon: seq<IntPoint>, config: GCodePathConfig)
      requires Valid() && 0 < |polygon|
      modifies this`paths, this`lastPosition
      ensures Valid()
      ensures Queue() == ExtrusionMoves(old(Queue()), Env(), Visit(polygon, PolygonOrder(|polygon|, 0, false)), config)
    {
      ghost var q1 := Queue();
      var n := |polygon|;
      ghost var ds := Visit(polygon, PolygonOrder(n, 0, false));
      ForwardDestinations(polygon);
      var positionIndex := 1;
      while positionIndex < n
        invariant 1 <= positionIndex <= n
        invariant Valid()
        invariant Queue() == ExtrusionMoves(q1, Env(), ds[..positionIndex - 1], config)
      {
        QueueForwardStep(polygon, q1, ds, positionIndex, config);
        positionIndex := positionIndex + 1;
      }
      assert ds[..|ds|] == ds;
    }

    /** One step of `QueueForward`: the extrusion move to vertex `positionIndex`. */
    method QueueForwardStep(polygon: seq<IntPoint>, ghost q1: LayerQueue.Queue, ghost ds: seq<IntPoint>,
                            positionIndex: nat, config: GCodePathConfig)
      requires Valid() && 1 <= positionIndex < |polygon| && |ds| == |polygon| - 1
      requires forall k :: 0 <= k < |polygon| - 1 ==> ds[k] == polygon[k + 1]
      requires Queue() == ExtrusionMoves(q1, Env(), ds[..positionIndex - 1], config)
      modifies this`paths, this`lastPosition
      ensures Valid()
      ensures Queue() == ExtrusionMoves(q1, Env(), ds[..positionIndex], config)
    {
      assert polygon[positionIndex] == ds[positionIndex - 1];
      QueueWalkStep(q1, ds, positionIndex - 1, polygon[positionIndex], config);
    }

    /** The open walk of `QueuePolygon` from a later vertex: backward around the ring, ending after vertex 0. */
    method QueueBackward(polygon: seq<IntPoint>, startIndex: nat, config: GCodePathConfig)
      requires Valid() && 0 < startIndex < |polygon|
      modifies this`paths, this`lastPosition
      ensures Valid()
      ensures Queue() == ExtrusionMoves(old(Queue()), Env(), Visit(polygon, PolygonOrder(|polygon|, startIndex, false)), config)
    {
      ghost var q1 := Queue();
      var n := |polygon|;
      ghost var ds := Visit(polygon, PolygonOrder(n, startIndex, false));
      BackwardDestinations(polygon, startIndex);
      var positionIndex := n - 1;
      while positionIndex >= 1
        invariant 0 <= positionIndex <= n - 1
        invariant Valid()
        invariant Queue() == ExtrusionMoves(q1, Env(), ds[..n - 1 - positionIndex], config)
      {
        QueueBackwardStep(polygon, startIndex, q1, ds, positionIndex, config);
        positionIndex := positionIndex - 1;
      }
      assert positionIndex == 0 && |ds| == n - 1;
      assert ds[..n - 1 - positionIndex] == ds;
    }

    /** One vertex of the backward walk: the vertex `positionIndex` places after the start. */
    method QueueBackwardStep(polygon: seq<IntPoint>, startIndex: nat, ghost q1: LayerQueue.Queue, ghost ds: seq<IntPoint>,
                             positionIndex: nat, config: GCodePathConfig)
      requires Valid() && 1 <= positionIndex < |polygon| && |ds| == |polygon| - 1
      requires forall k :: 0 <= k < |polygon| - 1 ==> ds[k] == polygon[(startIndex + |polygon| - 1 - k) % |polygon|]
      requires Queue() == ExtrusionMoves(q1, Env(), ds[..|polygon| - 1 - positionIndex], config)
      modifies this`paths, this`lastPosition
      ensures Valid()
      ensures Queue() == ExtrusionMoves(q1, Env(), ds[..|polygon| - positionIndex], config)
    {
      var n := |polygon|;
      var destination := polygon[(startIndex + positionIndex) % n];
      ghost var j := n - 1 - positionIndex;
      assert destination == ds[j] by {
        assert startIndex + n - 1 - j == startIndex + positionIndex;
      }
      QueueWalkStep(q1, ds, j, destination, config);
    }

    /** `QueuePolygons`: every polygon in turn, each from its first vertex. */
    method QueuePolygons(polygons: seq<seq<IntPoint>>, config: GCodePathConfig)
      requires Valid() && AllNonEmpty(polygons)
      modifies this`paths, this`lastPosition, this`forceRetraction, this`canAppendTravel
      ensures Valid()
      ensures Queue() == PolygonsMoves(old(Queue()), Env(), polygons, config)
    {
      ghost var q0 := Queue();
      for i := 0 to |polygons|
        invariant Valid()
        invariant AllNonEmpty(polygons[..i])
        invariant Queue() == PolygonsMoves(q0, Env(), polygons[..i], config)
      {
        PolygonsMovesSnoc(q0, Env(), polygons, i, config);
        QueuePolygon(polygons[i], 0, config);
      }
      assert polygons[..|polygons|] == polygons;
    }

    /**
     * `QueuePolygonsByOptimizer`: nothing for no polygons; otherwise the
     * polygons in the optimizer's order, each from its chosen start vertex.
     */
    method QueuePolygonsByOptimizer(polygons: seq<seq<IntPoint>>, finder: PathFinder?, config: GCodePathConfig,
                                    layerIndex: int, optimize: Optimizer) returns (queued: bool)
      requires Valid()
      requires polygons != [] ==> FitsPolygons(optimize(lastPosition, polygons, finder, layerIndex, config), polygons)
      modifies this`paths, this`lastPosition, this`forceRetraction, this`canAppendTravel
      ensures Valid()
      ensures queued <==> polygons != []
      ensures polygons == [] ==> Queue() == old(Queue())
      ensures polygons != [] ==>
        var ordering := optimize(old(lastPosition), polygons, finder, layerIndex, config);
        Queue() == OrderedPolygonMoves(old(Queue()), Env(), polygons, ordering, |ordering.islandOrder|, config)
    {
      if |polygons| == 0 {
        return false;
      }
      ghost var q0 := Queue();
      var ordering := optimize(lastPosition, polygons, finder, layerIndex, config);
      for i := 0 to |ordering.islandOrder|
        invariant Valid()
        invariant Queue() == OrderedPolygonMoves(q0, Env(), polygons, ordering, i, config)
      {
        QueueOrderedStep(q0, polygons, ordering, i, config);
      }
      return true;
    }

    /** One entry of the optimizer's order: the polygon it names, from its chosen start vertex. */
    method QueueOrderedStep(ghost q0: LayerQueue.Queue, polygons: seq<seq<IntPoint>>, ordering: Ordering, i: nat,
                            config: GCodePathConfig)
      requires Valid() && FitsPolygons(ordering, polygons) && i < |ordering.islandOrder|
      requires Queue() == OrderedPolygonMoves(q0, Env(), polygons, ordering, i, config)
      modifies this`paths, this`lastPosition, this`forceRetraction, this`canAppendTravel
      ensures Valid()
      ensures Queue() == OrderedPolygonMoves(q0, Env(), polygons, ordering, i + 1, config)
    {
      var polygonIndex := ordering.islandOrder[i];
      QueuePolygon(polygons[polygonIndex], ordering.startIndexInPolygon[polygonIndex], config);
    }

    /** `QueuePolygonByOptimizer`: one polygon, started where the optimizer says, as often as its order lists it. */
    method QueuePolygonByOptimizer(polygon: seq<IntPoint>, finder: PathFinder?, config: GCodePathConfig,
                                   layerIndex: int, optimize: Optimizer) returns (queued: bool)
      requires Valid()
      requires FitsPolygons(optimize(lastPosition, [polygon], finder, layerIndex, config), [polygon])
      modifies this`paths, this`lastPosition, this`forceRetraction, this`canAppendTravel
      ensures Valid()
      ensures queued
      ensures var ordering := optimize(old(lastPosition), [polygon], finder, layerIndex, config);
        Queue() == OrderedPolygonMoves(old(Queue()), Env(), [polygon], ordering, |ordering.islandOrder|, config)
    {
      ghost var q0 := Queue();
      var ordering := optimize(lastPosition, [polygon], finder, layerIndex, config);
      for i := 0 to |ordering.islandOrder|
        invariant Valid()
        invariant Queue() == OrderedPolygonMoves(q0, Env(), [polygon], ordering, i, config)
      {
        QueueOrderedStep(q0, [polygon], ordering, i, config);
      }
      return true;
    }

    /** `QueueFanCommand`: a fresh path carrying the percentage, remembered as a fan marker. */
    method QueueFanCommand(fanSpeedPercent: int, config: GCodePathConfig)
      requires Valid()
      modifies this`paths, this`queuedFanSpeeds
      ensures Valid()
      ensures Queue() == FanCommand(old(Queue()), Env(), fanSpeedPercent, config)
      ensures queuedFanSpeeds == old(queuedFanSpeeds) + [|old(paths)|]
    {
      ghost var q0 := Queue();
      var k := GetNewPath(config);
      ghost var added := NewPath(config, currentExtruderIndex);
      ghost var marker := added.(fanPercent := fanSpeedPercent);
      ReplaceAppended(q0.paths, added, marker);
      EmptyPathKeepsTracking(q0, marker);
      paths := paths[k := paths[k].(fanPercent := fanSpeedPercent)];
      queuedFanSpeeds := queuedFanSpeeds + [k];
    }

    /**
     * `FinalizeLayerFanSpeeds`, given the layer time after the minimum-layer-time
     * correction: every fan marker is raised to at least the layer's percentage.
     */
    method FinalizeLayerFanSpeeds(layerIndex: int, correctedLayerTime: real)
      requires Valid()
      modifies this`layerTime, this`paths
      ensures Valid()
      ensures layerTime == correctedLayerTime
      ensures paths == RaiseFanMarkers(old(paths), queuedFanSpeeds, FanPercent(settings, layerIndex, correctedLayerTime))
    {
      layerTime := correctedLayerTime;
      var layerFanPercent := FanPercent(settings, layerIndex, layerTime);
      ghost var q0 := Queue();
      var i := 0;
      while i < |queuedFanSpeeds|
        invariant 0 <= i <= |queuedFanSpeeds|
        invariant layerTime == correctedLayerTime
        invariant paths == RaiseFanMarkers(q0.paths, queuedFanSpeeds[..i], layerFanPercent)
      {
        var marker := queuedFanSpeeds[i];
        RaiseFanMarkersSnoc(q0.paths, queuedFanSpeeds, i, layerFanPercent);
        paths := paths[marker := paths[marker].(fanPercent := Max(paths[marker].fanPercent, layerFanPercent))];
        i := i + 1;
      }
      assert queuedFanSpeeds[..i] == queuedFanSpeeds;
      BookkeepingKeepsTracking(q0, Env(), layerFanPercent, travelConfig, queuedFanSpeeds);
    }

    /** `QueueTravel`. The selected travel path is edited as a value and stored back once. */
    method QueueTravel(positionToMoveTo: IntPoint, forceUniquePath: bool)
      requires Valid()
      modifies this`paths, this`lastPosition, this`forceRetraction, this`canAppendTravel
      ensures Valid()
      ensures Queue() == Travel(old(Queue()), Env(), positionToMoveTo, forceUniquePath)
    {
      ghost var q0 := Queue();
      var k := GetLatestPathWithConfig(travelConfig, forceUniquePath || !canAppendTravel);
      WriteTravel(q0, k, positionToMoveTo, forceUniquePath);
      TravelTracksLastPosition(q0, Env(), positionToMoveTo, forceUniquePath);
    }

    /** `QueueTravel` once the travel path is selected: the path is edited and stored back, and the flags are updated. */
    method WriteTravel(ghost q0: LayerQueue.Queue, k: nat, positionToMoveTo: IntPoint, forceUniquePath: bool)
      requires q0.lastPosition == lastPosition && q0.forceRetraction == forceRetraction
      requires paths == TravelPaths(q0, Env(), forceUniquePath) && k == |paths| - 1
      modifies this`paths, this`lastPosition, this`forceRetraction, this`canAppendTravel
      ensures Queue() == Travel(q0, Env(), positionToMoveTo, forceUniquePath)
    {
      ghost var selected := paths;
      var path := paths[k];
      if forceRetraction {
        path := path.(retract := RetractType.Force);
      }
      ghost var afterForce := path;
      path := ExtendTravelPath(path, positionToMoveTo);
      paths, lastPosition, forceRetraction, canAppendTravel := paths[k := path], positionToMoveTo, false, !forceUniquePath;
      TravelWrites(q0, Env(), positionToMoveTo, forceUniquePath, selected, afterForce);
    }

    /** The rest of `QueueTravel` on the selected path: the path finder's block, the distance check, the destination. */
    method ExtendTravelPath(path: GCodePath, positionToMoveTo: IntPoint) returns (travelled: GCodePath)
      ensures travelled == ExtendTravel(path, lastPosition, Env(), positionToMoveTo)
    {
      travelled := RouteTravel(path, positionToMoveTo);
      if LongerThen(lastPosition, positionToMoveTo, retractionMinimumDistance) {
        travelled := travelled.(retract := RetractType.Requested);
      }
      travelled := travelled.(polygon := travelled.polygon + [TravelPoint(positionToMoveTo, currentZ)]);
    }

    /**
     * The path-finder block of `QueueTravel`: follows a found route, and
     * requests a retraction for a long route or a failed search.
     */
    method RouteTravel(path: GCodePath, positionToMoveTo: IntPoint) returns (routed: GCodePath)
      ensures routed == path.(
        polygon := path.polygon + TravelStamped(ViaPoints(lastPosition, Env(), positionToMoveTo), currentZ),
        retract := RoutedRetract(path.retract, lastPosition, Env(), positionToMoveTo))
    {
      routed := path;
      if pathFinder != null {
        var route := pathFinder.createPathInsideBoundary(lastPosition, positionToMoveTo, true, exportLayerIndex);
        if route.found {
          if |route.polygon| > 0 {
            var lineLength;
            routed, lineLength := FollowRoute(routed, lastPosition, route.polygon, currentZ);
            if lineLength > retractionMinimumDistance {
              routed := routed.(retract := RetractType.Requested);
            }
          }
        } else if LongerThen(lastPosition, positionToMoveTo, Geometry.TruncDiv(retractionMinimumDistance, 10)) {
          routed := routed.(retract := RetractType.Requested);
        }
      }
    }
  }

  /**
   * The via-point loop of `QueueTravel`: appends each via-point to the path
   * as a travel point at height `z` and sums the leg lengths from `start`.
   */
  method FollowRoute(path: GCodePath, start: IntPoint, via: seq<IntPoint>, z: int) returns (extended: GCodePath, lineLength: nat)
    ensures extended == path.(polygon := path.polygon + TravelStamped(via, z))
    ensures lineLength == RouteLength(start, via)
  {
    extended := path;
    var lastPathPosition := start;
    lineLength := 0;
    var positionIndex := 0;
    while positionIndex < |via|
      invariant 0 <= positionIndex <= |via|
      invariant extended == path.(polygon := path.polygon + TravelStamped(via[..positionIndex], z))
      invariant lineLength == RouteLength(start, via[..positionIndex])
      invariant lastPathPosition == if positionIndex == 0 then start else via[positionIndex - 1]
    {
      var point := via[positionIndex];
      extended := extended.(polygon := extended.polygon + [TravelPoint(point, z)]);
      lineLength := lineLength + Length(point, lastPathPosition);
      lastPathPosition := point;
      RouteSnoc(start, via, positionIndex, z);
      positionIndex := positionIndex + 1;
    }
    assert via[..positionIndex] == via;
  }
}
