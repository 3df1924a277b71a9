/*
 * The values the layer planner queues: points with a per-point width, the
 * shared feature configuration, one queued path, and the path finder it
 * consults for travel moves (MatterSliceLib/LayerGCodePlanner.cs).
 */
module GCodePaths {
  import Geometry

  /**
   * A point in microns as the planner uses it: X, Y, the layer height Z and a
   * per-point line width (0 = use the path's configured width). Coordinates
   * are exact integers.
   */
  datatype IntPoint = IntPoint(X: int, Y: int, Z: int, Width: int)

  /** The copy of a point stamped with the current layer height, as queued for an extrusion move. */
  function AtZ(p: IntPoint, z: int): IntPoint
  {
    p.(Z := z)
  }

  /** The copy of a point stamped with the current layer height and width 0, as queued for a travel move. */
  function TravelPoint(p: IntPoint, z: int): IntPoint
  {
    p.(Z := z, Width := 0)
  }

  /** Whether two points differ in X or Y (Z and Width are not compared). */
  predicate DiffersInXY(a: IntPoint, b: IntPoint)
  {
    a.X != b.X || a.Y != b.Y
  }

  /**
   * `(from - to).LongerThen(len)`: the displacement is not within the
   * fast-reject box and squared-length bound of `len`.
   */
  predicate LongerThen(from: IntPoint, to: IntPoint, len: int)
  {
    !Geometry.WithinLength(from.X - to.X, from.Y - to.Y, len)
  }

  /** For a non-negative length, LongerThen is exactly "the squared XY distance exceeds len squared". */
  lemma LongerThenIsSquaredDistance(from: IntPoint, to: IntPoint, len: int)
    requires 0 <= len
    ensures LongerThen(from, to, len) <==>
      (from.X - to.X) * (from.X - to.X) + (from.Y - to.Y) * (from.Y - to.Y) > len * len
  {
    Geometry.WithinLengthIsSquaredLength(from.X - to.X, from.Y - to.Y, len);
  }

  /** The integer square root, rounded down. */
  function FloorSqrt(n: nat): (r: nat)
    ensures r * r <= n < (r + 1) * (r + 1)
  {
    if n < 4 then
      if n == 0 then 0 else 1
    else
      var s := FloorSqrt(n / 4);
      SqrtStep(n, s);
      var h := 2 * s;
      if (h + 1) * (h + 1) <= n then h + 1 else h
  }

  /** Doubling the root of n / 4 brackets the root of n. */
  lemma SqrtStep(n: nat, s: nat)
    requires s * s <= n / 4 < (s + 1) * (s + 1)
    ensures (2 * s) * (2 * s) <= n < (2 * s + 2) * (2 * s + 2)
  {
    var m := n / 4;
    assert n == 4 * m + n % 4 && n % 4 < 4;
    assert (2 * s) * (2 * s) == 4 * (s * s);
    assert (2 * s + 2) * (2 * s + 2) == 4 * ((s + 1) * (s + 1));
  }

  /** `(to - from).Length()`: the XY distance rounded down to whole microns. */
  function Length(to: IntPoint, from: IntPoint): nat
  {
    var dx, dy := to.X - from.X, to.Y - from.Y;
    assert dx * dx >= 0 && dy * dy >= 0;
    FloorSqrt(dx * dx + dy * dy)
  }

  /** The retraction a queued path asks for when it is emitted. */
  datatype RetractType = None | Requested | Force

  /**
   * The feature configuration shared by reference between all the paths of
   * one feature; the planner compares configurations by identity.
   */
  class GCodePathConfig {
    const speed: int
    const lineWidthUM: int
    const gcodeComment: string
    const closedLoop: bool
    const spiralize: bool

    constructor (speed: int, lineWidthUM: int, gcodeComment: string, closedLoop: bool, spiralize: bool)
      ensures this.speed == speed && this.lineWidthUM == lineWidthUM && this.gcodeComment == gcodeComment
      ensures this.closedLoop == closedLoop && this.spiralize == spiralize
    {
      this.speed := speed;
      this.lineWidthUM := lineWidthUM;
      this.gcodeComment := gcodeComment;
      this.closedLoop := closedLoop;
      this.spiralize := spiralize;
    }
  }

  /**
   * One queued movement segment: its waypoints, its configuration, the
   * retraction it requests, the extruder it runs on, a fan percentage
   * (-1 = none) and whether it is closed to further points.
   */
  datatype GCodePath = GCodePath(
    config: GCodePathConfig,
    polygon: seq<IntPoint>,
    retract: RetractType,
    extruderIndex: int,
    fanPercent: int,
    done: bool)

  /** What the path finder answers: whether a route inside the boundary exists, and its via-points. */
  datatype Route = Route(found: bool, polygon: seq<IntPoint>)

  /**
   * The obstacle-avoiding router. Its search is not part of this model: it
   * is a fixed function from (start, end, stay inside, layer index) to an answer.
   */
  class PathFinder {
    const createPathInsideBoundary: (IntPoint, IntPoint, bool, int) -> Route

    constructor (router: (IntPoint, IntPoint, bool, int) -> Route)
      ensures createPathInsideBoundary == router
    {
      createPathInsideBoundary := router;
    }
  }
}
