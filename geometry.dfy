/*
 * Exact-integer points in microns: the 3D `Point3` (32-bit components) and
 * the 2D `Point` (64-bit components) of utils/intpoint.cs.
 *
 * C# integer arithmetic is unchecked: `int` and `long` results wrap around
 * modulo 2^32 and 2^64, and integer division truncates toward zero and
 * throws on a zero divisor or on MinValue / -1. All three are written out
 * below (Wrap32, Wrap64, TruncDiv and an Option result for the exceptions).
 */
module Geometry {

  const TWO_31: int := 0x8000_0000
  const TWO_63: int := 0x8000_0000_0000_0000

  /** The values of a C# `int`. */
  type Int32 = x: int | -TWO_31 <= x < TWO_31

  /** The values of a C# `long`. */
  type Long = x: int | -TWO_63 <= x < TWO_63

  datatype Option<T> = None | Some(value: T)

  function Abs(x: int): nat { if x < 0 then -x else x }

  // ---------------------------------------------------------------------------
  // Machine integers
  // ---------------------------------------------------------------------------

  /** The `int` that unchecked 32-bit arithmetic yields for the exact value x. */
  function Wrap32(x: int): (r: Int32)
    ensures (r - x) % (2 * TWO_31) == 0
    ensures -TWO_31 <= x < TWO_31 ==> r == x
  {
    (x + TWO_31) % (2 * TWO_31) - TWO_31
  }

  /** The `long` that unchecked 64-bit arithmetic yields for the exact value x. */
  function Wrap64(x: int): (r: Long)
    ensures (r - x) % (2 * TWO_63) == 0
    ensures -TWO_63 <= x < TWO_63 ==> r == x
  {
    (x + TWO_63) % (2 * TWO_63) - TWO_63
  }

  /** Wrapping commutes with multiplication by an exact factor. */
  lemma Wrap64MulRight(a: int, b: int)
    ensures Wrap64(a * Wrap64(b)) == Wrap64(a * b)
  {
    var k := Wrap64Offset(b);
    var j := a * k;
    assert a * Wrap64(b) == a * b + j * (2 * TWO_63) by {
      MulDistributes(a, b, k, 2 * TWO_63);
    }
    Wrap64Shift(a * b, j);
  }

  lemma MulDistributes(a: int, b: int, k: int, m: int)
    ensures a * (b + k * m) == a * b + (a * k) * m
  {
  }

  /** Adding a multiple of 2^64 does not change the wrapped value. */
  lemma Wrap64Shift(y: int, k: int)
    ensures Wrap64(y + k * (2 * TWO_63)) == Wrap64(y)
  {
    assert (y + k * (2 * TWO_63) - y) % (2 * TWO_63) == 0;
    Wrap64Congruent(y + k * (2 * TWO_63), y);
  }

  /** Truncating division, as C# `/` on integers: the quotient rounds toward zero. */
  function TruncDiv(a: int, b: int): (q: int)
    requires b != 0
    ensures IsTruncQuotient(a, b, q)
    ensures Abs(q) <= Abs(a)
  {
    var m := Abs(a) / Abs(b);
    var q := if (a < 0) == (b < 0) then m else -m;
    TruncDivMeaning(a, b, m, q);
    q
  }

  /** The signed quotient of the magnitudes is the truncated quotient. */
  lemma TruncDivMeaning(a: int, b: int, m: int, q: int)
    requires b != 0 && m == Abs(a) / Abs(b)
    requires q == if (a < 0) == (b < 0) then m else -m
    ensures IsTruncQuotient(a, b, q) && Abs(q) <= Abs(a)
  {
    var n, d := Abs(a), Abs(b);
    EuclidFacts(n, d);
    NegatedProduct(m, d);
    assert q * b == (if a < 0 then -(m * d) else m * d);
  }

  lemma NegatedProduct(x: int, y: int)
    ensures (-x) * y == -(x * y) && x * (-y) == -(x * y) && (-x) * (-y) == x * y
  {
  }

  /**
   * The meaning of truncating division, independent of how it is computed:
   * the remainder is smaller than the divisor and takes the dividend's sign.
   */
  predicate IsTruncQuotient(a: int, b: int, q: int)
  {
    var rem := a - q * b;
    Abs(rem) < Abs(b) && (rem == 0 || (rem < 0 <==> a < 0))
  }

  lemma EuclidFacts(n: nat, d: nat)
    requires d >= 1
    ensures n == (n / d) * d + n % d && 0 <= n % d < d
    ensures 0 <= n / d <= n
  {
    MulAtLeast(n / d, d);
  }

  lemma MulAtLeast(m: nat, n: nat)
    requires n >= 1
    ensures m * n >= m
  {}

  lemma AbsMul(k: int, b: int)
    ensures Abs(k * b) == Abs(k) * Abs(b)
  {
    if k < 0 && b < 0 { assert k * b == (-k) * (-b); }
    else if k < 0 { assert k * b == -((-k) * b); }
    else if b < 0 { assert k * b == -(k * (-b)); }
  }

  /** A truncated quotient is unique: it is determined by the dividend and divisor. */
  lemma TruncQuotientUnique(a: int, b: int, q1: int, q2: int)
    requires b != 0 && IsTruncQuotient(a, b, q1) && IsTruncQuotient(a, b, q2)
    ensures q1 == q2
  {
    var r1, r2 := a - q1 * b, a - q2 * b;
    var k := q2 - q1;
    assert r1 - r2 == k * b by {
      SubtractedProducts(q1, q2, b);
    }
    var d := Abs(b);
    assert Abs(r1) < d && Abs(r2) < d;
    if a < 0 {
      assert r1 <= 0 && r2 <= 0;
    } else {
      assert r1 >= 0 && r2 >= 0;
    }
    assert Abs(k * b) < d;
    SmallMultipleIsZero(k, b);
  }

  lemma SubtractedProducts(q1: int, q2: int, b: int)
    ensures (q2 - q1) * b == q2 * b - q1 * b
  {
  }

  /** The only multiple of b smaller in magnitude than b is 0. */
  lemma SmallMultipleIsZero(k: int, b: int)
    requires b != 0 && Abs(k * b) < Abs(b)
    ensures k == 0
  {
    AbsMul(k, b);
    if k != 0 {
      MulAtLeast(Abs(b), Abs(k));
    }
  }

  /** Two exact values that differ by a multiple of 2^32 wrap to the same int. */
  lemma Wrap32Congruent(x: int, y: int)
    requires (x - y) % (2 * TWO_31) == 0
    ensures Wrap32(x) == Wrap32(y)
  {
    var k := (x - y) / (2 * TWO_31);
    assert x == y + k * (2 * TWO_31);
  }

  /** Two exact values that differ by a multiple of 2^64 wrap to the same long. */
  lemma Wrap64Congruent(x: int, y: int)
    requires (x - y) % (2 * TWO_63) == 0
    ensures Wrap64(x) == Wrap64(y)
  {
    var k := (x - y) / (2 * TWO_63);
    assert x == y + k * (2 * TWO_63);
  }

  // ---------------------------------------------------------------------------
  // Point3: three 32-bit integer components
  // ---------------------------------------------------------------------------

  datatype Point3 = Point3(x: Int32, y: Int32, z: Int32)

  /** operator + on Point3: component-wise, wrapping at 32 bits. */
  function Add3(left: Point3, right: Point3): Point3
  {
    Point3(Wrap32(left.x + right.x), Wrap32(left.y + right.y), Wrap32(left.z + right.z))
  }

  /** operator - on Point3: component-wise, wrapping at 32 bits. */
  function Sub3(left: Point3, right: Point3): Point3
  {
    Point3(Wrap32(left.x - right.x), Wrap32(left.y - right.y), Wrap32(left.z - right.z))
  }

  /**
   * operator / on Point3: each component truncated toward zero; None where C#
   * throws (a zero divisor, or int.MinValue / -1 in some component).
   */
  function Div3(point: Point3, i: Int32): (r: Option<Point3>)
    ensures r.None? <==> i == 0 || (i == -1 && (point.x == -TWO_31 || point.y == -TWO_31 || point.z == -TWO_31))
    ensures r.Some? ==>
      IsTruncQuotient(point.x, i, r.value.x) && IsTruncQuotient(point.y, i, r.value.y) && IsTruncQuotient(point.z, i, r.value.z)
  {
    if i == 0 || (i == -1 && (point.x == -TWO_31 || point.y == -TWO_31 || point.z == -TWO_31)) then
      None
    else
      TruncDivFits32(point.x, i);
      TruncDivFits32(point.y, i);
      TruncDivFits32(point.z, i);
      Some(Point3(TruncDiv(point.x, i), TruncDiv(point.y, i), TruncDiv(point.z, i)))
  }

  lemma TruncDivFits32(a: Int32, b: Int32)
    requires b != 0 && !(b == -1 && a == -TWO_31)
    ensures -TWO_31 <= TruncDiv(a, b) < TWO_31
  {
    var q := TruncDiv(a, b);
    if q >= TWO_31 {
      assert false;
    }
  }

  /** operator == on Point3: all three components are equal. */
  function Equal3(left: Point3, right: Point3): (r: bool)
    ensures r <==> left == right
  {
    left.x == right.x && left.y == right.y && left.z == right.z
  }

  /** operator != on Point3: some component differs. */
  function NotEqual3(left: Point3, right: Point3): (r: bool)
    ensures r <==> !Equal3(left, right)
  {
    left.x != right.x || left.y != right.y || left.z != right.z
  }

  /** Point3.max(): the largest component. */
  function Max3(p: Point3): (r: Int32)
    ensures r == p.x || r == p.y || r == p.z
    ensures r >= p.x && r >= p.y && r >= p.z
  {
    if p.x > p.y && p.x > p.z then p.x
    else if p.y > p.z then p.y
    else p.z
  }

  /**
   * Point3.vSize2(): each square is taken in 64 bits (it cannot overflow), the
   * two additions wrap at 64 bits.
   */
  function VSize2Of3(p: Point3): (r: Long)
    ensures p.x * p.x + p.y * p.y + p.z * p.z < TWO_63 ==> r == p.x * p.x + p.y * p.y + p.z * p.z
  {
    Wrap64(Wrap64(p.x * p.x + p.y * p.y) + p.z * p.z)
  }

  /**
   * Point3.testLength(len) as written: after the per-component fast reject it
   * compares against `len * len` computed in 32 bits, which wraps for
   * len > 46340 (see TestLengthWrapsAt46341).
   */
  function TestLength(p: Point3, len: Int32): bool
  {
    if p.x > len || p.x < Wrap32(-(len as int)) then false
    else if p.y > len || p.y < Wrap32(-(len as int)) then false
    else if p.z > len || p.z < Wrap32(-(len as int)) then false
    else VSize2Of3(p) <= Wrap32(len * len)
  }

  /** Point3.testLength with the square of len taken in 64 bits, as intended. */
  function TestLengthFixed(p: Point3, len: Int32): bool
  {
    if p.x > len || p.x < Wrap32(-(len as int)) then false
    else if p.y > len || p.y < Wrap32(-(len as int)) then false
    else if p.z > len || p.z < Wrap32(-(len as int)) then false
    else VSize2Of3(p) <= len * len
  }

  /** Below the 32-bit wrap of len * len, testLength is exactly the squared-length comparison. */
  lemma TestLengthBelowWrap(p: Point3, len: Int32)
    requires 0 <= len <= 46340
    ensures TestLength(p, len) <==> p.x * p.x + p.y * p.y + p.z * p.z <= len * len
  {
    SquareAtMost(len, 46340);
    assert Wrap32(len * len) == len * len;
    TestLengthFixedIsSquaredLength(p, len);
  }

  /**
   * The corrected testLength is exactly the squared-length comparison for
   * every length whose box fits a long; the fast reject never changes the answer.
   */
  lemma TestLengthFixedIsSquaredLength(p: Point3, len: Int32)
    requires 0 <= len && 3 * len * len < TWO_63
    ensures TestLengthFixed(p, len) <==> p.x * p.x + p.y * p.y + p.z * p.z <= len * len
  {
    assert Wrap32(-(len as int)) == -len;
    if p.x > len || p.x < -len {
      SquareAbove(p.x, len);
    } else if p.y > len || p.y < -len {
      SquareAbove(p.y, len);
    } else if p.z > len || p.z < -len {
      SquareAbove(p.z, len);
    } else {
      SquaresBounded3(p, len);
    }
    assert p.x * p.x >= 0 && p.y * p.y >= 0 && p.z * p.z >= 0;
  }

  /** Inside the fast-reject box the squared length stays within 3 * len * len. */
  lemma SquaresBounded3(p: Point3, len: Int32)
    requires 0 <= len
    requires -len <= p.x <= len && -len <= p.y <= len && -len <= p.z <= len
    ensures p.x * p.x + p.y * p.y + p.z * p.z <= 3 * len * len
  {
    SquareAtMost(p.x, len);
    SquareAtMost(p.y, len);
    SquareAtMost(p.z, len);
  }

  lemma SquareAtMost(a: int, len: int)
    requires -len <= a <= len
    ensures a * a <= len * len
  {
    var b := Abs(a);
    assert a * a == b * b;
    MulMonotone(b, len, b);
    MulMonotone(b, len, len);
  }

  lemma MulMonotone(a: nat, b: nat, c: nat)
    requires a <= b
    ensures a * c <= b * c
  {}

  /** Outside the fast-reject box the square of one component already exceeds len * len. */
  lemma SquareAbove(a: int, len: int)
    requires 0 <= len && (a > len || a < -len)
    ensures a * a > len * len
  {
    var b := Abs(a);
    assert a * a == b * b;
    MulMonotone(len + 1, b, b);
    MulMonotone(len, len + 1, len);
  }

  /** testLength wraps: the origin is reported not within 46341 microns of itself. */
  lemma TestLengthWrapsAt46341()
    ensures !TestLength(Point3(0, 0, 0), 46341)
    ensures TestLengthFixed(Point3(0, 0, 0), 46341)
  {
    assert Wrap32(46341 * 46341) == -2147479015;
    assert VSize2Of3(Point3(0, 0, 0)) == 0;
  }

  /** Point3.cross: the vector product, each product and difference wrapping at 32 bits. */
  function Cross(a: Point3, p: Point3): Point3
  {
    Point3(
      Wrap32(Wrap32(a.y * p.z) - Wrap32(a.z * p.y)),
      Wrap32(Wrap32(a.z * p.x) - Wrap32(a.x * p.z)),
      Wrap32(Wrap32(a.x * p.y) - Wrap32(a.y * p.x)))
  }

  /** Component-wise 32-bit negation (unary minus on each `int`). */
  function Negate3(p: Point3): Point3
  {
    Point3(Wrap32(-(p.x as int)), Wrap32(-(p.y as int)), Wrap32(-(p.z as int)))
  }

  // ---------------------------------------------------------------------------
  // Point: two 64-bit integer components
  // ---------------------------------------------------------------------------

  datatype Point = Point(X: Long, Y: Long)

  /** operator + on Point: component-wise, wrapping at 64 bits. */
  function Add(left: Point, right: Point): Point
  {
    Point(Wrap64(left.X + right.X), Wrap64(left.Y + right.Y))
  }

  /** operator - on Point: component-wise, wrapping at 64 bits. */
  function Sub(left: Point, right: Point): Point
  {
    Point(Wrap64(left.X - right.X), Wrap64(left.Y - right.Y))
  }

  /** operator * (Point, int): each component times i, wrapping at 64 bits. */
  function Scale(point: Point, i: Int32): Point
  {
    Point(Wrap64(point.X * i), Wrap64(point.Y * i))
  }

  /**
   * operator / (Point, int): each component truncated toward zero; None where
   * C# throws (a zero divisor, or long.MinValue / -1 in some component).
   */
  function Div(point: Point, i: Int32): (r: Option<Point>)
    ensures r.None? <==> i == 0 || (i == -1 && (point.X == -TWO_63 || point.Y == -TWO_63))
    ensures r.Some? ==> IsTruncQuotient(point.X, i, r.value.X) && IsTruncQuotient(point.Y, i, r.value.Y)
  {
    if i == 0 || (i == -1 && (point.X == -TWO_63 || point.Y == -TWO_63)) then
      None
    else
      TruncDivFits64(point.X, i);
      TruncDivFits64(point.Y, i);
      Some(Point(TruncDiv(point.X, i), TruncDiv(point.Y, i)))
  }

  lemma TruncDivFits64(a: Long, b: Int32)
    requires b != 0 && !(b == -1 && a == -TWO_63)
    ensures -TWO_63 <= TruncDiv(a, b) < TWO_63
  {
    var q := TruncDiv(a, b);
    if q >= TWO_63 {
      assert false;
    }
  }

  /** operator == on Point: both components are equal. */
  function Equal(left: Point, right: Point): (r: bool)
    ensures r <==> left == right
  {
    left.X == right.X && left.Y == right.Y
  }

  /** operator != on Point: some component differs. */
  function NotEqual(left: Point, right: Point): (r: bool)
    ensures r <==> !Equal(left, right)
  {
    left.X != right.X || left.Y != right.Y
  }

  /** vSize2: the squared length, products and sum wrapping at 64 bits. */
  function VSize2(p0: Point): Long
  {
    Wrap64(Wrap64(p0.X * p0.X) + Wrap64(p0.Y * p0.Y))
  }

  /**
   * shorterThen(p0, len) as written: after the per-component fast reject it
   * compares against `len * len` computed in 32 bits, which wraps for
   * len > 46340 (see ShorterThenWrapsAt46341).
   */
  function ShorterThen(p0: Point, len: Int32): bool
  {
    if p0.X > len || p0.X < Wrap32(-(len as int)) then
      false
    else if p0.Y > len || p0.Y < Wrap32(-(len as int)) then
      false
    else
      VSize2(p0) <= Wrap32(len * len)
  }

  /** shorterThen with the square of len taken in 64 bits, as intended. */
  function ShorterThenFixed(p0: Point, len: Int32): bool
  {
    if p0.X > len || p0.X < Wrap32(-(len as int)) then
      false
    else if p0.Y > len || p0.Y < Wrap32(-(len as int)) then
      false
    else
      VSize2(p0) <= len * len
  }

  /** Below the 32-bit wrap of len * len, shorterThen is exactly the squared-length comparison. */
  lemma ShorterThenBelowWrap(p0: Point, len: Int32)
    requires 0 <= len <= 46340
    ensures ShorterThen(p0, len) <==> p0.X * p0.X + p0.Y * p0.Y <= len * len
  {
    SquareAtMost(len, 46340);
    assert Wrap32(len * len) == len * len;
    ShorterThenFixedIsSquaredLength(p0, len);
  }

  /**
   * The corrected shorterThen is exactly the squared-length comparison for
   * every non-negative length; the fast reject never changes the answer.
   */
  lemma ShorterThenFixedIsSquaredLength(p0: Point, len: Int32)
    requires 0 <= len
    ensures ShorterThenFixed(p0, len) <==> p0.X * p0.X + p0.Y * p0.Y <= len * len
  {
    assert Wrap32(-(len as int)) == -len;
    if p0.X > len || p0.X < -len {
      SquareAbove(p0.X, len);
    } else if p0.Y > len || p0.Y < -len {
      SquareAbove(p0.Y, len);
    } else {
      SquaresBounded(p0.X, p0.Y, len);
    }
    assert p0.X * p0.X >= 0 && p0.Y * p0.Y >= 0;
  }

  /** Inside the fast-reject box vSize2 cannot overflow. */
  lemma SquaresBounded(x: int, y: int, len: Int32)
    requires 0 <= len && -len <= x <= len && -len <= y <= len
    ensures x * x + y * y <= 2 * len * len < TWO_63
    ensures VSize2(Point(x, y)) == x * x + y * y
  {
    SquareAtMost(x, len);
    SquareAtMost(y, len);
    SquareAtMost(len, TWO_31);
    assert x * x >= 0 && y * y >= 0;
  }

  /** shorterThen wraps: the origin is reported not within 46341 microns of itself. */
  lemma ShorterThenWrapsAt46341()
    ensures !ShorterThen(Point(0, 0), 46341)
    ensures ShorterThenFixed(Point(0, 0), 46341)
  {
    assert Wrap32(46341 * 46341) == -2147479015;
    assert VSize2(Point(0, 0)) == 0;
  }

  /**
   * The squared-length test with fast reject over exact integers: what
   * shorterThen computes when nothing wraps, used for the planner's
   * displacements.
   */
  function WithinLength(x: int, y: int, len: int): bool
  {
    if x > len || x < -len then
      false
    else if y > len || y < -len then
      false
    else
      x * x + y * y <= len * len
  }

  /** For a non-negative length the fast reject never changes the answer. */
  lemma WithinLengthIsSquaredLength(x: int, y: int, len: int)
    requires 0 <= len
    ensures WithinLength(x, y, len) <==> x * x + y * y <= len * len
  {
    if x > len || x < -len {
      SquareAbove(x, len);
    } else if y > len || y < -len {
      SquareAbove(y, len);
    }
    assert x * x >= 0 && y * y >= 0;
  }

  /** crossZ: the vector turned a quarter turn counter-clockwise. */
  function CrossZ(p0: Point): Point
  {
    Point(Wrap64(-(p0.Y as int)), p0.X)
  }

  /** dot: the scalar product, products and sum wrapping at 64 bits. */
  function Dot(p0: Point, p1: Point): Long
  {
    Wrap64(Wrap64(p0.X * p1.X) + Wrap64(p0.Y * p1.Y))
  }

  // ---------------------------------------------------------------------------
  // Laws
  // ---------------------------------------------------------------------------

  /** Subtraction undoes addition, whatever wraps in between. */
  lemma AddThenSub(a: Point, b: Point)
    ensures Sub(Add(a, b), b) == a
  {
    Wrap64AddSub(a.X, b.X);
    Wrap64AddSub(a.Y, b.Y);
  }

  /** In 64 bits, subtracting y undoes adding y. */
  lemma Wrap64AddSub(x: Long, y: Long)
    ensures Wrap64(Wrap64(x + y) - y) == x
  {
    var k := Wrap64Offset(x + y);
    assert Wrap64(x + y) - y == x + k * (2 * TWO_63);
    Wrap64Congruent(x + k * (2 * TWO_63), x);
  }

  /** Without overflow, + is exact component-wise addition. */
  lemma AddExact(a: Point, b: Point)
    requires -TWO_63 <= a.X + b.X < TWO_63 && -TWO_63 <= a.Y + b.Y < TWO_63
    ensures Add(a, b) == Point(a.X + b.X, a.Y + b.Y)
  {
  }

  /** Subtraction undoes addition for Point3 as well. */
  lemma Add3ThenSub3(a: Point3, b: Point3)
    ensures Sub3(Add3(a, b), b) == a
  {
    Wrap32AddSub(a.x, b.x);
    Wrap32AddSub(a.y, b.y);
    Wrap32AddSub(a.z, b.z);
  }

  /** In 32 bits, subtracting y undoes adding y. */
  lemma Wrap32AddSub(x: Int32, y: Int32)
    ensures Wrap32(Wrap32(x + y) - y) == x
  {
    var k := Wrap32Offset(x + y);
    Wrap32Shift(x, k);
    assert Wrap32(x + y) - y == x + k * (2 * TWO_31);
  }

  /** Scaling by a non-zero factor and dividing by it again returns the point, given no overflow. */
  lemma ScaleThenDivide(p: Point, i: Int32)
    requires i != 0
    requires -TWO_63 <= p.X * i < TWO_63 && -TWO_63 <= p.Y * i < TWO_63
    ensures Div(Scale(p, i), i) == Some(p)
  {
    var s := Scale(p, i);
    assert s == Point(p.X * i, p.Y * i);
    if i == -1 {
      assert s.X != -TWO_63 && s.Y != -TWO_63;
    }
    var d := Div(s, i);
    assert IsTruncQuotient(p.X * i, i, p.X);
    assert IsTruncQuotient(p.Y * i, i, p.Y);
    TruncQuotientUnique(p.X * i, i, d.value.X, p.X);
    TruncQuotientUnique(p.Y * i, i, d.value.Y, p.Y);
  }

  /** vSize2 is the exact squared length when that fits in a long; then it is zero only at the origin. */
  lemma VSize2ZeroOnlyAtOrigin(p: Point)
    requires p.X * p.X + p.Y * p.Y < TWO_63
    ensures VSize2(p) == p.X * p.X + p.Y * p.Y
    ensures VSize2(p) >= 0
    ensures VSize2(p) == 0 <==> p == Point(0, 0)
  {
    assert p.X * p.X >= 0 && p.Y * p.Y >= 0;
    if p.X != 0 {
      SquareAbove(p.X, 0);
    }
    if p.Y != 0 {
      SquareAbove(p.Y, 0);
    }
  }

  /** A vector is perpendicular to its crossZ. */
  lemma DotCrossZIsZero(p: Point)
    ensures Dot(p, CrossZ(p)) == 0
  {
    var x, y := p.X as int, p.Y as int;
    assert Dot(p, CrossZ(p)) == Wrap64(Wrap64(x * Wrap64(-y)) + Wrap64(y * x));
    ProductWithNegation(x, y);
    OppositesWrapToZero(x * y);
  }

  lemma ProductWithNegation(x: int, y: int)
    ensures Wrap64(x * Wrap64(-y)) == Wrap64(-(x * y))
    ensures Wrap64(y * x) == Wrap64(x * y)
  {
    Wrap64MulRight(x, -y);
    assert x * (-y) == -(x * y);
  }

  lemma OppositesWrapToZero(t: int)
    ensures Wrap64(Wrap64(-t) + Wrap64(t)) == 0
  {
    var k1 := Wrap64Offset(-t);
    var k2 := Wrap64Offset(t);
    assert Wrap64(-t) + Wrap64(t) == (k1 + k2) * (2 * TWO_63);
    Wrap64Congruent((k1 + k2) * (2 * TWO_63), 0);
  }

  /** Wrapping to 64 bits adds a multiple of 2^64. */
  lemma Wrap64Offset(x: int) returns (k: int)
    ensures Wrap64(x) == x + k * (2 * TWO_63)
  {
    k := (Wrap64(x) - x) / (2 * TWO_63);
  }

  /** Two quarter turns negate the vector. */
  lemma CrossZTwiceNegates(p: Point)
    ensures CrossZ(CrossZ(p)) == Point(Wrap64(-(p.X as int)), Wrap64(-(p.Y as int)))
    ensures p.X != -TWO_63 && p.Y != -TWO_63 ==> CrossZ(CrossZ(p)) == Point(-p.X, -p.Y)
  {
  }

  /** The vector product is anti-commutative, also under 32-bit wrap-around. */
  lemma CrossAntiCommutative(a: Point3, b: Point3)
    ensures Cross(b, a) == Negate3(Cross(a, b))
  {
    assert b.y * a.z == a.z * b.y && b.z * a.y == a.y * b.z;
    assert b.z * a.x == a.x * b.z && b.x * a.z == a.z * b.x;
    assert b.x * a.y == a.y * b.x && b.y * a.x == a.x * b.y;
    WrappedDifferenceSwap(a.y * b.z, a.z * b.y);
    WrappedDifferenceSwap(a.z * b.x, a.x * b.z);
    WrappedDifferenceSwap(a.x * b.y, a.y * b.x);
  }

  /** Swapping the operands of a wrapped difference negates it (in 32 bits). */
  lemma WrappedDifferenceSwap(u: int, v: int)
    ensures Wrap32(Wrap32(v) - Wrap32(u)) == Wrap32(-(Wrap32(Wrap32(u) - Wrap32(v)) as int))
  {
    var wu, wv := Wrap32(u) as int, Wrap32(v) as int;
    var kd := Wrap32Offset(wu - wv);
    Wrap32Shift(wv - wu, -kd);
    assert -(Wrap32(wu - wv) as int) == (wv - wu) + (-kd) * (2 * TWO_31);
  }

  /** Wrapping adds a multiple of 2^32. */
  lemma Wrap32Offset(x: int) returns (k: int)
    ensures Wrap32(x) == x + k * (2 * TWO_31)
  {
    k := (Wrap32(x) - x) / (2 * TWO_31);
  }

  /** Adding a multiple of 2^32 does not change the wrapped value. */
  lemma Wrap32Shift(y: int, k: int)
    ensures Wrap32(y + k * (2 * TWO_31)) == Wrap32(y)
  {
    assert (y + k * (2 * TWO_31) - y) % (2 * TWO_31) == 0;
    Wrap32Congruent(y + k * (2 * TWO_31), y);
  }

  /** The vector product of a vector with itself is the zero vector. */
  lemma CrossSelfIsZero(a: Point3)
    ensures Cross(a, a) == Point3(0, 0, 0)
  {
    assert a.y * a.z == a.z * a.y && a.z * a.x == a.x * a.z && a.x * a.y == a.y * a.x;
  }
}
