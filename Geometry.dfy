/**
 * The shape model of the kernel (include/geometry.hpp): points with vector
 * arithmetic, axis-aligned bounding boxes, the six shape kinds and the closed
 * Shape variant over them.
 *
 * Coordinates are exact reals. The C math library (std::sqrt, std::cos,
 * std::sin) is not visible to the model: it is passed in as a MathLib value,
 * and ExactSqrt states what a lemma may assume about its square root.
 */
module Geometry {

  import opened Wrappers
  import opened RealArith

  /** The foreign math functions the source calls: std::sqrt, std::cos, std::sin. */
  datatype MathLib = MathLib(sqrt: real -> real, cos: real -> real, sin: real -> real)

  /** std::sqrt; the arrow is applied here only, so every use sees the same term. */
  function Sqrt(m: MathLib, x: real): real { m.sqrt(x) }

  /** std::cos */
  function Cos(m: MathLib, a: real): real { m.cos(a) }

  /** std::sin */
  function Sin(m: MathLib, a: real): real { m.sin(a) }

  /** sqrt is the exact non-negative square root on non-negative arguments. */
  ghost predicate ExactSqrt(m: MathLib)
  {
    forall x :: 0.0 <= x ==> 0.0 <= Sqrt(m, x) && Sq(Sqrt(m, x)) == x
  }

  /** cos and sin stay within [-1, 1], as the real functions do. */
  ghost predicate BoundedTrig(m: MathLib)
  {
    forall a :: -1.0 <= Cos(m, a) <= 1.0 && -1.0 <= Sin(m, a) <= 1.0
  }

  /** What std::vector::reserve throws (std::length_error) when asked for more than max_size(). */
  const ReserveTooLarge: string := "vector::reserve"

  /** std::numbers::pi, rounded to a double. */
  const Pi: real := 3.141592653589793

  /** std::min(a, b): a unless b is strictly smaller. */
  function Min(a: real, b: real): (r: real)
    ensures r <= a && r <= b && (r == a || r == b)
  {
    if b < a then b else a
  }

  /** std::max(a, b): a unless a is strictly smaller. */
  function Max(a: real, b: real): (r: real)
    ensures a <= r && b <= r && (r == a || r == b)
  {
    if a < b then b else a
  }

  /** Point2D: a point or a vector in the plane. Equality is the exact componentwise one. */
  datatype Point = Point(x: real, y: real)
  {
    function Add(other: Point): Point { Point(x + other.x, y + other.y) }

    function Sub(other: Point): Point { Point(x - other.x, y - other.y) }

    function Scale(k: real): Point { Point(x * k, y * k) }

    function Div(k: real): Point
      requires k != 0.0
    {
      Point(x / k, y / k)
    }

    function Dot(other: Point): real { x * other.x + y * other.y }

    function Cross(other: Point): real { x * other.y - y * other.x }

    /** The squared Euclidean length, the argument Length takes the root of. */
    function SqLength(): (r: real)
      ensures r >= 0.0
      ensures r == 0.0 <==> this == Point(0.0, 0.0)
    {
      SumOfSquaresZero(x, y);
      Sq(x) + Sq(y)
    }

    function Length(m: MathLib): real { Sqrt(m, SqLength()) }

    function DistanceTo(m: MathLib, other: Point): real { Sub(other).Length(m) }

    /** The unit vector in this direction; the zero vector stays zero. */
    function Normalize(m: MathLib): Point
    {
      var len := Length(m);
      if len > 0.0 then Point(x / len, y / len) else Point(0.0, 0.0)
    }
  }

  /** The squared distance between two points. */
  function SqDist(p: Point, q: Point): (r: real)
    ensures r >= 0.0
    ensures r == 0.0 <==> p == q
  {
    SubZeroIff(p, q);
    p.Sub(q).SqLength()
  }

  /** A vector dotted with itself is its squared length. */
  lemma DotSelf(v: Point)
    ensures v.Dot(v) == v.SqLength()
  {
  }

  lemma CrossAntisymmetric(a: Point, b: Point)
    ensures a.Cross(b) == -b.Cross(a)
  {
  }

  /** Subtraction undoes addition. */
  lemma SubUndoesAdd(a: Point, b: Point)
    ensures a.Add(b).Sub(b) == a
  {
  }

  /** Under an exact sqrt, a length is the non-negative root of the squared length. */
  lemma LengthIsRoot(m: MathLib, p: Point)
    requires ExactSqrt(m)
    ensures p.Length(m) >= 0.0
    ensures Sq(p.Length(m)) == p.SqLength()
    ensures p.Length(m) == 0.0 <==> p == Point(0.0, 0.0)
  {
    var s := p.SqLength();
    var len := Sqrt(m, s);
    assert len >= 0.0 && Sq(len) == s;
    SqZero();
    SqInjective(len, 0.0);
  }

  /** The distance from p to q is the distance from q to p, whatever sqrt is. */
  lemma DistanceSymmetric(m: MathLib, p: Point, q: Point)
    ensures p.DistanceTo(m, q) == q.DistanceTo(m, p)
  {
    SqNegate(p.x - q.x);
    SqNegate(p.y - q.y);
    assert -(p.x - q.x) == q.x - p.x && -(p.y - q.y) == q.y - p.y;
    assert p.Sub(q).SqLength() == q.Sub(p).SqLength();
  }

  /** Under an exact sqrt, comparing roots compares their arguments. */
  lemma SqrtMonotone(m: MathLib, a: real, b: real)
    requires ExactSqrt(m)
    requires 0.0 <= a && 0.0 <= b
    ensures Sqrt(m, a) <= Sqrt(m, b) <==> a <= b
  {
    SqMonotone(Sqrt(m, a), Sqrt(m, b));
  }

  /** For a non-negative bound r, sqrt(a) <= r exactly when a <= r * r. */
  lemma SqrtAtMost(m: MathLib, a: real, r: real)
    requires ExactSqrt(m)
    requires 0.0 <= a && 0.0 <= r
    ensures Sqrt(m, a) <= r <==> a <= Sq(r)
  {
    SqMonotone(Sqrt(m, a), r);
  }

  /** Under an exact sqrt, ordering distances is ordering squared distances. */
  lemma DistanceOrder(m: MathLib, p: Point, q: Point, r: Point)
    requires ExactSqrt(m)
    ensures p.DistanceTo(m, q) <= p.DistanceTo(m, r) <==> SqDist(p, q) <= SqDist(p, r)
  {
    SqrtMonotone(m, SqDist(p, q), SqDist(p, r));
  }

  lemma SubZeroIff(p: Point, q: Point)
    ensures p.Sub(q) == Point(0.0, 0.0) <==> p == q
  {
  }

  /** Under an exact sqrt, a distance is zero exactly between equal points. */
  lemma DistanceZeroIff(m: MathLib, p: Point, q: Point)
    requires ExactSqrt(m)
    ensures p.DistanceTo(m, q) >= 0.0
    ensures p.DistanceTo(m, q) == 0.0 <==> p == q
  {
    LengthIsRoot(m, p.Sub(q));
    SubZeroIff(p, q);
  }

  /** Normalizing a non-zero vector under an exact sqrt yields a unit vector. */
  lemma NormalizeIsUnit(m: MathLib, p: Point)
    requires ExactSqrt(m)
    requires p != Point(0.0, 0.0)
    ensures p.Normalize(m).SqLength() == 1.0
  {
    LengthIsRoot(m, p);
    var len := p.Length(m);
    var n := p.Normalize(m);
    assert n == Point(p.x / len, p.y / len);
    SqPositive(len);
    SqQuotient(p.x, len);
    SqQuotient(p.y, len);
    UnitFactor(Sq(n.x), Sq(n.y), Sq(len), Sq(p.x), Sq(p.y));
  }

  /** BoundingBox: the closed rectangle [minX, maxX] x [minY, maxY]. */
  datatype BoundingBox = BoundingBox(minX: real, minY: real, maxX: real, maxY: real)
  {
    /** The design invariant of boxes derived from shapes. */
    predicate Valid() { minX <= maxX && minY <= maxY }

    predicate Contains(p: Point) { minX <= p.x <= maxX && minY <= p.y <= maxY }

    /** Closed-interval overlap: boxes that only touch still overlap. */
    predicate Overlaps(other: BoundingBox)
    {
      !(maxX < other.minX || minX > other.maxX || maxY < other.minY || minY > other.maxY)
    }

    function Width(): (r: real)
      ensures Valid() ==> r >= 0.0
    {
      maxX - minX
    }

    function Height(): (r: real)
      ensures Valid() ==> r >= 0.0
    {
      maxY - minY
    }

    function Center(): (r: Point)
      ensures Valid() ==> Contains(r)
      ensures r.x - minX == maxX - r.x && r.y - minY == maxY - r.y
    {
      Point((minX + maxX) / 2.0, (minY + maxY) / 2.0)
    }
  }

  lemma OverlapsSymmetric(a: BoundingBox, b: BoundingBox)
    ensures a.Overlaps(b) == b.Overlaps(a)
  {
  }

  /** Two valid boxes overlap exactly when some point lies in both (closed intervals). */
  lemma OverlapsIffCommonPoint(a: BoundingBox, b: BoundingBox)
    requires a.Valid() && b.Valid()
    ensures a.Overlaps(b) <==> exists p :: a.Contains(p) && b.Contains(p)
  {
    if a.Overlaps(b) {
      var p := Point(Max(a.minX, b.minX), Max(a.minY, b.minY));
      assert a.Contains(p) && b.Contains(p);
    }
  }

  /** Every point of the sequence lies in the box. */
  ghost predicate Encloses(box: BoundingBox, pts: seq<Point>)
  {
    forall i :: 0 <= i < |pts| ==> box.Contains(pts[i])
  }

  /** Each of the four bounds is the coordinate of some point of the sequence. */
  ghost predicate Attained(box: BoundingBox, pts: seq<Point>)
  {
    && (exists i :: 0 <= i < |pts| && pts[i].x == box.minX)
    && (exists i :: 0 <= i < |pts| && pts[i].y == box.minY)
    && (exists i :: 0 <= i < |pts| && pts[i].x == box.maxX)
    && (exists i :: 0 <= i < |pts| && pts[i].y == box.maxY)
  }

  /** A box that encloses the points and attains every bound is the only such box. */
  lemma TightBoxUnique(b1: BoundingBox, b2: BoundingBox, pts: seq<Point>)
    requires Encloses(b1, pts) && Attained(b1, pts)
    requires Encloses(b2, pts) && Attained(b2, pts)
    ensures b1 == b2
  {
    var i1 :| 0 <= i1 < |pts| && pts[i1].x == b1.minX;
    var i2 :| 0 <= i2 < |pts| && pts[i2].x == b2.minX;
    assert b2.Contains(pts[i1]) && b1.Contains(pts[i2]);
    var j1 :| 0 <= j1 < |pts| && pts[j1].y == b1.minY;
    var j2 :| 0 <= j2 < |pts| && pts[j2].y == b2.minY;
    assert b2.Contains(pts[j1]) && b1.Contains(pts[j2]);
    var k1 :| 0 <= k1 < |pts| && pts[k1].x == b1.maxX;
    var k2 :| 0 <= k2 < |pts| && pts[k2].x == b2.maxX;
    assert b2.Contains(pts[k1]) && b1.Contains(pts[k2]);
    var l1 :| 0 <= l1 < |pts| && pts[l1].y == b1.maxY;
    var l2 :| 0 <= l2 < |pts| && pts[l2].y == b2.maxY;
    assert b2.Contains(pts[l1]) && b1.Contains(pts[l2]);
  }

  /** One step of Polygon::CalculateBoundBox's loop: widen the box to take in p. */
  function Grow(box: BoundingBox, p: Point): BoundingBox
  {
    BoundingBox(
      if p.x < box.minX then p.x else box.minX,
      if p.y < box.minY then p.y else box.minY,
      if p.x > box.maxX then p.x else box.maxX,
      if p.y > box.maxY then p.y else box.maxY)
  }

  /**
   * The box CalculateBoundBox holds after visiting the first k points, having
   * started from the first point alone.
   */
  function ExtentOf(pts: seq<Point>, k: nat): (r: BoundingBox)
    requires 0 < |pts| && k <= |pts|
    ensures r.Valid()
    ensures r.Contains(pts[0])
    ensures Encloses(r, pts[..k])
    ensures Attained(r, pts)
  {
    if k == 0 then
      var r := BoundingBox(pts[0].x, pts[0].y, pts[0].x, pts[0].y);
      assert pts[0].x == r.minX && pts[0].y == r.minY;
      r
    else
      var prev := ExtentOf(pts, k - 1);
      var r := Grow(prev, pts[k - 1]);
      assert r.Contains(pts[k - 1]);
      assert forall i :: 0 <= i < k - 1 ==> pts[..k - 1][i] == pts[..k][i];
      r
  }

  /** The tight bounding box of a non-empty point sequence. */
  function Extent(pts: seq<Point>): (r: BoundingBox)
    requires 0 < |pts|
  {
    ExtentOf(pts, |pts|)
  }

  /** Extent encloses every point and each of its bounds is attained. */
  lemma ExtentIsTight(pts: seq<Point>)
    requires 0 < |pts|
    ensures Extent(pts).Valid()
    ensures Encloses(Extent(pts), pts) && Attained(Extent(pts), pts)
  {
    assert pts[..|pts|] == pts;
  }

  /** The private loop of Polygon::CalculateBoundBox. */
  method CalculateBoundBox(points: seq<Point>) returns (box: BoundingBox)
    requires 0 < |points|
    ensures box == Extent(points)
  {
    var minX, maxX := points[0].x, points[0].x;
    var minY, maxY := points[0].y, points[0].y;
    for i := 0 to |points|
      invariant BoundingBox(minX, minY, maxX, maxY) == ExtentOf(points, i)
    {
      var p := points[i];
      if p.x < minX {
        minX := p.x;
      }
      if p.x > maxX {
        maxX := p.x;
      }
      if p.y < minY {
        minY := p.y;
      }
      if p.y > maxY {
        maxY := p.y;
      }
    }
    box := BoundingBox(minX, minY, maxX, maxY);
  }

  /** The outline is the vertex list followed by its first vertex again. */
  ghost predicate ClosesOver(outline: seq<Point>, vertices: seq<Point>)
  {
    0 < |vertices| && outline == vertices + [vertices[0]]
  }

  /** Line: a segment from start to end. */
  datatype Line = Line(start: Point, end: Point)
  {
    /** The point a fraction t of the way from start to end. */
    function PointAt(t: real): Point { start.Add(end.Sub(start).Scale(t)) }

    function BoundBox(): (r: BoundingBox)
      ensures r.Valid() && r.Contains(start) && r.Contains(end)
    {
      BoundingBox(Min(start.x, end.x), Min(start.y, end.y), Max(start.x, end.x), Max(start.y, end.y))
    }

    /** The segment's box is tight: it holds both endpoints and each bound is attained by one of them. */
    lemma BoundBoxTight()
      ensures Encloses(BoundBox(), Vertices()) && Attained(BoundBox(), Vertices())
    {
      assert Vertices()[0] == start && Vertices()[1] == end;
    }

    function Height(): (r: real)
      ensures r == BoundBox().maxY
    {
      Max(start.y, end.y)
    }

    function Vertices(): seq<Point> { [start, end] }

    /** The polyline drawn for a segment: its two endpoints, not closed. */
    function Lines(): (r: seq<Point>)
      ensures r == Vertices()
    {
      [start, end]
    }
  }

  /** Triangle: three vertices a, b, c. */
  datatype Triangle = Triangle(a: Point, b: Point, c: Point)
  {
    function BoundBox(): (r: BoundingBox)
      ensures r.Valid()
      ensures Encloses(r, Vertices()) && Attained(r, Vertices())
    {
      var r := BoundingBox(Min(Min(a.x, b.x), c.x), Min(Min(a.y, b.y), c.y),
                           Max(Max(a.x, b.x), c.x), Max(Max(a.y, b.y), c.y));
      assert Vertices()[0] == a && Vertices()[1] == b && Vertices()[2] == c;
      r
    }

    function Vertices(): seq<Point> { [a, b, c] }

    function Height(): (r: real)
      ensures r == BoundBox().maxY
    {
      Max(Max(a.y, b.y), c.y)
    }

    function Lines(): (r: seq<Point>)
      ensures ClosesOver(r, Vertices())
    {
      [a, b, c, a]
    }
  }

  /** Rectangle: axis-aligned, given by its bottom-left corner, width and height. */
  datatype Rectangle = Rectangle(bottomLeft: Point, width: real, height: real)
  {
    function TopRight(): Point { Point(bottomLeft.x + width, bottomLeft.y + height) }

    /** The box [x, x + width] x [y, y + height]; it holds all four corners when the sides are not negative. */
    function BoundBox(): (r: BoundingBox)
      ensures r.Contains(bottomLeft) <==> 0.0 <= width && 0.0 <= height
      ensures 0.0 <= width && 0.0 <= height ==> r.Valid() && Encloses(r, Vertices()) && Attained(r, Vertices())
      ensures r.Width() == width && r.Height() == height
    {
      BoundingBox(bottomLeft.x, bottomLeft.y, bottomLeft.x + width, bottomLeft.y + height)
    }

    /** The corners counter-clockwise from the bottom-left one. */
    function Vertices(): (r: seq<Point>)
      ensures |r| == 4 && r[0] == bottomLeft && r[2] == TopRight()
    {
      [bottomLeft,
       Point(bottomLeft.x + width, bottomLeft.y),
       Point(bottomLeft.x + width, bottomLeft.y + height),
       Point(bottomLeft.x, bottomLeft.y + height)]
    }

    function Height(): (r: real)
      ensures r == BoundBox().maxY
    {
      bottomLeft.y + height
    }

    /** The drawn outline walks the corners in the opposite order to Vertices() and closes. */
    function Lines(): (r: seq<Point>)
      ensures var v := Vertices(); r == [v[0], v[3], v[2], v[1], v[0]]
    {
      [bottomLeft,
       Point(bottomLeft.x, bottomLeft.y + height),
       Point(bottomLeft.x + width, bottomLeft.y + height),
       Point(bottomLeft.x + width, bottomLeft.y),
       bottomLeft]
    }
  }

  /** RegularPolygon: sides vertices on the circle of the given radius about center. */
  datatype RegularPolygon = RegularPolygon(center: Point, radius: real, sides: int)
  {
    /** The box center +- radius: it is centred on the center and 2 * radius wide and high. */
    function BoundBox(): (r: BoundingBox)
      ensures r.Center() == center
      ensures r.Width() == 2.0 * radius && r.Height() == 2.0 * radius
    {
      BoundingBox(center.x - radius, center.y - radius, center.x + radius, center.y + radius)
    }

    function Height(): (r: real)
      ensures r == BoundBox().maxY
    {
      center.y + radius
    }

    /**
     * Vertex i sits at angle 2 * pi * i / sides. A negative sides fails:
     * reserve(sides) turns it into a size above max_size() and throws.
     */
    function Vertices(m: MathLib): (r: Result<seq<Point>, string>)
      ensures r.Failure? <==> sides < 0
      ensures r.Failure? ==> r.error == ReserveTooLarge
      ensures r.Success? ==> |r.value| == sides && forall i :: 0 <= i < sides ==> r.value[i] == Vertex(m, i)
      ensures r.Success? && BoundedTrig(m) && 0.0 <= radius ==> Encloses(BoundBox(), r.value)
    {
      if sides < 0 then Failure(ReserveTooLarge)
      else if sides == 0 then Success([])
      else
        var r := seq(sides, i requires 0 <= i < sides => Vertex(m, i));
        assert BoundedTrig(m) && 0.0 <= radius ==> forall i :: 0 <= i < sides ==> BoundBox().Contains(r[i]) by {
          if BoundedTrig(m) && 0.0 <= radius {
            forall i | 0 <= i < sides
              ensures BoundBox().Contains(r[i])
            {
              OnCircleInBox(m, Angle(i));
            }
          }
        }
        Success(r)
    }

    /** The loop of RegularPolygon::Vertices: reserve, then emplace one vertex per side. */
    method ComputeVertices(m: MathLib) returns (r: Result<seq<Point>, string>)
      ensures r == Vertices(m)
    {
      if sides < 0 {
        return Failure(ReserveTooLarge);
      }
      var points: seq<Point> := [];
      for i := 0 to sides
        invariant |points| == i
        invariant forall k :: 0 <= k < i ==> points[k] == Vertex(m, k)
      {
        points := points + [Vertex(m, i)];
      }
      assert points == Vertices(m).value;
      r := Success(points);
    }

    /** The angle of vertex i. */
    function Angle(i: int): real
      requires 0 < sides
    {
      2.0 * Pi * (i as real) / (sides as real)
    }

    function Vertex(m: MathLib, i: int): Point
      requires 0 < sides
    {
      OnCircle(m, Angle(i))
    }

    /** The point of the circumscribed circle at the given angle. */
    function OnCircle(m: MathLib, angle: real): Point
    {
      Point(center.x + radius * Cos(m, angle), center.y + radius * Sin(m, angle))
    }

    lemma OnCircleInBox(m: MathLib, angle: real)
      requires BoundedTrig(m) && 0.0 <= radius
      ensures BoundBox().Contains(OnCircle(m, angle))
    {
      BoxAroundContains(center, radius, Cos(m, angle), Sin(m, angle));
    }

    function Center(): Point { center }
  }

  /** The point center + radius * (c, s), with c and s in [-1, 1], lies in the box center +- radius. */
  lemma BoxAroundContains(center: Point, radius: real, c: real, s: real)
    requires 0.0 <= radius && -1.0 <= c <= 1.0 && -1.0 <= s <= 1.0
    ensures BoundingBox(center.x - radius, center.y - radius, center.x + radius, center.y + radius)
              .Contains(Point(center.x + radius * c, center.y + radius * s))
  {
    OffsetWithin(center.x, radius, c);
    OffsetWithin(center.y, radius, s);
  }

  /** Circle: center and radius. */
  datatype Circle = Circle(center: Point, radius: real)
  {
    /** The box center +- radius: it is centred on the center and 2 * radius wide and high. */
    function BoundBox(): (r: BoundingBox)
      ensures r.Center() == center
      ensures r.Width() == 2.0 * radius && r.Height() == 2.0 * radius
    {
      BoundingBox(center.x - radius, center.y - radius, center.x + radius, center.y + radius)
    }

    function Height(): (r: real)
      ensures r == BoundBox().maxY
    {
      center.y + radius
    }

    function Center(): Point { center }
  }

  /** A non-empty vertex list: Polygon's constructor reads points_[0]. */
  type PointList = s: seq<Point> | 0 < |s| witness [Point(0.0, 0.0)]

  /** Polygon: an arbitrary vertex list. */
  datatype Polygon = Polygon(points: PointList)
  {
    /** The box the constructor computes with CalculateBoundBox. */
    function BoundBox(): (r: BoundingBox)
      ensures r.Valid() && Encloses(r, points) && Attained(r, points)
    {
      ExtentIsTight(points);
      Extent(points)
    }

    /** Unlike every other shape, a polygon's height is its extent along y, not its top. */
    function Height(): (r: real)
      ensures r == BoundBox().Height() && r >= 0.0
    {
      var box := BoundBox();
      box.maxY - box.minY
    }

    function Center(): (r: Point)
      ensures BoundBox().Contains(r)
    {
      var box := BoundBox();
      Point((box.minX + box.maxX) / 2.0, (box.minY + box.maxY) / 2.0)
    }

    function Vertices(): seq<Point> { points }

    /** The drawn outline: the vertices pushed one by one, then the first again. */
    method Lines() returns (lines: Lines2DDyn)
      ensures fresh(lines)
      ensures |lines.xs| == |lines.ys| && ClosesOver(lines.Outline(), points)
    {
      lines := CloseOutline(points);
    }
  }

  /** Lines2DDyn: the x and y coordinate vectors of a drawn polyline. */
  class Lines2DDyn {
    var xs: seq<real>
    var ys: seq<real>

    constructor ()
      ensures xs == [] && ys == []
    {
      xs, ys := [], [];
    }

    method PushBack(p: Point)
      modifies this
      ensures xs == old(xs) + [p.x] && ys == old(ys) + [p.y]
    {
      xs := xs + [p.x];
      ys := ys + [p.y];
    }

    function Front(): (r: Point)
      reads this
      requires 0 < |xs| && 0 < |ys|
    {
      Point(xs[0], ys[0])
    }

    /** The polyline as points, pairing the two coordinate vectors. */
    function Outline(): (r: seq<Point>)
      reads this
      requires |xs| == |ys|
      ensures |r| == |xs| && forall i :: 0 <= i < |r| ==> r[i] == Point(xs[i], ys[i])
    {
      Zip(xs, ys)
    }
  }

  function Zip(xs: seq<real>, ys: seq<real>): (r: seq<Point>)
    requires |xs| == |ys|
    ensures |r| == |xs| && forall i :: 0 <= i < |r| ==> r[i] == Point(xs[i], ys[i])
  {
    seq(|xs|, i requires 0 <= i < |xs| => Point(xs[i], ys[i]))
  }

  /** The loop shared by Polygon::Lines and RegularPolygon::Lines: push every vertex, then Front() again. */
  method CloseOutline(vertices: seq<Point>) returns (lines: Lines2DDyn)
    requires 0 < |vertices|
    ensures fresh(lines)
    ensures |lines.xs| == |lines.ys| && ClosesOver(lines.Outline(), vertices)
  {
    lines := new Lines2DDyn();
    for i := 0 to |vertices|
      invariant |lines.xs| == |lines.ys| == i
      invariant lines.Outline() == vertices[..i]
    {
      lines.PushBack(vertices[i]);
      assert lines.Outline() == vertices[..i + 1];
    }
    assert vertices[..|vertices|] == vertices;
    var front := lines.Front();
    lines.PushBack(front);
    assert lines.Outline() == vertices + [vertices[0]];
  }

  /**
   * RegularPolygon::Lines. A negative sides fails in Vertices; with no sides the
   * source reads Front() of an empty outline, which is undefined, so sides != 0
   * is the caller's duty.
   */
  method RegularPolygonLines(m: MathLib, poly: RegularPolygon) returns (r: Result<Lines2DDyn, string>)
    requires poly.sides != 0
    ensures r.Failure? <==> poly.sides < 0
    ensures r.Failure? ==> r.error == ReserveTooLarge
    ensures r.Success? ==> fresh(r.value) && |r.value.xs| == |r.value.ys|
    ensures r.Success? ==> ClosesOver(r.value.Outline(), poly.Vertices(m).value)
  {
    var verts := poly.ComputeVertices(m);
    match verts
    case Failure(e) =>
      r := Failure(e);
    case Success(v) =>
      var lines := CloseOutline(v);
      r := Success(lines);
  }

  /** The closed variant over the six shape kinds (std::variant in the source). */
  datatype Shape =
    | LineShape(line: Line)
    | TriangleShape(triangle: Triangle)
    | RectangleShape(rectangle: Rectangle)
    | RegularPolygonShape(regular: RegularPolygon)
    | CircleShape(circle: Circle)
    | PolygonShape(polygon: Polygon)
  {
    /** The invariant shapes carry when they come out of the parser's validators. */
    predicate Valid()
    {
      match this
      case LineShape(_) => true
      case TriangleShape(_) => true
      case RectangleShape(r) => 0.0 < r.width && 0.0 < r.height
      case RegularPolygonShape(p) => 0.0 < p.radius && 3 <= p.sides
      case CircleShape(c) => 0.0 < c.radius
      case PolygonShape(_) => true
    }
  }
}
