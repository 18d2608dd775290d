/**
 * The query engine (include/queries.hpp): distance from a point to a shape,
 * per-variant bounding box and height, bounding-box overlap, and the partial
 * shape-to-shape distance.
 */
module Queries {

  import opened Wrappers
  import opened RealArith
  import opened Geometry

  /** std::numeric_limits<double>::max(), the start value of the minimum loops. */
  const MaxDouble: real := 1.7976931348623157e308

  /** std::clamp(v, lo, hi) for lo <= hi. */
  function Clamp(v: real, lo: real, hi: real): (r: real)
    requires lo <= hi
    ensures lo <= r <= hi
    ensures v < lo ==> r == lo
    ensures hi < v ==> r == hi
    ensures lo <= v <= hi ==> r == v
  {
    if v < lo then lo else if hi < v then hi else v
  }

  /* ---------------------------------------------------------------- segments */

  /**
   * The distance from p to the segment: project onto the line, clamp to the
   * segment, measure. The line vector dotted with itself is written as its
   * squared length (the two are equal by DotSelf).
   */
  function SegmentDistance(m: MathLib, line: Line, p: Point): real
  {
    var lineVec := line.end.Sub(line.start);
    var pointVec := p.Sub(line.start);
    var lineLengthSq := lineVec.SqLength();
    if lineLengthSq == 0.0 then
      p.DistanceTo(m, line.start)
    else
      var t := Clamp(pointVec.Dot(lineVec) / lineLengthSq, 0.0, 1.0);
      p.DistanceTo(m, line.start.Add(lineVec.Scale(t)))
  }

  /** The parameter of the segment point SegmentDistance measures to. */
  function NearestParameter(line: Line, p: Point): (t: real)
    ensures 0.0 <= t <= 1.0
  {
    var lineVec := line.end.Sub(line.start);
    var lineLengthSq := lineVec.SqLength();
    if lineLengthSq == 0.0 then 0.0
    else Clamp(p.Sub(line.start).Dot(lineVec) / lineLengthSq, 0.0, 1.0)
  }

  /** SegmentDistance is the distance to the point of the segment at NearestParameter. */
  lemma SegmentDistanceAttained(m: MathLib, line: Line, p: Point)
    ensures SegmentDistance(m, line, p) == p.DistanceTo(m, line.PointAt(NearestParameter(line, p)))
  {
    var v := line.end.Sub(line.start);
    var t := NearestParameter(line, p);
    if v.SqLength() == 0.0 {
      SubZeroIff(line.end, line.start);
      DegenerateSegment(line, 0.0);
    }
  }

  /** Every point of a segment whose ends coincide is its start. */
  lemma DegenerateSegment(line: Line, t: real)
    requires line.start == line.end
    ensures line.PointAt(t) == line.start
  {
  }

  /** The squared distance from p to the point at t of the segment, as a quadratic in t. */
  function Quadratic(w: real, k: real, l: real, t: real): real
  {
    w - 2.0 * t * k + Sq(t) * l
  }

  lemma SqDistAlong(line: Line, p: Point, t: real)
    ensures var v, u := line.end.Sub(line.start), p.Sub(line.start);
            SqDist(p, line.PointAt(t)) == Quadratic(u.SqLength(), u.Dot(v), v.SqLength(), t)
  {
    var v, u := line.end.Sub(line.start), p.Sub(line.start);
    assert p.Sub(line.PointAt(t)) == Point(u.x - v.x * t, u.y - v.y * t);
    SqOfDifference(u.x, v.x, t);
    SqOfDifference(u.y, v.y, t);
  }

  /** On [0, 1], the quadratic with positive leading coefficient is least at the clamped vertex. */
  lemma QuadraticLeastAtClamp(w: real, k: real, l: real, t: real)
    requires 0.0 < l && 0.0 <= t <= 1.0
    ensures Quadratic(w, k, l, Clamp(k / l, 0.0, 1.0)) <= Quadratic(w, k, l, t)
  {
    QuotientByPositive(k, l);
    if k / l < 0.0 {
      LeastAtZero(w, k, l, t);
    } else if 1.0 < k / l {
      LeastAtOne(w, k, l, t);
    } else {
      LeastAtVertex(w, l, t, k / l);
    }
  }

  /** A vertex left of 0 (k < 0): the quadratic grows on [0, 1]. */
  lemma LeastAtZero(w: real, k: real, l: real, t: real)
    requires 0.0 < l && k < 0.0 && 0.0 <= t
    ensures Quadratic(w, k, l, 0.0) <= Quadratic(w, k, l, t)
  {
    SqZero();
    SqNonnegative(t);
    ProductNonnegative(Sq(t), l);
    ProductNonpositive(2.0 * t, k);
  }

  /** A vertex right of 1 (k > l): the quadratic falls on [0, 1]. */
  lemma LeastAtOne(w: real, k: real, l: real, t: real)
    requires 0.0 < l < k && 0.0 <= t <= 1.0
    ensures Quadratic(w, k, l, 1.0) <= Quadratic(w, k, l, t)
  {
    QuadraticFromOne(w, k, l, t);
    ProductNonnegative(1.0 - t, l);
    ProductNonnegative(1.0 - t, 2.0 * k - (1.0 + t) * l);
  }

  lemma QuadraticFromOne(w: real, k: real, l: real, t: real)
    ensures Quadratic(w, k, l, t) - Quadratic(w, k, l, 1.0) == (1.0 - t) * (2.0 * k - (1.0 + t) * l)
    ensures (1.0 + t) * l == 2.0 * l - (1.0 - t) * l
  {
  }

  /** With the vertex s inside [0, 1] (k = s * l), the excess over the minimum is (t - s)^2 * l. */
  lemma LeastAtVertex(w: real, l: real, t: real, s: real)
    requires 0.0 < l
    ensures Quadratic(w, s * l, l, s) <= Quadratic(w, s * l, l, t)
  {
    QuadraticFromVertex(w, l, t, s);
    SqNonnegative(t - s);
    ProductNonnegative(Sq(t - s), l);
  }

  lemma QuadraticFromVertex(w: real, l: real, t: real, s: real)
    ensures Quadratic(w, s * l, l, t) - Quadratic(w, s * l, l, s) == Sq(t - s) * l
  {
  }

  /** Under an exact sqrt, no point of the segment is nearer to p than SegmentDistance. */
  lemma SegmentDistanceIsLeast(m: MathLib, line: Line, p: Point, t: real)
    requires ExactSqrt(m) && 0.0 <= t <= 1.0
    ensures SegmentDistance(m, line, p) <= p.DistanceTo(m, line.PointAt(t))
  {
    var v, u := line.end.Sub(line.start), p.Sub(line.start);
    var s := NearestParameter(line, p);
    SegmentDistanceAttained(m, line, p);
    SqDistAlong(line, p, t);
    SqDistAlong(line, p, s);
    if v.SqLength() == 0.0 {
      SubZeroIff(line.end, line.start);
      DegenerateSegment(line, t);
      DegenerateSegment(line, s);
    } else {
      QuadraticLeastAtClamp(u.SqLength(), u.Dot(v), v.SqLength(), t);
    }
    DistanceOrder(m, p, line.PointAt(s), line.PointAt(t));
  }

  /** p lies on the segment: it is the point at some parameter in [0, 1]. */
  ghost predicate OnSegment(line: Line, p: Point)
  {
    exists t :: 0.0 <= t <= 1.0 && line.PointAt(t) == p
  }

  /** Under an exact sqrt, the distance is zero exactly for the points of the segment. */
  lemma SegmentDistanceZeroIff(m: MathLib, line: Line, p: Point)
    requires ExactSqrt(m)
    ensures SegmentDistance(m, line, p) >= 0.0
    ensures SegmentDistance(m, line, p) == 0.0 <==> OnSegment(line, p)
  {
    ZeroOnlyOnSegment(m, line, p);
    if SegmentDistance(m, line, p) == 0.0 {
      OnSegmentAt(line, p, NearestParameter(line, p));
    } else {
      OffSegment(m, line, p);
    }
  }

  lemma OnSegmentAt(line: Line, p: Point, t: real)
    requires 0.0 <= t <= 1.0 && line.PointAt(t) == p
    ensures OnSegment(line, p)
  {
  }

  lemma OffSegment(m: MathLib, line: Line, p: Point)
    requires ExactSqrt(m) && SegmentDistance(m, line, p) != 0.0
    ensures !OnSegment(line, p)
  {
    if OnSegment(line, p) {
      var t :| 0.0 <= t <= 1.0 && line.PointAt(t) == p;
      ZeroOnSegment(m, line, p, t);
    }
  }

  lemma ZeroOnlyOnSegment(m: MathLib, line: Line, p: Point)
    requires ExactSqrt(m)
    ensures SegmentDistance(m, line, p) >= 0.0
    ensures SegmentDistance(m, line, p) == 0.0 ==> line.PointAt(NearestParameter(line, p)) == p
  {
    SegmentDistanceAttained(m, line, p);
    DistanceZeroIff(m, p, line.PointAt(NearestParameter(line, p)));
  }

  lemma ZeroOnSegment(m: MathLib, line: Line, p: Point, t: real)
    requires ExactSqrt(m) && 0.0 <= t <= 1.0 && line.PointAt(t) == p
    ensures SegmentDistance(m, line, p) == 0.0
  {
    SegmentDistanceIsLeast(m, line, p, t);
    DistanceZeroIff(m, p, p);
    ZeroOnlyOnSegment(m, line, p);
  }

  /* ------------------------------------------------------- edge and vertex loops */

  /** Edge i of the closed outline through the vertices: v[i] to v[(i + 1) % n]. */
  function CyclicEdge(v: seq<Point>, i: int): (e: Line)
    requires 0 <= i < |v|
    ensures e.start in v && e.end in v
    ensures i + 1 < |v| ==> e.end == v[i + 1]
    ensures i + 1 == |v| ==> e.end == v[0]
  {
    Line(v[i], v[(i + 1) % |v|])
  }

  /**
   * The accumulator of the minimum loops after k steps: std::min folded over
   * the first k candidates, starting from DBL_MAX.
   */
  function MinFrom(ds: seq<real>, k: nat): (r: real)
    requires k <= |ds|
    ensures r <= MaxDouble
    ensures forall i :: 0 <= i < k ==> r <= ds[i]
    ensures r == MaxDouble || exists i :: 0 <= i < k && r == ds[i]
  {
    if k == 0 then MaxDouble else Min(MinFrom(ds, k - 1), ds[k - 1])
  }

  /** The candidates of the Triangle, Rectangle and RegularPolygon loops: the distance to each edge. */
  function EdgeDistances(m: MathLib, p: Point, v: seq<Point>): (ds: seq<real>)
    ensures |ds| == |v| && forall i :: 0 <= i < |v| ==> ds[i] == SegmentDistance(m, CyclicEdge(v, i), p)
  {
    seq(|v|, i requires 0 <= i < |v| => SegmentDistance(m, CyclicEdge(v, i), p))
  }

  /** The candidates of the Polygon loop: the distance to each vertex. */
  function VertexDistances(m: MathLib, p: Point, v: seq<Point>): (ds: seq<real>)
    ensures |ds| == |v| && forall i :: 0 <= i < |v| ==> ds[i] == p.DistanceTo(m, v[i])
  {
    seq(|v|, i requires 0 <= i < |v| => p.DistanceTo(m, v[i]))
  }

  /** The loop of the Triangle, Rectangle and RegularPolygon overloads. */
  method EdgeLoopDistance(m: MathLib, p: Point, vertices: seq<Point>) returns (minDistance: real)
    ensures minDistance == MinFrom(EdgeDistances(m, p, vertices), |vertices|)
  {
    ghost var ds := EdgeDistances(m, p, vertices);
    minDistance := MaxDouble;
    for i := 0 to |vertices|
      invariant minDistance == MinFrom(ds, i)
    {
      var edge := Line(vertices[i], vertices[(i + 1) % |vertices|]);
      assert ds[i] == SegmentDistance(m, edge, p);
      minDistance := Min(minDistance, SegmentDistance(m, edge, p));
    }
  }

  /** The loop of the Polygon overload: vertices only, no edges. */
  method VertexLoopDistance(m: MathLib, p: Point, vertices: seq<Point>) returns (minDistance: real)
    ensures minDistance == MinFrom(VertexDistances(m, p, vertices), |vertices|)
  {
    ghost var ds := VertexDistances(m, p, vertices);
    minDistance := MaxDouble;
    for i := 0 to |vertices|
      invariant minDistance == MinFrom(ds, i)
    {
      assert ds[i] == p.DistanceTo(m, vertices[i]);
      minDistance := Min(minDistance, p.DistanceTo(m, vertices[i]));
    }
  }

  /** Over non-negative candidates the minimum is not negative. */
  lemma MinFromNonnegative(ds: seq<real>, k: nat)
    requires k <= |ds| && forall i :: 0 <= i < |ds| ==> 0.0 <= ds[i]
    ensures 0.0 <= MinFrom(ds, k)
  {
  }

  /** Over non-negative candidates the minimum is zero exactly when some candidate is. */
  lemma MinFromZeroIff(ds: seq<real>)
    requires forall i :: 0 <= i < |ds| ==> 0.0 <= ds[i]
    ensures MinFrom(ds, |ds|) == 0.0 <==> 0.0 in ds
  {
    if 0.0 in ds {
      var i :| 0 <= i < |ds| && ds[i] == 0.0;
      MinFromNonnegative(ds, |ds|);
    }
  }

  /** Under an exact sqrt, every edge distance is non-negative and zero exactly on the edge. */
  lemma EdgeDistancesZeroIff(m: MathLib, p: Point, v: seq<Point>)
    requires ExactSqrt(m)
    ensures forall i :: 0 <= i < |v| ==> 0.0 <= EdgeDistances(m, p, v)[i]
    ensures 0.0 in EdgeDistances(m, p, v) <==> exists i :: 0 <= i < |v| && OnSegment(CyclicEdge(v, i), p)
  {
    var ds := EdgeDistances(m, p, v);
    forall i | 0 <= i < |v|
      ensures 0.0 <= ds[i] && (ds[i] == 0.0 <==> OnSegment(CyclicEdge(v, i), p))
    {
      SegmentDistanceZeroIff(m, CyclicEdge(v, i), p);
    }
  }

  /** Under an exact sqrt, every vertex distance is non-negative and zero exactly at the vertex. */
  lemma VertexDistancesZeroIff(m: MathLib, p: Point, v: seq<Point>)
    requires ExactSqrt(m)
    ensures forall i :: 0 <= i < |v| ==> 0.0 <= VertexDistances(m, p, v)[i]
    ensures 0.0 in VertexDistances(m, p, v) <==> p in v
  {
    var ds := VertexDistances(m, p, v);
    forall i | 0 <= i < |v|
      ensures 0.0 <= ds[i] && (ds[i] == 0.0 <==> p == v[i])
    {
      DistanceZeroIff(m, p, v[i]);
    }
  }

  /* ------------------------------------------------------------ point to shape */

  /**
   * What PointToShapeDistanceVisitor computes for each variant. Only a regular
   * polygon with a negative number of sides fails, with what its Vertices throws.
   */
  function PointDistance(m: MathLib, shape: Shape, p: Point): (r: Result<real, string>)
    ensures r.Failure? <==> shape.RegularPolygonShape? && shape.regular.sides < 0
    ensures r.Failure? ==> r.error == ReserveTooLarge
  {
    match shape
    case LineShape(l) => Success(SegmentDistance(m, l, p))
    case TriangleShape(t) => Success(MinFrom(EdgeDistances(m, p, t.Vertices()), 3))
    case RectangleShape(r) => Success(MinFrom(EdgeDistances(m, p, r.Vertices()), 4))
    case RegularPolygonShape(rp) =>
      var verts := rp.Vertices(m);
      if verts.Failure? then Failure(verts.error)
      else Success(MinFrom(EdgeDistances(m, p, verts.value), |verts.value|))
    case CircleShape(c) => Success(Max(0.0, p.DistanceTo(m, c.center) - c.radius))
    case PolygonShape(poly) => Success(MinFrom(VertexDistances(m, p, poly.Vertices()), |poly.Vertices()|))
  }

  /** DistanceToPoint: dispatch on the variant, running the loops where the source loops. */
  method DistanceToPoint(m: MathLib, shape: Shape, point: Point) returns (d: Result<real, string>)
    ensures d == PointDistance(m, shape, point)
  {
    match shape
    case LineShape(l) =>
      d := Success(SegmentDistance(m, l, point));
    case TriangleShape(t) =>
      var x := EdgeLoopDistance(m, point, t.Vertices());
      d := Success(x);
    case RectangleShape(r) =>
      var x := EdgeLoopDistance(m, point, r.Vertices());
      d := Success(x);
    case RegularPolygonShape(rp) =>
      var verts := rp.ComputeVertices(m);
      if verts.Failure? {
        d := Failure(verts.error);
      } else {
        var x := EdgeLoopDistance(m, point, verts.value);
        d := Success(x);
      }
    case CircleShape(c) =>
      var centerDistance := point.DistanceTo(m, c.center);
      d := Success(Max(0.0, centerDistance - c.radius));
    case PolygonShape(poly) =>
      var x := VertexLoopDistance(m, point, poly.Vertices());
      d := Success(x);
  }

  /** Under an exact sqrt, a shape made of edges is at distance zero exactly from the points of its edges. */
  lemma EdgeMinZeroIff(m: MathLib, p: Point, v: seq<Point>)
    requires ExactSqrt(m)
    ensures 0.0 <= MinFrom(EdgeDistances(m, p, v), |v|)
    ensures MinFrom(EdgeDistances(m, p, v), |v|) == 0.0 <==> exists i :: 0 <= i < |v| && OnSegment(CyclicEdge(v, i), p)
  {
    EdgeDistancesZeroIff(m, p, v);
    MinFromNonnegative(EdgeDistances(m, p, v), |v|);
    MinFromZeroIff(EdgeDistances(m, p, v));
  }

  /** Under an exact sqrt, the vertex minimum is zero exactly when p is one of the vertices. */
  lemma VertexMinZeroIff(m: MathLib, p: Point, v: seq<Point>)
    requires ExactSqrt(m)
    ensures 0.0 <= MinFrom(VertexDistances(m, p, v), |v|)
    ensures MinFrom(VertexDistances(m, p, v), |v|) == 0.0 <==> p in v
  {
    VertexDistancesZeroIff(m, p, v);
    MinFromNonnegative(VertexDistances(m, p, v), |v|);
    MinFromZeroIff(VertexDistances(m, p, v));
  }

  /** Under an exact sqrt, no shape is at a negative distance from a point. */
  lemma PointDistanceNonnegative(m: MathLib, shape: Shape, p: Point)
    requires ExactSqrt(m)
    ensures PointDistance(m, shape, p).Success? ==> PointDistance(m, shape, p).value >= 0.0
  {
    match shape
    case LineShape(l) => SegmentDistanceZeroIff(m, l, p);
    case TriangleShape(t) => EdgeMinZeroIff(m, p, t.Vertices());
    case RectangleShape(r) => EdgeMinZeroIff(m, p, r.Vertices());
    case RegularPolygonShape(rp) =>
      if 0 <= rp.sides {
        EdgeMinZeroIff(m, p, rp.Vertices(m).value);
      }
    case CircleShape(c) =>
    case PolygonShape(poly) => VertexMinZeroIff(m, p, poly.Vertices());
  }

  /** Under an exact sqrt, a point is at distance zero from a circle exactly when it lies in the closed disc. */
  lemma CircleDistanceZeroIff(m: MathLib, c: Circle, p: Point)
    requires ExactSqrt(m) && 0.0 <= c.radius
    ensures PointDistance(m, CircleShape(c), p) == Success(0.0) <==> SqDist(p, c.center) <= Sq(c.radius)
  {
    SqrtAtMost(m, p.Sub(c.center).SqLength(), c.radius);
  }

  /** A polygon is measured by its vertices only: zero distance means p is a vertex, not on an edge. */
  lemma PolygonDistanceZeroIff(m: MathLib, poly: Polygon, p: Point)
    requires ExactSqrt(m)
    ensures PointDistance(m, PolygonShape(poly), p) == Success(0.0) <==> p in poly.points
  {
    VertexMinZeroIff(m, p, poly.points);
  }

  /** A regular polygon with no sides has no vertices, so the loop leaves DBL_MAX. */
  lemma NoSidesDistance(m: MathLib, rp: RegularPolygon, p: Point)
    requires rp.sides == 0
    ensures PointDistance(m, RegularPolygonShape(rp), p) == Success(MaxDouble)
  {
  }

  /* ------------------------------------------------------------ boxes and heights */

  /** The bounding box of the held variant. */
  function GetBoundBox(shape: Shape): (r: BoundingBox)
    ensures shape.Valid() ==> r.Valid()
  {
    match shape
    case LineShape(l) => l.BoundBox()
    case TriangleShape(t) => t.BoundBox()
    case RectangleShape(rect) => rect.BoundBox()
    case RegularPolygonShape(rp) => rp.BoundBox()
    case CircleShape(c) => c.BoundBox()
    case PolygonShape(poly) => poly.BoundBox()
  }

  /** The height of the held variant: the top of its box, except a polygon's, which is its box's height. */
  function GetHeight(shape: Shape): (r: real)
    ensures !shape.PolygonShape? ==> r == GetBoundBox(shape).maxY
    ensures shape.PolygonShape? ==> r == GetBoundBox(shape).Height() && r >= 0.0
  {
    match shape
    case LineShape(l) => l.Height()
    case TriangleShape(t) => t.Height()
    case RectangleShape(rect) => rect.Height()
    case RegularPolygonShape(rp) => rp.Height()
    case CircleShape(c) => c.Height()
    case PolygonShape(poly) => poly.Height()
  }

  /** Two shapes collide when their bounding boxes overlap (touching counts). */
  predicate BoundingBoxesOverlap(shape1: Shape, shape2: Shape)
  {
    GetBoundBox(shape1).Overlaps(GetBoundBox(shape2))
  }

  lemma BoundingBoxesOverlapSymmetric(shape1: Shape, shape2: Shape)
    ensures BoundingBoxesOverlap(shape1, shape2) == BoundingBoxesOverlap(shape2, shape1)
  {
    OverlapsSymmetric(GetBoundBox(shape1), GetBoundBox(shape2));
  }

  /** A valid shape's box overlaps itself. */
  lemma BoundingBoxesOverlapReflexive(shape: Shape)
    requires shape.Valid()
    ensures BoundingBoxesOverlap(shape, shape)
  {
  }

  /** For valid shapes, overlap means some point lies in both boxes. */
  lemma BoundingBoxesOverlapIffCommonPoint(shape1: Shape, shape2: Shape)
    requires shape1.Valid() && shape2.Valid()
    ensures BoundingBoxesOverlap(shape1, shape2) <==>
            exists p :: GetBoundBox(shape1).Contains(p) && GetBoundBox(shape2).Contains(p)
  {
    OverlapsIffCommonPoint(GetBoundBox(shape1), GetBoundBox(shape2));
  }

  /* ------------------------------------------------------------ shape to shape */

  /** std::ranges::min_element's value: the least element of a non-empty list. */
  function MinOf(s: seq<real>): (r: real)
    requires 0 < |s|
    ensures r in s
    ensures forall i :: 0 <= i < |s| ==> r <= s[i]
  {
    if |s| == 1 then s[0]
    else
      var rest := MinOf(s[1..]);
      assert forall i :: 1 <= i < |s| ==> s[1..][i - 1] == s[i];
      if rest < s[0] then rest else s[0]
  }

  /** The four endpoint-to-segment distances the Line-Line overload compares. */
  function EndpointDistances(m: MathLib, l1: Line, l2: Line): seq<real>
  {
    [SegmentDistance(m, l2, l1.start), SegmentDistance(m, l2, l1.end),
     SegmentDistance(m, l1, l2.start), SegmentDistance(m, l1, l2.end)]
  }

  /**
   * ShapeToShapeDistanceVisitor: the gap between two circles, the least
   * endpoint-to-segment distance between two lines, and nothing otherwise.
   */
  function DistanceBetweenShapes(m: MathLib, shape1: Shape, shape2: Shape): (r: Option<real>)
    ensures r.Some? <==> (shape1.CircleShape? && shape2.CircleShape?) || (shape1.LineShape? && shape2.LineShape?)
    ensures shape1.CircleShape? && shape2.CircleShape? ==> r.value >= 0.0
    ensures shape1.LineShape? && shape2.LineShape? ==>
              r.value in EndpointDistances(m, shape1.line, shape2.line) &&
              forall d :: d in EndpointDistances(m, shape1.line, shape2.line) ==> r.value <= d
  {
    match (shape1, shape2)
    case (CircleShape(c1), CircleShape(c2)) =>
      var centerDistance := c1.center.DistanceTo(m, c2.center);
      Some(Max(0.0, centerDistance - c1.radius - c2.radius))
    case (LineShape(l1), LineShape(l2)) =>
      Some(MinOf(EndpointDistances(m, l1, l2)))
    case _ => None
  }

  /** The shape distance does not depend on the order of its arguments. */
  lemma DistanceBetweenShapesSymmetric(m: MathLib, shape1: Shape, shape2: Shape)
    ensures DistanceBetweenShapes(m, shape1, shape2) == DistanceBetweenShapes(m, shape2, shape1)
  {
    match (shape1, shape2)
    case (CircleShape(c1), CircleShape(c2)) =>
      DistanceSymmetric(m, c1.center, c2.center);
    case (LineShape(l1), LineShape(l2)) =>
      EndpointMinSymmetric(m, l1, l2);
    case _ =>
  }

  /** The four candidates of (l1, l2) are those of (l2, l1) in another order, so their least is the same. */
  lemma EndpointMinSymmetric(m: MathLib, l1: Line, l2: Line)
    ensures MinOf(EndpointDistances(m, l1, l2)) == MinOf(EndpointDistances(m, l2, l1))
  {
    var a, b := EndpointDistances(m, l1, l2), EndpointDistances(m, l2, l1);
    assert a[0] == b[2] && a[1] == b[3] && a[2] == b[0] && a[3] == b[1];
    var ra, rb := MinOf(a), MinOf(b);
    assert ra in b && rb in a;
  }
}

