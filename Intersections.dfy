/**
 * The intersection engine (include/intersections.hpp): one intersection point
 * of two shapes, computed for Line-Line, Line-Circle, Circle-Line and
 * Circle-Circle. Every other pair of shapes is rejected with the error the
 * source throws as std::logic_error.
 */
module Intersections {

  import opened Wrappers
  import opened RealArith
  import opened Geometry
  import opened Queries

  /** IntersectionVisitor::EPS */
  const Eps: real := 0.000000001

  /** The message of the logic_error thrown for an unsupported pair. */
  const UnsupportedMessage: string := "Intersection not supported for these types"

  /* ---------------------------------------------------------------- line, line */

  /**
   * Segment against segment: solve start1 + r * t = start2 + s * u by cross
   * products; nearly parallel segments (|r x s| < EPS) give no point, even when
   * they overlap.
   */
  function LineLine(l1: Line, l2: Line): (res: Option<Point>)
    ensures Abs(l1.end.Sub(l1.start).Cross(l2.end.Sub(l2.start))) < Eps ==> res.None?
    ensures res.Some? ==> OnSegment(l1, res.value)
  {
    var r := l1.end.Sub(l1.start);
    var s := l2.end.Sub(l2.start);
    var w := l2.start.Sub(l1.start);
    var rCrossS := r.Cross(s);
    if Abs(rCrossS) < Eps then None
    else
      var t := w.Cross(s) / rCrossS;
      var u := w.Cross(r) / rCrossS;
      if t >= 0.0 && t <= 1.0 && u >= 0.0 && u <= 1.0 then
        OnSegmentAt(l1, l1.start.Add(r.Scale(t)), t);
        Some(l1.start.Add(r.Scale(t)))
      else None
  }

  /**
   * Cramer's rule for the 2 x 2 system r * t - s * u = w, one equation per
   * coordinate, with determinant dt = r x s.
   */
  lemma Cramer(rx: real, ry: real, sx: real, sy: real, wx: real, wy: real, t: real, u: real, dt: real)
    requires dt == rx * sy - ry * sx && dt != 0.0
    requires t * dt == wx * sy - wy * sx && u * dt == wx * ry - wy * rx
    ensures rx * t - sx * u == wx && ry * t - sy * u == wy
  {
    assert (rx * t - sx * u - wx) * dt == rx * (t * dt) - sx * (u * dt) - wx * dt;
    assert (ry * t - sy * u - wy) * dt == ry * (t * dt) - sy * (u * dt) - wy * dt;
  }

  /** The parameters t and u at which the two segments' lines meet, for non-parallel segments. */
  lemma LineLineMeet(l1: Line, l2: Line, t: real, u: real)
    requires var r, s := l1.end.Sub(l1.start), l2.end.Sub(l2.start);
             var w := l2.start.Sub(l1.start);
             r.Cross(s) != 0.0 && t == w.Cross(s) / r.Cross(s) && u == w.Cross(r) / r.Cross(s)
    ensures l1.PointAt(t) == l2.PointAt(u)
  {
    var r, s := l1.end.Sub(l1.start), l2.end.Sub(l2.start);
    var w := l2.start.Sub(l1.start);
    var dt := r.Cross(s);
    QuotientTimesDivisor(w.Cross(s), dt);
    QuotientTimesDivisor(w.Cross(r), dt);
    Cramer(r.x, r.y, s.x, s.y, w.x, w.y, t, u, dt);
  }

  /** In exact arithmetic the point found lies on the second segment as well. */
  lemma LineLineOnBoth(l1: Line, l2: Line)
    ensures LineLine(l1, l2).Some? ==> OnSegment(l2, LineLine(l1, l2).value)
  {
    if LineLine(l1, l2).Some? {
      var r, s := l1.end.Sub(l1.start), l2.end.Sub(l2.start);
      var w := l2.start.Sub(l1.start);
      var t, u := w.Cross(s) / r.Cross(s), w.Cross(r) / r.Cross(s);
      LineLineMeet(l1, l2, t, u);
      OnSegmentAt(l2, l2.PointAt(u), u);
    }
  }

  /**
   * The converse of Cramer's rule: any solution of r * t - s * u = w satisfies
   * t * (r x s) == w x s and u * (r x s) == w x r.
   */
  lemma CramerConverse(rx: real, ry: real, sx: real, sy: real, wx: real, wy: real, t: real, u: real)
    requires rx * t - sx * u == wx && ry * t - sy * u == wy
    ensures t * (rx * sy - ry * sx) == wx * sy - wy * sx
    ensures u * (rx * sy - ry * sx) == wx * ry - wy * rx
  {
    assert wx * sy - wy * sx == (rx * t - sx * u) * sy - (ry * t - sy * u) * sx;
    assert wx * ry - wy * rx == (rx * t - sx * u) * ry - (ry * t - sy * u) * rx;
  }

  /** A value times a non-zero divisor equal to the dividend is the quotient. */
  lemma QuotientUnique(q: real, n: real, d: real)
    requires d != 0.0 && q * d == n
    ensures q == n / d
  {
    QuotientTimesDivisor(n, d);
    assert (q - n / d) * d == 0.0;
  }

  /**
   * Completeness: two segments that are not nearly parallel and share the
   * point at t on the first and u on the second, both in [0, 1], are found
   * to cross there.
   */
  lemma {:induction false} LineLineFinds(l1: Line, l2: Line, t: real, u: real)
    requires Abs(l1.end.Sub(l1.start).Cross(l2.end.Sub(l2.start))) >= Eps
    requires 0.0 <= t <= 1.0 && 0.0 <= u <= 1.0
    requires l1.PointAt(t) == l2.PointAt(u)
    ensures LineLine(l1, l2) == Some(l1.PointAt(t))
  {
    var r, s := l1.end.Sub(l1.start), l2.end.Sub(l2.start);
    var w := l2.start.Sub(l1.start);
    var dt := r.Cross(s);
    assert l1.start.x + r.x * t == l2.start.x + s.x * u;
    assert l1.start.y + r.y * t == l2.start.y + s.y * u;
    CramerConverse(r.x, r.y, s.x, s.y, w.x, w.y, t, u);
    QuotientUnique(t, w.Cross(s), dt);
    QuotientUnique(u, w.Cross(r), dt);
  }

  /** Swapping the segments swaps t and u and finds the same point. */
  lemma LineLineSymmetric(l1: Line, l2: Line)
    ensures LineLine(l1, l2) == LineLine(l2, l1)
  {
    var r, s := l1.end.Sub(l1.start), l2.end.Sub(l2.start);
    var w := l2.start.Sub(l1.start);
    var w' := l1.start.Sub(l2.start);
    var dt := r.Cross(s);
    assert s.Cross(r) == -dt;
    if dt != 0.0 {
      var t, u := w.Cross(s) / dt, w.Cross(r) / dt;
      NegatedQuotient(w.Cross(r), dt);
      NegatedQuotient(w.Cross(s), dt);
      assert w'.Cross(r) == -w.Cross(r) && w'.Cross(s) == -w.Cross(s);
      assert w'.Cross(r) / s.Cross(r) == u && w'.Cross(s) / s.Cross(r) == t;
      LineLineMeet(l1, l2, t, u);
    }
  }

  lemma NegatedQuotient(n: real, d: real)
    requires d != 0.0
    ensures (-n) / (-d) == n / d
  {
  }

  /* -------------------------------------------------------------- line, circle */

  /**
   * intersectLineCircle: solve |start + d * t - center|^2 = radius^2 for t.
   * A segment shorter than EPS (squared) is treated as its start point;
   * otherwise the quadratic a t^2 + b t + c is solved by SolveAlong.
   */
  function LineCircle(m: MathLib, line: Line, circle: Circle): (res: Option<Point>)
    ensures res.Some? ==> OnSegment(line, res.value)
    ensures var d, f := line.end.Sub(line.start), line.start.Sub(circle.center);
            d.Dot(d) < Eps ==>
              (res.Some? <==> Abs(f.Dot(f) - Sq(circle.radius)) < Eps) && (res.Some? ==> res.value == line.start)
  {
    var d := line.end.Sub(line.start);
    var f := line.start.Sub(circle.center);
    var a := d.Dot(d);
    if a < Eps then
      var distSq := f.Dot(f);
      var radiusSq := Sq(circle.radius);
      if Abs(distSq - radiusSq) < Eps then
        OnSegmentAt(line, line.start, 0.0);
        Some(line.start)
      else None
    else
      SolveAlong(m, line, a, 2.0 * f.Dot(d), f.Dot(f) - Sq(circle.radius))
  }

  /**
   * The roots of a t^2 + b t + c within [0, 1], as points of the segment: none
   * below a discriminant of -EPS, the single root -b / 2a within EPS of zero
   * (a tangent), and otherwise the smaller root first.
   */
  function SolveAlong(m: MathLib, line: Line, a: real, b: real, c: real): (res: Option<Point>)
    requires Eps <= a
    ensures res.Some? ==> OnSegment(line, res.value)
    ensures Sq(b) - 4.0 * a * c < -Eps ==> res.None?
  {
    var discriminant := Sq(b) - 4.0 * a * c;
    if discriminant < -Eps then None
    else if Abs(discriminant) <= Eps then
      var t := -b / (2.0 * a);
      if t >= 0.0 && t <= 1.0 then
        OnSegmentAt(line, line.PointAt(t), t);
        Some(line.PointAt(t))
      else None
    else
      var sqrtD := Sqrt(m, discriminant);
      var t1 := (-b - sqrtD) / (2.0 * a);
      var t2 := (-b + sqrtD) / (2.0 * a);
      TryRoots(line, t1, t2)
  }

  /** The point at t1 if t1 lies in [0, 1], else the point at t2 if t2 does, else none. */
  function TryRoots(line: Line, t1: real, t2: real): (res: Option<Point>)
    ensures res.Some? <==> 0.0 <= t1 <= 1.0 || 0.0 <= t2 <= 1.0
    ensures res.Some? ==> OnSegment(line, res.value)
    ensures res.Some? ==> res.value == line.PointAt(if 0.0 <= t1 <= 1.0 then t1 else t2)
  {
    if t1 >= 0.0 && t1 <= 1.0 then
      OnSegmentAt(line, line.PointAt(t1), t1);
      Some(line.PointAt(t1))
    else if t2 >= 0.0 && t2 <= 1.0 then
      OnSegmentAt(line, line.PointAt(t2), t2);
      Some(line.PointAt(t2))
    else None
  }

  /** The segment crosses the circle at parameter t. */
  ghost predicate Crosses(line: Line, circle: Circle, t: real)
  {
    0.0 <= t <= 1.0 && SqDist(line.PointAt(t), circle.center) == Sq(circle.radius)
  }

  /** Along the line, the squared distance to the center is f.f + b t + a t^2. */
  lemma SqDistToCenter(line: Line, circle: Circle, t: real)
    ensures var d, f := line.end.Sub(line.start), line.start.Sub(circle.center);
            SqDist(line.PointAt(t), circle.center) == f.Dot(f) + t * (2.0 * f.Dot(d)) + Sq(t) * d.Dot(d)
  {
    SqDistAsOffset(line, circle, t);
    OffsetExpands(line, circle, t);
  }

  /** The squared distance to the center is |f + t d|^2, componentwise. */
  lemma SqDistAsOffset(line: Line, circle: Circle, t: real)
    ensures var d, f := line.end.Sub(line.start), line.start.Sub(circle.center);
            SqDist(line.PointAt(t), circle.center) == Sq(f.x + d.x * t) + Sq(f.y + d.y * t)
  {
    var d, f := line.end.Sub(line.start), line.start.Sub(circle.center);
    PointAtOffset(line, circle, t);
    SqDistOffset(line.PointAt(t), circle.center, f.x + d.x * t, f.y + d.y * t);
  }

  /** |f + t d|^2 in terms of the dot products the source computes. */
  lemma OffsetExpands(line: Line, circle: Circle, t: real)
    ensures var d, f := line.end.Sub(line.start), line.start.Sub(circle.center);
            Sq(f.x + d.x * t) + Sq(f.y + d.y * t) == f.Dot(f) + t * (2.0 * f.Dot(d)) + Sq(t) * d.Dot(d)
  {
    var d, f := line.end.Sub(line.start), line.start.Sub(circle.center);
    ExpandAlongDot(f, d, t);
  }

  /** The point at parameter t, seen from the center, is f + t d. */
  lemma PointAtOffset(line: Line, circle: Circle, t: real)
    ensures var d, f := line.end.Sub(line.start), line.start.Sub(circle.center);
            line.PointAt(t).Sub(circle.center) == Point(f.x + d.x * t, f.y + d.y * t)
  {
    var d, f := line.end.Sub(line.start), line.start.Sub(circle.center);
    var step := d.Scale(t);
    assert line.PointAt(t) == line.start.Add(step);
    OffsetThenStep(line.start, circle.center, step);
  }

  /** Stepping from s and then looking from c is looking at s from c and then stepping. */
  lemma OffsetThenStep(s: Point, c: Point, step: Point)
    ensures s.Add(step).Sub(c) == Point(s.Sub(c).x + step.x, s.Sub(c).y + step.y)
  {
  }

  /** A point at offset (x, y) from c is at squared distance x^2 + y^2. */
  lemma SqDistOffset(p: Point, c: Point, x: real, y: real)
    requires p.Sub(c) == Point(x, y)
    ensures SqDist(p, c) == Sq(x) + Sq(y)
  {
  }

  /** |f + t d|^2 expands to f.f + 2 (f.d) t + (d.d) t^2. */
  lemma ExpandAlongDot(f: Point, d: Point, t: real)
    ensures Sq(f.x + d.x * t) + Sq(f.y + d.y * t) == f.Dot(f) + t * (2.0 * f.Dot(d)) + Sq(t) * d.Dot(d)
  {
    ExpandAlong(f.x, f.y, d.x, d.y, t);
  }

  lemma ExpandAlong(fx: real, fy: real, dx: real, dy: real, t: real)
    ensures Sq(fx + dx * t) + Sq(fy + dy * t)
         == (fx * fx + fy * fy) + t * (2.0 * (fx * dx + fy * dy)) + Sq(t) * (dx * dx + dy * dy)
  {
    SqOfSum(fx, dx, t);
    SqOfSum(fy, dy, t);
  }

  /** t is a root of a t^2 + b t + c. */
  predicate IsRoot(a: real, b: real, c: real, t: real)
  {
    a * Sq(t) + b * t + c == 0.0
  }

  /** Either root (-b +- s) / 2a, with s * s the discriminant, solves a t^2 + b t + c = 0. */
  lemma RootOfQuadratic(a: real, b: real, c: real, s: real, t: real)
    requires a != 0.0 && Sq(s) == Sq(b) - 4.0 * a * c && 2.0 * a * t == -b + s
    ensures a * Sq(t) + b * t + c == 0.0
  {
    var u := 2.0 * a * t;
    assert 4.0 * a * (a * Sq(t) + b * t + c) == Sq(u) + 2.0 * b * u + 4.0 * a * c;
    assert Sq(u) == Sq(b) - 2.0 * b * s + Sq(s);
    ZeroProduct(a * Sq(t) + b * t + c, 4.0 * a);
  }

  /** A quadratic with a != 0 has no roots besides (-b - s) / 2a and (-b + s) / 2a. */
  lemma OnlyTwoRoots(a: real, b: real, c: real, s: real, t1: real, t2: real, t: real)
    requires a != 0.0 && Sq(s) == Sq(b) - 4.0 * a * c
    requires 2.0 * a * t1 == -b - s && 2.0 * a * t2 == -b + s
    requires a * Sq(t) + b * t + c == 0.0
    ensures t == t1 || t == t2
  {
    RootsSumAndProduct(a, b, c, s, t1, t2);
    assert a * ((t - t1) * (t - t2)) == a * Sq(t) - a * (t1 + t2) * t + a * (t1 * t2);
    ZeroProduct((t - t1) * (t - t2), a);
  }

  /** Vieta's formulas: a (t1 + t2) = -b and a t1 t2 = c. */
  lemma RootsSumAndProduct(a: real, b: real, c: real, s: real, t1: real, t2: real)
    requires a != 0.0 && Sq(s) == Sq(b) - 4.0 * a * c
    requires 2.0 * a * t1 == -b - s && 2.0 * a * t2 == -b + s
    ensures a * (t1 + t2) == -b && a * (t1 * t2) == c
  {
    assert 4.0 * a * (a * (t1 * t2)) == (2.0 * a * t1) * (2.0 * a * t2);
    assert (-b - s) * (-b + s) == Sq(b) - Sq(s);
    ZeroProduct(a * (t1 * t2) - c, 4.0 * a);
  }

  /** On the segment, crossing the circle is being a root of a t^2 + b t + c. */
  lemma CrossesIffRoot(line: Line, circle: Circle, t: real)
    ensures var d, f := line.end.Sub(line.start), line.start.Sub(circle.center);
            var a, b, c := d.Dot(d), 2.0 * f.Dot(d), f.Dot(f) - Sq(circle.radius);
            Crosses(line, circle, t) <==> 0.0 <= t <= 1.0 && IsRoot(a, b, c, t)
  {
    SqDistToCenter(line, circle, t);
  }

  /** The smaller root (-b - s) / 2a is at most the larger one when a > 0 and s >= 0. */
  lemma RootsOrdered(a: real, b: real, s: real, t1: real, t2: real)
    requires 0.0 < a && 0.0 <= s && 2.0 * a * t1 == -b - s && 2.0 * a * t2 == -b + s
    ensures t1 <= t2
  {
    if t2 < t1 {
      ProductPositive(t1 - t2, 2.0 * a);
    }
  }

  /** The roots of a t^2 + b t + c for a > 0 and s = sqrt(b^2 - 4ac): exactly t1 <= t2. */
  lemma QuadraticRoots(a: real, b: real, c: real, s: real, t1: real, t2: real)
    requires 0.0 < a && 0.0 <= s && Sq(s) == Sq(b) - 4.0 * a * c
    requires t1 == (-b - s) / (2.0 * a) && t2 == (-b + s) / (2.0 * a)
    ensures t1 <= t2
    ensures IsRoot(a, b, c, t1) && IsRoot(a, b, c, t2)
    ensures forall t :: IsRoot(a, b, c, t) ==> t == t1 || t == t2
  {
    QuotientTimesDivisor(-b - s, 2.0 * a);
    QuotientTimesDivisor(-b + s, 2.0 * a);
    assert 2.0 * a * t1 == -b - s && 2.0 * a * t2 == -b + s;
    SqNegate(s);
    RootOfQuadratic(a, b, c, -s, t1);
    RootOfQuadratic(a, b, c, s, t2);
    RootsOrdered(a, b, s, t1, t2);
    forall t | IsRoot(a, b, c, t)
      ensures t == t1 || t == t2
    {
      OnlyTwoRoots(a, b, c, s, t1, t2, t);
    }
  }

  /** The crossings of the segment are the roots of a t^2 + b t + c that fall in [0, 1]. */
  lemma CrossingsAreRoots(line: Line, circle: Circle)
    ensures var d, f := line.end.Sub(line.start), line.start.Sub(circle.center);
            var a, b, c := d.Dot(d), 2.0 * f.Dot(d), f.Dot(f) - Sq(circle.radius);
            forall t :: Crosses(line, circle, t) <==> 0.0 <= t <= 1.0 && IsRoot(a, b, c, t)
  {
    forall t {
      CrossesIffRoot(line, circle, t);
    }
  }

  /** Trying t1 and then t2, for t1 <= t2, yields the first crossing if there is one. */
  lemma FirstOfTwo(line: Line, circle: Circle, t1: real, t2: real)
    requires t1 <= t2
    requires forall t :: Crosses(line, circle, t) <==> 0.0 <= t <= 1.0 && (t == t1 || t == t2)
    ensures TryRoots(line, t1, t2).Some? <==> exists t :: Crosses(line, circle, t)
    ensures TryRoots(line, t1, t2).Some? ==>
              exists t :: Crosses(line, circle, t) && TryRoots(line, t1, t2).value == line.PointAt(t) &&
                          forall t' :: Crosses(line, circle, t') ==> t <= t'
  {
    if 0.0 <= t1 <= 1.0 {
      assert Crosses(line, circle, t1);
    } else if 0.0 <= t2 <= 1.0 {
      assert Crosses(line, circle, t2);
    }
  }

  /** Within EPS of a zero discriminant, SolveAlong offers the vertex -b / 2a of the parabola. */
  lemma SolveAlongTangent(m: MathLib, line: Line, a: real, b: real, c: real)
    requires Eps <= a && Abs(Sq(b) - 4.0 * a * c) <= Eps
    ensures var t := -b / (2.0 * a);
            SolveAlong(m, line, a, b, c) == if 0.0 <= t <= 1.0 then Some(line.PointAt(t)) else None
  {
  }

  /** The vertex t = -b / 2a of a t^2 + b t, for a > 0, is its least value. */
  lemma VertexIsLeast(a: real, b: real, t: real, s: real)
    requires 0.0 < a && 2.0 * a * t == -b
    ensures t * b + Sq(t) * a <= s * b + Sq(s) * a
  {
    assert s * b + Sq(s) * a - (t * b + Sq(t) * a) == a * Sq(s - t);
    ProductNonnegative(a, Sq(s - t));
  }

  /**
   * When the squared distance to the centre along the line is k + b u + a u^2
   * with a > 0, the vertex t = -b / 2a is the nearest parameter.
   */
  lemma VertexNearest(line: Line, circle: Circle, a: real, b: real, k: real, t: real)
    requires 0.0 < a && 2.0 * a * t == -b
    requires DistanceAlongLine(line, circle, k, b, a)
    ensures forall s :: SqDist(line.PointAt(t), circle.center) <= SqDist(line.PointAt(s), circle.center)
  {
    forall s
      ensures SqDist(line.PointAt(t), circle.center) <= SqDist(line.PointAt(s), circle.center)
    {
      assert DistanceAlong(line, circle, k, b, a, t) && DistanceAlong(line, circle, k, b, a, s);
      VertexIsLeast(a, b, t, s);
    }
  }

  /** At every parameter u the squared distance to the centre is k + b u + a u^2. */
  ghost predicate DistanceAlongLine(line: Line, circle: Circle, k: real, b: real, a: real)
  {
    forall u :: DistanceAlong(line, circle, k, b, a, u)
  }

  /** At parameter u the squared distance to the centre is k + b u + a u^2. */
  ghost predicate DistanceAlong(line: Line, circle: Circle, k: real, b: real, a: real, u: real)
  {
    SqDist(line.PointAt(u), circle.center) == k + u * b + Sq(u) * a
  }

  /** SqDistToCenter for every parameter. */
  lemma SqDistAlongLine(line: Line, circle: Circle)
    ensures var d, f := line.end.Sub(line.start), line.start.Sub(circle.center);
            DistanceAlongLine(line, circle, f.Dot(f), 2.0 * f.Dot(d), d.Dot(d))
  {
    forall t {
      SqDistToCenter(line, circle, t);
    }
  }

  /**
   * At a tangent (discriminant within EPS of zero), the point intersectLineCircle
   * returns is the point of the segment nearest the centre of the circle.
   */
  lemma LineCircleTangent(m: MathLib, line: Line, circle: Circle, a: real, b: real, c: real)
    requires var d, f := line.end.Sub(line.start), line.start.Sub(circle.center);
             a == d.Dot(d) && b == 2.0 * f.Dot(d) && c == f.Dot(f) - Sq(circle.radius)
    requires Eps <= a && Abs(Sq(b) - 4.0 * a * c) <= Eps
    requires LineCircle(m, line, circle).Some?
    ensures forall s :: 0.0 <= s <= 1.0 ==>
              SqDist(LineCircle(m, line, circle).value, circle.center) <= SqDist(line.PointAt(s), circle.center)
  {
    var f := line.start.Sub(circle.center);
    SolveAlongTangent(m, line, a, b, c);
    SqDistAlongLine(line, circle);
    var t := -b / (2.0 * a);
    QuotientTimesDivisor(-b, 2.0 * a);
    assert 2.0 * a * t == -b;
    VertexNearest(line, circle, a, b, f.Dot(f), t);
    LineCircleLong(m, line, circle);
  }

  /** A square root taken under ExactSqrt. */
  lemma ExactRoot(m: MathLib, x: real)
    requires ExactSqrt(m) && 0.0 <= x
    ensures 0.0 <= Sqrt(m, x) && Sq(Sqrt(m, x)) == x
  {
  }

  /** For a segment of squared length at least EPS, intersectLineCircle solves the quadratic. */
  lemma LineCircleLong(m: MathLib, line: Line, circle: Circle)
    ensures var d, f := line.end.Sub(line.start), line.start.Sub(circle.center);
            var a, b, c := d.Dot(d), 2.0 * f.Dot(d), f.Dot(f) - Sq(circle.radius);
            Eps <= a ==> LineCircle(m, line, circle) == SolveAlong(m, line, a, b, c)
  {
  }

  /** Above a discriminant of EPS, SolveAlong tries the two roots in order. */
  lemma SolveAlongTwoRoots(m: MathLib, line: Line, a: real, b: real, c: real)
    requires Eps <= a && Eps < Sq(b) - 4.0 * a * c
    ensures var sqrtD := Sqrt(m, Sq(b) - 4.0 * a * c);
            SolveAlong(m, line, a, b, c) == TryRoots(line, (-b - sqrtD) / (2.0 * a), (-b + sqrtD) / (2.0 * a))
  {
  }

  /**
   * Under an exact sqrt, when the crossings are the roots of a t^2 + b t + c
   * that lie in [0, 1] and the discriminant exceeds EPS, SolveAlong finds a
   * point exactly when there is a crossing, and returns the first one.
   */
  lemma SolveAlongFirstCrossing(m: MathLib, line: Line, circle: Circle, a: real, b: real, c: real)
    requires ExactSqrt(m) && Eps <= a && Eps < Sq(b) - 4.0 * a * c
    requires forall t :: Crosses(line, circle, t) <==> 0.0 <= t <= 1.0 && IsRoot(a, b, c, t)
    ensures SolveAlong(m, line, a, b, c).Some? <==> exists t :: Crosses(line, circle, t)
    ensures SolveAlong(m, line, a, b, c).Some? ==>
              exists t :: Crosses(line, circle, t) && SolveAlong(m, line, a, b, c).value == line.PointAt(t) &&
                          forall t' :: Crosses(line, circle, t') ==> t <= t'
  {
    var sqrtD := Sqrt(m, Sq(b) - 4.0 * a * c);
    ExactRoot(m, Sq(b) - 4.0 * a * c);
    var t1 := (-b - sqrtD) / (2.0 * a);
    var t2 := (-b + sqrtD) / (2.0 * a);
    SolveAlongTwoRoots(m, line, a, b, c);
    QuadraticRoots(a, b, c, sqrtD, t1, t2);
    assert forall t :: Crosses(line, circle, t) <==> 0.0 <= t <= 1.0 && (t == t1 || t == t2);
    FirstOfTwo(line, circle, t1, t2);
  }

  /**
   * Under an exact sqrt and with two well-separated roots, intersectLineCircle
   * finds a point exactly when the segment crosses the circle, and it returns
   * the crossing nearest the start of the segment.
   */
  lemma LineCircleFirstCrossing(m: MathLib, line: Line, circle: Circle)
    requires ExactSqrt(m)
    requires var d, f := line.end.Sub(line.start), line.start.Sub(circle.center);
             var a, b, c := d.Dot(d), 2.0 * f.Dot(d), f.Dot(f) - Sq(circle.radius);
             Eps <= a && Eps < Sq(b) - 4.0 * a * c
    ensures LineCircle(m, line, circle).Some? <==> exists t :: Crosses(line, circle, t)
    ensures LineCircle(m, line, circle).Some? ==>
              exists t :: Crosses(line, circle, t) && LineCircle(m, line, circle).value == line.PointAt(t) &&
                          forall t' :: Crosses(line, circle, t') ==> t <= t'
  {
    var d, f := line.end.Sub(line.start), line.start.Sub(circle.center);
    var a, b, c := d.Dot(d), 2.0 * f.Dot(d), f.Dot(f) - Sq(circle.radius);
    CrossingsAreRoots(line, circle);
    SolveAlongFirstCrossing(m, line, circle, a, b, c);
    LineCircleLong(m, line, circle);
  }

  /* ------------------------------------------------------------ circle, circle */

  /**
   * Circle-Circle: none for (nearly) concentric circles, for circles too far
   * apart, for one circle inside the other, and when the squared half-chord
   * h^2 = r1^2 - a^2 is below -EPS; otherwise the point c1 + a ex + h ey, with
   * ex the unit vector towards c2, ey its left normal and a negative h^2
   * rounded up to zero.
   */
  function CircleCircle(m: MathLib, c1: Circle, c2: Circle): (res: Option<Point>)
    ensures var dist := c2.center.DistanceTo(m, c1.center);
            && (dist < Eps ==> res.None?)
            && (dist > c1.radius + c2.radius + Eps ==> res.None?)
            && (dist + Min(c1.radius, c2.radius) < Max(c1.radius, c2.radius) - Eps ==> res.None?)
  {
    var d := c2.center.Sub(c1.center);
    var dist := d.Length(m);
    if dist < Eps then None
    else if dist > c1.radius + c2.radius + Eps then None
    else if dist + Min(c1.radius, c2.radius) < Max(c1.radius, c2.radius) - Eps then None
    else
      var a := (Sq(c1.radius) - Sq(c2.radius) + Sq(dist)) / (2.0 * dist);
      var hSq := Sq(c1.radius) - Sq(a);
      if hSq < -Eps then None
      else
        var h := Sqrt(m, if hSq < 0.0 then 0.0 else hSq);
        var ex := d.Div(dist);
        var ey := Point(-ex.y, ex.x);
        Some(c1.center.Add(ex.Scale(a)).Add(ey.Scale(h)))
  }

  /** Turning (a, h) by a unit vector (ux, uy) keeps its length. */
  lemma RotatedLength(ux: real, uy: real, a: real, h: real)
    requires Sq(ux) + Sq(uy) == 1.0
    ensures Sq(ux * a + -uy * h) + Sq(uy * a + ux * h) == Sq(a) + Sq(h)
  {
    assert Sq(ux * a + -uy * h) == Sq(ux) * Sq(a) - 2.0 * (ux * uy) * (a * h) + Sq(uy) * Sq(h);
    assert Sq(uy * a + ux * h) == Sq(uy) * Sq(a) + 2.0 * (ux * uy) * (a * h) + Sq(ux) * Sq(h);
    assert (Sq(ux) + Sq(uy)) * (Sq(a) + Sq(h)) == Sq(ux) * Sq(a) + Sq(uy) * Sq(h) + (Sq(uy) * Sq(a) + Sq(ux) * Sq(h));
  }

  /** With a the foot of the chord on the line of centres, c2 lies at squared distance r2^2 from the crossing. */
  lemma ChordFoot(a: real, dist: real, r1: real, r2: real)
    requires a * (2.0 * dist) == Sq(r1) - Sq(r2) + Sq(dist)
    ensures Sq(a - dist) + (Sq(r1) - Sq(a)) == Sq(r2)
  {
    SqOfDifference(a, dist, 1.0);
  }

  /** When |r1 - r2| <= dist <= r1 + r2, the squared half-chord r1^2 - a^2 is not negative. */
  lemma HalfChordNonnegative(a: real, dist: real, r1: real, r2: real)
    requires 0.0 < dist && 0.0 <= r1 && 0.0 <= r2
    requires r1 - r2 <= dist && r2 - r1 <= dist && dist <= r1 + r2
    requires a * (2.0 * dist) == Sq(r1) - Sq(r2) + Sq(dist)
    ensures 0.0 <= Sq(r1) - Sq(a)
  {
    var n := a * (2.0 * dist);
    assert 2.0 * dist * r1 - n == (r2 - dist + r1) * (r2 + dist - r1);
    assert 2.0 * dist * r1 + n == (dist + r1 - r2) * (dist + r1 + r2);
    ProductNonnegative(r2 - dist + r1, r2 + dist - r1);
    ProductNonnegative(dist + r1 - r2, dist + r1 + r2);
    ProductNonnegative(2.0 * dist * r1 - n, 2.0 * dist * r1 + n);
    assert (2.0 * dist * r1 - n) * (2.0 * dist * r1 + n) == 4.0 * Sq(dist) * (Sq(r1) - Sq(a));
    SqPositive(dist);
    if Sq(r1) - Sq(a) < 0.0 {
      ProductPositive(4.0 * Sq(dist), Sq(a) - Sq(r1));
    }
  }

  /** The point c1 + a ex + h ey, for a unit ex, is at squared distance a^2 + h^2 from c1. */
  lemma OffsetFromCenter(c: Point, ex: Point, a: real, h: real)
    requires Sq(ex.x) + Sq(ex.y) == 1.0
    ensures SqDist(c.Add(ex.Scale(a)).Add(Point(-ex.y, ex.x).Scale(h)), c) == Sq(a) + Sq(h)
  {
    var p := c.Add(ex.Scale(a)).Add(Point(-ex.y, ex.x).Scale(h));
    assert p.Sub(c) == Point(ex.x * a + -ex.y * h, ex.y * a + ex.x * h);
    SqDistOffset(p, c, ex.x * a + -ex.y * h, ex.y * a + ex.x * h);
    RotatedLength(ex.x, ex.y, a, h);
  }

  /** The same point is at squared distance (a - dist)^2 + h^2 from c + dist ex. */
  lemma OffsetFromOther(c: Point, c': Point, ex: Point, dist: real, a: real, h: real)
    requires Sq(ex.x) + Sq(ex.y) == 1.0
    requires c'.x - c.x == ex.x * dist && c'.y - c.y == ex.y * dist
    ensures SqDist(c.Add(ex.Scale(a)).Add(Point(-ex.y, ex.x).Scale(h)), c') == Sq(a - dist) + Sq(h)
  {
    var p := c.Add(ex.Scale(a)).Add(Point(-ex.y, ex.x).Scale(h));
    OffsetAcross(c, c', ex, dist, a, h);
    SqDistOffset(p, c', ex.x * (a - dist) + -ex.y * h, ex.y * (a - dist) + ex.x * h);
    RotatedLength(ex.x, ex.y, a - dist, h);
  }

  /** Seen from c + dist ex, the point is at (a - dist) ex + h ey. */
  lemma OffsetAcross(c: Point, c': Point, ex: Point, dist: real, a: real, h: real)
    requires c'.x - c.x == ex.x * dist && c'.y - c.y == ex.y * dist
    ensures c.Add(ex.Scale(a)).Add(Point(-ex.y, ex.x).Scale(h)).Sub(c') ==
            Point(ex.x * (a - dist) + -ex.y * h, ex.y * (a - dist) + ex.x * h)
  {
    assert ex.x * (a - dist) == ex.x * a - ex.x * dist;
    assert ex.y * (a - dist) == ex.y * a - ex.y * dist;
  }

  /**
   * Under an exact sqrt, two circles whose centres are at least EPS apart and
   * whose radii satisfy |r1 - r2| <= dist <= r1 + r2 do intersect, and the
   * point returned lies on both of them.
   */
  lemma CircleCircleOnBoth(m: MathLib, c1: Circle, c2: Circle)
    requires ExactSqrt(m) && 0.0 <= c1.radius && 0.0 <= c2.radius
    requires var dist := c2.center.DistanceTo(m, c1.center);
             Eps <= dist && Abs(c1.radius - c2.radius) <= dist <= c1.radius + c2.radius
    ensures CircleCircle(m, c1, c2).Some?
    ensures SqDist(CircleCircle(m, c1, c2).value, c1.center) == Sq(c1.radius)
    ensures SqDist(CircleCircle(m, c1, c2).value, c2.center) == Sq(c2.radius)
  {
    var d := c2.center.Sub(c1.center);
    var dist := d.Length(m);
    var a := (Sq(c1.radius) - Sq(c2.radius) + Sq(dist)) / (2.0 * dist);
    QuotientTimesDivisor(Sq(c1.radius) - Sq(c2.radius) + Sq(dist), 2.0 * dist);
    HalfChordNonnegative(a, dist, c1.radius, c2.radius);
    var hSq := Sq(c1.radius) - Sq(a);
    var h := Sqrt(m, hSq);
    ExactRoot(m, hSq);
    var ex := d.Div(dist);
    UnitAlong(m, d, dist);
    assert CircleCircle(m, c1, c2) == Some(Crossing(c1.center, ex, a, h));
    CrossingOnBoth(c1.center, c2.center, ex, dist, a, h, c1.radius, c2.radius);
  }

  /** The point a along the unit vector ex from c, then h along ex turned a quarter left. */
  function Crossing(c: Point, ex: Point, a: real, h: real): Point
  {
    c.Add(ex.Scale(a)).Add(Point(-ex.y, ex.x).Scale(h))
  }

  /** d divided by its length is a unit vector, and d is that vector times the length. */
  lemma UnitAlong(m: MathLib, d: Point, dist: real)
    requires ExactSqrt(m) && dist == d.Length(m) && dist > 0.0
    ensures Sq(d.Div(dist).x) + Sq(d.Div(dist).y) == 1.0
    ensures d.x == d.Div(dist).x * dist && d.y == d.Div(dist).y * dist
  {
    LengthIsRoot(m, d);
    assert d.Div(dist) == d.Normalize(m);
    NormalizeIsUnit(m, d);
    QuotientTimesDivisor(d.x, dist);
    QuotientTimesDivisor(d.y, dist);
  }

  /**
   * With c' at dist along the unit vector ex from c, a the chord's foot and
   * h the half-chord, the crossing is at r1 from c and at r2 from c'.
   */
  lemma CrossingOnBoth(c: Point, c': Point, ex: Point, dist: real, a: real, h: real, r1: real, r2: real)
    requires Sq(ex.x) + Sq(ex.y) == 1.0
    requires c'.x - c.x == ex.x * dist && c'.y - c.y == ex.y * dist
    requires a * (2.0 * dist) == Sq(r1) - Sq(r2) + Sq(dist)
    requires Sq(h) == Sq(r1) - Sq(a)
    ensures SqDist(Crossing(c, ex, a, h), c) == Sq(r1)
    ensures SqDist(Crossing(c, ex, a, h), c') == Sq(r2)
  {
    OffsetFromCenter(c, ex, a, h);
    OffsetFromOther(c, c', ex, dist, a, h);
    ChordFoot(a, dist, r1, r2);
  }

  /* ------------------------------------------------------------------ dispatch */

  /** The pairs IntersectionVisitor has an overload for: each shape a line or a circle. */
  predicate Supported(s1: Shape, s2: Shape)
  {
    (s1.LineShape? || s1.CircleShape?) && (s2.LineShape? || s2.CircleShape?)
  }

  /**
   * GetIntersectPoint: the overload for the pair of shapes, or the logic_error
   * of the generic overload for any other pair. A line meets a line or a
   * circle only at points of the line's segment.
   */
  function GetIntersectPoint(m: MathLib, s1: Shape, s2: Shape): (res: Result<Option<Point>, string>)
    ensures res.Success? <==> Supported(s1, s2)
    ensures res.Failure? ==> res.error == UnsupportedMessage
    ensures res.Success? && res.value.Some? && s1.LineShape? ==> OnSegment(s1.line, res.value.value)
    ensures res.Success? && res.value.Some? && s2.LineShape? ==> OnSegment(s2.line, res.value.value)
  {
    match (s1, s2)
    case (LineShape(l1), LineShape(l2)) =>
      LineLineOnBoth(l1, l2);
      Success(LineLine(l1, l2))
    case (LineShape(line), CircleShape(circle)) => Success(LineCircle(m, line, circle))
    case (CircleShape(circle), LineShape(line)) => Success(LineCircle(m, line, circle))
    case (CircleShape(c1), CircleShape(c2)) => Success(CircleCircle(m, c1, c2))
    case _ => Failure(UnsupportedMessage)
  }

  /**
   * The order of the shapes matters only for two circles: Line-Line is
   * symmetric and Circle-Line delegates to Line-Circle.
   */
  lemma GetIntersectPointSymmetric(m: MathLib, s1: Shape, s2: Shape)
    requires !(s1.CircleShape? && s2.CircleShape?)
    ensures GetIntersectPoint(m, s1, s2) == GetIntersectPoint(m, s2, s1)
  {
    if s1.LineShape? && s2.LineShape? {
      LineLineSymmetric(s1.line, s2.line);
    }
  }

  /** Two crossing segments that are not nearly parallel give their crossing point. */
  lemma GetIntersectPointFindsCrossing(m: MathLib, l1: Line, l2: Line, t: real, u: real)
    requires Abs(l1.end.Sub(l1.start).Cross(l2.end.Sub(l2.start))) >= Eps
    requires 0.0 <= t <= 1.0 && 0.0 <= u <= 1.0
    requires l1.PointAt(t) == l2.PointAt(u)
    ensures GetIntersectPoint(m, LineShape(l1), LineShape(l2)) == Success(Some(l1.PointAt(t)))
  {
    LineLineFinds(l1, l2, t, u);
  }
}
