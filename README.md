# cpp-geometric-primitives in Dafny

This project models the planar-geometry kernel of cpp-geometric-primitives in Dafny:

- points and vectors, axis-aligned bounding boxes, and the six shape kinds (line segment, triangle, rectangle, regular polygon, circle, polygon) with the closed `Shape` variant over them;
- the query engine: point-to-shape distance, per-variant bounding box and height, bounding-box overlap, and the partial shape-to-shape distance;
- the intersection engine for line and circle pairs;
- the shape-text parser (`"circle 0 0 1; line 0 0 1 1"`);
- the all-pairs collision listing and the highest-shape search;
- the Graham-scan convex hull;
- the Bowyer-Watson Delaunay triangulation.

Coordinates are exact reals. The C math functions (`std::sqrt`, `std::cos`, `std::sin`) are not visible to the model. They are passed to every operation that uses them as a `MathLib` value. Lemmas that need the real square root assume it through the predicate `Geometry.ExactSqrt`.

The model follows the source's own form:

- pure computations are functions;
- every loop written out in the source is a method with loop invariants, proved equal to a function that states what the loop computes; the standard algorithms it calls (`std::sort`, `std::ranges::minmax`, `std::erase_if`, `std::ranges::any_of`, `std::ranges::count_if`) are functions that define their results;
- `Lines2DDyn`, which its users fill by `PushBack`, is a class;
- `GrahamScan` reorders an `array` in place, as the source reorders its span.

Modules, one file each:

| module | models |
|---|---|
| `Wrappers` | `std::optional` and `std::expected` |
| `RealArith` | arithmetic facts about squares and products used by the proofs |
| `Geometry` | include/geometry.hpp |
| `Queries` | include/queries.hpp |
| `Intersections` | include/intersections.hpp |
| `Parsing` | the parser half of src/shape_utils.cpp |
| `ShapeUtils` | `FindAllCollisions` and `FindHighestShape` of src/shape_utils.cpp |
| `ConvexHull` | src/convex_hull.cpp |
| `Triangulation` | include/triangulation.hpp |

## Model

| member | source | states |
|---|---|---|
| Geometry.Point.Add | include/geometry.hpp:22-24 | componentwise sum; `SubUndoesAdd` proves `-` undoes it |
| Geometry.Point.Sub | include/geometry.hpp:25-27 | componentwise difference; `SubZeroIff` proves it is zero exactly between equal points |
| Geometry.Point.Scale | include/geometry.hpp:28 | both coordinates times a scalar; `Line.PointAt` walks a segment with it |
| Geometry.Point.Div | include/geometry.hpp:29 | both coordinates divided by a non-zero scalar |
| Geometry.Point.Dot | include/geometry.hpp:31 | the dot product; `DotSelf` proves a vector dotted with itself is its squared length |
| Geometry.Point.Cross | include/geometry.hpp:32 | the z-component of the cross product; `CrossAntisymmetric` proves it changes sign with the order |
| Geometry.Point.Length | include/geometry.hpp:33 | the sqrt of the squared length; `LengthIsRoot` proves it the non-negative root under an exact sqrt |
| Geometry.Point.DistanceTo | include/geometry.hpp:34 | the length of the difference; `DistanceSymmetric` and `DistanceZeroIff` prove it symmetric and zero only between equal points |
| Geometry.Point.Normalize | include/geometry.hpp:36-39 | the vector divided by its length, the zero vector when the length is not positive; `NormalizeIsUnit` proves a unit result |
| Geometry.BoundingBox.Overlaps | include/geometry.hpp:74-76 | the closed-interval overlap test; `OverlapsSymmetric` and `OverlapsIffCommonPoint` prove what it means |
| Geometry.Extent | include/geometry.hpp:245-261 | the min/max box of a non-empty point list; `ExtentIsTight` proves it holds every point with each bound attained |
| Geometry.Min | include/geometry.hpp:91 | `std::min` is at most both arguments and equal to one of them |
| Geometry.Max | include/geometry.hpp:93 | `std::max` is at least both arguments and equal to one of them |
| Geometry.Point.SqLength | include/geometry.hpp:33 | the squared length under `Length`'s root is non-negative, and zero exactly for the zero vector |
| Geometry.SqDist | include/geometry.hpp:34 | the squared distance is non-negative, and zero exactly between equal points (equality is exact and componentwise) |
| Geometry.DotSelf | include/geometry.hpp:31-33 | a vector dotted with itself is its squared length |
| Geometry.CrossAntisymmetric | include/geometry.hpp:32 | `a.Cross(b) == -b.Cross(a)` |
| Geometry.SubUndoesAdd | include/geometry.hpp:23-28 | `(a + b) - b == a`, so `+` and `-` act componentwise |
| Geometry.SubZeroIff | include/geometry.hpp:20-28 | `p - q` is the zero vector exactly when `p == q` |
| Geometry.LengthIsRoot | include/geometry.hpp:33 | under an exact sqrt, `Length` is the non-negative root of the squared length, and zero only for the zero vector |
| Geometry.DistanceSymmetric | include/geometry.hpp:34 | `p.DistanceTo(q) == q.DistanceTo(p)`, whatever sqrt returns |
| Geometry.SqrtMonotone | include/geometry.hpp:33 | under an exact sqrt, comparing roots is comparing their arguments |
| Geometry.SqrtAtMost | include/geometry.hpp:33 | under an exact sqrt, `sqrt(a) <= r` exactly when `a <= r^2`, for `r >= 0` |
| Geometry.DistanceOrder | include/geometry.hpp:34 | under an exact sqrt, ordering distances from p is ordering squared distances |
| Geometry.DistanceZeroIff | include/geometry.hpp:34 | under an exact sqrt, a distance is non-negative and zero exactly between equal points |
| Geometry.NormalizeIsUnit | include/geometry.hpp:36-39 | under an exact sqrt, normalizing a non-zero vector gives a unit vector |
| Geometry.BoundingBox.Width | include/geometry.hpp:78 | a well-formed box has a non-negative width |
| Geometry.BoundingBox.Height | include/geometry.hpp:79 | a well-formed box has a non-negative height |
| Geometry.BoundingBox.Center | include/geometry.hpp:80 | the center lies in a well-formed box and halves both sides |
| Geometry.OverlapsSymmetric | include/geometry.hpp:74-76 | `a.Overlaps(b) == b.Overlaps(a)` |
| Geometry.OverlapsIffCommonPoint | include/geometry.hpp:74-76 | two well-formed boxes overlap exactly when some point lies in both closed boxes, so touching boxes overlap |
| Geometry.ExtentOf | include/geometry.hpp:246-258 | the box after the first k points of the min/max loop is well-formed, holds the first k points, and each bound is a coordinate of some point |
| Geometry.ExtentIsTight | include/geometry.hpp:245-261 | the polygon's box holds every vertex and each of its four bounds is attained by a vertex |
| Geometry.TightBoxUnique | include/geometry.hpp:245-261 | a box that holds the points and attains every bound is the only such box |
| Geometry.CalculateBoundBox | include/geometry.hpp:245-261 | the min/max loop computes exactly the tight box of the vertices |
| Geometry.Line.BoundBox | include/geometry.hpp:90-92 | the segment's box is well-formed and holds both endpoints |
| Geometry.Line.BoundBoxTight | include/geometry.hpp:90-92 | the segment's box holds both endpoints and each of its four bounds is attained by one of them |
| Geometry.Line.Height | include/geometry.hpp:93 | a segment's height is its box's top |
| Geometry.Line.Lines | include/geometry.hpp:96-99 | the drawn polyline of a segment is its two endpoints, not closed |
| Geometry.Line.Vertices | include/geometry.hpp:96-98 | the two endpoints, start first; `BoundBoxTight` proves the box tight over them |
| Geometry.Triangle.BoundBox | include/geometry.hpp:108-111 | the box is well-formed, holds all three vertices, and each bound is attained by a vertex |
| Geometry.Triangle.Height | include/geometry.hpp:113 | a triangle's height is its box's top |
| Geometry.Triangle.Lines | include/geometry.hpp:112-116 | the outline is the three vertices followed by the first one again |
| Geometry.Triangle.Vertices | include/geometry.hpp:112 | the three vertices a, b, c in order; `Triangle.BoundBox` encloses them with every bound attained |
| Geometry.Rectangle.BoundBox | include/geometry.hpp:129-131 | the box is `[x, x + w] x [y, y + h]` with width w and height h; it holds the bottom-left corner exactly when the sides are not negative, and then holds all four corners, each bound attained by one |
| Geometry.Rectangle.Vertices | include/geometry.hpp:132-137 | four corners, starting at the bottom-left one, with the top-right one third |
| Geometry.Rectangle.Height | include/geometry.hpp:138 | a rectangle's height is its box's top, `y + h` |
| Geometry.Rectangle.Lines | include/geometry.hpp:141-144 | the outline visits the corners in the opposite order to `Vertices` and closes on the first |
| Geometry.Rectangle.TopRight | include/geometry.hpp:126-128 | the corner `(x + w, y + h)`, the third of `Vertices` |
| Geometry.RegularPolygon.BoundBox | include/geometry.hpp:166-168 | the box is centred on the center and is `2 * radius` wide and high |
| Geometry.RegularPolygon.Height | include/geometry.hpp:169 | its height is its box's top, `center.y + radius` |
| Geometry.RegularPolygon.Center | include/geometry.hpp:170 | the stored center, the center of the box by `RegularPolygon.BoundBox` |
| Geometry.RegularPolygon.Vertices | include/geometry.hpp:155-164 | the `std::length_error` of `reserve` exactly when `sides < 0`; otherwise `sides` vertices (none for 0), vertex i at angle `2 pi i / sides`, and with cos and sin in [-1, 1] and a non-negative radius all lie in the box |
| Geometry.RegularPolygon.ComputeVertices | include/geometry.hpp:155-164 | the reserve-then-emplace loop computes `Vertices`, failing for a negative `sides` |
| Geometry.RegularPolygon.OnCircleInBox | include/geometry.hpp:161-168 | every point of the circumscribed circle lies in the box |
| Geometry.BoxAroundContains | include/geometry.hpp:166-168 | `center + radius * (c, s)` with c and s in [-1, 1] lies in the box `center +- radius` |
| Geometry.Circle.BoundBox | include/geometry.hpp:190-192 | the box is centred on the center and is `2 * radius` wide and high |
| Geometry.Circle.Height | include/geometry.hpp:193 | its height is its box's top, `center.y + radius` |
| Geometry.Circle.Center | include/geometry.hpp:194 | the stored center, the center of the box by `Circle.BoundBox` |
| Geometry.Polygon.BoundBox | include/geometry.hpp:220-222 | the cached box is well-formed, holds every vertex, and each bound is attained by a vertex |
| Geometry.Polygon.Height | include/geometry.hpp:223-226 | unlike every other shape, a polygon's height is its box's height `max_y - min_y`, which is non-negative |
| Geometry.Polygon.Center | include/geometry.hpp:228-231 | the center lies in the polygon's box |
| Geometry.Polygon.Lines | include/geometry.hpp:234-242 | the drawn outline is the vertices followed by the first vertex again, with as many x as y coordinates |
| Geometry.Polygon.Vertices | include/geometry.hpp:233 | the stored vertex list; `Polygon.BoundBox` is its tight box |
| Geometry.Lines2DDyn.constructor | include/geometry.hpp:48-50 | a new polyline has no coordinates |
| Geometry.Lines2DDyn.PushBack | include/geometry.hpp:56-59 | appends x to the x vector and y to the y vector, and nothing else |
| Geometry.Lines2DDyn.Outline | include/geometry.hpp:48-50 | the polyline read as points pairs the i-th x with the i-th y |
| Geometry.Lines2DDyn.Front | include/geometry.hpp:64 | the first x paired with the first y, defined only when both are non-empty; `CloseOutline` appends it to close the outline |
| Geometry.CloseOutline | include/geometry.hpp:234-242 | pushing every vertex and then `Front()` gives a closed outline of the vertices |
| Geometry.RegularPolygonLines | include/geometry.hpp:172-181 | the `std::length_error` of `Vertices` exactly when `sides < 0`; otherwise the outline is the vertices closed on the first one |
| Geometry.Shape.Valid | src/shape_utils.cpp:82-129 | what the five makers check: a circle needs a positive radius, a rectangle a positive width and height, a regular polygon a positive radius and a whole number of at least 3 sides; `GetMakerValid` proves every built shape passes |
| Queries.SegmentDistance | include/queries.hpp:89-102 | the distance from p to the segment; `SegmentDistanceIsLeast` and `SegmentDistanceZeroIff` prove it the least distance to any segment point |
| Queries.Clamp | include/queries.hpp:98 | `std::clamp` lies in `[lo, hi]`, is lo below it, hi above it, and v inside |
| Queries.NearestParameter | include/queries.hpp:93-98 | the parameter the segment distance measures to lies in [0, 1] |
| Queries.SegmentDistanceAttained | include/queries.hpp:89-102 | the segment distance is the distance to the segment's point at that parameter, including a zero-length segment measured to its start |
| Queries.DegenerateSegment | include/queries.hpp:94-96 | every point of a zero-length segment is its start |
| Queries.SqDistAlong | include/queries.hpp:98-101 | the squared distance to the point at t is a quadratic in t with the source's dot products as coefficients |
| Queries.QuadraticLeastAtClamp | include/queries.hpp:98 | on [0, 1] that quadratic is least at the clamped vertex the source computes |
| Queries.SegmentDistanceIsLeast | include/queries.hpp:89-102 | under an exact sqrt, no point of the segment is nearer to p than the segment distance |
| Queries.SegmentDistanceZeroIff | include/queries.hpp:89-102 | under an exact sqrt, the segment distance is non-negative and zero exactly for the points of the segment |
| Queries.CyclicEdge | include/queries.hpp:108-109 | edge i runs from vertex i to vertex i + 1, and the last edge wraps round to the first vertex |
| Queries.MinFrom | include/queries.hpp:106-113 | the accumulator starting at DBL_MAX ends at most every candidate, and equal to one of them or to DBL_MAX |
| Queries.EdgeDistances | include/queries.hpp:104-138 | candidate i is the distance to cyclic edge i |
| Queries.VertexDistances | include/queries.hpp:145-151 | candidate i is the distance to vertex i |
| Queries.EdgeLoopDistance | include/queries.hpp:104-138 | the loop of the triangle, rectangle and regular-polygon overloads computes the minimum over the cyclic edges |
| Queries.VertexLoopDistance | include/queries.hpp:145-151 | the loop of the polygon overload computes the minimum over the vertices |
| Queries.EdgeDistancesZeroIff | include/queries.hpp:104-138 | under an exact sqrt, each edge candidate is non-negative, and some candidate is zero exactly when p lies on some edge |
| Queries.VertexDistancesZeroIff | include/queries.hpp:145-151 | under an exact sqrt, each vertex candidate is non-negative, and some candidate is zero exactly when p is a vertex |
| Queries.PointDistance | include/queries.hpp:84-152 | the distance each overload computes; it fails, with what `reserve` throws, exactly for a regular polygon with negative sides |
| Queries.DistanceToPoint | include/queries.hpp:84-152 | the per-variant dispatch, running the vertex loop and the minimum loops, computes the point-to-shape distance, or the failure |
| Queries.EdgeMinZeroIff | include/queries.hpp:104-138 | under an exact sqrt, a shape made of edges is at distance zero exactly from the points of its edges |
| Queries.VertexMinZeroIff | include/queries.hpp:145-151 | under an exact sqrt, a polygon's vertex minimum is zero exactly at its vertices |
| Queries.PointDistanceNonnegative | include/queries.hpp:84-151 | under an exact sqrt, no shape that yields a distance is at a negative distance from a point |
| Queries.CircleDistanceZeroIff | include/queries.hpp:140-143 | under an exact sqrt, the circle distance `max(0, d - r)` is zero exactly for points in the closed disc |
| Queries.PolygonDistanceZeroIff | include/queries.hpp:145-151 | a polygon is measured by its vertices only, so its distance is zero exactly at a vertex and not elsewhere on an edge |
| Queries.NoSidesDistance | include/queries.hpp:128-138 | a regular polygon with zero sides has no edges, so its distance stays DBL_MAX |
| Queries.GetBoundBox | include/queries.hpp:246-255 | the box of a valid shape is well-formed |
| Queries.GetHeight | include/queries.hpp:257-266 | every shape's height is its box's top, except a polygon's, which is its box's non-negative height |
| Queries.BoundingBoxesOverlap | include/queries.hpp:269-273 | the overlap of the two shapes' boxes; the three lemmas below prove it symmetric, reflexive and a shared point |
| Queries.BoundingBoxesOverlapSymmetric | include/queries.hpp:269-273 | shape overlap does not depend on argument order |
| Queries.BoundingBoxesOverlapReflexive | include/queries.hpp:269-273 | a valid shape overlaps itself |
| Queries.BoundingBoxesOverlapIffCommonPoint | include/queries.hpp:269-273 | two valid shapes overlap exactly when some point lies in both of their boxes |
| Queries.MinOf | include/queries.hpp:228 | `min_element`'s value is an element of the list and at most every element |
| Queries.DistanceBetweenShapes | include/queries.hpp:219-236 | a value exactly for circle-circle and line-line; the circle gap is non-negative; the line-line value is the least of the four endpoint-to-segment distances |
| Queries.DistanceBetweenShapesSymmetric | include/queries.hpp:219-236 | the shape-to-shape distance does not depend on argument order |
| Queries.EndpointMinSymmetric | include/queries.hpp:225-229 | the least endpoint-to-segment distance of (l1, l2) is that of (l2, l1) |
| Queries.EndpointDistances | include/queries.hpp:225-229 | the four endpoint-to-segment distances the line-line overload takes the least of |
| Intersections.LineLine | include/intersections.hpp:13-34 | no point when `abs(r x s) < EPS`, even for collinear overlapping segments; a point found lies on the first segment; conversely `LineLineFinds` proves every crossing of non-parallel segments is found |
| Intersections.CramerConverse | include/intersections.hpp:14-26 | every solution (t, u) of `r t - s u = w` has `t (r x s) = w x s` and `u (r x s) = w x r` |
| Intersections.QuotientUnique | include/intersections.hpp:25-26 | a value that times a non-zero divisor gives the dividend is the quotient |
| Intersections.LineLineFinds | include/intersections.hpp:13-34 | completeness: segments with `abs(r x s) >= EPS` meeting at parameters t, u in [0, 1] give `Some` of that point, as in the diagonals of tests/intersection_test.cpp:7-15 |
| Intersections.LineLineMeet | include/intersections.hpp:25-30 | for non-parallel segments, the point at t on the first segment is the point at u on the second |
| Intersections.LineLineOnBoth | include/intersections.hpp:25-33 | in exact arithmetic, a point found lies on the second segment as well |
| Intersections.LineLineSymmetric | include/intersections.hpp:13-34 | swapping the segments finds the same point, or none for both |
| Intersections.LineCircle | include/intersections.hpp:81-125 | a point found lies on the segment; a segment of squared length below EPS yields its start exactly when `abs(f.f - r^2) < EPS` |
| Intersections.SolveAlong | include/intersections.hpp:97-124 | roots are offered only on the segment, and none below a discriminant of -EPS |
| Intersections.TryRoots | include/intersections.hpp:117-121 | a point exactly when t1 or t2 lies in [0, 1], and t1 is preferred |
| Intersections.SqDistToCenter | include/intersections.hpp:82-98 | along the line, the squared distance to the center is `f.f + b t + a t^2` with the source's a and b |
| Intersections.CrossesIffRoot | include/intersections.hpp:97-100 | the segment point at t is on the circle exactly when t is a root of `a t^2 + b t + c` |
| Intersections.QuadraticRoots | include/intersections.hpp:113-115 | for a > 0, t1 and t2 are roots with `t1 <= t2`, and there are no others |
| Intersections.CrossingsAreRoots | include/intersections.hpp:97-124 | the crossings of the segment are the roots in [0, 1] |
| Intersections.FirstOfTwo | include/intersections.hpp:117-121 | trying t1 and then t2 finds a crossing exactly when one exists, and finds the first one |
| Intersections.SolveAlongTangent | include/intersections.hpp:105-110 | within EPS of a zero discriminant, the vertex `-b / 2a` is offered if it lies in [0, 1] |
| Intersections.VertexNearest | include/intersections.hpp:105-110 | the vertex parameter is the segment point nearest the center |
| Intersections.LineCircleTangent | include/intersections.hpp:105-110 | at a tangent, the point returned is the segment point nearest the circle's center |
| Intersections.LineCircleLong | include/intersections.hpp:85-98 | for a segment of squared length at least EPS, the quadratic with the source's a, b, c is solved |
| Intersections.SolveAlongTwoRoots | include/intersections.hpp:111-121 | above a discriminant of EPS, t1 and then t2 are tried |
| Intersections.SolveAlongFirstCrossing | include/intersections.hpp:111-124 | with two separated roots and an exact sqrt, a point exactly when the segment crosses the circle, and it is the crossing nearest the start |
| Intersections.LineCircleFirstCrossing | include/intersections.hpp:81-125 | the same for the whole line-circle test |
| Intersections.CircleCircle | include/intersections.hpp:44-73 | no point for centres closer than EPS, for circles further apart than `r1 + r2 + EPS`, or for one circle inside the other beyond EPS |
| Intersections.HalfChordNonnegative | include/intersections.hpp:59-63 | when `abs(r1 - r2) <= dist <= r1 + r2`, the squared half-chord `r1^2 - a^2` is not negative |
| Intersections.ChordFoot | include/intersections.hpp:59 | with a the foot of the chord, `(a - dist)^2 + (r1^2 - a^2) == r2^2` |
| Intersections.CrossingOnBoth | include/intersections.hpp:67-72 | the point `c1 + a ex + h ey` is at distance r1 from c1 and r2 from c2 |
| Intersections.CircleCircleOnBoth | include/intersections.hpp:44-73 | under an exact sqrt, circles with `abs(r1 - r2) <= dist <= r1 + r2` and distinct centres intersect, at a point on both circles |
| Intersections.GetIntersectPoint | include/intersections.hpp:36-78 | a result exactly for line and circle pairs, the logic_error message for every other pair, and a point found lies on every segment involved |
| Intersections.GetIntersectPointSymmetric | include/intersections.hpp:36-42 | line-circle and circle-line, and the two orders of line-line, give the same result |
| Intersections.GetIntersectPointFindsCrossing | include/intersections.hpp:13-34 | two crossing line shapes, not nearly parallel, give a successful result holding their crossing point |
| Intersections.Supported | include/intersections.hpp:13-78 | the pairs with an overload of their own, each shape a line or a circle; `GetIntersectPoint` fails exactly outside them |
| Parsing.WordLength | src/shape_utils.cpp:20-22 | the inner scan stops at the first whitespace character or the end |
| Parsing.Words | src/shape_utils.cpp:9-27 | the whitespace-separated words; `WordsAreWords`, `WordsSplitAtSpace` and `WordsOfJoin` prove what they are |
| Parsing.WordsAreWords | src/shape_utils.cpp:9-27 | every word is non-empty and free of whitespace |
| Parsing.WordsSplitAtSpace | src/shape_utils.cpp:14-25 | the words around a whitespace character are the words before it, then the words after it |
| Parsing.IsSpace | src/shape_utils.cpp:16-21 | `std::isspace` in the C locale: space, tab, newline, vertical tab, form feed and carriage return |
| Parsing.SplitIntoWords | src/shape_utils.cpp:9-27 | the two-scan loop returns exactly the words of the input, in order |
| Parsing.WordsOfJoin | src/shape_utils.cpp:138-143 | splitting words re-joined with single spaces gives back the words |
| Parsing.JoinEmpty | src/shape_utils.cpp:138-143 | the re-joined parameter string is empty exactly when there are no words |
| Parsing.Join | src/shape_utils.cpp:138-142 | the words with one space between neighbours, as `param_str`; `WordsOfJoin` proves splitting it gives the words back |
| Parsing.ParseDouble | src/shape_utils.cpp:30-37 | a number exactly when from_chars succeeds and consumes the whole token |
| Parsing.ParseAll | src/shape_utils.cpp:50-56 | a parsed list has one value per token |
| Parsing.ParseAllElements | src/shape_utils.cpp:50-57 | the list parses exactly when every token does, and then holds each token's value in place |
| Parsing.ParseAllPrefix | src/shape_utils.cpp:50-54 | a token that fails makes the whole list fail |
| Parsing.ParseDoubles | src/shape_utils.cpp:40-58 | the loop returns none for an empty or blank string and otherwise every token parsed, in order |
| Parsing.Doubles | src/shape_utils.cpp:40-58 | none for an empty or blank string, else every word parsed; `ParseDoubles` is proved to compute it |
| Parsing.DoublesOfJoin | src/shape_utils.cpp:138-162 | parsing re-joined words is parsing the words, and none when there are none |
| Parsing.RequireSize | src/shape_utils.cpp:61-63 | the values exactly when their count is the one expected |
| Parsing.RequirePositive | src/shape_utils.cpp:66 | x exactly when `x > 0` |
| Parsing.Truncate | src/shape_utils.cpp:70 | truncation gives back d exactly when d is a whole number, and is not negative for `d >= 0` |
| Parsing.RequireIntegerAtLeast | src/shape_utils.cpp:69-75 | an integer exactly when d is a whole number of at least the minimum, and it equals d |
| Parsing.MakeCircle | src/shape_utils.cpp:82-86 | a circle exactly from 3 values with radius > 0 |
| Parsing.MakeLine | src/shape_utils.cpp:91-93 | a segment exactly from 4 values |
| Parsing.MakeTriangle | src/shape_utils.cpp:98-101 | a triangle exactly from 6 values |
| Parsing.MakeRectangle | src/shape_utils.cpp:106-115 | a rectangle exactly from 4 values with width > 0 and height > 0 |
| Parsing.MakePolygon | src/shape_utils.cpp:120-129 | a regular polygon exactly from 4 values with radius > 0 and a whole number of sides >= 3 |
| Parsing.GetMaker | src/shape_utils.cpp:146-159 | a constructor exactly for circle, line, triangle, rectangle and polygon |
| Parsing.GetMakerValid | src/shape_utils.cpp:146-159 | every shape a selected constructor builds passes its validator |
| Parsing.SingleShapeOfWords | src/shape_utils.cpp:132-163 | a shape exactly for a known keyword followed by at least one word, every word a number the constructor accepts |
| Parsing.SingleShapeValid | src/shape_utils.cpp:132-163 | every shape of one keyword line passed its validator |
| Parsing.SingleShape | src/shape_utils.cpp:132-163 | the first word picks the maker and the re-joined rest is parsed and handed to it; `SingleShapeOfWords` characterises it |
| Parsing.ParseSingleShape | src/shape_utils.cpp:132-163 | the loop building the parameter string computes the single-shape parse |
| Parsing.Find | src/shape_utils.cpp:172-174 | `find(';', start)` is the first separator at or after start, or the end |
| Parsing.PiecesHaveNoSeparator | src/shape_utils.cpp:171-176 | no piece between separators holds a ';' |
| Parsing.PiecesFrom | src/shape_utils.cpp:169-190 | the ';'-separated pieces from start on, in order, a final ';' opening no empty piece; `PiecesHaveNoSeparator` proves no piece holds a ';' |
| Parsing.Pieces | src/shape_utils.cpp:169-190 | the pieces of the whole input, the ones `ParseShapes` visits |
| Parsing.TrimKeepsWords | src/shape_utils.cpp:178-181 | trimming a piece neither adds nor loses words |
| Parsing.GatherFromPieces | src/shape_utils.cpp:169-191 | walking the input separator by separator visits exactly its pieces, in order |
| Parsing.ShapesArePieceShapes | src/shape_utils.cpp:165-194 | the parsed shapes are those of the ';'-separated pieces, in order |
| Parsing.Trim | src/shape_utils.cpp:178-181 | a piece without its leading and trailing whitespace; `TrimKeepsWords` proves it keeps the words |
| Parsing.TrimFront | src/shape_utils.cpp:178-179 | the piece without its leading whitespace |
| Parsing.TrimBack | src/shape_utils.cpp:180-181 | the piece without its trailing whitespace |
| Parsing.TrimSpaces | src/shape_utils.cpp:178-181 | the two loops strip whitespace from both ends |
| Parsing.ParsePiece | src/shape_utils.cpp:176-188 | a trimmed piece yields its shape, and a blank one yields nothing |
| Parsing.PieceShape | src/shape_utils.cpp:176-188 | the shape a piece contributes: none for a blank piece or one that does not parse |
| Parsing.NextPiece | src/shape_utils.cpp:172-190 | one turn of the loop yields the shapes of the piece up to the next ';' and moves past it |
| Parsing.ParseShapes | src/shape_utils.cpp:165-194 | the loop computes the shapes of the pieces in input order |
| Parsing.Shapes | src/shape_utils.cpp:165-194 | the shapes of the ';'-separated pieces, in order; `ShapesOfValid` and `ShapesOfPieces` prove what is returned |
| Parsing.ShapesOfValid | src/shape_utils.cpp:165-194 | every shape returned passed its validator, and there are at most as many as pieces |
| Parsing.ShapesOfPieces | src/shape_utils.cpp:165-194 | a shape is returned exactly when some piece, trimmed, is not blank and parses as it |
| ShapeUtils.RowPairs | src/shape_utils.cpp:204-206 | row i holds pairs (i, j) with `i < j` only |
| ShapeUtils.PairsFrom | src/shape_utils.cpp:202-208 | the rows from `from` on hold pairs `from <= i < j < n` only |
| ShapeUtils.CollidingPairs | src/shape_utils.cpp:196-218 | every kept index pair has `i < j < n` |
| ShapeUtils.Collisions | src/shape_utils.cpp:196-218 | the result is the shapes at the kept index pairs |
| ShapeUtils.CollideRow | src/shape_utils.cpp:205-215 | the inner loop collects the overlapping shapes of row i, in order of j |
| ShapeUtils.FindAllCollisions | src/shape_utils.cpp:196-218 | the two loops compute exactly the collisions |
| ShapeUtils.RowPairsMembership | src/shape_utils.cpp:204-214 | a pair is in row i exactly when its second index is in range and the boxes overlap |
| ShapeUtils.RowPairsIncreasing | src/shape_utils.cpp:204-206 | within a row the second indices increase |
| ShapeUtils.PairsFromMembership | src/shape_utils.cpp:202-214 | a pair is visited from row `from` on exactly when it is an overlapping `i < j` pair there |
| ShapeUtils.PairsFromIncreasing | src/shape_utils.cpp:202-208 | rows follow one another in order of their first index |
| ShapeUtils.CollidingPairsMembership | src/shape_utils.cpp:196-218 | exactly the pairs `i < j` whose boxes overlap are kept, and none for fewer than two shapes |
| ShapeUtils.CollidingPairsIncreasing | src/shape_utils.cpp:202-215 | pairs come ordered by i, then by j, each at most once |
| ShapeUtils.CollisionsMembership | src/shape_utils.cpp:196-218 | a pair of shapes is reported exactly when it sits at some overlapping `i < j` |
| ShapeUtils.MaxElement | src/shape_utils.cpp:227-228 | `max_element` ends at an index whose height is at least every other, with every earlier height strictly lower |
| ShapeUtils.FindHighestShape | src/shape_utils.cpp:220-231 | none exactly for no shapes, else the first index of greatest height |
| ShapeUtils.HighestIsFirstMaximum | src/shape_utils.cpp:220-231 | the first index of greatest height is the one returned |
| ConvexHull.CrossProduct | src/convex_hull.cpp:7-11 | `(p1 - middle) x (p2 - middle)`; `SweepLeftTurns` proves it `<= 0` on every hull triple |
| ConvexHull.AngleLess | src/convex_hull.cpp:27-34 | the sort comparator: distance order within 1e-10 of collinear, cross-product sign otherwise; `AngleOrderAsymmetric` proves it never holds both ways |
| ConvexHull.AngleOrder | src/convex_hull.cpp:27-34 | the comparator around a fixed pivot, as the value handed to the sort |
| ConvexHull.InsertBack | src/convex_hull.cpp:27-34 | one step of the sort: one element longer, and the last element is the inserted one or the old last |
| ConvexHull.SortSeq | src/convex_hull.cpp:27-34 | the `std::sort` by the comparator keeps the length; `SortSeqPermutes` and `SortSeqSorted` prove a permutation with no adjacent inversion |
| ConvexHull.Sweep | src/convex_hull.cpp:36-42 | the stack after pushing each point and popping right turns; `SweepEnds`, `SweepFromInput` and `SweepLeftTurns` prove what it holds |
| ConvexHull.MinElement | src/convex_hull.cpp:19-21 | the index of the first lowest point, by y and then x |
| ConvexHull.Lower | src/convex_hull.cpp:19-21 | the `min_element` comparator: lower y, then lower x |
| ConvexHull.AngleOrderAsymmetric | src/convex_hull.cpp:27-34 | the angle comparator never holds both ways, whatever sqrt returns |
| ConvexHull.SortSeqPermutes | src/convex_hull.cpp:27-34 | the sort reorders its input and does nothing else |
| ConvexHull.SortSeqSorted | src/convex_hull.cpp:27-34 | under an asymmetric comparator, no sorted element is less than the one before it |
| ConvexHull.PopRightTurns | src/convex_hull.cpp:38-40 | the pops keep a prefix of the stack, never empty it, and stop at a left turn or straight run |
| ConvexHull.BuildHull | src/convex_hull.cpp:36-42 | the loop with its inner pops computes the sweep of the points |
| ConvexHull.SweepEnds | src/convex_hull.cpp:36-44 | the pivot is never popped, the last point is always pushed, and the stack never outgrows the input |
| ConvexHull.SweepFromInput | src/convex_hull.cpp:36-44 | every hull point is an input point |
| ConvexHull.SweepLeftTurns | src/convex_hull.cpp:7-42 | every consecutive triple on the stack has a cross product `<= 0` |
| ConvexHull.SwapPermutes | src/convex_hull.cpp:24 | `iter_swap` keeps the same points |
| ConvexHull.ScanOrder | src/convex_hull.cpp:24-34 | after the swap and sort the lowest point comes first, and no point is lost |
| ConvexHull.ScanOrderSorted | src/convex_hull.cpp:19-34 | that order is a reordering with the lowest point first and the others sorted by angle around it |
| ConvexHull.SortAroundLowest | src/convex_hull.cpp:24-34 | the swap and sort leave the array in scan order |
| ConvexHull.GrahamScan | src/convex_hull.cpp:13-45 | the error and an untouched input for fewer than 3 points; otherwise the input is reordered (pivot lowest and first, the rest sorted by angle), and the hull starts at the pivot, ends at the last sorted point, turns only left and holds only input points |
| Triangulation.MakeEdge | include/triangulation.hpp:61-65 | the endpoints are stored in x-then-y order, and are the two points given |
| Triangulation.MakeEdgeSymmetric | include/triangulation.hpp:61-65 | `Edge(a, b)` and `Edge(b, a)` are the same edge |
| Triangulation.EdgeLess | include/triangulation.hpp:67-75 | `Edge::operator<`: the first coordinate further than EPS apart decides, the last compared exactly; `EquivalentIff` proves which edges it equates |
| Triangulation.EdgeNear | include/triangulation.hpp:77-79 | `Edge::operator==`: both endpoints within EPS by distance |
| Triangulation.EdgeNearReflexive | include/triangulation.hpp:77-79 | under an exact sqrt, every edge is `==` to itself |
| Triangulation.EdgeNearSymmetric | include/triangulation.hpp:77-79 | `e == f` exactly when `f == e`, whatever sqrt returns |
| Triangulation.EdgeNearIsKeyIff | include/triangulation.hpp:67-79 | under an exact sqrt, edges equal by `operator==` are one key of the set exactly when their last y coordinates are equal |
| Triangulation.KeyWithoutEdgeNear | include/triangulation.hpp:67-79 | under an exact sqrt, edges whose first endpoints are exactly EPS apart in x are one key of the set but not equal by `operator==` |
| Triangulation.EquivalentIff | include/triangulation.hpp:67-75 | two edges are one key of the set exactly when their first three coordinates are within EPS and their last ones are equal |
| Triangulation.EquivalentReflexive | include/triangulation.hpp:67-75 | `operator<` is irreflexive, so every edge is its own key |
| Triangulation.DelaunayTriangle.ContainsPoint | include/triangulation.hpp:19-23 | p is at most radius + EPS from the circumcenter; `CavityOf` and `KeptAreGood` use it |
| Triangulation.DelaunayTriangle.Circumcenter | include/triangulation.hpp:25-40 | the centroid when `abs(d) < EPS`, else the determinant formula; `CircumcenterEquidistant` proves it equidistant from the vertices |
| Triangulation.DelaunayTriangle.Circumradius | include/triangulation.hpp:42 | the distance from the circumcenter to a; `ContainsVertices` proves it reaches all three vertices |
| Triangulation.DelaunayTriangle.SharesEdge | include/triangulation.hpp:44-53 | exactly two shared vertices; `NoEdgeSharedWithItself` and `SharesEdgeAcross` prove what it decides |
| Triangulation.DelaunayTriangle.SharedCount | include/triangulation.hpp:44-53 | at most three vertices are counted as shared |
| Triangulation.DelaunayTriangle.Vertices | include/triangulation.hpp:55 | the three vertices a, b, c in order |
| Triangulation.DelaunayTriangle.Edges | include/triangulation.hpp:114-115 | the edges ab, bc, ca in the order the source toggles them |
| Triangulation.Near | include/triangulation.hpp:49 | two points count as the same vertex when their distance is below EPS |
| Triangulation.NoEdgeSharedWithItself | include/triangulation.hpp:44-53 | under an exact sqrt a triangle shares no edge with itself, since all three of its vertices match |
| Triangulation.SharesEdgeAcross | include/triangulation.hpp:44-53 | two triangles on either side of an edge share it when the third vertices are apart |
| Triangulation.CircumcenterEquidistant | include/triangulation.hpp:25-40 | unless the vertices are nearly collinear, the circumcenter is equally far from all three |
| Triangulation.ContainsVertices | include/triangulation.hpp:19-23 | unless the vertices are nearly collinear, the circumcircle holds all three vertices |
| Triangulation.FindKey | include/triangulation.hpp:116 | `set::erase` finds the first edge equivalent to the one erased, or none |
| Triangulation.InsertionPoint | include/triangulation.hpp:117 | `set::insert` places an edge before the first edge it is less than |
| Triangulation.Insert | include/triangulation.hpp:117 | inserting adds the edge and loses nothing |
| Triangulation.Toggle | include/triangulation.hpp:114-119 | erase an equivalent key, or insert the edge when there is none; `ToggleCount` proves the count it changes |
| Triangulation.ToggleAll | include/triangulation.hpp:114-119 | the edges toggled one after another; `ToggleAllParity` proves the odd-count edges remain |
| Triangulation.ToggleCount | include/triangulation.hpp:114-119 | toggling an edge adds or removes one copy of it and leaves every other edge |
| Triangulation.ToggleAllFrom | include/triangulation.hpp:114-119 | toggling adds only the edges toggled |
| Triangulation.ToggleAllParity | include/triangulation.hpp:114-119 | toggling separated edges into an empty set leaves once each exactly the edges seen an odd number of times |
| Triangulation.CavityOf | include/triangulation.hpp:110-121 | the bad triangles are exactly those whose circumcircle holds the point |
| Triangulation.EdgesOf | include/triangulation.hpp:114-115 | three edges per triangle |
| Triangulation.CavityBoundary | include/triangulation.hpp:110-121 | the boundary is the bad triangles' edges toggled one by one into an empty set |
| Triangulation.CavityBoundaryParity | include/triangulation.hpp:110-121 | the boundary holds exactly the bad triangles' edges of odd count, so an edge two bad triangles share cancels |
| Triangulation.EraseMatching | include/triangulation.hpp:123-127 | `erase_if` keeps exactly the triangles that match no bad one |
| Triangulation.SameTriangle | include/triangulation.hpp:124-126 | the `erase_if` test: a, b and c each near the other triangle's a, b and c |
| Triangulation.MatchesAny | include/triangulation.hpp:123-127 | `any_of` over the bad triangles of that test |
| Triangulation.KeptAreGood | include/triangulation.hpp:123-127 | under an exact sqrt, no kept triangle holds the point |
| Triangulation.MatchesItself | include/triangulation.hpp:123-127 | under an exact sqrt a bad triangle matches itself and is erased |
| Triangulation.NewTriangles | include/triangulation.hpp:129-131 | one new triangle per boundary edge, `(p1, p2, point)` |
| Triangulation.AddedJoinPoint | include/triangulation.hpp:129-131 | every new triangle has the point as its third vertex and an edge of a bad triangle as its base |
| Triangulation.InsertPointResult | include/triangulation.hpp:106-132 | after an insertion every triangle is either an old one not holding the point or a new one built on a boundary edge |
| Triangulation.InsertPoint | include/triangulation.hpp:106-132 | one insertion: the kept triangles, then one new triangle per boundary edge; `InsertPointResult` proves what every triangle is |
| Triangulation.InsertAll | include/triangulation.hpp:106-132 | the insertions of the points one after another, in input order |
| Triangulation.Spread | include/triangulation.hpp:88-95 | `dmax`, the larger side of the input's extent |
| Triangulation.SuperTriangle | include/triangulation.hpp:88-101 | the three super vertices around the extent's center; `SuperTriangleEncloses` proves every input point inside |
| Triangulation.NearCenter | include/triangulation.hpp:88-97 | every input point lies within `dmax / 2` of the extent's center on both axes |
| Triangulation.InsideAtOffset | include/triangulation.hpp:99-101 | a point within `dmax / 2` of the center is strictly inside the super triangle |
| Triangulation.SuperTriangleEncloses | include/triangulation.hpp:88-101 | unless all points coincide, every input point is strictly inside the super triangle |
| Triangulation.DropSuper | include/triangulation.hpp:134-140 | the final `erase_if` keeps exactly the triangles with no vertex near a super-triangle vertex |
| Triangulation.TouchesSuper | include/triangulation.hpp:134-140 | `any_of` over the vertices of `is_super_triangle_vertex`: some vertex near a super-triangle vertex |
| Triangulation.Triangulate | include/triangulation.hpp:82-143 | the error exactly for fewer than 3 points, and otherwise no triangle touches the super triangle |
| Triangulation.ToggleEdges | include/triangulation.hpp:114-119 | the inner loop erases each edge or, when absent, inserts it |
| Triangulation.FindCavity | include/triangulation.hpp:110-121 | the pass over the triangles computes the bad triangles and the boundary |
| Triangulation.InsertOne | include/triangulation.hpp:107-131 | erasing the bad triangles and appending the new ones computes one insertion |
| Triangulation.DelaunayTriangulation | include/triangulation.hpp:82-143 | the algorithm computes the triangulation: the error exactly for fewer than 3 points, and otherwise no triangle touches the super triangle |

## Left out

- Floating point: doubles are exact reals. Rounding, overflow, infinities and NaN are not modelled. The EPS comparisons are kept exactly as written.
- `std::sqrt`, `std::cos` and `std::sin` are foreign calls. They are a `MathLib` parameter. Properties that depend on the square root are proved under `ExactSqrt`; the regular polygon's box property is proved for cos and sin in [-1, 1] (`BoundedTrig`).
- `std::from_chars` is a foreign call. It is a parameter returning success, characters consumed and value. `std::isspace` is the C-locale set.
- `StackForGrahamScan` is declared in include/convex_hull.hpp, which is not part of this model. The stack is a sequence whose last element is its top.
- `std::sort` in `GrahamScan` is modelled as an insertion sort with the source's comparator. The comparator is not a strict weak order, so the order `std::sort` actually produces is not determined. The model fixes one order and proves it a permutation with no adjacent inversion.
- `std::set<Edge>` is a sequence kept in `Edge::operator<` order, with a linear search for an equivalent key. The tree itself is not modelled. The comparator's tolerance makes it no strict weak order; the model takes the first equivalent key.
- The cached `bounding_box_` field of `Polygon` is not stored: `Polygon.BoundBox` is the tight box, and `CalculateBoundBox` is proved to compute it.
- A `Polygon` with no vertices is undefined behaviour in the source (it reads `points_[0]`). The model's polygons have at least one vertex.
- `DistanceVisitor` (include/queries.hpp:14-82) duplicates `PointToShapeDistanceVisitor` line for line. It is modelled once.
- `PointInShapeVisitor` (include/queries.hpp:154-217) is called by no operation of the kernel.
- `Point2D::operator<` (include/geometry.hpp:19) is used by no algorithm and is no strict weak order.
- `Line::Length`, `Line::Direction`, `Line::Center`, `Triangle::Area`, `Triangle::Center` and `Rectangle::Center` are used by none of the modelled operations.
- `Circle::Vertices` and `Circle::Lines` sample the circle with cos and sin and are used only for plotting.
- `Lines2DDyn::Reserve` only reserves capacity. The `PushBack(px, py)` overload is used only by `Circle::Lines`.
- The fixed-size `Lines2D<N>` of `Line`, `Triangle` and `Rectangle` is a sequence of points.
- The `std::formatter` specializations, src/visualization.cpp and src/main.cpp print or plot, and are not modelled.
- Geometry.RegularPolygonLines: requires `sides != 0`. With no sides the source calls `Front()` on an empty `Lines2DDyn`, which is undefined behaviour.
- The failure for a negative `sides` is the `std::length_error` exception that `reserve` throws, which propagates out of `DistanceToPoint` and `Lines`. The model returns it as a `Failure` value, with libstdc++'s message `vector::reserve`, since the text is implementation-defined.
- `static_cast<int>` of a double outside the range of `int` (undefined behaviour) is not modelled. `Parsing.Truncate` truncates any real toward zero.
- Triangulation.Triangulate: the empty-circumcircle (Delaunay) property of the result is not proved. What is proved is the structure of each insertion (`InsertPointResult`, `AddedJoinPoint`, `CavityBoundaryParity`) and the final filter.
- Triangulation.DelaunayTriangulation: the same.
- Triangulation.CavityBoundaryParity: proved only when no two different edges of the bad triangles are one key of the set. Edges closer than EPS but not equal merge in the set, and the boundary is then not characterised.
- Triangulation.SuperTriangleEncloses: requires `dmax > 0`. When every input point is the same, the super triangle collapses onto that point.
- Triangulation.ContainsVertices: holds only when the vertices are not nearly collinear. Otherwise the source's centroid fallback makes no promise.
- ConvexHull.GrahamScan: that every input point lies inside the returned hull is not proved. What is proved is that the hull turns only left, starts at the pivot, ends at the last sorted point, and holds only input points.
- Intersections.CircleCircle: its contract lists the three guards that give no point, not the exact set of inputs that give one. `CircleCircleOnBoth` covers the exact band `abs(r1 - r2) <= dist <= r1 + r2`. The EPS slack bands, where the source rounds a negative `h^2` up to zero, are not characterised.
- Intersections.LineCircleFirstCrossing: proved for a discriminant above EPS. Within EPS of zero, `LineCircleTangent` proves the point is the nearest one instead.
- Intersections.GetIntersectPointSymmetric: excludes two circles, for which the source returns the crossing to the left of the line of centres, and that side changes with the order.
