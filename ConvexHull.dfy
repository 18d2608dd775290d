/**
 * The Graham scan of src/convex_hull.cpp: choose the lowest point as the
 * pivot and swap it to the front, sort the rest by angle around the pivot,
 * then sweep the sorted points with a stack that drops every right turn.
 *
 * The input is an array the scan reorders in place, as the source's span.
 * The stack (StackForGrahamScan, declared in convex_hull.hpp, which is not
 * part of this model) is a sequence whose last element is its top.
 */
module ConvexHull {

  import opened Wrappers
  import opened RealArith
  import opened Geometry

  /** The error returned for fewer than three points. */
  const TooFewPoints: string := "At least three points are required for convex hull."

  /** The cross product of p1 - middle and p2 - middle: negative for a left turn p1, middle, p2. */
  function CrossProduct(p1: Point, middle: Point, p2: Point): real
  {
    p1.Sub(middle).Cross(p2.Sub(middle))
  }

  /* ------------------------------------------------------------------- pivot */

  /** The comparator given to min_element: lower y first, then lower x. */
  predicate Lower(a: Point, b: Point)
  {
    a.y < b.y || (a.y == b.y && a.x < b.x)
  }

  /** std::min_element with Lower: the first of the lowest points. */
  method MinElement(a: array<Point>) returns (index: nat)
    requires a.Length > 0
    ensures index < a.Length
    ensures forall k :: 0 <= k < a.Length ==> !Lower(a[k], a[index])
    ensures forall k :: 0 <= k < index ==> Lower(a[index], a[k])
  {
    index := 0;
    var i := 1;
    while i < a.Length
      invariant 1 <= i <= a.Length && index < i
      invariant forall k :: 0 <= k < i ==> !Lower(a[k], a[index])
      invariant forall k :: 0 <= k < index ==> Lower(a[index], a[k])
    {
      if Lower(a[i], a[index]) {
        index := i;
      }
      i := i + 1;
    }
  }

  /* -------------------------------------------------------------------- sort */

  /** The tolerance of the angle comparator. */
  const Precision: real := 0.0000000001

  /**
   * The comparator given to std::sort: a before b when b lies counter-clockwise
   * of a around the pivot; nearly collinear points (|cross| < Precision) go
   * nearer first.
   */
  predicate AngleLess(m: MathLib, pivot: Point, a: Point, b: Point)
  {
    var cross := a.Sub(pivot).Cross(b.Sub(pivot));
    if Abs(cross) < Precision then pivot.DistanceTo(m, a) < pivot.DistanceTo(m, b) else cross > 0.0
  }

  /** AngleLess around a fixed pivot, as a comparator value. */
  function AngleOrder(m: MathLib, pivot: Point): (Point, Point) -> bool
  {
    (a, b) => AngleLess(m, pivot, a, b)
  }

  /** A comparator that never holds both ways. */
  ghost predicate Asymmetric(less: (Point, Point) -> bool)
  {
    forall x, y :: less(x, y) ==> !less(y, x)
  }

  /** No element is less than the one just before it. */
  predicate AdjacentSorted(less: (Point, Point) -> bool, s: seq<Point>)
  {
    forall k :: 0 < k < |s| ==> !less(s[k], s[k - 1])
  }

  /** The angle comparator never holds both ways, whatever sqrt is. */
  lemma AngleOrderAsymmetric(m: MathLib, pivot: Point)
    ensures Asymmetric(AngleOrder(m, pivot))
  {
    forall a, b | AngleOrder(m, pivot)(a, b)
      ensures !AngleOrder(m, pivot)(b, a)
    {
      CrossAntisymmetric(a.Sub(pivot), b.Sub(pivot));
    }
  }

  /**
   * x inserted into p from the back: it moves left past every element it is
   * less than, and stops at the first it is not.
   */
  function InsertBack(less: (Point, Point) -> bool, p: seq<Point>, x: Point): (r: seq<Point>)
    ensures |r| == |p| + 1
    ensures r[|r| - 1] == x || (p != [] && r[|r| - 1] == p[|p| - 1])
  {
    if p == [] || !less(x, p[|p| - 1]) then p + [x]
    else InsertBack(less, p[..|p| - 1], x) + [p[|p| - 1]]
  }

  /** The sorted order the insertion sort produces. */
  function SortSeq(less: (Point, Point) -> bool, s: seq<Point>): (r: seq<Point>)
    ensures |r| == |s|
  {
    if s == [] then []
    else InsertBack(less, SortSeq(less, s[..|s| - 1]), s[|s| - 1])
  }

  /** Inserting adds x and loses nothing. */
  lemma {:induction false} InsertBackPermutes(less: (Point, Point) -> bool, p: seq<Point>, x: Point)
    ensures multiset(InsertBack(less, p, x)) == multiset(p) + multiset{x}
  {
    if p != [] && less(x, p[|p| - 1]) {
      var init := p[..|p| - 1];
      InsertBackPermutes(less, init, x);
      assert p == init + [p[|p| - 1]];
    }
  }

  /** The insertion sort reorders its input and does nothing else. */
  lemma {:induction false} SortSeqPermutes(less: (Point, Point) -> bool, s: seq<Point>)
    ensures multiset(SortSeq(less, s)) == multiset(s)
  {
    if s != [] {
      var init := s[..|s| - 1];
      SortSeqPermutes(less, init);
      InsertBackPermutes(less, SortSeq(less, init), s[|s| - 1]);
      assert s == init + [s[|s| - 1]];
    }
  }

  /** Inserting into a sorted sequence keeps it sorted. */
  lemma {:induction false} InsertBackSorted(less: (Point, Point) -> bool, p: seq<Point>, x: Point)
    requires Asymmetric(less) && AdjacentSorted(less, p)
    ensures AdjacentSorted(less, InsertBack(less, p, x))
  {
    if p != [] && less(x, p[|p| - 1]) {
      var init := p[..|p| - 1];
      var last := p[|p| - 1];
      assert AdjacentSorted(less, init) by {
        forall k | 0 < k < |init|
          ensures !less(init[k], init[k - 1])
        {
          assert init[k] == p[k] && init[k - 1] == p[k - 1];
        }
      }
      InsertBackSorted(less, init, x);
      var q := InsertBack(less, init, x);
      assert !less(last, q[|q| - 1]) by {
        if q[|q| - 1] != x {
          assert q[|q| - 1] == p[|p| - 2];
        }
      }
      var r := q + [last];
      forall k | 0 < k < |r|
        ensures !less(r[k], r[k - 1])
      {
        if k < |q| {
          assert r[k] == q[k] && r[k - 1] == q[k - 1];
        }
      }
    }
  }

  /** Under an asymmetric comparator the insertion sort's order is sorted. */
  lemma {:induction false} SortSeqSorted(less: (Point, Point) -> bool, s: seq<Point>)
    requires Asymmetric(less)
    ensures AdjacentSorted(less, SortSeq(less, s))
  {
    if s != [] {
      SortSeqSorted(less, s[..|s| - 1]);
      InsertBackSorted(less, SortSeq(less, s[..|s| - 1]), s[|s| - 1]);
    }
  }

  /* ------------------------------------------------------------------- sweep */

  /** The stack after the pops a new point causes: every top that makes a right turn goes. */
  function PopRightTurns(hull: seq<Point>, p: Point): (r: seq<Point>)
    ensures |r| <= |hull| && r == hull[..|r|]
    ensures hull != [] ==> r != []
    ensures |r| > 1 ==> CrossProduct(r[|r| - 2], r[|r| - 1], p) <= 0.0
  {
    if |hull| > 1 && CrossProduct(hull[|hull| - 2], hull[|hull| - 1], p) > 0.0 then
      PopRightTurns(hull[..|hull| - 1], p)
    else hull
  }

  /** The stack after the sweep has pushed every point, in order. */
  function Sweep(points: seq<Point>): seq<Point>
  {
    if points == [] then []
    else PopRightTurns(Sweep(points[..|points| - 1]), points[|points| - 1]) + [points[|points| - 1]]
  }

  /** The loop of GrahamScan over the sorted points, with its inner loop of pops. */
  method BuildHull(points: seq<Point>) returns (hull: seq<Point>)
    ensures hull == Sweep(points)
  {
    hull := [];
    for i := 0 to |points|
      invariant hull == Sweep(points[..i])
    {
      var p := points[i];
      while |hull| > 1 && CrossProduct(hull[|hull| - 2], hull[|hull| - 1], p) > 0.0
        invariant PopRightTurns(hull, p) == PopRightTurns(Sweep(points[..i]), p)
      {
        hull := hull[..|hull| - 1];
      }
      hull := hull + [p];
      assert points[..i + 1][..i] == points[..i];
    }
    assert points[..|points|] == points;
  }

  /**
   * The pivot is never popped, since a pop needs two points on the stack; the
   * last point is always pushed; the stack never outgrows the input.
   */
  lemma {:induction false} SweepEnds(points: seq<Point>)
    requires points != []
    ensures Sweep(points) != []
    ensures Sweep(points)[0] == points[0]
    ensures Sweep(points)[|Sweep(points)| - 1] == points[|points| - 1]
    ensures |Sweep(points)| <= |points|
  {
    var init := points[..|points| - 1];
    if init != [] {
      SweepEnds(init);
      assert init[0] == points[0];
    }
  }

  /** Every point on the stack is an input point. */
  lemma {:induction false} SweepFromInput(points: seq<Point>)
    ensures forall q :: q in Sweep(points) ==> q in points
  {
    if points != [] {
      var init := points[..|points| - 1];
      SweepFromInput(init);
      var kept := PopRightTurns(Sweep(init), points[|points| - 1]);
      assert forall q :: q in kept ==> q in Sweep(init);
      assert forall q :: q in init ==> q in points;
    }
  }

  /** Every three consecutive points on the stack turn left or go straight. */
  ghost predicate LeftTurns(hull: seq<Point>)
  {
    forall k :: 0 <= k < |hull| - 2 ==> CrossProduct(hull[k], hull[k + 1], hull[k + 2]) <= 0.0
  }

  /** Popping from the top keeps the turns below it. */
  lemma PrefixLeftTurns(hull: seq<Point>, n: nat)
    requires LeftTurns(hull) && n <= |hull|
    ensures LeftTurns(hull[..n])
  {
    forall k | 0 <= k < n - 2
      ensures CrossProduct(hull[..n][k], hull[..n][k + 1], hull[..n][k + 2]) <= 0.0
    {
      assert hull[..n][k] == hull[k] && hull[..n][k + 1] == hull[k + 1] && hull[..n][k + 2] == hull[k + 2];
    }
  }

  /** Pushing a point that turns left from the top two keeps only left turns. */
  lemma PushLeftTurn(kept: seq<Point>, p: Point)
    requires LeftTurns(kept)
    requires |kept| > 1 ==> CrossProduct(kept[|kept| - 2], kept[|kept| - 1], p) <= 0.0
    ensures LeftTurns(kept + [p])
  {
    var hull := kept + [p];
    forall k | 0 <= k < |hull| - 2
      ensures CrossProduct(hull[k], hull[k + 1], hull[k + 2]) <= 0.0
    {
      if k + 2 < |kept| {
        assert hull[k] == kept[k] && hull[k + 1] == kept[k + 1] && hull[k + 2] == kept[k + 2];
      } else {
        assert hull[k] == kept[|kept| - 2] && hull[k + 1] == kept[|kept| - 1] && hull[k + 2] == p;
      }
    }
  }

  /** The sweep keeps only left turns (or straight runs) on the stack. */
  lemma {:induction false} SweepLeftTurns(points: seq<Point>)
    ensures LeftTurns(Sweep(points))
  {
    if points != [] {
      var init := points[..|points| - 1];
      var p := points[|points| - 1];
      SweepLeftTurns(init);
      var kept := PopRightTurns(Sweep(init), p);
      PrefixLeftTurns(Sweep(init), |kept|);
      PushLeftTurn(kept, p);
    }
  }

  /* -------------------------------------------------------------- the scan */

  /** Swapping two entries keeps the same elements. */
  lemma SwapPermutes(s: seq<Point>, i: nat, j: nat)
    requires i < |s| && j < |s|
    ensures multiset(s[i := s[j]][j := s[i]]) == multiset(s)
  {
  }

  /**
   * The order GrahamScan leaves the points in: the lowest point swapped to the
   * front, then the others sorted by angle around it.
   */
  function ScanOrder(m: MathLib, points: seq<Point>, minIndex: nat): (r: seq<Point>)
    requires minIndex < |points|
    ensures |r| == |points| && r[0] == points[minIndex]
  {
    var swapped := points[0 := points[minIndex]][minIndex := points[0]];
    [swapped[0]] + SortSeq(AngleOrder(m, swapped[0]), swapped[1..])
  }

  /**
   * That order is a reordering of the input whose first point is the lowest and
   * whose other points are sorted by angle around it.
   */
  lemma ScanOrderSorted(m: MathLib, points: seq<Point>, minIndex: nat)
    requires minIndex < |points|
    requires forall k :: 0 <= k < |points| ==> !Lower(points[k], points[minIndex])
    ensures multiset(ScanOrder(m, points, minIndex)) == multiset(points)
    ensures forall k :: 0 <= k < |points| ==> !Lower(ScanOrder(m, points, minIndex)[k], points[minIndex])
    ensures AdjacentSorted(AngleOrder(m, points[minIndex]), ScanOrder(m, points, minIndex)[1..])
  {
    var swapped := points[0 := points[minIndex]][minIndex := points[0]];
    var pivot := points[minIndex];
    var less := AngleOrder(m, pivot);
    var r := ScanOrder(m, points, minIndex);
    SwapPermutes(points, 0, minIndex);
    SortSeqPermutes(less, swapped[1..]);
    assert swapped == [pivot] + swapped[1..];
    assert r[1..] == SortSeq(less, swapped[1..]);
    AngleOrderAsymmetric(m, pivot);
    SortSeqSorted(less, swapped[1..]);
    forall k | 0 <= k < |r|
      ensures !Lower(r[k], pivot)
    {
      assert r[k] in multiset(points);
    }
  }

  /** A reordering keeps the same points. */
  lemma SameMembers(before: seq<Point>, after: seq<Point>)
    requires multiset(after) == multiset(before)
    ensures forall q :: q in after ==> q in before
  {
    forall q | q in after
      ensures q in before
    {
      assert q in multiset(after);
    }
  }

  /** The properties of the sweep GrahamScan reports, gathered for one call. */
  lemma SweepFacts(points: seq<Point>)
    requires points != []
    ensures |Sweep(points)| <= |points| && Sweep(points)[0] == points[0]
    ensures Sweep(points)[|Sweep(points)| - 1] == points[|points| - 1]
    ensures LeftTurns(Sweep(points)) && forall q :: q in Sweep(points) ==> q in points
  {
    SweepEnds(points);
    SweepFromInput(points);
    SweepLeftTurns(points);
  }

  /**
   * GrahamScan: the error for fewer than three points, with the input left
   * alone; otherwise the input is reordered (pivot first, the rest sorted by
   * angle) and the hull is the sweep of it: it starts at the pivot, ends at the
   * last sorted point, turns only left and holds only input points.
   */
  method GrahamScan(m: MathLib, points: array<Point>) returns (r: Result<seq<Point>, string>)
    modifies points
    ensures multiset(points[..]) == multiset(old(points[..]))
    ensures points.Length < 3 ==> r == Failure(TooFewPoints) && points[..] == old(points[..])
    ensures points.Length >= 3 ==> r.Success? && r.value == Sweep(points[..])
    ensures points.Length >= 3 ==> forall k :: 0 <= k < points.Length ==> !Lower(points[k], points[0])
    ensures points.Length >= 3 ==> AdjacentSorted(AngleOrder(m, points[0]), points[1..])
    ensures r.Success? ==> 0 < |r.value| <= points.Length && r.value[0] == points[0]
    ensures r.Success? ==> r.value[|r.value| - 1] == points[points.Length - 1]
    ensures r.Success? ==> LeftTurns(r.value) && forall q :: q in r.value ==> q in old(points[..])
  {
    if points.Length < 3 {
      return Failure(TooFewPoints);
    }
    var minIndex := MinElement(points);
    ghost var before := points[..];
    SortAroundLowest(m, points, minIndex);
    ScanOrderSorted(m, before, minIndex);
    SameMembers(before, points[..]);
    var hull := BuildHull(points[..]);
    SweepFacts(points[..]);
    r := Success(hull);
  }

  /**
   * The swap of the lowest point to the front and the std::sort of the rest by
   * angle around it, which leaves the array in scan order.
   */
  method SortAroundLowest(m: MathLib, points: array<Point>, minIndex: nat)
    requires minIndex < points.Length
    modifies points
    ensures points[..] == ScanOrder(m, old(points[..]), minIndex)
  {
    points[0], points[minIndex] := points[minIndex], points[0];
    var pivot := points[0];
    var sorted := SortSeq(AngleOrder(m, pivot), points[1..]);
    forall k | 1 <= k < points.Length {
      points[k] := sorted[k - 1];
    }
    assert points[..] == [pivot] + sorted;
  }
}
