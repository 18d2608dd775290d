/**
 * The Bowyer-Watson triangulation of include/triangulation.hpp: a super
 * triangle around the input, then for each point the triangles whose
 * circumcircle holds it are removed and the boundary of the cavity they leave
 * is joined to the point; at the end every triangle touching the super
 * triangle is dropped.
 *
 * std::set<Edge> is a sequence kept in the order of Edge::operator<, and the
 * standard algorithms the source calls (minmax, erase_if, any_of) are the
 * functions that define their results.
 */
module Triangulation {

  import opened Wrappers
  import opened RealArith
  import opened Geometry

  /** The tolerance of this header, separate from the one of the intersection tests. */
  const Eps: real := 0.0000000001

  /** The error returned for fewer than three points. */
  const TooFewPoints: string := "At least three points are required for triangulation."

  /** Two points closer than Eps count as the same vertex. */
  predicate Near(m: MathLib, p: Point, q: Point)
  {
    p.DistanceTo(m, q) < Eps
  }

  /** Under an exact sqrt every point is near itself. */
  lemma NearSelf(m: MathLib, p: Point)
    requires ExactSqrt(m)
    ensures Near(m, p, p)
  {
    DistanceZeroIff(m, p, p);
  }

  /* ------------------------------------------------------------------- edges */

  /** An edge of a triangle, its endpoints in the order its constructor chose. */
  datatype Edge = Edge(p1: Point, p2: Point)

  /** p comes strictly after q in the order of x, then y. */
  predicate LexGreater(p: Point, q: Point)
  {
    p.x > q.x || (p.x == q.x && p.y > q.y)
  }

  /** The constructor of Edge: the endpoints are swapped when the first comes after the second. */
  function MakeEdge(p: Point, q: Point): (e: Edge)
    ensures !LexGreater(e.p1, e.p2)
    ensures (e.p1 == p && e.p2 == q) || (e.p1 == q && e.p2 == p)
  {
    if LexGreater(p, q) then Edge(q, p) else Edge(p, q)
  }

  /** An edge does not depend on the order its endpoints were given in. */
  lemma MakeEdgeSymmetric(p: Point, q: Point)
    ensures MakeEdge(p, q) == MakeEdge(q, p)
  {
    if p != q {
      assert LexGreater(p, q) || LexGreater(q, p);
    }
  }

  /** Edge::operator<: coordinates further apart than Eps decide, in the order p1.x, p1.y, p2.x, p2.y. */
  predicate EdgeLess(e: Edge, f: Edge)
  {
    if Abs(e.p1.x - f.p1.x) > Eps then e.p1.x < f.p1.x
    else if Abs(e.p1.y - f.p1.y) > Eps then e.p1.y < f.p1.y
    else if Abs(e.p2.x - f.p2.x) > Eps then e.p2.x < f.p2.x
    else e.p2.y < f.p2.y
  }

  /** Neither edge is less than the other: the set treats them as one key. */
  predicate Equivalent(e: Edge, f: Edge)
  {
    !EdgeLess(e, f) && !EdgeLess(f, e)
  }

  /**
   * Two edges are one key of the set exactly when their first three
   * coordinates are within Eps of each other and their last coordinates are
   * equal.
   */
  lemma EquivalentIff(e: Edge, f: Edge)
    ensures Equivalent(e, f) <==>
      Abs(e.p1.x - f.p1.x) <= Eps && Abs(e.p1.y - f.p1.y) <= Eps &&
      Abs(e.p2.x - f.p2.x) <= Eps && e.p2.y == f.p2.y
  {
  }

  /** The order is irreflexive, so every edge is its own key. */
  lemma EquivalentReflexive(e: Edge)
    ensures !EdgeLess(e, e) && Equivalent(e, e)
  {
  }

  /** Edge::operator==: each endpoint is within Eps of the other edge's, by distance. */
  predicate EdgeNear(m: MathLib, e: Edge, f: Edge)
  {
    Near(m, e.p1, f.p1) && Near(m, e.p2, f.p2)
  }

  /** Under an exact sqrt, operator== holds between an edge and itself. */
  lemma EdgeNearReflexive(m: MathLib, e: Edge)
    requires ExactSqrt(m)
    ensures EdgeNear(m, e, e)
  {
    NearSelf(m, e.p1);
    NearSelf(m, e.p2);
  }

  /** operator== does not depend on the order of its operands, whatever sqrt is. */
  lemma EdgeNearSymmetric(m: MathLib, e: Edge, f: Edge)
    ensures EdgeNear(m, e, f) == EdgeNear(m, f, e)
  {
    DistanceSymmetric(m, e.p1, f.p1);
    DistanceSymmetric(m, e.p2, f.p2);
  }

  /** Under an exact sqrt, points nearer than Eps have both coordinates within Eps. */
  lemma NearCoordinates(m: MathLib, p: Point, q: Point)
    requires ExactSqrt(m) && Near(m, p, q)
    ensures Abs(p.x - q.x) < Eps && Abs(p.y - q.y) < Eps
  {
    var v := p.Sub(q);
    LengthIsRoot(m, v);
    var d := v.Length(m);
    SqMonotone(Eps, d);
    assert Sq(d) < Sq(Eps);
    SqNonnegative(v.x);
    SqNonnegative(v.y);
    SqNegate(v.x);
    SqNegate(v.y);
    SqMonotone(Eps, Abs(v.x));
    SqMonotone(Eps, Abs(v.y));
  }

  /**
   * operator== and the set's key disagree: two edges equal by operator== are
   * one key of the set exactly when their last y coordinates are equal.
   */
  lemma EdgeNearIsKeyIff(m: MathLib, e: Edge, f: Edge)
    requires ExactSqrt(m) && EdgeNear(m, e, f)
    ensures Equivalent(e, f) <==> e.p2.y == f.p2.y
  {
    NearCoordinates(m, e.p1, f.p1);
    NearCoordinates(m, e.p2, f.p2);
    EquivalentIff(e, f);
  }

  /** Under an exact sqrt, points whose offset is (-Eps, 0) are exactly Eps apart, so not near. */
  lemma EpsApartNotNear(m: MathLib, p: Point, q: Point)
    requires ExactSqrt(m) && p.Sub(q) == Point(-Eps, 0.0)
    ensures !Near(m, p, q)
  {
    var v := p.Sub(q);
    LengthIsRoot(m, v);
    SqNegate(Eps);
    SqZero();
    assert v.SqLength() == Sq(Eps);
    SqInjective(v.Length(m), Eps);
  }

  /** Edges whose first endpoints are exactly Eps apart in x, and that agree otherwise, are one key. */
  lemma EpsApartOneKey(e: Edge, f: Edge)
    requires f.p1 == Point(e.p1.x + Eps, e.p1.y) && f.p2 == e.p2
    ensures Equivalent(e, f)
  {
    EquivalentIff(e, f);
  }

  /** Nor does one key imply operator==: first endpoints exactly Eps apart are one key but not near. */
  lemma KeyWithoutEdgeNear(m: MathLib, e: Edge, f: Edge)
    requires ExactSqrt(m)
    requires f.p1 == Point(e.p1.x + Eps, e.p1.y) && f.p2 == e.p2
    ensures Equivalent(e, f) && !EdgeNear(m, e, f)
  {
    EpsApartOneKey(e, f);
    assert e.p1.Sub(f.p1) == Point(-Eps, 0.0);
    EpsApartNotNear(m, e.p1, f.p1);
  }

  /* --------------------------------------------------------------- triangles */

  /** Twice the signed area of a, b, c: half the denominator of the circumcenter formula. */
  function Half(a: Point, b: Point, c: Point): real
  {
    a.x * (b.y - c.y) + b.x * (c.y - a.y) + c.x * (a.y - b.y)
  }

  /** The squared norm of p as a vector. */
  function SqNorm(p: Point): real
  {
    p.x * p.x + p.y * p.y
  }

  /** The numerator of the circumcenter's x coordinate, given the squared norms sa, sb, sc of a, b, c. */
  function NumX(a: Point, b: Point, c: Point, sa: real, sb: real, sc: real): real
  {
    sa * (b.y - c.y) + sb * (c.y - a.y) + sc * (a.y - b.y)
  }

  /** The numerator of the circumcenter's y coordinate, given the squared norms sa, sb, sc of a, b, c. */
  function NumY(a: Point, b: Point, c: Point, sa: real, sb: real, sc: real): real
  {
    sa * (c.x - b.x) + sb * (a.x - c.x) + sc * (b.x - a.x)
  }

  /** A triangle of the triangulation. */
  datatype DelaunayTriangle = DelaunayTriangle(a: Point, b: Point, c: Point)
  {
    /** The circumcenter, or the centroid when the vertices are (nearly) collinear. */
    function Circumcenter(): Point
    {
      var d := 2.0 * Half(a, b, c);
      if Abs(d) < Eps then Point((a.x + b.x + c.x) / 3.0, (a.y + b.y + c.y) / 3.0)
      else
        var sa, sb, sc := SqNorm(a), SqNorm(b), SqNorm(c);
        Point(NumX(a, b, c, sa, sb, sc) / d, NumY(a, b, c, sa, sb, sc) / d)
    }

    /** The distance from the circumcenter to the first vertex. */
    function Circumradius(m: MathLib): real
    {
      Circumcenter().DistanceTo(m, a)
    }

    /** p lies in the circumcircle, with Eps of slack. */
    predicate ContainsPoint(m: MathLib, p: Point)
    {
      Circumcenter().DistanceTo(m, p) <= Circumradius(m) + Eps
    }

    function Vertices(): seq<Point>
    {
      [a, b, c]
    }

    /** The three edges, in the order the source toggles them. */
    function Edges(): seq<Edge>
    {
      [MakeEdge(a, b), MakeEdge(b, c), MakeEdge(c, a)]
    }

    /** How many vertices of this triangle are near some vertex of other. */
    function SharedCount(m: MathLib, other: DelaunayTriangle): (r: nat)
      ensures r <= 3
    {
      (if NearVertex(m, a, other) then 1 else 0) +
      (if NearVertex(m, b, other) then 1 else 0) +
      (if NearVertex(m, c, other) then 1 else 0)
    }

    /** Exactly two vertices are shared. */
    predicate SharesEdge(m: MathLib, other: DelaunayTriangle)
    {
      SharedCount(m, other) == 2
    }
  }

  /** p is near one of the vertices of t. */
  predicate NearVertex(m: MathLib, p: Point, t: DelaunayTriangle)
  {
    Near(m, p, t.a) || Near(m, p, t.b) || Near(m, p, t.c)
  }

  /**
   * The algebra behind the circumcenter: the numerators dotted with b - a give
   * half the denominator times sb - sa ...
   */
  lemma CircumIdentityB(a: Point, b: Point, c: Point, sa: real, sb: real, sc: real)
    ensures NumX(a, b, c, sa, sb, sc) * (b.x - a.x) + NumY(a, b, c, sa, sb, sc) * (b.y - a.y) == Half(a, b, c) * (sb - sa)
  {
  }

  /** ... and dotted with c - a they give half the denominator times sc - sa. */
  lemma CircumIdentityC(a: Point, b: Point, c: Point, sa: real, sb: real, sc: real)
    ensures NumX(a, b, c, sa, sb, sc) * (c.x - a.x) + NumY(a, b, c, sa, sb, sc) * (c.y - a.y) == Half(a, b, c) * (sc - sa)
  {
  }

  /** The squared distance, multiplied out. */
  lemma SqDistExpand(u: Point, v: Point)
    ensures SqDist(u, v) == (u.x * u.x + u.y * u.y) - 2.0 * (u.x * v.x + u.y * v.y) + (v.x * v.x + v.y * v.y)
  {
  }

  /** Scaling a vector scales its dot product with another. */
  lemma ScaledDot(ux: real, uy: real, s: real, nx: real, ny: real, px: real, py: real)
    requires ux * s == nx && uy * s == ny
    ensures (ux * px + uy * py) * s == nx * px + ny * py
  {
  }

  /** k times 2h equal to h times w, with h nonzero, makes 2k equal to w. */
  lemma CancelHalf(k: real, h: real, w: real)
    requires h != 0.0 && k * (2.0 * h) == h * w
    ensures 2.0 * k == w
  {
    assert (2.0 * k - w) * h == 0.0;
    ZeroProduct(2.0 * k - w, h);
  }

  /** (nx, ny) / 2h dotted with p is w / 2 when (nx, ny) dotted with p is h times w. */
  lemma DotOfQuotient(ux: real, uy: real, h: real, nx: real, ny: real, px: real, py: real, w: real)
    requires h != 0.0 && ux == nx / (2.0 * h) && uy == ny / (2.0 * h)
    requires nx * px + ny * py == h * w
    ensures 2.0 * (ux * px + uy * py) == w
  {
    QuotientTimesDivisor(nx, 2.0 * h);
    QuotientTimesDivisor(ny, 2.0 * h);
    ScaledDot(ux, uy, 2.0 * h, nx, ny, px, py);
    CancelHalf(ux * px + uy * py, h, w);
  }

  /** u is as far from v as from a when twice u dotted with v - a is the difference of their squared norms. */
  lemma BisectorByDot(a: Point, v: Point, u: Point, sa: real, sv: real)
    requires sa == SqNorm(a) && sv == SqNorm(v)
    requires 2.0 * (u.x * (v.x - a.x) + u.y * (v.y - a.y)) == sv - sa
    ensures SqDist(u, a) == SqDist(u, v)
  {
    assert u.x * (v.x - a.x) + u.y * (v.y - a.y) == (u.x * v.x + u.y * v.y) - (u.x * a.x + u.y * a.y);
    SqDistExpand(u, v);
    SqDistExpand(u, a);
  }

  /**
   * The point (nx, ny) / 2h, where (nx, ny) dotted with v - a is h times
   * sv - sa (the squared norms of v and a), is as far from v as from a.
   */
  lemma OnBisector(a: Point, v: Point, u: Point, h: real, nx: real, ny: real, sa: real, sv: real)
    requires h != 0.0 && u == Point(nx / (2.0 * h), ny / (2.0 * h))
    requires sa == SqNorm(a) && sv == SqNorm(v)
    requires nx * (v.x - a.x) + ny * (v.y - a.y) == h * (sv - sa)
    ensures SqDist(u, a) == SqDist(u, v)
  {
    DotOfQuotient(u.x, u.y, h, nx, ny, v.x - a.x, v.y - a.y, sv - sa);
    BisectorByDot(a, v, u, sa, sv);
  }

  /** The point the formula gives is as far from b as from a ... */
  lemma FormulaBisectsB(a: Point, b: Point, c: Point, u: Point, sa: real, sb: real, sc: real)
    requires Half(a, b, c) != 0.0
    requires sa == SqNorm(a) && sb == SqNorm(b) && sc == SqNorm(c)
    requires u == Point(NumX(a, b, c, sa, sb, sc) / (2.0 * Half(a, b, c)), NumY(a, b, c, sa, sb, sc) / (2.0 * Half(a, b, c)))
    ensures SqDist(u, a) == SqDist(u, b)
  {
    CircumIdentityB(a, b, c, sa, sb, sc);
    OnBisector(a, b, u, Half(a, b, c), NumX(a, b, c, sa, sb, sc), NumY(a, b, c, sa, sb, sc), sa, sb);
  }

  /** ... and as far from c as from a. */
  lemma FormulaBisectsC(a: Point, b: Point, c: Point, u: Point, sa: real, sb: real, sc: real)
    requires Half(a, b, c) != 0.0
    requires sa == SqNorm(a) && sb == SqNorm(b) && sc == SqNorm(c)
    requires u == Point(NumX(a, b, c, sa, sb, sc) / (2.0 * Half(a, b, c)), NumY(a, b, c, sa, sb, sc) / (2.0 * Half(a, b, c)))
    ensures SqDist(u, a) == SqDist(u, c)
  {
    CircumIdentityC(a, b, c, sa, sb, sc);
    OnBisector(a, c, u, Half(a, b, c), NumX(a, b, c, sa, sb, sc), NumY(a, b, c, sa, sb, sc), sa, sc);
  }

  /**
   * Unless the vertices are (nearly) collinear, the circumcenter is equally far
   * from all three: in exact arithmetic it is the center of the circle through
   * them.
   */
  lemma CircumcenterEquidistant(t: DelaunayTriangle)
    requires Abs(2.0 * Half(t.a, t.b, t.c)) >= Eps
    ensures SqDist(t.Circumcenter(), t.a) == SqDist(t.Circumcenter(), t.b)
    ensures SqDist(t.Circumcenter(), t.a) == SqDist(t.Circumcenter(), t.c)
  {
    var a, b, c := t.a, t.b, t.c;
    var h := Half(a, b, c);
    var sa, sb, sc := SqNorm(a), SqNorm(b), SqNorm(c);
    var u := t.Circumcenter();
    assert u == Point(NumX(a, b, c, sa, sb, sc) / (2.0 * h), NumY(a, b, c, sa, sb, sc) / (2.0 * h));
    FormulaBisectsB(a, b, c, u, sa, sb, sc);
    FormulaBisectsC(a, b, c, u, sa, sb, sc);
  }

  /**
   * Unless the vertices are (nearly) collinear, the circumcircle holds all
   * three vertices, whatever sqrt returns.
   */
  lemma ContainsVertices(m: MathLib, t: DelaunayTriangle)
    requires Abs(2.0 * Half(t.a, t.b, t.c)) >= Eps
    ensures t.ContainsPoint(m, t.a) && t.ContainsPoint(m, t.b) && t.ContainsPoint(m, t.c)
  {
    CircumcenterEquidistant(t);
  }

  /** Under an exact sqrt a triangle never shares an edge with itself: all three vertices coincide. */
  lemma NoEdgeSharedWithItself(m: MathLib, t: DelaunayTriangle)
    requires ExactSqrt(m)
    ensures !t.SharesEdge(m, t)
  {
    NearSelf(m, t.a);
    NearSelf(m, t.b);
    NearSelf(m, t.c);
  }

  /**
   * Two triangles on either side of the edge a-b share it, as long as the
   * third vertex of the first is near none of the vertices of the second.
   */
  lemma SharesEdgeAcross(m: MathLib, a: Point, b: Point, c: Point, p: Point)
    requires ExactSqrt(m)
    requires !Near(m, c, a) && !Near(m, c, b) && !Near(m, c, p)
    ensures DelaunayTriangle(a, b, c).SharesEdge(m, DelaunayTriangle(b, a, p))
  {
    NearSelf(m, a);
    NearSelf(m, b);
  }

  /* ------------------------------------------------------------ the edge set */

  /** set::find: the index of the first edge that is one key with e, or |edges| when there is none. */
  function FindKey(edges: seq<Edge>, e: Edge): (i: nat)
    ensures i <= |edges|
    ensures i < |edges| ==> Equivalent(edges[i], e)
    ensures forall k :: 0 <= k < i ==> !Equivalent(edges[k], e)
  {
    if edges == [] then 0
    else if Equivalent(edges[0], e) then 0
    else
      var i := 1 + FindKey(edges[1..], e);
      assert forall k :: 1 <= k < i ==> edges[k] == edges[1..][k - 1];
      i
  }

  /** The position set::insert puts e at: before the first edge it is less than. */
  function InsertionPoint(edges: seq<Edge>, e: Edge): (j: nat)
    ensures j <= |edges|
    ensures j < |edges| ==> EdgeLess(e, edges[j])
    ensures forall k :: 0 <= k < j ==> !EdgeLess(e, edges[k])
  {
    if edges == [] then 0
    else if EdgeLess(e, edges[0]) then 0
    else
      var j := 1 + InsertionPoint(edges[1..], e);
      assert forall k :: 1 <= k < j ==> edges[k] == edges[1..][k - 1];
      j
  }

  /** set::insert of an edge the set does not hold a key for. */
  function Insert(edges: seq<Edge>, e: Edge): (r: seq<Edge>)
    ensures multiset(r) == multiset(edges) + multiset{e}
  {
    var j := InsertionPoint(edges, e);
    assert edges == edges[..j] + edges[j..];
    edges[..j] + [e] + edges[j..]
  }

  /** The toggle of the cavity loop: erase the key of e, and insert e when there was none. */
  function Toggle(edges: seq<Edge>, e: Edge): seq<Edge>
  {
    var i := FindKey(edges, e);
    if i < |edges| then edges[..i] + edges[i + 1..] else Insert(edges, e)
  }

  /** The edges es toggled one after the other, starting from the set edges. */
  function ToggleAll(edges: seq<Edge>, es: seq<Edge>): seq<Edge>
  {
    if es == [] then edges else Toggle(ToggleAll(edges, es[..|es| - 1]), es[|es| - 1])
  }

  /**
   * When the only key of e the set may hold is e itself, toggling e adds one
   * copy of e or removes one, and leaves every other edge as it was.
   */
  lemma ToggleCount(edges: seq<Edge>, e: Edge, f: Edge)
    requires forall g :: g in edges && Equivalent(g, e) ==> g == e
    ensures multiset(Toggle(edges, e))[f] ==
      if f != e then multiset(edges)[f]
      else if e in edges then multiset(edges)[e] - 1
      else multiset(edges)[e] + 1
  {
    var i := FindKey(edges, e);
    if i < |edges| {
      assert edges[i] == e;
      assert edges == edges[..i] + [e] + edges[i + 1..];
    } else {
      EquivalentReflexive(e);
      assert e !in edges;
    }
  }

  /** Toggling adds only the edges toggled. */
  lemma {:induction false} ToggleAllFrom(edges: seq<Edge>, es: seq<Edge>)
    ensures forall g :: g in ToggleAll(edges, es) ==> g in edges || g in es
  {
    if es != [] {
      var init := es[..|es| - 1];
      var e := es[|es| - 1];
      ToggleAllFrom(edges, init);
      var before := ToggleAll(edges, init);
      var i := FindKey(before, e);
      if i < |before| {
        assert before == before[..i] + [before[i]] + before[i + 1..];
      }
      forall g | g in ToggleAll(edges, es)
        ensures g in edges || g in es
      {
        assert g in multiset(Toggle(before, e));
        assert g in before || g == e;
      }
    }
  }

  /** No two different edges of the sequence are one key of the set. */
  ghost predicate Separated(es: seq<Edge>)
  {
    forall i, j :: 0 <= i < |es| && 0 <= j < |es| && Equivalent(es[i], es[j]) ==> es[i] == es[j]
  }

  /**
   * Toggling a separated sequence of edges into an empty set leaves exactly
   * the edges seen an odd number of times, once each: an edge toggled twice
   * cancels.
   */
  lemma {:induction false} ToggleAllParity(es: seq<Edge>)
    requires Separated(es)
    ensures forall f :: multiset(ToggleAll([], es))[f] == multiset(es)[f] % 2
  {
    if es != [] {
      var init := es[..|es| - 1];
      var e := es[|es| - 1];
      assert Separated(init) by {
        forall i, j | 0 <= i < |init| && 0 <= j < |init| && Equivalent(init[i], init[j])
          ensures init[i] == init[j]
        {
          assert init[i] == es[i] && init[j] == es[j];
        }
      }
      ToggleAllParity(init);
      ToggleAllFrom([], init);
      var before := ToggleAll([], init);
      forall g | g in before && Equivalent(g, e)
        ensures g == e
      {
        var i :| 0 <= i < |init| && init[i] == g;
        assert es[i] == g;
      }
      assert es == init + [e];
      ParityStep(before, init, e);
    }
  }

  /** One step of ToggleAllParity: toggling e into a set holding the odd edges of init. */
  lemma ParityStep(before: seq<Edge>, init: seq<Edge>, e: Edge)
    requires forall f :: multiset(before)[f] == multiset(init)[f] % 2
    requires forall g :: g in before && Equivalent(g, e) ==> g == e
    ensures forall f :: multiset(Toggle(before, e))[f] == multiset(init + [e])[f] % 2
  {
    forall f
      ensures multiset(Toggle(before, e))[f] == multiset(init + [e])[f] % 2
    {
      ParityAt(before, init, e, f);
    }
  }

  /** ParityStep at one edge f. */
  lemma ParityAt(before: seq<Edge>, init: seq<Edge>, e: Edge, f: Edge)
    requires multiset(before)[f] == multiset(init)[f] % 2
    requires multiset(before)[e] == multiset(init)[e] % 2
    requires forall g :: g in before && Equivalent(g, e) ==> g == e
    ensures multiset(Toggle(before, e))[f] == multiset(init + [e])[f] % 2
  {
    ToggleCount(before, e, f);
    assert multiset(init + [e]) == multiset(init) + multiset{e};
    assert e in before <==> multiset(before)[e] > 0;
  }

  /* --------------------------------------------------------------- the cavity */

  /** The bad triangles of one insertion and the boundary edge set their edges toggle into. */
  datatype Cavity = Cavity(bad: seq<DelaunayTriangle>, boundary: seq<Edge>)

  /**
   * The loop over the triangles for one point: each triangle whose
   * circumcircle holds the point is bad, and its three edges are toggled. The
   * bad triangles are exactly the triangles holding the point, in order.
   */
  function CavityOf(m: MathLib, triangles: seq<DelaunayTriangle>, point: Point): (r: Cavity)
    ensures forall t :: t in r.bad ==> t in triangles && t.ContainsPoint(m, point)
    ensures forall t :: t in triangles && t.ContainsPoint(m, point) ==> t in r.bad
  {
    if triangles == [] then Cavity([], [])
    else
      var init := triangles[..|triangles| - 1];
      var t := triangles[|triangles| - 1];
      var before := CavityOf(m, init, point);
      assert triangles == init + [t];
      if t.ContainsPoint(m, point) then Cavity(before.bad + [t], ToggleAll(before.boundary, t.Edges()))
      else before
  }

  /** The edges of the triangles, three by three, in order. */
  function EdgesOf(triangles: seq<DelaunayTriangle>): (r: seq<Edge>)
    ensures |r| == 3 * |triangles|
  {
    if triangles == [] then [] else EdgesOf(triangles[..|triangles| - 1]) + triangles[|triangles| - 1].Edges()
  }

  /** Toggling a + b is toggling a, then b. */
  lemma {:induction false} ToggleAllAppend(edges: seq<Edge>, a: seq<Edge>, b: seq<Edge>)
    ensures ToggleAll(edges, a + b) == ToggleAll(ToggleAll(edges, a), b)
  {
    if b == [] {
      assert a + b == a;
    } else {
      ToggleAllAppend(edges, a, b[..|b| - 1]);
      assert (a + b)[..|a + b| - 1] == a + b[..|b| - 1];
    }
  }

  /** The boundary is the edges of the bad triangles toggled one by one into an empty set. */
  lemma {:induction false} CavityBoundary(m: MathLib, triangles: seq<DelaunayTriangle>, point: Point)
    ensures CavityOf(m, triangles, point).boundary == ToggleAll([], EdgesOf(CavityOf(m, triangles, point).bad))
  {
    if triangles != [] {
      var init := triangles[..|triangles| - 1];
      var t := triangles[|triangles| - 1];
      CavityBoundary(m, init, point);
      if t.ContainsPoint(m, point) {
        var bad := CavityOf(m, init, point).bad;
        assert (bad + [t])[..|bad + [t]| - 1] == bad;
        ToggleAllAppend([], EdgesOf(bad), t.Edges());
      }
    }
  }

  /**
   * Unless two different edges of the bad triangles are one key of the set,
   * the cavity's boundary holds, once each, exactly the edges of the bad
   * triangles that occur an odd number of times: an edge two bad triangles
   * share cancels, and the edges that border a good triangle stay.
   */
  lemma CavityBoundaryParity(m: MathLib, triangles: seq<DelaunayTriangle>, point: Point)
    requires Separated(EdgesOf(CavityOf(m, triangles, point).bad))
    ensures forall f ::
      multiset(CavityOf(m, triangles, point).boundary)[f] == multiset(EdgesOf(CavityOf(m, triangles, point).bad))[f] % 2
  {
    CavityBoundary(m, triangles, point);
    ToggleAllParity(EdgesOf(CavityOf(m, triangles, point).bad));
  }

  /* ---------------------------------------------------- removal and addition */

  /** The comparison of erase_if: the three vertices near, in order. */
  predicate SameTriangle(m: MathLib, t: DelaunayTriangle, u: DelaunayTriangle)
  {
    Near(m, t.a, u.a) && Near(m, t.b, u.b) && Near(m, t.c, u.c)
  }

  /** std::ranges::any_of over the bad triangles. */
  predicate MatchesAny(m: MathLib, t: DelaunayTriangle, bad: seq<DelaunayTriangle>)
  {
    exists k :: 0 <= k < |bad| && SameTriangle(m, t, bad[k])
  }

  /** std::erase_if: the triangles that match no bad one, in their order. */
  function EraseMatching(m: MathLib, triangles: seq<DelaunayTriangle>, bad: seq<DelaunayTriangle>): (r: seq<DelaunayTriangle>)
    ensures forall t :: t in r <==> t in triangles && !MatchesAny(m, t, bad)
  {
    if triangles == [] then []
    else
      var init := triangles[..|triangles| - 1];
      var t := triangles[|triangles| - 1];
      assert triangles == init + [t];
      if MatchesAny(m, t, bad) then EraseMatching(m, init, bad) else EraseMatching(m, init, bad) + [t]
  }

  /** The triangles joining each boundary edge to the new point, in the order of the set. */
  function NewTriangles(boundary: seq<Edge>, point: Point): (r: seq<DelaunayTriangle>)
    ensures |r| == |boundary|
    ensures forall k :: 0 <= k < |r| ==> r[k] == DelaunayTriangle(boundary[k].p1, boundary[k].p2, point)
  {
    seq(|boundary|, k requires 0 <= k < |boundary| => DelaunayTriangle(boundary[k].p1, boundary[k].p2, point))
  }

  /** The triangles after one point is inserted. */
  function InsertPoint(m: MathLib, triangles: seq<DelaunayTriangle>, point: Point): seq<DelaunayTriangle>
  {
    var cavity := CavityOf(m, triangles, point);
    EraseMatching(m, triangles, cavity.bad) + NewTriangles(cavity.boundary, point)
  }

  /**
   * After inserting a point, a triangle either was there before and (under an
   * exact sqrt) does not hold the point in its circumcircle, or is new: an
   * edge of a bad triangle joined to the point, which is its third vertex.
   */
  lemma InsertPointResult(m: MathLib, triangles: seq<DelaunayTriangle>, point: Point)
    requires ExactSqrt(m)
    ensures forall t :: t in InsertPoint(m, triangles, point) ==>
      (t in triangles && !t.ContainsPoint(m, point)) ||
      (t.c == point && Edge(t.a, t.b) in EdgesOf(CavityOf(m, triangles, point).bad))
  {
    var cavity := CavityOf(m, triangles, point);
    KeptAreGood(m, triangles, cavity.bad, point);
    AddedJoinPoint(m, triangles, point);
  }

  /** Under an exact sqrt, erasing the bad triangles leaves none that holds the point. */
  lemma KeptAreGood(m: MathLib, triangles: seq<DelaunayTriangle>, bad: seq<DelaunayTriangle>, point: Point)
    requires ExactSqrt(m)
    requires forall t :: t in triangles && t.ContainsPoint(m, point) ==> t in bad
    ensures forall t :: t in EraseMatching(m, triangles, bad) ==> t in triangles && !t.ContainsPoint(m, point)
  {
    forall t | t in triangles && t.ContainsPoint(m, point)
      ensures MatchesAny(m, t, bad)
    {
      MatchesItself(m, t, bad);
    }
  }

  /** Under an exact sqrt a bad triangle matches itself, so erase_if removes it. */
  lemma MatchesItself(m: MathLib, t: DelaunayTriangle, bad: seq<DelaunayTriangle>)
    requires ExactSqrt(m) && t in bad
    ensures MatchesAny(m, t, bad)
  {
    var k :| 0 <= k < |bad| && bad[k] == t;
    NearSelf(m, t.a);
    NearSelf(m, t.b);
    NearSelf(m, t.c);
    assert SameTriangle(m, t, bad[k]);
  }

  /** Every new triangle is an edge of a bad triangle joined to the point. */
  lemma AddedJoinPoint(m: MathLib, triangles: seq<DelaunayTriangle>, point: Point)
    ensures forall t :: t in NewTriangles(CavityOf(m, triangles, point).boundary, point) ==>
      t.c == point && Edge(t.a, t.b) in EdgesOf(CavityOf(m, triangles, point).bad)
  {
    var cavity := CavityOf(m, triangles, point);
    var added := NewTriangles(cavity.boundary, point);
    CavityBoundary(m, triangles, point);
    ToggleAllFrom([], EdgesOf(cavity.bad));
    forall t | t in added
      ensures t.c == point && Edge(t.a, t.b) in EdgesOf(cavity.bad)
    {
      var k :| 0 <= k < |added| && added[k] == t;
      assert cavity.boundary[k] in cavity.boundary;
    }
  }

  /* --------------------------------------------------------- super triangle */

  /** The larger of the input's width and height (dmax). */
  function Spread(points: seq<Point>): real
    requires points != []
  {
    var box := Extent(points);
    Max(box.maxX - box.minX, box.maxY - box.minY)
  }

  /**
   * The super triangle: around the center of the input's extent (its x and y
   * coordinates' minmax), 20 dmax to either side and dmax below, and 20 dmax
   * above.
   */
  function SuperTriangle(points: seq<Point>): DelaunayTriangle
    requires points != []
  {
    var box := Extent(points);
    var dmax := Spread(points);
    var center := Point((box.minX + box.maxX) / 2.0, (box.minY + box.maxY) / 2.0);
    DelaunayTriangle(
      Point(center.x - 20.0 * dmax, center.y - dmax),
      Point(center.x, center.y + 20.0 * dmax),
      Point(center.x + 20.0 * dmax, center.y - dmax))
  }

  /** p lies strictly to the right of every edge of t, in the clockwise order a, b, c. */
  predicate StrictlyInside(t: DelaunayTriangle, p: Point)
  {
    t.b.Sub(t.a).Cross(p.Sub(t.a)) < 0.0 &&
    t.c.Sub(t.b).Cross(p.Sub(t.b)) < 0.0 &&
    t.a.Sub(t.c).Cross(p.Sub(t.c)) < 0.0
  }

  /** An edge's cross product with p that is a positive times a negative number puts p strictly to its right. */
  lemma RightOfEdge(a: Point, b: Point, p: Point, d: real, l: real)
    requires b.Sub(a).Cross(p.Sub(a)) == d * l
    requires 0.0 < d && l < 0.0
    ensures b.Sub(a).Cross(p.Sub(a)) < 0.0
  {
    ProductPositive(d, -l);
  }

  /**
   * The cross products of the super triangle's edges with a point at offset
   * (u, v) from the center, each a multiple of dmax.
   */
  lemma SuperCrosses(cx: real, cy: real, d: real, u: real, v: real)
    ensures Point(cx, cy + 20.0 * d).Sub(Point(cx - 20.0 * d, cy - d)).Cross(Point(cx + u, cy + v).Sub(Point(cx - 20.0 * d, cy - d)))
      == d * (20.0 * v - 21.0 * u - 400.0 * d)
    ensures Point(cx + 20.0 * d, cy - d).Sub(Point(cx, cy + 20.0 * d)).Cross(Point(cx + u, cy + v).Sub(Point(cx, cy + 20.0 * d)))
      == d * (20.0 * v + 21.0 * u - 400.0 * d)
    ensures Point(cx - 20.0 * d, cy - d).Sub(Point(cx + 20.0 * d, cy - d)).Cross(Point(cx + u, cy + v).Sub(Point(cx + 20.0 * d, cy - d)))
      == d * (-40.0 * v - 40.0 * d)
  {
  }

  /** A point within dmax / 2 of the center on both axes is strictly inside the super triangle. */
  lemma InsideAtOffset(cx: real, cy: real, d: real, u: real, v: real)
    requires 0.0 < d && -d / 2.0 <= u <= d / 2.0 && -d / 2.0 <= v <= d / 2.0
    ensures StrictlyInside(DelaunayTriangle(Point(cx - 20.0 * d, cy - d), Point(cx, cy + 20.0 * d), Point(cx + 20.0 * d, cy - d)),
                           Point(cx + u, cy + v))
  {
    SuperCrosses(cx, cy, d, u, v);
    var s1, s2, s3, p := Point(cx - 20.0 * d, cy - d), Point(cx, cy + 20.0 * d), Point(cx + 20.0 * d, cy - d), Point(cx + u, cy + v);
    RightOfEdge(s1, s2, p, d, 20.0 * v - 21.0 * u - 400.0 * d);
    RightOfEdge(s2, s3, p, d, 20.0 * v + 21.0 * u - 400.0 * d);
    RightOfEdge(s3, s1, p, d, -40.0 * v - 40.0 * d);
  }

  /** Every input point lies within dmax / 2 of the extent's center on both axes. */
  lemma NearCenter(points: seq<Point>, k: nat)
    requires k < |points|
    ensures var box := Extent(points);
      -Spread(points) / 2.0 <= points[k].x - (box.minX + box.maxX) / 2.0 <= Spread(points) / 2.0 &&
      -Spread(points) / 2.0 <= points[k].y - (box.minY + box.maxY) / 2.0 <= Spread(points) / 2.0
  {
    ExtentIsTight(points);
    assert Extent(points).Contains(points[k]);
  }

  /**
   * Unless every input point is the same, each input point lies strictly
   * inside the super triangle.
   */
  lemma SuperTriangleEncloses(points: seq<Point>, k: nat)
    requires k < |points| && Spread(points) > 0.0
    ensures StrictlyInside(SuperTriangle(points), points[k])
  {
    var box := Extent(points);
    var cx, cy := (box.minX + box.maxX) / 2.0, (box.minY + box.maxY) / 2.0;
    NearCenter(points, k);
    InsideAtOffset(cx, cy, Spread(points), points[k].x - cx, points[k].y - cy);
    assert points[k] == Point(cx + (points[k].x - cx), cy + (points[k].y - cy));
  }

  /** is_super_triangle_vertex, for each vertex of t. */
  predicate TouchesSuper(m: MathLib, t: DelaunayTriangle, super: DelaunayTriangle)
  {
    NearVertex(m, t.a, super) || NearVertex(m, t.b, super) || NearVertex(m, t.c, super)
  }

  /** The final std::erase_if: the triangles with no vertex near a super-triangle vertex, in their order. */
  function DropSuper(m: MathLib, triangles: seq<DelaunayTriangle>, super: DelaunayTriangle): (r: seq<DelaunayTriangle>)
    ensures forall t :: t in r <==> t in triangles && !TouchesSuper(m, t, super)
  {
    if triangles == [] then []
    else
      var init := triangles[..|triangles| - 1];
      var t := triangles[|triangles| - 1];
      assert triangles == init + [t];
      if TouchesSuper(m, t, super) then DropSuper(m, init, super) else DropSuper(m, init, super) + [t]
  }

  /** The triangles after the points are inserted one by one, in order. */
  function InsertAll(m: MathLib, triangles: seq<DelaunayTriangle>, points: seq<Point>): seq<DelaunayTriangle>
  {
    if points == [] then triangles
    else InsertPoint(m, InsertAll(m, triangles, points[..|points| - 1]), points[|points| - 1])
  }

  /**
   * The result of DelaunayTriangulation: the error for fewer than three
   * points, and otherwise the triangles left once every point is inserted into
   * the super triangle and the triangles touching it are dropped.
   */
  function Triangulate(m: MathLib, points: seq<Point>): (r: Result<seq<DelaunayTriangle>, string>)
    ensures r.Failure? <==> |points| < 3
    ensures r.Failure? ==> r.error == TooFewPoints
    ensures r.Success? ==> forall t :: t in r.value ==> !TouchesSuper(m, t, SuperTriangle(points))
  {
    if |points| < 3 then Failure(TooFewPoints)
    else
      var super := SuperTriangle(points);
      Success(DropSuper(m, InsertAll(m, [super], points), super))
  }

  /* ------------------------------------------------------------ the methods */

  /** The cavity of one more triangle: the cavity so far, extended when the triangle holds the point. */
  lemma CavityStep(m: MathLib, triangles: seq<DelaunayTriangle>, i: nat, point: Point)
    requires i < |triangles|
    ensures CavityOf(m, triangles[..i + 1], point) ==
      var before := CavityOf(m, triangles[..i], point);
      if triangles[i].ContainsPoint(m, point) then Cavity(before.bad + [triangles[i]], ToggleAll(before.boundary, triangles[i].Edges()))
      else before
  {
    assert triangles[..i + 1][..i] == triangles[..i];
  }

  /** The inner loop over a triangle's edges: erase each edge from the polygon or, when absent, insert it. */
  method ToggleEdges(polygon: seq<Edge>, edges: seq<Edge>) returns (r: seq<Edge>)
    ensures r == ToggleAll(polygon, edges)
  {
    r := polygon;
    for j := 0 to |edges|
      invariant r == ToggleAll(polygon, edges[..j])
    {
      assert edges[..j + 1][..j] == edges[..j];
      r := Toggle(r, edges[j]);
    }
    assert edges[..|edges|] == edges;
  }

  /**
   * One pass over the triangles for a new point: each triangle whose
   * circumcircle holds the point joins bad, and each of its three edges is
   * erased from the boundary polygon or, when absent, inserted.
   */
  method FindCavity(m: MathLib, triangles: seq<DelaunayTriangle>, point: Point) returns (bad: seq<DelaunayTriangle>, polygon: seq<Edge>)
    ensures Cavity(bad, polygon) == CavityOf(m, triangles, point)
  {
    bad, polygon := [], [];
    for i := 0 to |triangles|
      invariant Cavity(bad, polygon) == CavityOf(m, triangles[..i], point)
    {
      var t := triangles[i];
      CavityStep(m, triangles, i, point);
      if t.ContainsPoint(m, point) {
        bad := bad + [t];
        polygon := ToggleEdges(polygon, [MakeEdge(t.a, t.b), MakeEdge(t.b, t.c), MakeEdge(t.c, t.a)]);
      }
    }
    assert triangles[..|triangles|] == triangles;
  }

  /**
   * Inserting one point: the cavity's triangles are erased, then one triangle
   * per boundary edge is appended, joining the edge to the point.
   */
  method InsertOne(m: MathLib, triangles: seq<DelaunayTriangle>, point: Point) returns (r: seq<DelaunayTriangle>)
    ensures r == InsertPoint(m, triangles, point)
  {
    var bad, polygon := FindCavity(m, triangles, point);
    r := EraseMatching(m, triangles, bad);
    ghost var kept := r;
    for j := 0 to |polygon|
      invariant r == kept + NewTriangles(polygon[..j], point)
    {
      assert NewTriangles(polygon[..j + 1], point) == NewTriangles(polygon[..j], point) + [DelaunayTriangle(polygon[j].p1, polygon[j].p2, point)];
      r := r + [DelaunayTriangle(polygon[j].p1, polygon[j].p2, point)];
    }
    assert polygon[..|polygon|] == polygon;
  }

  /**
   * Bowyer-Watson: the error for fewer than three points; otherwise start
   * from the super triangle, insert the points in order, and drop every
   * triangle with a vertex near a super-triangle vertex.
   */
  method DelaunayTriangulation(m: MathLib, points: seq<Point>) returns (r: Result<seq<DelaunayTriangle>, string>)
    ensures r == Triangulate(m, points)
    ensures r.Failure? <==> |points| < 3
    ensures r.Success? ==> forall t :: t in r.value ==> !TouchesSuper(m, t, SuperTriangle(points))
  {
    if |points| < 3 {
      return Failure(TooFewPoints);
    }
    var super := SuperTriangle(points);
    var triangles := [super];
    for i := 0 to |points|
      invariant triangles == InsertAll(m, [super], points[..i])
    {
      assert points[..i + 1][..i] == points[..i];
      triangles := InsertOne(m, triangles, points[i]);
    }
    assert points[..|points|] == points;
    r := Success(DropSuper(m, triangles, super));
  }
}
