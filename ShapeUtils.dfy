/**
 * The two queries over a list of shapes in src/shape_utils.cpp: every pair
 * of shapes whose bounding boxes overlap, and the index of the highest shape.
 */
module ShapeUtils {

  import opened Wrappers
  import opened Geometry
  import opened Queries

  /* -------------------------------------------------------------- collisions */

  /** A pair of indices into the list of shapes. */
  type IndexPair = (nat, nat)

  /** The order in which the pairs are visited: by first index, then by second. */
  predicate Before(p: IndexPair, q: IndexPair)
  {
    p.0 < q.0 || (p.0 == q.0 && p.1 < q.1)
  }

  /** Each pair comes strictly before every later one. */
  predicate Increasing(ps: seq<IndexPair>)
  {
    forall k, l :: 0 <= k < l < |ps| ==> Before(ps[k], ps[l])
  }

  /** The colliding pairs (i, j) of one row, for j from i + 1 up to `to`. */
  function RowPairs(shapes: seq<Shape>, i: nat, to: nat): (r: seq<IndexPair>)
    requires i < |shapes| && to <= |shapes|
    ensures forall k :: 0 <= k < |r| ==> r[k].0 == i && i < r[k].1 < to
  {
    if to <= i + 1 then []
    else
      RowPairs(shapes, i, to - 1) + (if BoundingBoxesOverlap(shapes[i], shapes[to - 1]) then [(i, to - 1)] else [])
  }

  /** The colliding pairs whose first index is at least `from`, row by row. */
  function PairsFrom(shapes: seq<Shape>, from: nat): (r: seq<IndexPair>)
    requires from <= |shapes|
    ensures forall k :: 0 <= k < |r| ==> from <= r[k].0 < r[k].1 < |shapes|
    decreases |shapes| - from
  {
    if from == |shapes| then [] else RowPairs(shapes, from, |shapes|) + PairsFrom(shapes, from + 1)
  }

  /** The index pairs FindAllCollisions visits and keeps, in the order it keeps them. */
  function CollidingPairs(shapes: seq<Shape>): (r: seq<IndexPair>)
    ensures forall k :: 0 <= k < |r| ==> r[k].0 < r[k].1 < |shapes|
  {
    if |shapes| < 2 then [] else PairsFrom(shapes, 0)
  }

  /** The shape pairs at the given index pairs. */
  ghost predicate Produces(shapes: seq<Shape>, pairs: seq<IndexPair>, found: seq<(Shape, Shape)>)
  {
    |found| == |pairs| &&
    forall k :: 0 <= k < |pairs| ==>
      pairs[k].0 < |shapes| && pairs[k].1 < |shapes| && found[k] == (shapes[pairs[k].0], shapes[pairs[k].1])
  }

  /** What FindAllCollisions returns: the shapes at each colliding index pair. */
  function Collisions(shapes: seq<Shape>): (r: seq<(Shape, Shape)>)
    ensures Produces(shapes, CollidingPairs(shapes), r)
  {
    var pairs := CollidingPairs(shapes);
    seq(|pairs|, k requires 0 <= k < |pairs| => (shapes[pairs[k].0], shapes[pairs[k].1]))
  }

  /** Keeping one more pair of shapes along with its indices. */
  lemma ProducesAppend(shapes: seq<Shape>, pairs: seq<IndexPair>, found: seq<(Shape, Shape)>, i: nat, j: nat)
    requires Produces(shapes, pairs, found) && i < |shapes| && j < |shapes|
    ensures Produces(shapes, pairs + [(i, j)], found + [(shapes[i], shapes[j])])
  {
  }

  /** The shape pairs at given index pairs are determined by them. */
  lemma ProducesUnique(shapes: seq<Shape>, pairs: seq<IndexPair>, a: seq<(Shape, Shape)>, b: seq<(Shape, Shape)>)
    requires Produces(shapes, pairs, a) && Produces(shapes, pairs, b)
    ensures a == b
  {
  }

  /** Keeping the pairs of a whole row after those kept so far. */
  lemma ProducesConcat(shapes: seq<Shape>, pairs: seq<IndexPair>, found: seq<(Shape, Shape)>,
                       more: seq<IndexPair>, moreFound: seq<(Shape, Shape)>)
    requires Produces(shapes, pairs, found) && Produces(shapes, more, moreFound)
    ensures Produces(shapes, pairs + more, found + moreFound)
  {
  }

  /** The inner loop of FindAllCollisions: the colliding pairs (i, j) for j > i, in order of j. */
  method CollideRow(shapes: seq<Shape>, i: nat) returns (row: seq<(Shape, Shape)>)
    requires i < |shapes|
    ensures Produces(shapes, RowPairs(shapes, i, |shapes|), row)
  {
    row := [];
    var j := i + 1;
    while j < |shapes|
      invariant i + 1 <= j <= |shapes|
      invariant Produces(shapes, RowPairs(shapes, i, j), row)
    {
      if BoundingBoxesOverlap(shapes[i], shapes[j]) {
        ProducesAppend(shapes, RowPairs(shapes, i, j), row, i, j);
        row := row + [(shapes[i], shapes[j])];
      } else {
        assert RowPairs(shapes, i, j + 1) == RowPairs(shapes, i, j) + [];
      }
      j := j + 1;
    }
  }

  /** FindAllCollisions, with the two loops over i < j. */
  method FindAllCollisions(shapes: seq<Shape>) returns (collisions: seq<(Shape, Shape)>)
    ensures collisions == Collisions(shapes)
  {
    collisions := [];
    if |shapes| < 2 {
      return;
    }
    ghost var pairs: seq<IndexPair> := [];
    for i := 0 to |shapes|
      invariant Produces(shapes, pairs, collisions)
      invariant pairs + PairsFrom(shapes, i) == CollidingPairs(shapes)
    {
      var row := CollideRow(shapes, i);
      ProducesConcat(shapes, pairs, collisions, RowPairs(shapes, i, |shapes|), row);
      MoveHead(pairs, PairsFrom(shapes, i), RowPairs(shapes, i, |shapes|), PairsFrom(shapes, i + 1), CollidingPairs(shapes));
      collisions := collisions + row;
      pairs := pairs + RowPairs(shapes, i, |shapes|);
    }
    assert pairs + [] == pairs;
    ProducesUnique(shapes, pairs, collisions, Collisions(shapes));
  }

  /** A pair is in one row exactly when its second index is in range and the boxes overlap. */
  lemma {:induction false} RowPairsMembership(shapes: seq<Shape>, i: nat, to: nat, p: IndexPair)
    requires i < |shapes| && to <= |shapes|
    ensures p in RowPairs(shapes, i, to) <==>
              p.0 == i && i < p.1 < to && BoundingBoxesOverlap(shapes[i], shapes[p.1])
  {
    if to > i + 1 {
      RowPairsMembership(shapes, i, to - 1, p);
    }
  }

  /** Within a row the second indices increase. */
  lemma {:induction false} RowPairsIncreasing(shapes: seq<Shape>, i: nat, to: nat)
    requires i < |shapes| && to <= |shapes|
    ensures Increasing(RowPairs(shapes, i, to))
  {
    if to > i + 1 {
      RowPairsIncreasing(shapes, i, to - 1);
      if BoundingBoxesOverlap(shapes[i], shapes[to - 1]) {
        AppendIncreasing(RowPairs(shapes, i, to - 1), (i, to - 1));
      } else {
        assert RowPairs(shapes, i, to) == RowPairs(shapes, i, to - 1) + [];
      }
    }
  }

  /** A pair later than every pair of an increasing run extends it. */
  lemma AppendIncreasing(a: seq<IndexPair>, p: IndexPair)
    requires Increasing(a)
    requires forall k :: 0 <= k < |a| ==> Before(a[k], p)
    ensures Increasing(a + [p])
  {
  }

  /** A pair is visited from row `from` on exactly when it is an overlapping i < j pair there. */
  lemma {:induction false} PairsFromMembership(shapes: seq<Shape>, from: nat, p: IndexPair)
    requires from <= |shapes|
    ensures p in PairsFrom(shapes, from) <==>
              from <= p.0 < p.1 < |shapes| && BoundingBoxesOverlap(shapes[p.0], shapes[p.1])
    decreases |shapes| - from
  {
    if from < |shapes| {
      PairsFromMembership(shapes, from + 1, p);
      RowPairsMembership(shapes, from, |shapes|, p);
    }
  }

  /** Rows follow one another in order of their first index. */
  lemma {:induction false} PairsFromIncreasing(shapes: seq<Shape>, from: nat)
    requires from <= |shapes|
    ensures Increasing(PairsFrom(shapes, from))
    decreases |shapes| - from
  {
    if from < |shapes| {
      PairsFromIncreasing(shapes, from + 1);
      RowPairsIncreasing(shapes, from, |shapes|);
      ConcatIncreasing(RowPairs(shapes, from, |shapes|), PairsFrom(shapes, from + 1));
    }
  }

  /** Two increasing runs, the first wholly before the second, make one. */
  lemma ConcatIncreasing(a: seq<IndexPair>, b: seq<IndexPair>)
    requires Increasing(a) && Increasing(b)
    requires forall k, l :: 0 <= k < |a| && 0 <= l < |b| ==> Before(a[k], b[l])
    ensures Increasing(a + b)
  {
    forall k, l | 0 <= k < l < |a + b|
      ensures Before((a + b)[k], (a + b)[l])
    {
      if l < |a| {
      } else if k < |a| {
        assert (a + b)[l] == b[l - |a|];
      } else {
        assert (a + b)[k] == b[k - |a|] && (a + b)[l] == b[l - |a|];
      }
    }
  }

  /** Exactly the pairs i < j whose boxes overlap are kept; none for fewer than two shapes. */
  lemma CollidingPairsMembership(shapes: seq<Shape>, i: nat, j: nat)
    ensures (i, j) in CollidingPairs(shapes) <==>
              i < j < |shapes| && BoundingBoxesOverlap(shapes[i], shapes[j])
  {
    if |shapes| >= 2 {
      PairsFromMembership(shapes, 0, (i, j));
    }
  }

  /** The pairs come ordered by i, then by j, and each at most once. */
  lemma CollidingPairsIncreasing(shapes: seq<Shape>)
    ensures Increasing(CollidingPairs(shapes))
  {
    if |shapes| >= 2 {
      PairsFromIncreasing(shapes, 0);
    }
  }

  /** A pair of shapes is reported exactly when it sits at some i < j whose boxes overlap. */
  lemma CollisionsMembership(shapes: seq<Shape>, a: Shape, b: Shape)
    ensures (a, b) in Collisions(shapes) <==>
              exists i: nat, j: nat :: i < j < |shapes| && shapes[i] == a && shapes[j] == b && BoundingBoxesOverlap(a, b)
  {
    var pairs := CollidingPairs(shapes);
    var found := Collisions(shapes);
    if (a, b) in found {
      var k :| 0 <= k < |found| && found[k] == (a, b);
      CollidingPairsMembership(shapes, pairs[k].0, pairs[k].1);
    }
    if exists i: nat, j: nat :: i < j < |shapes| && shapes[i] == a && shapes[j] == b && BoundingBoxesOverlap(a, b) {
      var i: nat, j: nat :| i < j < |shapes| && shapes[i] == a && shapes[j] == b && BoundingBoxesOverlap(a, b);
      CollidingPairsMembership(shapes, i, j);
      var k :| 0 <= k < |pairs| && pairs[k] == (i, j);
      assert found[k] == (a, b);
    }
  }

  /* ------------------------------------------------------------ highest shape */

  /**
   * std::ranges::max_element over the indices from `from` on, with `largest`
   * the best so far: it moves only to a strictly higher shape, so ties keep
   * the earlier index.
   */
  function MaxElement(shapes: seq<Shape>, from: nat, largest: nat): (r: nat)
    requires largest < from <= |shapes|
    requires forall k :: 0 <= k < from ==> GetHeight(shapes[k]) <= GetHeight(shapes[largest])
    requires forall k :: 0 <= k < largest ==> GetHeight(shapes[k]) < GetHeight(shapes[largest])
    ensures r < |shapes|
    ensures forall k :: 0 <= k < |shapes| ==> GetHeight(shapes[k]) <= GetHeight(shapes[r])
    ensures forall k :: 0 <= k < r ==> GetHeight(shapes[k]) < GetHeight(shapes[r])
    decreases |shapes| - from
  {
    if from == |shapes| then largest
    else if GetHeight(shapes[largest]) < GetHeight(shapes[from]) then MaxElement(shapes, from + 1, from)
    else MaxElement(shapes, from + 1, largest)
  }

  /** FindHighestShape: none for no shapes, otherwise the first index of greatest height. */
  function FindHighestShape(shapes: seq<Shape>): (r: Option<nat>)
    ensures r.None? <==> |shapes| == 0
    ensures r.Some? ==> r.value < |shapes|
    ensures r.Some? ==> forall k :: 0 <= k < |shapes| ==> GetHeight(shapes[k]) <= GetHeight(shapes[r.value])
    ensures r.Some? ==> forall k :: 0 <= k < r.value ==> GetHeight(shapes[k]) < GetHeight(shapes[r.value])
  {
    if |shapes| == 0 then None else Some(MaxElement(shapes, 1, 0))
  }

  /** The first index of greatest height is the one FindHighestShape returns. */
  lemma HighestIsFirstMaximum(shapes: seq<Shape>, i: nat)
    requires i < |shapes|
    requires forall k :: 0 <= k < |shapes| ==> GetHeight(shapes[k]) <= GetHeight(shapes[i])
    requires forall k :: 0 <= k < i ==> GetHeight(shapes[k]) < GetHeight(shapes[i])
    ensures FindHighestShape(shapes) == Some(i)
  {
    var r := FindHighestShape(shapes).value;
    assert GetHeight(shapes[r]) <= GetHeight(shapes[i]) && GetHeight(shapes[i]) <= GetHeight(shapes[r]);
  }
}
