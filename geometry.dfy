/**
  Value types of the triangulation: points with integer coordinates,
  undirected segments, and triangles whose three vertices keep the order in
  which they were created.
 */
module Geometry {

  /** A point of the canvas (struct Coords). Equality is exact. */
  datatype Coords = Coords(x: int, y: int)

  /** Coords::operator!= : true exactly when the two points are not equal. */
  function CoordsDiffer(a: Coords, b: Coords): (r: bool)
    ensures r <==> a != b
  {
    a.x != b.x || a.y != b.y
  }

  /** A segment between two points (struct Segment). The datatype keeps the
      order of the endpoints; SegmentEq is the source's equality, which ignores it. */
  datatype Segment = Segment(p1: Coords, p2: Coords)

  /** Segment::operator== : two segments are equal when they have the same
      endpoints in the same or in the swapped order. */
  predicate SegmentEq(a: Segment, b: Segment) {
    (a.p1 == b.p1 && a.p2 == b.p2) || (a.p1 == b.p2 && a.p2 == b.p1)
  }

  /** Segment equality is equality of the endpoint multisets: the direction
      of a segment plays no part. */
  lemma SegmentEqIsSameEndpoints(a: Segment, b: Segment)
    ensures SegmentEq(a, b) <==> multiset{a.p1, a.p2} == multiset{b.p1, b.p2}
  {
    var m, n := multiset{a.p1, a.p2}, multiset{b.p1, b.p2};
    if m == n {
      assert a.p1 in n && a.p2 in n;
    }
  }

  /** Segment::operator!= : written out separately in the source, it is
      exactly the negation of operator==. */
  function SegmentDiffer(a: Segment, b: Segment): (r: bool)
    ensures r == !SegmentEq(a, b)
  {
    (CoordsDiffer(a.p1, b.p1) || CoordsDiffer(a.p2, b.p2))
    && (CoordsDiffer(a.p1, b.p2) || CoordsDiffer(a.p2, b.p1))
  }

  /** A segment equals its own reversal, and segment equality is an
      equivalence relation (the cavity bookkeeping depends on both). */
  lemma SegmentEqIsEquivalence(a: Segment, b: Segment, c: Segment)
    ensures SegmentEq(Segment(a.p1, a.p2), Segment(a.p2, a.p1))
    ensures SegmentEq(a, a)
    ensures SegmentEq(a, b) ==> SegmentEq(b, a)
    ensures SegmentEq(a, b) && SegmentEq(b, c) ==> SegmentEq(a, c)
  {
  }

  /** A triangle (struct Triangle): three vertices in creation order and the
      three derived sides s1 = (p1,p2), s2 = (p2,p3), s3 = (p3,p1). */
  datatype Triangle = Triangle(p1: Coords, p2: Coords, p3: Coords) {
    function S1(): Segment { Segment(p1, p2) }
    function S2(): Segment { Segment(p2, p3) }
    function S3(): Segment { Segment(p3, p1) }

    /** The sides in the order in which the source pushes them. */
    function Edges(): (r: seq<Segment>)
      ensures |r| == 3
      ensures r[0].p1 == p1 && r[1].p1 == p2 && r[2].p1 == p3
      ensures forall k :: 0 <= k < 3 ==> r[k].p2 == r[(k + 1) % 3].p1
    {
      [S1(), S2(), S3()]
    }

    /** True when q is one of the three vertices. */
    predicate HasVertex(q: Coords) {
      q == p1 || q == p2 || q == p3
    }
  }

  /** Triangle::operator== : compares the vertices position by position, so
      it is exactly equality of the vertex triples. */
  function SameTriangle(a: Triangle, b: Triangle): (r: bool)
    ensures r <==> a == b
  {
    a.p1 == b.p1 && a.p2 == b.p2 && a.p3 == b.p3
  }

  /** Triangle equality is order-sensitive: rotating the vertices of a
      triangle with two distinct vertices gives an unequal triangle. */
  lemma SameTriangleIsOrderSensitive(a: Coords, b: Coords, c: Coords)
    requires a != b
    ensures !SameTriangle(Triangle(a, b, c), Triangle(b, c, a))
    ensures !SameTriangle(Triangle(a, b, c), Triangle(b, a, c))
  {
  }

  /** The three corners of the fixed super-triangle. */
  const CornerA := Coords(-1000, -1000)
  const CornerB := Coords(500, 3000)
  const CornerC := Coords(1500, -1000)

  /** The super-triangle that seeds every build. */
  const SuperTriangle := Triangle(CornerA, CornerB, CornerC)
}
