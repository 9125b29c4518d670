/**
  The circumcircle test. Its floating-point geometry (bisector slopes,
  midpoints, the centre, the squared radii compared within EPSILON, the
  casts of the centre to int) is an oracle given as a parameter; what is kept
  is the guard in front of it, which returns "not inside" and leaves the
  centre outputs untouched when the three y-coordinates are within EPSILON.
 */
module Circumcircle {
  import opened Geometry

  /** EPSILON of the source (0.0001f). */
  const EPSILON: real := 0.0001

  /** The floating-point part of CircumCircle: whether the query point lies
      within EPSILON of the circumcircle through the three vertices, and the
      circumcentre after its coordinates are cast to int. */
  datatype Oracle = Oracle(
    inside: (Coords, Coords, Coords, Coords) -> bool,
    centre: (Coords, Coords, Coords) -> Coords)

  /** fabs(u - v) < EPSILON, computed exactly. */
  predicate NearlyEqual(u: int, v: int) {
    (if u >= v then (u - v) as real else (v - u) as real) < EPSILON
  }

  /** On integer coordinates the EPSILON comparison is plain equality. */
  lemma NearlyEqualIsEqual(u: int, v: int)
    ensures NearlyEqual(u, v) <==> u == v
  {
    if u > v {
      assert (u - v) as real >= 1.0;
    } else if u < v {
      assert (v - u) as real >= 1.0;
    }
  }

  /** All three vertices have the same y-coordinate. */
  predicate Level(t: Triangle) {
    t.p1.y == t.p2.y && t.p2.y == t.p3.y
  }

  /** The "coincident points" guard at the head of CircumCircle. */
  predicate Coincident(t: Triangle)
    ensures Coincident(t) <==> Level(t)
  {
    NearlyEqualIsEqual(t.p1.y, t.p2.y);
    NearlyEqualIsEqual(t.p2.y, t.p3.y);
    NearlyEqual(t.p1.y, t.p2.y) && NearlyEqual(t.p2.y, t.p3.y)
  }

  /** The value CircumCircle returns: false on a triangle whose vertices
      share one y-coordinate, otherwise the oracle's in-circle answer. */
  function CircumCircle(g: Oracle, p: Coords, t: Triangle): (inside: bool)
    ensures Level(t) ==> !inside
    ensures !Level(t) ==> (inside <==> g.inside(p, t.p1, t.p2, t.p3))
  {
    if Coincident(t) then false else g.inside(p, t.p1, t.p2, t.p3)
  }

  /** What CircumCircle leaves in its outputs xc, yc (as the int centre the
      caller stores), given what they held before the call: unchanged on the
      guard, otherwise the oracle's centre, which does not depend on the query. */
  function CircumCentre(g: Oracle, t: Triangle, last: Coords): (c: Coords)
    ensures Level(t) ==> c == last
    ensures !Level(t) ==> c == g.centre(t.p1, t.p2, t.p3)
  {
    if Coincident(t) then last else g.centre(t.p1, t.p2, t.p3)
  }
}
