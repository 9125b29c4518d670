# Delaunay / Voronoi demo: a Dafny model of its combinatorial core

The program (`src/main.cpp`) keeps the points a user has placed on a canvas.
Each time a point is placed, it rebuilds two things from them:

- a Delaunay triangulation, built incrementally by the Bowyer-Watson
  algorithm from a fixed super-triangle with corners (-1000,-1000),
  (500,3000) and (1500,-1000);
- the Voronoi edges, derived from that triangulation.

This project models the part of that which is list bookkeeping, and proves
what the bookkeeping guarantees.

Modules:

- `Geometry`: the value types `Coords`, `Segment` and `Triangle`, and
  their equality operators.
  - `Coords` compare exactly.
  - Segments compare undirected.
  - Triangles compare vertex by vertex, in order.
  - The super-triangle.
- `PointOrder`: `compareCoords` and the sort that precedes every build.
- `Circumcircle`: the circumcircle test. Its floating-point geometry is an
  `Oracle` parameter: one function for the in-circle answer, one for the
  centre after its cast to int. What is kept is the guard in front of it:
  - when the three y-coordinates are within EPSILON, the test answers
    "not inside";
  - in that case it leaves the centre outputs `xc`, `yc` as they were.
- `Cavity`: one insertion step of `construitDelaunay`, as functions on
  lists:
  - the scan for bad triangles, meaning those whose circle holds the new
    point;
  - collecting their sides;
  - the double loop that finds repeated sides;
  - `std::remove` + `erase` of the bad triangles and of the repeated sides;
  - the fan of the surviving sides to the new point.

  Each definition that follows the code stands next to a reference
  definition of what it computes, with a lemma proving that the two agree.
- `Dual`: the Voronoi edges and the final removal of the triangles that
  touch a super-triangle corner.
- `Triangulation`: the `Application` class. Its `points`, `segments` and
  `triangles` fields are the three vectors of the source. Its methods carry
  the loops of `construitDelaunay` and `construitVoronoi`, each proved
  against the functions above.

Points have unbounded integer coordinates. On integers, the source's
`fabs(a - b) < EPSILON` comparison is exactly equality; `NearlyEqualIsEqual`
proves this.

Four behaviours of the program shape the model:

- **Triangle equality.** `Triangle::operator==` compares the vertices
  position by position (`SameTriangle`).
- **Cancelling sides.** Every collected side that occurs more than once is
  cancelled, whatever the number of its occurrences.
- **When the super-triangle goes.** The Voronoi edges are computed on the
  triangulation that still holds the super-triangle. Its triangles are
  stripped only afterwards.
- **Reset.** A right click clears only the points (see "Left out").

## Model

| member | source | states |
|---|---|---|
| Geometry.CoordsDiffer | src/main.cpp:20-23 | `Coords::operator!=` holds exactly when the two points are not equal |
| Geometry.SegmentEq | src/main.cpp:30-34 | `Segment::operator==` (a definition): same endpoints, in the same or in the swapped order; its properties are in the next rows |
| Geometry.SegmentEqIsSameEndpoints | src/main.cpp:30-34 | two segments are `==` exactly when their endpoint multisets agree, so `{a,b} == {b,a}` |
| Geometry.SegmentDiffer | src/main.cpp:35-39 | `Segment::operator!=` is exactly the negation of `Segment::operator==` |
| Geometry.SegmentEqIsEquivalence | src/main.cpp:30-34 | a segment equals its reversal; segment equality is reflexive, symmetric and transitive |
| Geometry.Triangle.Edges | src/main.cpp:45 | the sides are `s1 = (p1,p2)`, `s2 = (p2,p3)`, `s3 = (p3,p1)`, in that order: side k starts at vertex k and ends where side k + 1 starts |
| Geometry.SameTriangle | src/main.cpp:50-53 | `Triangle::operator==` holds exactly when the vertex triples are equal position by position |
| Geometry.SameTriangleIsOrderSensitive | src/main.cpp:50-53 | rotating or swapping two distinct vertices gives a triangle that is not `==` to the original |
| PointOrder.CompareCoords | src/main.cpp:66-71 | `compareCoords(a, b)` holds exactly when a is before b lexicographically on (x, y) |
| PointOrder.CompareCoordsIsStrictTotalOrder | src/main.cpp:66-71 | `compareCoords` is irreflexive, asymmetric and transitive, and any two distinct points are comparable |
| PointOrder.Insert | src/main.cpp:185 | inserting into a non-decreasing list gives a non-decreasing list with the same elements plus the new one |
| PointOrder.InsertAtFront | src/main.cpp:185 | a point no greater than the head of a sorted list may be put in front of it |
| PointOrder.InsertBehindHead | src/main.cpp:185 | a head smaller than the new point, followed by a sorted insertion into the tail, is sorted and a permutation |
| PointOrder.SortCoords | src/main.cpp:185 | the sorted point list is non-decreasing under `compareCoords` and is a permutation of the input |
| PointOrder.SortedIsUnique | src/main.cpp:185 | two sorted permutations of the same points are equal, so any correct sort gives the same list |
| PointOrder.SortedHeadsAgree | src/main.cpp:185 | two non-empty sorted permutations of each other start with the same point |
| PointOrder.DropHead | src/main.cpp:185 | the tail of a sorted list is sorted and holds its points minus one copy of the head |
| PointOrder.SortIsIdempotent | src/main.cpp:185 | sorting already sorted points changes nothing |
| PointOrder.SortDependsOnlyOnMultiset | src/main.cpp:185 | the sorted list depends only on which points there are, and how often |
| Circumcircle.NearlyEqualIsEqual | src/main.cpp:131-135 | on integers, `fabs(u - v) < EPSILON` holds exactly when u == v |
| Circumcircle.Coincident | src/main.cpp:134-135 | the coincident-points guard holds exactly when the three y-coordinates are equal |
| Circumcircle.CircumCircle | src/main.cpp:134-136 | a triangle whose y-coordinates are all equal never holds the point; otherwise the answer is the in-circle oracle's |
| Circumcircle.CircumCentre | src/main.cpp:134-171 | on the guard, `xc`, `yc` keep their previous value; otherwise they become the oracle's centre of the triangle |
| Cavity.Bad | src/main.cpp:195-207 | `bad_triangles` (a definition): the triangles whose circle holds p, in scan order; `BadGoodPartition` states its content |
| Cavity.Good | src/main.cpp:217-220 | the triangles left once the bad ones are erased (a definition): those whose circle does not hold p, in order; `EraseBadLeavesGood` ties it to the erase loop |
| Cavity.Collected | src/main.cpp:195-206 | `segments` after the scan (a definition): each bad triangle's `s1`, `s2`, `s3`; `CollectedLayout` states the layout |
| Cavity.LaterEq | src/main.cpp:210-214 | what the inner loop pushes for one i (a definition); `LaterEqMembership` states its content |
| Cavity.Dups | src/main.cpp:209-215 | `bad_segments` after the double loop (a definition); `DupsMembership` and `HitsDupsIffRepeated` state its content |
| Cavity.BadGoodPartition | src/main.cpp:195-207 | `bad_triangles` holds exactly the triangles whose circle holds p; the rest are exactly the others; the two counts add up to the list length |
| Cavity.CollectedLayout | src/main.cpp:195-206 | the collected sides are three per bad triangle, in scan order: entry i is side i % 3 of bad triangle i / 3 |
| Cavity.LaterEqMembership | src/main.cpp:210-214 | the inner loop pushes entry i only if some later entry equals it |
| Cavity.DupsMembership | src/main.cpp:209-215 | a side is in `bad_segments` exactly when it is some entry i that equals a later entry |
| Cavity.HitsDupsIffRepeated | src/main.cpp:209-215 | a collected entry equals some entry of `bad_segments` exactly when another collected entry equals it |
| Cavity.EraseSegment | src/main.cpp:222-225 | `remove` + `erase` of one segment keeps only entries not equal (undirected) to it, and adds nothing; `EraseSegmentIsFilter` and `EraseSegmentCounts` state the rest |
| Cavity.EraseSegmentIsFilter | src/main.cpp:222-225 | erasing one segment is the order-preserving filter that drops exactly the entries equal to it |
| Cavity.EraseSegmentCounts | src/main.cpp:222-225 | after erasing one segment, entries equal to it occur 0 times and every other entry occurs as often as before |
| Cavity.EraseEachSegment | src/main.cpp:222-225 | the erase loop over `bad_segments` (a definition): one `remove` + `erase` per entry, in order; `EraseEachIsWithoutHits` states its result |
| Cavity.EraseAfterWithoutHits | src/main.cpp:222-225 | erasing one more side from a filtered list is the filter by the extended list of sides |
| Cavity.EraseEachIsWithoutHits | src/main.cpp:222-225 | erasing the sides of a list one after another keeps exactly the entries equal to none of them, in order |
| Cavity.WithoutNothing | src/main.cpp:222-225 | filtering by an empty list keeps every entry |
| Cavity.WithoutDupsIsBoundary | src/main.cpp:209-225 | on every prefix, dropping the entries that match `bad_segments` keeps exactly the unique entries |
| Cavity.CancelIsBoundary | src/main.cpp:209-225 | the cancellation leaves exactly the collected entries that no other entry equals, in their original order |
| Cavity.BoundaryUpToMembership | src/main.cpp:209-225 | a side is among the survivors of the first n entries exactly when some unique entry before n is that side |
| Cavity.BoundaryMembership | src/main.cpp:209-225 | a side survives exactly when it is a collected entry that no other entry equals |
| Cavity.BoundaryUpToDistinct | src/main.cpp:209-225 | the survivors among the first n entries are pairwise unequal, even with reversed endpoints |
| Cavity.BoundaryDistinct | src/main.cpp:209-225 | the surviving sides are pairwise unequal, even with reversed endpoints |
| Cavity.EraseTriangle | src/main.cpp:217-220 | `remove` + `erase` of one triangle removes every occurrence of it and changes no other count |
| Cavity.EraseEachTriangle | src/main.cpp:217-220 | the erase loop over `bad_triangles` (a definition): one `remove` + `erase` per entry, in order; `EraseEachIsWithoutAll` states its result |
| Cavity.EraseAfterWithoutAll | src/main.cpp:217-220 | erasing one more triangle from a filtered list is the filter by the extended list of triangles |
| Cavity.WithoutNone | src/main.cpp:217-220 | filtering by an empty list of triangles keeps every triangle |
| Cavity.EraseEachIsWithoutAll | src/main.cpp:217-220 | erasing the triangles of a list one after another keeps exactly the triangles not in it, in order |
| Cavity.WithoutAllIsGood | src/main.cpp:217-220 | when the erased list holds exactly the in-circle triangles, the erasure leaves exactly the others |
| Cavity.EraseBadLeavesGood | src/main.cpp:195-220 | erasing every bad triangle leaves exactly the triangles whose circle does not hold p, in order |
| Cavity.Fan | src/main.cpp:227-229 | one triangle `(s.p1, s.p2, p)` is appended per surviving side s, in order |
| Cavity.Step | src/main.cpp:189-229 | one turn of the insertion loop (a definition): the good triangles, then the fan of the surviving sides to p; `StepShape` states its shape |
| Cavity.StepShape | src/main.cpp:189-229 | the new count is old count minus bad plus survivors; every good triangle stays; appended triangles have p as `p3`; any triangle without p as `p3` is an old good one |
| Dual.LastCentre | src/main.cpp:244-250 | what `xc`, `yc` hold after CircumCircle was called on each triangle of the walk in turn (a definition); `LastCentreIsLastComputed` states its value |
| Dual.LastCentreOfLevel | src/main.cpp:244-250 | a walk over level triangles only leaves `xc`, `yc` as they were |
| Dual.LastCentreAfter | src/main.cpp:244-250 | level triangles after the last triangle that is not level leave its centre in `xc`, `yc` |
| Dual.Incident | src/main.cpp:243-254 | `good_triangles` for one point (a definition): the triangles with p as a vertex, each with its stored centre; `IncidentMembership` states its content |
| Dual.LastCentreIsLastComputed | src/main.cpp:244-250 | the centre stored after the walk is that of the last triangle that is not level, or the initial `xc`, `yc` if every triangle is level |
| Dual.IncidentMembership | src/main.cpp:243-254 | `good_triangles` holds exactly the triangles with p as a vertex; a triangle that is not level carries its own centre |
| Dual.SharesSide | src/main.cpp:258-266 | `hasSegmentInCommon` (a definition): one of the nine pairs of sides is equal, undirected |
| Dual.SharesSideIsCommonEdge | src/main.cpp:258-266 | `hasSegmentInCommon` holds exactly when some side of one triangle equals some side of the other; it is symmetric |
| Dual.PairsWith | src/main.cpp:257-270 | what the inner loop appends for one i (a definition); `PairsWithMembership` and `PairsWithCount` state its content and length |
| Dual.DualEdges | src/main.cpp:256-271 | what the double loop appends for one point (a definition); `DualEdgesMembership` and `DualEdgesCount` state its content and length |
| Dual.PairsWithMembership | src/main.cpp:257-270 | for a fixed i, the inner loop appends a segment between the centres of i and each later m that shares a side with i, and nothing else |
| Dual.DualEdgesMembership | src/main.cpp:256-271 | a segment is appended exactly for a pair i < j of incident triangles that share a side, and it joins their centres |
| Dual.PairsWithCount | src/main.cpp:257-270 | for a fixed i, the inner loop appends exactly as many segments as there are later triangles sharing a side with i |
| Dual.TaggedCount | src/main.cpp:256-271 | pairing every element of a set of indices with one fixed first index keeps the number of elements |
| Dual.SharingPairsStep | src/main.cpp:256-271 | the sharing pairs whose first index is n - 1 are new, and together with the earlier pairs they are all pairs up to n |
| Dual.SharingPairsCountStep | src/main.cpp:256-271 | handling triangle n - 1 adds as many pairs as it has later partners |
| Dual.NoSharingPairs | src/main.cpp:256-271 | before the outer loop starts there is no pair |
| Dual.DualEdgesCount | src/main.cpp:256-271 | the number of segments the double loop appends is the sum, over i, of the number of later triangles sharing a side with i |
| Dual.DualEdgesGrowth | src/main.cpp:256-271 | the outer loop's turn for triangle n - 1 appends one segment per later triangle sharing a side with it |
| Dual.SharingCountIsPairs | src/main.cpp:256-271 | that sum is the number of pairs i < j of incident triangles that share a side |
| Dual.DualEdgesOncePerPair | src/main.cpp:256-271 | around one point, exactly one segment is appended per pair i < j of incident triangles that share a side |
| Dual.VoronoiEdges | src/main.cpp:242-272 | `segments` after the loop over the points (a definition): the dual edges of each point in turn; `VoronoiEdgesMembership` states its content |
| Dual.VoronoiEdgesMembership | src/main.cpp:242-272 | the segments are exactly the dual edges among the incident triangles of some input point |
| Dual.VoronoiEdgeJoinsNeighbours | src/main.cpp:242-272 | every segment joins the centres of two triangles of the list that share a side and have a common input point as a vertex |
| Dual.TouchesSuper | src/main.cpp:277-285 | `hasCommonPointsWithSuperTriangle` (a definition): some vertex is one of the three corners |
| Dual.Touching | src/main.cpp:276-289 | the last `bad_triangles` (a definition): the triangles touching a corner, in order; `TouchingMembership` states its content |
| Dual.Untouched | src/main.cpp:274-294 | the triangles left by the last pass (a definition): those touching no corner, in order; `StripSuper` ties it to the erase loop |
| Dual.TouchingMembership | src/main.cpp:276-289 | the last `bad_triangles` holds exactly the triangles with a super-triangle corner; the rest holds exactly the others |
| Dual.WithoutAllIsUntouched | src/main.cpp:291-294 | erasing a list that holds exactly the corner-touching triangles leaves exactly the others |
| Dual.StripSuper | src/main.cpp:274-294 | the last pass leaves exactly the triangles with no corner, in order; no remaining triangle has a corner as a vertex |
| Dual.UntouchedAvoidsCorners | src/main.cpp:274-294 | no triangle left by the last pass has a corner as a vertex |
| Triangulation.Insertions | src/main.cpp:186-230 | the triangles after seeding the super-triangle and inserting the points in order (a definition); `BuildDelaunay` is proved equal to it |
| Triangulation.Delaunay | src/main.cpp:184-231 | the triangles `construitDelaunay` leaves (a definition): the insertions of the sorted points |
| Triangulation.NoPointsLeavesSuperTriangle | src/main.cpp:184-187 | with no points the build leaves exactly the super-triangle; the Voronoi build then leaves no triangle and no segment |
| Triangulation.RebuildIsIdempotent | src/main.cpp:185 | rebuilding from the points a build has already sorted gives the same triangles |
| Triangulation.DelaunayIgnoresPlacementOrder | src/main.cpp:184-231 | two point lists with the same points give the same triangulation, whatever order they were placed in |
| Triangulation.VoronoiTrianglesAvoidCorners | src/main.cpp:274-294 | after the Voronoi build, no triangle has a super-triangle corner as a vertex |
| Triangulation.UntouchedOfTouching | src/main.cpp:276-294 | when every triangle touches a corner, the last pass leaves none |
| Triangulation.CollectedFromSuperStartAtCorners | src/main.cpp:202-204 | every side collected from the super-triangle starts at one of its corners |
| Triangulation.SuperSideStartsAtCorner | src/main.cpp:187 | each side of the super-triangle starts at one of its three corners |
| Triangulation.SinglePointLeavesNoTriangle | src/main.cpp:184-294 | with one point, the Voronoi build leaves no triangle, whatever the in-circle oracle answers |
| Triangulation.ScanFacts | src/main.cpp:195-207 | the scan's result holds exactly the in-circle triangles, and the collected sides are three per bad triangle, in order |
| Triangulation.InsertionsStep | src/main.cpp:189-230 | one more turn of the Delaunay loop inserts the next point |
| Triangulation.VoronoiEdgesStep | src/main.cpp:242-272 | one more turn of the Voronoi loop appends the dual edges around the next point |
| Triangulation.ScanTriangles | src/main.cpp:195-207 | the scan returns exactly the in-circle triangles, in order, and their three sides each, in the order `s1`, `s2`, `s3` |
| Triangulation.RepeatedSides | src/main.cpp:209-215 | a collected entry equals an entry of `bad_segments` exactly when it is not unique in the collected list |
| Triangulation.IncidentTriangles | src/main.cpp:243-254 | the walk keeps exactly the triangles with p as a vertex, each with the centre it was stored with |
| Triangulation.EraseSides | src/main.cpp:222-225 | the erase loop leaves exactly the sides equal to no entry of `bad_segments`, in order |
| Triangulation.Application.constructor | src/main.cpp:56-64 | a new application has no points, segments or triangles |
| Triangulation.Application.InsertPoint | src/main.cpp:189-230 | one insertion replaces the triangles with the good ones followed by the fan of the cavity boundary to p; points and segments are unchanged |
| Triangulation.Application.EraseTriangles | src/main.cpp:217-220 | the erase loop leaves exactly the triangles not positionally equal to a listed one, in order |
| Triangulation.Application.FanOut | src/main.cpp:227-229 | one triangle `(s.p1, s.p2, p)` is appended per side, in order, after the existing ones |
| Triangulation.Application.BuildDelaunay | src/main.cpp:184-231 | the points become their sorted permutation, and the triangles become the insertions of them, in order, into the super-triangle |
| Triangulation.Application.BuildVoronoi | src/main.cpp:233-295 | the segments become the dual edges of the full triangulation, point by point; the triangles become those touching no corner |
| Triangulation.Application.AppendDualEdges | src/main.cpp:256-271 | one segment between the two centres is appended per pair i < j of incident triangles that share a side, in pair order |
| Triangulation.Application.StripSuperTriangles | src/main.cpp:274-294 | the last pass leaves exactly the triangles touching no corner, in order; points and segments are unchanged |

## Left out

- SDL rendering (`drawPoints`, `drawSegments`, `drawTriangles`, `draw`), the event loop `handleEvent` and `main`. These are I/O over libraries that are not part of this model.
  - A left click pushes a point and calls `construitVoronoi`.
  - A right click calls `points.clear()` only. It does not clear `triangles` or `segments`, so those stay until the next build.
- The floating-point body of `CircumCircle` (slopes, midpoints, the centre, `drsqr - rsqr <= EPSILON`) and the `(int)` casts of the centre are the `Oracle` parameter. Nothing is claimed about them.
- The radius output `rsqr` and the cached `t.center` / `t.radius` are not modelled. The builds never read them back: the Delaunay scan writes them, and the Voronoi walk recomputes the centre on copies.
- The Delaunay empty-circumcircle property is not claimed, nor that the super-triangle encloses the input points. Both depend on real geometry.
- Circumcircle.CircumCircle: coordinates are passed to `CircumCircle` as `float`. The model treats this conversion as exact, which it is only for magnitudes below 2^24.
- Circumcircle.CircumCentre: before the first non-level triangle of a walk, `xc` and `yc` are uninitialised. The model takes them to hold an arbitrary but fixed value `unset`, the same for every point.
- PointOrder.SortCoords: it is an insertion sort, not the algorithm of `std::sort`. `SortedIsUnique` shows that every correct sort gives the same list, so the result is the same.
- The `width`, `height` and `focus` fields and the `complet` flag are not modelled. The algorithm does not use them.
