/**
  The application state and the two builds that rewrite it:
  construitDelaunay and construitVoronoi. The point, segment and triangle
  vectors are sequence fields that the methods reassign; every loop of the
  source is a loop here, proved against the functions of Cavity and Dual.
 */
module Triangulation {
  import opened Geometry
  import opened PointOrder
  import opened Circumcircle
  import opened Cavity
  import opened Dual

  /** The triangle list after the super-triangle has been seeded and the
      points of pts inserted one after another. */
  function Insertions(g: Oracle, pts: seq<Coords>): seq<Triangle>
  {
    if pts == [] then [SuperTriangle]
    else Step(g, pts[|pts| - 1], Insertions(g, pts[..|pts| - 1]))
  }

  /** The triangles construitDelaunay leaves: the points are inserted in
      compareCoords order. */
  function Delaunay(g: Oracle, pts: seq<Coords>): seq<Triangle>
  {
    Insertions(g, SortCoords(pts))
  }

  /** With no points the build leaves exactly the super-triangle, and the
      Voronoi build leaves no triangle and no segment. */
  lemma NoPointsLeavesSuperTriangle(g: Oracle, unset: Coords)
    ensures Delaunay(g, []) == [SuperTriangle]
    ensures Untouched(Delaunay(g, [])) == []
    ensures VoronoiEdges(g, SortCoords([]), Delaunay(g, []), unset) == []
  {
    assert Untouched([SuperTriangle]) == Untouched([]) + [];
  }

  /** Rebuilding from the points a build has already sorted gives the same
      triangles: the build is idempotent. */
  lemma RebuildIsIdempotent(g: Oracle, pts: seq<Coords>)
    ensures Delaunay(g, SortCoords(pts)) == Delaunay(g, pts)
  {
    SortIsIdempotent(pts);
  }

  /** The triangulation depends only on the points, not on the order in
      which they were placed. */
  lemma DelaunayIgnoresPlacementOrder(g: Oracle, pts: seq<Coords>, other: seq<Coords>)
    requires multiset(pts) == multiset(other)
    ensures Delaunay(g, pts) == Delaunay(g, other)
  {
    SortDependsOnlyOnMultiset(pts, other);
  }

  /** No triangle left by construitVoronoi has a super-triangle corner. */
  lemma VoronoiTrianglesAvoidCorners(g: Oracle, pts: seq<Coords>)
    ensures forall t :: t in Untouched(Delaunay(g, pts)) ==>
      !t.HasVertex(CornerA) && !t.HasVertex(CornerB) && !t.HasVertex(CornerC)
  {
    StripSuper(Delaunay(g, pts));
  }

  lemma {:induction false} UntouchedOfTouching(ts: seq<Triangle>)
    requires forall t :: t in ts ==> TouchesSuper(t)
    ensures Untouched(ts) == []
  {
    if ts != [] {
      UntouchedOfTouching(ts[..|ts| - 1]);
      assert ts[|ts| - 1] in ts;
    }
  }

  /** Every side collected from copies of the super-triangle starts at a corner. */
  lemma CollectedFromSuperStartAtCorners(bad: seq<Triangle>)
    requires forall t :: t in bad ==> t == SuperTriangle
    ensures forall s :: s in Collected(bad) ==> s.p1 == CornerA || s.p1 == CornerB || s.p1 == CornerC
  {
    var c := Collected(bad);
    CollectedLayout(bad);
    forall s | s in c
      ensures s.p1 == CornerA || s.p1 == CornerB || s.p1 == CornerC
    {
      var i :| 0 <= i < |c| && c[i] == s;
      var k := i % 3;
      assert bad[i / 3] in bad;
      assert s == SuperTriangle.Edges()[k];
      SuperSideStartsAtCorner(k);
    }
  }

  /** Each side of the super-triangle starts at one of its corners. */
  lemma SuperSideStartsAtCorner(k: nat)
    requires k < 3
    ensures SuperTriangle.Edges()[k].p1 in {CornerA, CornerB, CornerC}
  {
  }

  /** A single point yields no triangle once the super-triangle is stripped,
      whatever the in-circle oracle answers: either the super-triangle stays
      as it is, or it is replaced by three triangles, each with a corner. */
  lemma SinglePointLeavesNoTriangle(g: Oracle, q: Coords)
    ensures Untouched(Delaunay(g, [q])) == []
  {
    assert SortCoords([q]) == [q] by {
      assert [q][1..] == [];
    }
    var ts := [SuperTriangle];
    assert Insertions(g, [q][..0]) == ts by {
      assert [q][..0] == [];
    }
    assert Insertions(g, [q]) == Step(g, q, ts);
    var bad := Bad(g, q, ts);
    BadGoodPartition(g, q, ts);
    CollectedFromSuperStartAtCorners(bad);
    var sides := Boundary(Collected(bad));
    BoundaryMembership(Collected(bad));
    var step := Step(g, q, ts);
    assert Delaunay(g, [q]) == step;
    forall t | t in step
      ensures TouchesSuper(t)
    {
      if t !in Good(g, q, ts) {
        var fan := Fan(sides, q);
        var k :| 0 <= k < |fan| && fan[k] == t;
        assert sides[k] in sides;
      }
    }
    UntouchedOfTouching(step);
  }

  /** What the scan's result tells about the list: bad membership and the
      layout of the collected sides. */
  lemma ScanFacts(g: Oracle, p: Coords, triangles: seq<Triangle>, collected: seq<Segment>, badTriangles: seq<Triangle>)
    requires badTriangles == Bad(g, p, triangles) && collected == Collected(badTriangles)
    ensures forall t :: t in badTriangles <==> t in triangles && CircumCircle(g, p, t)
    ensures |collected| == 3 * |badTriangles|
    ensures forall i :: 0 <= i < |collected| ==> collected[i] == badTriangles[i / 3].Edges()[i % 3]
  {
    BadGoodPartition(g, p, triangles);
    CollectedLayout(badTriangles);
  }

  /** The scan of construitDelaunay's loop for point p: copies of the
      triangles whose circle holds p, in list order, and their three sides
      each, in the order s1, s2, s3. */
  method ScanTriangles(g: Oracle, p: Coords, triangles: seq<Triangle>)
    returns (collected: seq<Segment>, badTriangles: seq<Triangle>)
    ensures badTriangles == Bad(g, p, triangles)
    ensures collected == Collected(badTriangles)
    ensures forall t :: t in badTriangles <==> t in triangles && CircumCircle(g, p, t)
    ensures |collected| == 3 * |badTriangles|
    ensures forall i :: 0 <= i < |collected| ==> collected[i] == badTriangles[i / 3].Edges()[i % 3]
  {
    collected, badTriangles := [], [];
    var i := 0;
    while i < |triangles|
      invariant 0 <= i <= |triangles|
      invariant badTriangles == Bad(g, p, triangles[..i])
      invariant collected == Collected(badTriangles)
    {
      var t := triangles[i];
      assert triangles[..i + 1] == triangles[..i] + [t];
      if CircumCircle(g, p, t) {
        ghost var before, bad := collected, badTriangles;
        collected := collected + [t.S1()];
        collected := collected + [t.S2()];
        collected := collected + [t.S3()];
        assert collected == before + t.Edges();
        badTriangles := badTriangles + [t];
        assert badTriangles[..|badTriangles| - 1] == bad;
      }
      i := i + 1;
    }
    assert triangles[..i] == triangles;
    ScanFacts(g, p, triangles, collected, badTriangles);
  }

  /** The double loop that fills bad_segments: entry i is pushed once for
      every later entry j equal to it, so an entry of the collected list
      equals some pushed side exactly when it is not unique. */
  method RepeatedSides(collected: seq<Segment>) returns (badSegments: seq<Segment>)
    ensures badSegments == Dups(collected, |collected|)
    ensures forall k :: 0 <= k < |collected| ==> (Hits(badSegments, collected[k]) <==> !UniqueAt(collected, k))
  {
    badSegments := [];
    var i := 0;
    while i < |collected|
      invariant 0 <= i <= |collected|
      invariant badSegments == Dups(collected, i)
    {
      var j := i + 1;
      while j < |collected|
        invariant i + 1 <= j <= |collected|
        invariant badSegments == Dups(collected, i) + LaterEq(collected, i, j)
      {
        if SegmentEq(collected[i], collected[j]) {
          badSegments := badSegments + [collected[i]];
        }
        j := j + 1;
      }
      i := i + 1;
    }
    forall k | 0 <= k < |collected|
      ensures Hits(badSegments, collected[k]) <==> !UniqueAt(collected, k)
    {
      HitsDupsIffRepeated(collected, k);
    }
  }

  /** good_triangles for point p in construitVoronoi: the triangles having p
      as a vertex, in list order, each with the centre CircumCircle left in
      xc, yc when called on it; `unset` is what xc, yc held before. */
  method IncidentTriangles(g: Oracle, p: Coords, delaunayTri: seq<Triangle>, unset: Coords)
    returns (good: seq<Centred>)
    ensures good == Incident(g, p, delaunayTri, unset)
    ensures forall t :: t in delaunayTri && t.HasVertex(p) <==> exists c :: Centred(t, c) in good
    ensures forall e :: e in good && !Level(e.t) ==> e.centre == g.centre(e.t.p1, e.t.p2, e.t.p3)
  {
    good := [];
    var centre := unset;
    // The in-circle answer is unused here: only the centre is read.
    for k := 0 to |delaunayTri|
      invariant centre == LastCentre(g, delaunayTri[..k], unset)
      invariant good == Incident(g, p, delaunayTri[..k], unset)
    {
      var t := delaunayTri[k];
      assert delaunayTri[..k + 1] == delaunayTri[..k] + [t];
      centre := CircumCentre(g, t, centre);
      if t.HasVertex(p) {
        good := good + [Centred(t, centre)];
      }
    }
    assert delaunayTri[..|delaunayTri|] == delaunayTri;
    IncidentMembership(g, p, delaunayTri, unset);
  }

  /** for (Segment bs : bad_segments) followed by std::remove and erase on
      the collected sides: every side equal (undirected) to an entry of
      repeated goes, the others keep their order. */
  method EraseSides(sides: seq<Segment>, repeated: seq<Segment>) returns (rest: seq<Segment>)
    ensures rest == EraseEachSegment(sides, repeated)
    ensures rest == WithoutHits(sides, repeated)
  {
    rest := sides;
    for k := 0 to |repeated|
      invariant rest == EraseEachSegment(sides, repeated[..k])
    {
      rest := EraseSegment(rest, repeated[k]);
      assert repeated[..k + 1][..k] == repeated[..k];
    }
    assert repeated[..|repeated|] == repeated;
    EraseEachIsWithoutHits(sides, repeated);
  }

  /** One more turn of construitDelaunay's loop inserts the next point. */
  lemma InsertionsStep(g: Oracle, pts: seq<Coords>, i: nat)
    requires i < |pts|
    ensures Insertions(g, pts[..i + 1]) == Step(g, pts[i], Insertions(g, pts[..i]))
  {
    assert pts[..i + 1][..i] == pts[..i];
  }

  /** One more turn of construitVoronoi's loop appends the dual edges
      around the next point. */
  lemma VoronoiEdgesStep(g: Oracle, pts: seq<Coords>, i: nat, ts: seq<Triangle>, unset: Coords)
    requires i < |pts|
    ensures VoronoiEdges(g, pts[..i + 1], ts, unset)
      == VoronoiEdges(g, pts[..i], ts, unset)
         + DualEdges(Incident(g, pts[i], ts, unset), |Incident(g, pts[i], ts, unset)|)
  {
    assert pts[..i + 1][..i] == pts[..i];
  }

  /** The state of the demo: the placed points, the Voronoi segments and
      the triangles, as vectors the builds clear and refill. */
  class Application {
    var points: seq<Coords>
    var segments: seq<Segment>
    var triangles: seq<Triangle>

    /** A new application has no points, segments or triangles. */
    constructor ()
      ensures points == [] && segments == [] && triangles == []
    {
      points, segments, triangles := [], [], [];
    }

    /** The body of construitDelaunay's loop for one point p: scan, collect
        the sides of the bad triangles, find the sides that occur twice,
        erase the bad triangles, erase the repeated sides, fan the rest to p. */
    method InsertPoint(g: Oracle, p: Coords)
      modifies this
      ensures triangles == Step(g, p, old(triangles))
      ensures points == old(points) && segments == old(segments)
    {
      var collected, badTriangles := ScanTriangles(g, p, triangles);
      var badSegments := RepeatedSides(collected);

      // Erase every triangle equal to a bad one.
      EraseTriangles(badTriangles);
      EraseBadLeavesGood(g, p, old(triangles));
      EraseEachIsWithoutAll(old(triangles), badTriangles);

      // Erase every side equal to a repeated one.
      var boundary := EraseSides(collected, badSegments);
      CancelIsBoundary(collected);
      EraseEachIsWithoutHits(collected, badSegments);

      // One new triangle per surviving side, with p as third vertex.
      FanOut(boundary, p);
    }

    /** for (Triangle bt : bad) followed by std::remove and erase: every
        triangle equal to an entry of bad goes, the others keep their order. */
    method EraseTriangles(bad: seq<Triangle>)
      modifies this
      ensures triangles == EraseEachTriangle(old(triangles), bad)
      ensures triangles == WithoutAll(old(triangles), bad)
      ensures points == old(points) && segments == old(segments)
    {
      for k := 0 to |bad|
        invariant triangles == EraseEachTriangle(old(triangles), bad[..k])
        invariant points == old(points) && segments == old(segments)
      {
        triangles := EraseTriangle(triangles, bad[k]);
        assert bad[..k + 1][..k] == bad[..k];
      }
      assert bad[..|bad|] == bad;
      EraseEachIsWithoutAll(old(triangles), bad);
    }

    /** The push_back loop that fans the surviving sides out to p. */
    method FanOut(sides: seq<Segment>, p: Coords)
      modifies this
      ensures triangles == old(triangles) + Fan(sides, p)
      ensures points == old(points) && segments == old(segments)
    {
      for k := 0 to |sides|
        invariant triangles == old(triangles) + Fan(sides[..k], p)
        invariant points == old(points) && segments == old(segments)
      {
        triangles := triangles + [Triangle(sides[k].p1, sides[k].p2, p)];
        assert sides[..k + 1][..k] == sides[..k];
      }
      assert sides[..|sides|] == sides;
    }

    /** construitDelaunay: sorts the points, seeds the triangle list with the
        super-triangle alone and inserts the points in order. */
    method BuildDelaunay(g: Oracle)
      modifies this
      ensures points == SortCoords(old(points))
      ensures triangles == Delaunay(g, old(points))
      ensures segments == old(segments)
    {
      var sorted := SortCoords(points);
      points := sorted;
      triangles := [];
      triangles := triangles + [SuperTriangle];
      for i := 0 to |sorted|
        invariant points == sorted && segments == old(segments)
        invariant triangles == Insertions(g, sorted[..i])
      {
        InsertionsStep(g, sorted, i);
        InsertPoint(g, sorted[i]);
      }
      assert sorted[..|sorted|] == sorted;
    }

    /** construitVoronoi: rebuilds the triangulation, clears the segments,
        appends the dual edges around every point, computed on the
        triangulation that still holds the super-triangle, and finally
        erases every triangle touching a super-triangle corner. `unset` is
        what the uninitialised xc, yc hold at the start of each point's walk. */
    method BuildVoronoi(g: Oracle, unset: Coords)
      modifies this
      ensures points == SortCoords(old(points))
      ensures segments == VoronoiEdges(g, points, Delaunay(g, old(points)), unset)
      ensures triangles == Untouched(Delaunay(g, old(points)))
    {
      BuildDelaunay(g);
      var sorted, delaunayTri := points, triangles;
      segments := [];
      for i := 0 to |sorted|
        invariant points == sorted && triangles == delaunayTri
        invariant segments == VoronoiEdges(g, sorted[..i], delaunayTri, unset)
      {
        VoronoiEdgesStep(g, sorted, i, delaunayTri, unset);
        var good := IncidentTriangles(g, sorted[i], delaunayTri, unset);
        AppendDualEdges(good);
      }
      assert sorted[..|sorted|] == sorted;

      StripSuperTriangles();
    }

    /** The double loop of construitVoronoi over the incident triangles of one
        point: one segment between the two centres per pair i < j that
        shares a side, appended in the order of the pairs. */
    method AppendDualEdges(good: seq<Centred>)
      modifies this
      ensures segments == old(segments) + DualEdges(good, |good|)
      ensures points == old(points) && triangles == old(triangles)
    {
      var a := 0;
      while a < |good|
        invariant 0 <= a <= |good|
        invariant segments == old(segments) + DualEdges(good, a)
        invariant points == old(points) && triangles == old(triangles)
      {
        var b := a + 1;
        while b < |good|
          invariant a + 1 <= b <= |good|
          invariant segments == old(segments) + DualEdges(good, a) + PairsWith(good, a, b)
          invariant points == old(points) && triangles == old(triangles)
        {
          if SharesSide(good[a].t, good[b].t) {
            segments := segments + [Segment(good[a].centre, good[b].centre)];
          }
          b := b + 1;
        }
        a := a + 1;
      }
    }

    /** The last pass of construitVoronoi: collects the triangles touching a
        super-triangle corner, then erases each of them. */
    method StripSuperTriangles()
      modifies this
      ensures triangles == Untouched(old(triangles))
      ensures points == old(points) && segments == old(segments)
    {
      var badTriangles: seq<Triangle> := [];
      for k := 0 to |triangles|
        invariant badTriangles == Touching(triangles[..k])
        invariant triangles == old(triangles)
      {
        if TouchesSuper(triangles[k]) {
          badTriangles := badTriangles + [triangles[k]];
        }
        assert triangles[..k + 1] == triangles[..k] + [triangles[k]];
      }
      assert triangles[..|triangles|] == triangles;
      EraseTriangles(badTriangles);
      StripSuper(old(triangles));
    }
  }
}
