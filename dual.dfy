/**
  The Voronoi edges of construitVoronoi and the final removal of the
  triangles that touch the super-triangle, as functions on lists.

  For every input point the source walks the whole triangle list, calling
  CircumCircle on a copy of each triangle only for the centre it leaves in
  xc, yc (the in-circle answer is discarded), and keeps the copies that
  have the point as a vertex. Since CircumCircle leaves xc, yc untouched on
  a triangle whose vertices share one y-coordinate, such a triangle takes
  the centre of the last triangle before it that was not level, or the
  value xc, yc held before the walk (`unset`) when there is none.
 */
module Dual {
  import opened Geometry
  import opened Circumcircle
  import opened Cavity

  // ---------------------------------------------------------------------
  // Centres and incident triangles
  // ---------------------------------------------------------------------

  /** What xc, yc hold after CircumCircle was called on every triangle of ts
      in turn, starting from `unset`. */
  function LastCentre(g: Oracle, ts: seq<Triangle>, unset: Coords): Coords
  {
    if ts == [] then unset
    else CircumCentre(g, ts[|ts| - 1], LastCentre(g, ts[..|ts| - 1], unset))
  }

  /** The centre read after the walk is the oracle's centre of the last
      triangle that is not level, or `unset` when every triangle is level. */
  lemma LastCentreIsLastComputed(g: Oracle, ts: seq<Triangle>, unset: Coords)
    ensures (forall k :: 0 <= k < |ts| ==> Level(ts[k])) ==> LastCentre(g, ts, unset) == unset
    ensures forall j :: 0 <= j < |ts| && !Level(ts[j]) && (forall k :: j < k < |ts| ==> Level(ts[k])) ==>
      LastCentre(g, ts, unset) == g.centre(ts[j].p1, ts[j].p2, ts[j].p3)
  {
    if forall k :: 0 <= k < |ts| ==> Level(ts[k]) {
      LastCentreOfLevel(g, ts, unset);
    }
    forall j | 0 <= j < |ts| && !Level(ts[j]) && (forall k :: j < k < |ts| ==> Level(ts[k]))
      ensures LastCentre(g, ts, unset) == g.centre(ts[j].p1, ts[j].p2, ts[j].p3)
    {
      LastCentreAfter(g, ts, unset, j);
    }
  }

  /** A walk over level triangles only leaves xc, yc as they were. */
  lemma {:induction false} LastCentreOfLevel(g: Oracle, ts: seq<Triangle>, unset: Coords)
    requires forall k :: 0 <= k < |ts| ==> Level(ts[k])
    ensures LastCentre(g, ts, unset) == unset
  {
    if ts != [] {
      var init := ts[..|ts| - 1];
      assert forall k :: 0 <= k < |init| ==> init[k] == ts[k];
      LastCentreOfLevel(g, init, unset);
      assert Level(ts[|ts| - 1]);
    }
  }

  /** Level triangles after the last one that is not level change nothing. */
  lemma {:induction false} LastCentreAfter(g: Oracle, ts: seq<Triangle>, unset: Coords, j: nat)
    requires j < |ts| && !Level(ts[j])
    requires forall k :: j < k < |ts| ==> Level(ts[k])
    ensures LastCentre(g, ts, unset) == g.centre(ts[j].p1, ts[j].p2, ts[j].p3)
  {
    var init := ts[..|ts| - 1];
    if j < |ts| - 1 {
      assert ts[j] == init[j];
      assert forall k :: j < k < |init| ==> init[k] == ts[k];
      LastCentreAfter(g, init, unset, j);
      assert Level(ts[|ts| - 1]);
    }
  }

  /** A triangle of the walk together with the centre stored in its copy. */
  datatype Centred = Centred(t: Triangle, centre: Coords)

  /** good_triangles for point p: the triangles having p as a vertex, in list
      order, each with the centre CircumCircle left in xc, yc for it. */
  function Incident(g: Oracle, p: Coords, ts: seq<Triangle>, unset: Coords): seq<Centred>
  {
    if ts == [] then []
    else
      var t := ts[|ts| - 1];
      Incident(g, p, ts[..|ts| - 1], unset)
      + (if t.HasVertex(p) then [Centred(t, LastCentre(g, ts, unset))] else [])
  }

  /** The incident list holds exactly the triangles that have p as a vertex;
      the centre stored with a triangle that is not level is its own centre. */
  lemma {:induction false} IncidentMembership(g: Oracle, p: Coords, ts: seq<Triangle>, unset: Coords)
    ensures forall t :: t in ts && t.HasVertex(p) <==> exists c :: Centred(t, c) in Incident(g, p, ts, unset)
    ensures forall e :: e in Incident(g, p, ts, unset) ==> e.t in ts && e.t.HasVertex(p)
    ensures forall e :: e in Incident(g, p, ts, unset) && !Level(e.t) ==>
      e.centre == g.centre(e.t.p1, e.t.p2, e.t.p3)
  {
    if ts != [] {
      var init := ts[..|ts| - 1];
      var t := ts[|ts| - 1];
      IncidentMembership(g, p, init, unset);
      assert ts == init + [t];
      if t.HasVertex(p) {
        assert Centred(t, LastCentre(g, ts, unset)) in Incident(g, p, ts, unset);
      }
    }
  }

  // ---------------------------------------------------------------------
  // Edges of the dual
  // ---------------------------------------------------------------------

  /** hasSegmentInCommon: one of the nine pairs of sides is equal (undirected). */
  predicate SharesSide(a: Triangle, b: Triangle) {
    SegmentEq(a.S1(), b.S1()) || SegmentEq(a.S1(), b.S2()) || SegmentEq(a.S1(), b.S3())
    || SegmentEq(a.S2(), b.S1()) || SegmentEq(a.S2(), b.S2()) || SegmentEq(a.S2(), b.S3())
    || SegmentEq(a.S3(), b.S1()) || SegmentEq(a.S3(), b.S2()) || SegmentEq(a.S3(), b.S3())
  }

  /** Two triangles share a side exactly when some side of the one equals
      (undirected) some side of the other; the relation is symmetric. */
  lemma SharesSideIsCommonEdge(a: Triangle, b: Triangle)
    ensures SharesSide(a, b) <==> exists i, j :: 0 <= i < 3 && 0 <= j < 3 && SegmentEq(a.Edges()[i], b.Edges()[j])
    ensures SharesSide(a, b) <==> SharesSide(b, a)
  {
    var ea, eb := a.Edges(), b.Edges();
    assert ea[0] == a.S1() && ea[1] == a.S2() && ea[2] == a.S3();
    assert eb[0] == b.S1() && eb[1] == b.S2() && eb[2] == b.S3();
  }

  /** What the inner loop over j appends for a fixed i, once it has looked at
      the entries before j. */
  function PairsWith(good: seq<Centred>, i: nat, j: nat): seq<Segment>
    requires i < j <= |good|
    decreases j
  {
    if j == i + 1 then []
    else
      PairsWith(good, i, j - 1)
      + (if SharesSide(good[i].t, good[j - 1].t) then [Segment(good[i].centre, good[j - 1].centre)] else [])
  }

  /** What the double loop over the incident triangles appends, once the
      outer loop has handled the first n of them. */
  function DualEdges(good: seq<Centred>, n: nat): seq<Segment>
    requires n <= |good|
  {
    if n == 0 then [] else DualEdges(good, n - 1) + PairsWith(good, n - 1, |good|)
  }

  lemma {:induction false} PairsWithMembership(good: seq<Centred>, i: nat, j: nat)
    requires i < j <= |good|
    ensures forall s :: s in PairsWith(good, i, j) <==>
      exists m :: i < m < j && SharesSide(good[i].t, good[m].t) && s == Segment(good[i].centre, good[m].centre)
    decreases j
  {
    if j > i + 1 {
      PairsWithMembership(good, i, j - 1);
    }
  }

  /** A Voronoi edge is appended exactly for each pair i < j of incident
      triangles sharing a side, and it joins their two centres. */
  lemma {:induction false} DualEdgesMembership(good: seq<Centred>, n: nat)
    requires n <= |good|
    ensures forall s :: s in DualEdges(good, n) <==>
      exists i, j :: 0 <= i < n && i < j < |good| && SharesSide(good[i].t, good[j].t)
        && s == Segment(good[i].centre, good[j].centre)
  {
    if n > 0 {
      DualEdgesMembership(good, n - 1);
      PairsWithMembership(good, n - 1, |good|);
    }
  }

  /** The later incident triangles, before j, that share a side with triangle i. */
  function Partners(good: seq<Centred>, i: nat, j: nat): set<nat>
    requires i < |good| && j <= |good|
  {
    set m: nat | i < m < j && SharesSide(good[i].t, good[m].t)
  }

  /** The pairs i < m of incident triangles, with i among the first n, that
      share a side. */
  function SharingPairs(good: seq<Centred>, n: nat): set<(nat, nat)>
    requires n <= |good|
  {
    set i: nat, m: nat | i < n && i < m < |good| && SharesSide(good[i].t, good[m].t) :: (i, m)
  }

  /** The inner loop appends one segment per later triangle sharing a side
      with triangle i, and no more. */
  lemma {:induction false} PairsWithCount(good: seq<Centred>, i: nat, j: nat)
    requires i < j <= |good|
    ensures |PairsWith(good, i, j)| == |Partners(good, i, j)|
    decreases j
  {
    if j == i + 1 {
      assert Partners(good, i, j) == {};
    } else {
      PairsWithCount(good, i, j - 1);
      if SharesSide(good[i].t, good[j - 1].t) {
        assert Partners(good, i, j) == Partners(good, i, j - 1) + {j - 1};
      } else {
        assert Partners(good, i, j) == Partners(good, i, j - 1);
      }
    }
  }

  /** The pairs (k, m) for m in s. */
  function Tagged(k: nat, s: set<nat>): set<(nat, nat)>
  {
    set m | m in s :: (k, m)
  }

  /** Tagging with a fixed first index keeps the number of elements. */
  lemma {:induction false} TaggedCount(k: nat, s: set<nat>)
    ensures |Tagged(k, s)| == |s|
    decreases s
  {
    if s != {} {
      var x :| x in s;
      TaggedCount(k, s - {x});
      assert Tagged(k, s) == Tagged(k, s - {x}) + {(k, x)};
    }
  }

  /** The number of pairs i < m of incident triangles sharing a side, with i
      among the first n, counted by their first index. */
  function SharingCount(good: seq<Centred>, n: nat): nat
    requires n <= |good|
  {
    if n == 0 then 0 else SharingCount(good, n - 1) + |Partners(good, n - 1, |good|)|
  }

  /** The double loop appends exactly one segment per pair i < j of incident
      triangles sharing a side: a pair of neighbours is linked once. */
  lemma {:induction false} DualEdgesCount(good: seq<Centred>, n: nat)
    requires n <= |good|
    ensures |DualEdges(good, n)| == SharingCount(good, n)
  {
    if n > 0 {
      DualEdgesCount(good, n - 1);
      DualEdgesGrowth(good, n);
    }
  }

  /** The outer loop's turn for triangle n - 1 appends one segment per later
      partner of it. */
  lemma DualEdgesGrowth(good: seq<Centred>, n: nat)
    requires 0 < n <= |good|
    ensures |DualEdges(good, n)| == |DualEdges(good, n - 1)| + |Partners(good, n - 1, |good|)|
  {
    PairsWithCount(good, n - 1, |good|);
  }

  /** The count is the number of sharing pairs. */
  lemma {:induction false} SharingCountIsPairs(good: seq<Centred>, n: nat)
    requires n <= |good|
    ensures SharingCount(good, n) == |SharingPairs(good, n)|
  {
    if n == 0 {
      NoSharingPairs(good);
    } else {
      SharingCountIsPairs(good, n - 1);
      SharingPairsCountStep(good, n);
    }
  }

  /** Over all incident triangles of a point, the segments appended are as
      many as the pairs i < j sharing a side. */
  lemma DualEdgesOncePerPair(good: seq<Centred>)
    ensures |DualEdges(good, |good|)| == |SharingPairs(good, |good|)|
  {
    DualEdgesCount(good, |good|);
    SharingCountIsPairs(good, |good|);
  }

  /** The pairs whose first index is n - 1 are new when the outer loop
      handles triangle n - 1. */
  lemma SharingPairsStep(good: seq<Centred>, n: nat)
    requires 0 < n <= |good|
    ensures SharingPairs(good, n) == SharingPairs(good, n - 1) + Tagged(n - 1, Partners(good, n - 1, |good|))
    ensures SharingPairs(good, n - 1) !! Tagged(n - 1, Partners(good, n - 1, |good|))
  {
    var old_, row := SharingPairs(good, n - 1), Tagged(n - 1, Partners(good, n - 1, |good|));
    forall q | q in SharingPairs(good, n)
      ensures q in old_ + row
    {
      if q.0 == n - 1 {
        assert q.1 in Partners(good, n - 1, |good|);
      }
    }
    forall q | q in row
      ensures q in SharingPairs(good, n) && q !in old_
    {
      var m :| m in Partners(good, n - 1, |good|) && q == (n - 1, m);
    }
  }

  /** Handling triangle n - 1 adds as many pairs as it has later partners. */
  lemma SharingPairsCountStep(good: seq<Centred>, n: nat)
    requires 0 < n <= |good|
    ensures |SharingPairs(good, n)| == |SharingPairs(good, n - 1)| + |Partners(good, n - 1, |good|)|
  {
    SharingPairsStep(good, n);
    TaggedCount(n - 1, Partners(good, n - 1, |good|));
  }

  /** Before the outer loop starts there is no pair. */
  lemma NoSharingPairs(good: seq<Centred>)
    ensures SharingPairs(good, 0) == {}
  {
    forall q | q in SharingPairs(good, 0)
      ensures false
    {
    }
  }

  /** The segments after the loop over the points: for each point in turn,
      the dual edges among its incident triangles. */
  function VoronoiEdges(g: Oracle, pts: seq<Coords>, ts: seq<Triangle>, unset: Coords): seq<Segment>
  {
    if pts == [] then []
    else
      var good := Incident(g, pts[|pts| - 1], ts, unset);
      VoronoiEdges(g, pts[..|pts| - 1], ts, unset) + DualEdges(good, |good|)
  }

  /** The segments are the dual edges of the incident lists of the points. */
  lemma {:induction false} VoronoiEdgesMembership(g: Oracle, pts: seq<Coords>, ts: seq<Triangle>, unset: Coords)
    ensures forall s :: s in VoronoiEdges(g, pts, ts, unset) <==>
      exists k :: 0 <= k < |pts| && s in DualEdges(Incident(g, pts[k], ts, unset), |Incident(g, pts[k], ts, unset)|)
  {
    if pts != [] {
      var init := pts[..|pts| - 1];
      VoronoiEdgesMembership(g, init, ts, unset);
      assert forall k :: 0 <= k < |init| ==> init[k] == pts[k];
    }
  }

  /** Every Voronoi edge joins the stored centres of two triangles of the list
      that share a side and have a common input point as a vertex. */
  lemma VoronoiEdgeJoinsNeighbours(g: Oracle, pts: seq<Coords>, ts: seq<Triangle>, unset: Coords, s: Segment)
    requires s in VoronoiEdges(g, pts, ts, unset)
    ensures exists k: nat, a: Centred, b: Centred ::
      (&& k < |pts|
       && a in Incident(g, pts[k], ts, unset) && b in Incident(g, pts[k], ts, unset)
       && a.t in ts && b.t in ts && a.t.HasVertex(pts[k]) && b.t.HasVertex(pts[k])
       && SharesSide(a.t, b.t) && s == Segment(a.centre, b.centre))
  {
    VoronoiEdgesMembership(g, pts, ts, unset);
    var k :| 0 <= k < |pts| && s in DualEdges(Incident(g, pts[k], ts, unset), |Incident(g, pts[k], ts, unset)|);
    var good := Incident(g, pts[k], ts, unset);
    DualEdgesMembership(good, |good|);
    var i, j :| 0 <= i < |good| && i < j < |good| && SharesSide(good[i].t, good[j].t)
      && s == Segment(good[i].centre, good[j].centre);
    IncidentMembership(g, pts[k], ts, unset);
    assert good[i] in good && good[j] in good;
  }

  // ---------------------------------------------------------------------
  // Removing the super-triangle
  // ---------------------------------------------------------------------

  /** hasCommonPointsWithSuperTriangle: some vertex is a super-triangle corner. */
  predicate TouchesSuper(t: Triangle) {
    t.p1 == CornerA || t.p1 == CornerB || t.p1 == CornerC
    || t.p2 == CornerA || t.p2 == CornerB || t.p2 == CornerC
    || t.p3 == CornerA || t.p3 == CornerB || t.p3 == CornerC
  }

  /** The bad_triangles of the final pass: those touching a corner, in order. */
  function Touching(ts: seq<Triangle>): seq<Triangle>
  {
    if ts == [] then []
    else
      var t := ts[|ts| - 1];
      Touching(ts[..|ts| - 1]) + (if TouchesSuper(t) then [t] else [])
  }

  /** The triangles touching no corner, in their original order. */
  function Untouched(ts: seq<Triangle>): seq<Triangle>
  {
    if ts == [] then []
    else
      var t := ts[|ts| - 1];
      Untouched(ts[..|ts| - 1]) + (if TouchesSuper(t) then [] else [t])
  }

  lemma {:induction false} TouchingMembership(ts: seq<Triangle>)
    ensures forall t :: t in Touching(ts) <==> t in ts && TouchesSuper(t)
    ensures forall t :: t in Untouched(ts) <==> t in ts && !TouchesSuper(t)
  {
    if ts != [] {
      TouchingMembership(ts[..|ts| - 1]);
      assert ts == ts[..|ts| - 1] + [ts[|ts| - 1]];
    }
  }

  lemma {:induction false} WithoutAllIsUntouched(xs: seq<Triangle>, ds: seq<Triangle>)
    requires forall x :: x in xs ==> (x in ds <==> TouchesSuper(x))
    ensures WithoutAll(xs, ds) == Untouched(xs)
  {
    if xs != [] {
      WithoutAllIsUntouched(xs[..|xs| - 1], ds);
    }
  }

  /** The final pass erases exactly the triangles with a super-triangle corner
      and keeps all the others in their order: afterwards no triangle has a
      corner as a vertex. */
  lemma StripSuper(ts: seq<Triangle>)
    ensures EraseEachTriangle(ts, Touching(ts)) == Untouched(ts)
    ensures forall t :: t in Untouched(ts) ==>
      !t.HasVertex(CornerA) && !t.HasVertex(CornerB) && !t.HasVertex(CornerC)
    ensures forall t :: t in ts && !TouchesSuper(t) ==> t in Untouched(ts)
  {
    var touching := Touching(ts);
    TouchingMembership(ts);
    EraseEachIsWithoutAll(ts, touching);
    WithoutAllIsUntouched(ts, touching);
    UntouchedAvoidsCorners(ts);
  }

  /** No triangle that survives the last pass has a corner as a vertex. */
  lemma UntouchedAvoidsCorners(ts: seq<Triangle>)
    ensures forall t :: t in Untouched(ts) ==>
      !t.HasVertex(CornerA) && !t.HasVertex(CornerB) && !t.HasVertex(CornerC)
  {
    TouchingMembership(ts);
    forall t | t in Untouched(ts)
      ensures !t.HasVertex(CornerA) && !t.HasVertex(CornerB) && !t.HasVertex(CornerC)
    {
      assert !TouchesSuper(t);
    }
  }
}
