/**
  One insertion step of the Bowyer-Watson loop in construitDelaunay, as
  functions on the triangle list: the scan that collects the bad triangles
  and their sides, the cancellation of sides that occur more than once, the
  erasure of the bad triangles, and the fan of new triangles to the point.

  Each list the source builds by push_back is defined by recursion on its
  last element, in the order the loops append to it. Next to the
  definitions that follow the code (Dups, EraseEachSegment,
  EraseEachTriangle) stand reference definitions of what they compute
  (Boundary, WithoutAll, Good), and lemmas proving the two agree.
 */
module Cavity {
  import opened Geometry
  import opened Circumcircle

  // ---------------------------------------------------------------------
  // The scan over the triangle list
  // ---------------------------------------------------------------------

  /** bad_triangles: the triangles whose circumcircle holds p, in scan order. */
  function Bad(g: Oracle, p: Coords, ts: seq<Triangle>): seq<Triangle>
  {
    if ts == [] then []
    else
      var t := ts[|ts| - 1];
      Bad(g, p, ts[..|ts| - 1]) + (if CircumCircle(g, p, t) then [t] else [])
  }

  /** The triangles whose circumcircle does not hold p, in list order. */
  function Good(g: Oracle, p: Coords, ts: seq<Triangle>): seq<Triangle>
  {
    if ts == [] then []
    else
      var t := ts[|ts| - 1];
      Good(g, p, ts[..|ts| - 1]) + (if CircumCircle(g, p, t) then [] else [t])
  }

  /** The scan splits the list: Bad holds exactly the triangles that fail the
      in-circle test and Good exactly the others. */
  lemma {:induction false} BadGoodPartition(g: Oracle, p: Coords, ts: seq<Triangle>)
    ensures forall t :: t in Bad(g, p, ts) <==> t in ts && CircumCircle(g, p, t)
    ensures forall t :: t in Good(g, p, ts) <==> t in ts && !CircumCircle(g, p, t)
    ensures |Bad(g, p, ts)| + |Good(g, p, ts)| == |ts|
  {
    if ts != [] {
      var init := ts[..|ts| - 1];
      BadGoodPartition(g, p, init);
      assert ts == init + [ts[|ts| - 1]];
    }
  }

  /** segments after the scan: the three sides of each bad triangle. */
  function Collected(bad: seq<Triangle>): seq<Segment>
  {
    if bad == [] then [] else Collected(bad[..|bad| - 1]) + bad[|bad| - 1].Edges()
  }

  /** The collected list holds three entries per bad triangle: entry i is side
      i % 3, in the order (p1,p2), (p2,p3), (p3,p1), of bad triangle i / 3. */
  lemma {:induction false} CollectedLayout(bad: seq<Triangle>)
    ensures |Collected(bad)| == 3 * |bad|
    ensures forall i :: 0 <= i < |Collected(bad)| ==> Collected(bad)[i] == bad[i / 3].Edges()[i % 3]
  {
    if bad != [] {
      var init := bad[..|bad| - 1];
      CollectedLayout(init);
      var c := Collected(bad);
      forall i | 0 <= i < |c|
        ensures c[i] == bad[i / 3].Edges()[i % 3]
      {
        if i < 3 * |init| {
          assert c[i] == Collected(init)[i];
          assert init[i / 3] == bad[i / 3];
        } else {
          assert i / 3 == |init|;
        }
      }
    }
  }

  // ---------------------------------------------------------------------
  // Cancellation of repeated sides
  // ---------------------------------------------------------------------

  /** No other entry of the list is equal (undirected) to entry k. */
  predicate UniqueAt(segs: seq<Segment>, k: nat)
    requires k < |segs|
  {
    forall m :: 0 <= m < |segs| && m != k ==> !SegmentEq(segs[m], segs[k])
  }

  /** The entries among the first n that are unique in the whole list, in
      their original order. */
  function BoundaryUpTo(segs: seq<Segment>, n: nat): seq<Segment>
    requires n <= |segs|
  {
    if n == 0 then []
    else BoundaryUpTo(segs, n - 1) + (if UniqueAt(segs, n - 1) then [segs[n - 1]] else [])
  }

  /** The boundary of the cavity: the collected sides that occur once. */
  function Boundary(segs: seq<Segment>): seq<Segment>
  {
    BoundaryUpTo(segs, |segs|)
  }

  /** What the inner loop over j pushes into bad_segments for a fixed i,
      once it has looked at the entries before j. */
  function LaterEq(segs: seq<Segment>, i: nat, j: nat): seq<Segment>
    requires i < j <= |segs|
    decreases j
  {
    if j == i + 1 then []
    else LaterEq(segs, i, j - 1) + (if SegmentEq(segs[i], segs[j - 1]) then [segs[i]] else [])
  }

  /** bad_segments after the outer loop has handled the first n entries. */
  function Dups(segs: seq<Segment>, n: nat): seq<Segment>
    requires n <= |segs|
  {
    if n == 0 then [] else Dups(segs, n - 1) + LaterEq(segs, n - 1, |segs|)
  }

  /** Some entry of ds is equal (undirected) to x. */
  predicate Hits(ds: seq<Segment>, x: Segment) {
    exists k :: 0 <= k < |ds| && SegmentEq(x, ds[k])
  }

  lemma {:induction false} LaterEqMembership(segs: seq<Segment>, i: nat, j: nat)
    requires i < j <= |segs|
    ensures forall d :: d in LaterEq(segs, i, j) <==>
      d == segs[i] && exists m :: i < m < j && SegmentEq(segs[i], segs[m])
    decreases j
  {
    if j > i + 1 {
      LaterEqMembership(segs, i, j - 1);
    }
  }

  /** An entry goes into bad_segments once for every later entry equal to it. */
  lemma {:induction false} DupsMembership(segs: seq<Segment>, n: nat)
    requires n <= |segs|
    ensures forall d :: d in Dups(segs, n) <==>
      exists i, m :: 0 <= i < n && i < m < |segs| && d == segs[i] && SegmentEq(segs[i], segs[m])
  {
    if n > 0 {
      DupsMembership(segs, n - 1);
      LaterEqMembership(segs, n - 1, |segs|);
    }
  }

  /** An entry is equal to some entry of bad_segments exactly when it is not
      unique in the collected list. */
  lemma HitsDupsIffRepeated(segs: seq<Segment>, k: nat)
    requires k < |segs|
    ensures Hits(Dups(segs, |segs|), segs[k]) <==> !UniqueAt(segs, k)
  {
    var ds := Dups(segs, |segs|);
    DupsMembership(segs, |segs|);
    if Hits(ds, segs[k]) {
      var h :| 0 <= h < |ds| && SegmentEq(segs[k], ds[h]);
      assert ds[h] in ds;
      var i, m :| 0 <= i < |segs| && i < m < |segs| && ds[h] == segs[i] && SegmentEq(segs[i], segs[m]);
      SegmentEqIsEquivalence(segs[k], segs[i], segs[m]);
      if i != k {
        SegmentEqIsEquivalence(segs[i], segs[k], segs[k]);
        assert SegmentEq(segs[i], segs[k]);
      } else {
        SegmentEqIsEquivalence(segs[m], segs[k], segs[k]);
        assert SegmentEq(segs[m], segs[k]);
      }
    }
    if !UniqueAt(segs, k) {
      var m :| 0 <= m < |segs| && m != k && SegmentEq(segs[m], segs[k]);
      SegmentEqIsEquivalence(segs[m], segs[k], segs[k]);
      var lo, hi := if m < k then m else k, if m < k then k else m;
      assert SegmentEq(segs[lo], segs[hi]);
      assert segs[lo] in ds;
      var h :| 0 <= h < |ds| && ds[h] == segs[lo];
      SegmentEqIsEquivalence(segs[lo], segs[k], segs[k]);
      assert SegmentEq(segs[k], ds[h]);
    }
  }

  /** std::remove(v) followed by erase on a vector of segments: every entry
      equal to v under Segment::operator== goes, the others stay in order. */
  function EraseSegment(xs: seq<Segment>, v: Segment): (r: seq<Segment>)
    ensures forall x :: x in r <==> x in xs && !SegmentEq(x, v)
    ensures multiset(r) <= multiset(xs)
  {
    if xs == [] then []
    else
      var x := xs[|xs| - 1];
      assert xs == xs[..|xs| - 1] + [x];
      EraseSegment(xs[..|xs| - 1], v) + (if SegmentEq(x, v) then [] else [x])
  }

  /** Erasing one segment is the order-preserving filter that drops the
      entries equal to it: every other entry stays, in its place in the order. */
  lemma EraseSegmentIsFilter(xs: seq<Segment>, v: Segment)
    ensures EraseSegment(xs, v) == WithoutHits(xs, [v])
  {
    EraseEachIsWithoutHits(xs, [v]);
    assert [v][..0] == [];
  }

  /** Erasing one segment drops every occurrence of the entries equal to it
      and keeps every other entry as often as it occurred. */
  lemma {:induction false} EraseSegmentCounts(xs: seq<Segment>, v: Segment)
    ensures forall x :: multiset(EraseSegment(xs, v))[x] == if SegmentEq(x, v) then 0 else multiset(xs)[x]
  {
    if xs != [] {
      var init, y := xs[..|xs| - 1], xs[|xs| - 1];
      EraseSegmentCounts(init, v);
      assert xs == init + [y];
    }
  }

  /** The segment list after one remove/erase per entry of ds, in order. */
  function EraseEachSegment(xs: seq<Segment>, ds: seq<Segment>): seq<Segment>
  {
    if ds == [] then xs
    else EraseSegment(EraseEachSegment(xs, ds[..|ds| - 1]), ds[|ds| - 1])
  }

  /** The entries of xs equal to no entry of ds, in their original order. */
  function WithoutHits(xs: seq<Segment>, ds: seq<Segment>): seq<Segment>
  {
    if xs == [] then []
    else
      var x := xs[|xs| - 1];
      WithoutHits(xs[..|xs| - 1], ds) + (if Hits(ds, x) then [] else [x])
  }

  lemma {:induction false} EraseAfterWithoutHits(xs: seq<Segment>, ds: seq<Segment>, d: Segment)
    ensures EraseSegment(WithoutHits(xs, ds), d) == WithoutHits(xs, ds + [d])
  {
    if xs != [] {
      var x := xs[|xs| - 1];
      EraseAfterWithoutHits(xs[..|xs| - 1], ds, d);
      var e := ds + [d];
      assert Hits(e, x) <==> Hits(ds, x) || SegmentEq(x, d) by {
        if Hits(ds, x) {
          var k :| 0 <= k < |ds| && SegmentEq(x, ds[k]);
          assert e[k] == ds[k];
        }
        if SegmentEq(x, d) {
          assert e[|ds|] == d;
        }
        if Hits(e, x) {
          var k :| 0 <= k < |e| && SegmentEq(x, e[k]);
          if k < |ds| {
            assert e[k] == ds[k];
          }
        }
      }
      var w := WithoutHits(xs[..|xs| - 1], ds);
      if !Hits(ds, x) {
        assert WithoutHits(xs, ds) == w + [x];
        assert (w + [x])[..|w + [x]| - 1] == w;
      } else {
        assert WithoutHits(xs, ds) == w;
      }
    }
  }

  /** Erasing the entries of ds one after another removes exactly the entries
      equal to some entry of ds, keeping the order of the rest. */
  lemma {:induction false} EraseEachIsWithoutHits(xs: seq<Segment>, ds: seq<Segment>)
    ensures EraseEachSegment(xs, ds) == WithoutHits(xs, ds)
  {
    if ds == [] {
      WithoutNothing(xs);
    } else {
      var init := ds[..|ds| - 1];
      EraseEachIsWithoutHits(xs, init);
      EraseAfterWithoutHits(xs, init, ds[|ds| - 1]);
      assert init + [ds[|ds| - 1]] == ds;
    }
  }

  lemma {:induction false} WithoutNothing(xs: seq<Segment>)
    ensures WithoutHits(xs, []) == xs
  {
    if xs != [] {
      WithoutNothing(xs[..|xs| - 1]);
      assert xs == xs[..|xs| - 1] + [xs[|xs| - 1]];
    }
  }

  lemma {:induction false} WithoutDupsIsBoundary(segs: seq<Segment>, n: nat)
    requires n <= |segs|
    ensures WithoutHits(segs[..n], Dups(segs, |segs|)) == BoundaryUpTo(segs, n)
  {
    if n > 0 {
      WithoutDupsIsBoundary(segs, n - 1);
      assert segs[..n][..n - 1] == segs[..n - 1];
      HitsDupsIffRepeated(segs, n - 1);
    }
  }

  /** The cancellation as written (every pair i < j of equal entries pushes
      entry i into bad_segments; then every entry equal to a bad_segments
      entry is erased) leaves exactly the entries that are unique in the
      collected list, in their original order. */
  lemma CancelIsBoundary(segs: seq<Segment>)
    ensures EraseEachSegment(segs, Dups(segs, |segs|)) == Boundary(segs)
  {
    EraseEachIsWithoutHits(segs, Dups(segs, |segs|));
    WithoutDupsIsBoundary(segs, |segs|);
    assert segs[..|segs|] == segs;
  }

  lemma {:induction false} BoundaryUpToMembership(segs: seq<Segment>, n: nat)
    requires n <= |segs|
    ensures forall x :: x in BoundaryUpTo(segs, n) <==>
      exists k :: 0 <= k < n && segs[k] == x && UniqueAt(segs, k)
  {
    if n > 0 {
      BoundaryUpToMembership(segs, n - 1);
    }
  }

  /** A side survives exactly when no other collected entry equals it. */
  lemma BoundaryMembership(segs: seq<Segment>)
    ensures forall x :: x in Boundary(segs) <==>
      exists k :: 0 <= k < |segs| && segs[k] == x && UniqueAt(segs, k)
  {
    BoundaryUpToMembership(segs, |segs|);
  }

  lemma {:induction false} BoundaryUpToDistinct(segs: seq<Segment>, n: nat)
    requires n <= |segs|
    ensures forall a, b :: 0 <= a < b < |BoundaryUpTo(segs, n)| ==>
      !SegmentEq(BoundaryUpTo(segs, n)[a], BoundaryUpTo(segs, n)[b])
  {
    if n > 0 {
      var w := BoundaryUpTo(segs, n - 1);
      BoundaryUpToDistinct(segs, n - 1);
      if UniqueAt(segs, n - 1) {
        var r := w + [segs[n - 1]];
        BoundaryUpToMembership(segs, n - 1);
        forall a, b | 0 <= a < b < |r|
          ensures !SegmentEq(r[a], r[b])
        {
          if b == |w| {
            assert r[a] == w[a] && w[a] in w;
            var k :| 0 <= k < n - 1 && segs[k] == w[a] && UniqueAt(segs, k);
            assert !SegmentEq(segs[k], segs[n - 1]);
          } else {
            assert r[a] == w[a] && r[b] == w[b];
          }
        }
      }
    }
  }

  /** The surviving sides are pairwise distinct, even up to direction. */
  lemma BoundaryDistinct(segs: seq<Segment>)
    ensures forall a, b :: 0 <= a < b < |Boundary(segs)| ==>
      !SegmentEq(Boundary(segs)[a], Boundary(segs)[b])
  {
    BoundaryUpToDistinct(segs, |segs|);
  }

  // ---------------------------------------------------------------------
  // Erasing triangles
  // ---------------------------------------------------------------------

  /** std::remove(v) followed by erase on the triangle vector: every triangle
      equal to v under Triangle::operator== goes, the others stay in order. */
  function EraseTriangle(ts: seq<Triangle>, v: Triangle): (r: seq<Triangle>)
    ensures multiset(r) == multiset(ts)[v := 0]
  {
    if ts == [] then []
    else
      var t := ts[|ts| - 1];
      assert ts == ts[..|ts| - 1] + [t];
      EraseTriangle(ts[..|ts| - 1], v) + (if SameTriangle(t, v) then [] else [t])
  }

  /** The triangle list after one remove/erase per entry of ds, in order. */
  function EraseEachTriangle(ts: seq<Triangle>, ds: seq<Triangle>): seq<Triangle>
  {
    if ds == [] then ts
    else EraseTriangle(EraseEachTriangle(ts, ds[..|ds| - 1]), ds[|ds| - 1])
  }

  /** The triangles of ts that are not in ds, in their original order. */
  function WithoutAll(ts: seq<Triangle>, ds: seq<Triangle>): seq<Triangle>
  {
    if ts == [] then []
    else
      var t := ts[|ts| - 1];
      WithoutAll(ts[..|ts| - 1], ds) + (if t in ds then [] else [t])
  }

  lemma {:induction false} EraseAfterWithoutAll(ts: seq<Triangle>, ds: seq<Triangle>, d: Triangle)
    ensures EraseTriangle(WithoutAll(ts, ds), d) == WithoutAll(ts, ds + [d])
  {
    if ts != [] {
      var t := ts[|ts| - 1];
      var init := ts[..|ts| - 1];
      EraseAfterWithoutAll(init, ds, d);
      var w := WithoutAll(init, ds);
      assert t in ds + [d] <==> t in ds || t == d;
      if t !in ds {
        var wt := w + [t];
        assert WithoutAll(ts, ds) == wt;
        assert wt[..|wt| - 1] == w;
        assert EraseTriangle(wt, d) == EraseTriangle(w, d) + (if SameTriangle(t, d) then [] else [t]);
      } else {
        assert WithoutAll(ts, ds) == w;
      }
    }
  }

  lemma {:induction false} WithoutNone(ts: seq<Triangle>)
    ensures WithoutAll(ts, []) == ts
  {
    if ts != [] {
      WithoutNone(ts[..|ts| - 1]);
      assert ts == ts[..|ts| - 1] + [ts[|ts| - 1]];
    }
  }

  /** Erasing the triangles of ds one after another removes exactly the
      triangles positionally equal to one of them and keeps the order of the
      rest. */
  lemma {:induction false} EraseEachIsWithoutAll(ts: seq<Triangle>, ds: seq<Triangle>)
    ensures EraseEachTriangle(ts, ds) == WithoutAll(ts, ds)
  {
    if ds == [] {
      WithoutNone(ts);
    } else {
      var init := ds[..|ds| - 1];
      EraseEachIsWithoutAll(ts, init);
      EraseAfterWithoutAll(ts, init, ds[|ds| - 1]);
      assert init + [ds[|ds| - 1]] == ds;
    }
  }

  lemma {:induction false} WithoutAllIsGood(g: Oracle, p: Coords, xs: seq<Triangle>, ds: seq<Triangle>)
    requires forall x :: x in xs ==> (x in ds <==> CircumCircle(g, p, x))
    ensures WithoutAll(xs, ds) == Good(g, p, xs)
  {
    if xs != [] {
      WithoutAllIsGood(g, p, xs[..|xs| - 1], ds);
    }
  }

  /** Erasing every bad triangle leaves exactly the good ones, in order: a
      triangle that repeats the vertices of a bad one is bad itself. */
  lemma EraseBadLeavesGood(g: Oracle, p: Coords, ts: seq<Triangle>)
    ensures EraseEachTriangle(ts, Bad(g, p, ts)) == Good(g, p, ts)
  {
    BadGoodPartition(g, p, ts);
    EraseEachIsWithoutAll(ts, Bad(g, p, ts));
    WithoutAllIsGood(g, p, ts, Bad(g, p, ts));
  }

  // ---------------------------------------------------------------------
  // The fan and the whole step
  // ---------------------------------------------------------------------

  /** The triangles pushed for the surviving sides: one per side, with the
      new point as third vertex. */
  function Fan(segs: seq<Segment>, p: Coords): (r: seq<Triangle>)
    ensures |r| == |segs|
    ensures forall k :: 0 <= k < |segs| ==> r[k] == Triangle(segs[k].p1, segs[k].p2, p)
  {
    if segs == [] then []
    else Fan(segs[..|segs| - 1], p) + [Triangle(segs[|segs| - 1].p1, segs[|segs| - 1].p2, p)]
  }

  /** The triangle list after inserting p: the good triangles in their order,
      then one triangle per boundary side of the cavity. */
  function Step(g: Oracle, p: Coords, ts: seq<Triangle>): seq<Triangle>
  {
    Good(g, p, ts) + Fan(Boundary(Collected(Bad(g, p, ts))), p)
  }

  /** What one insertion does to the list: it drops the bad triangles, keeps
      every other triangle, and appends exactly one triangle (s.p1, s.p2, p)
      per surviving side s, so the count changes by survivors minus bad. */
  lemma StepShape(g: Oracle, p: Coords, ts: seq<Triangle>)
    ensures |Step(g, p, ts)| == |ts| - |Bad(g, p, ts)| + |Boundary(Collected(Bad(g, p, ts)))|
    ensures forall t :: t in ts && !CircumCircle(g, p, t) ==> t in Step(g, p, ts)
    ensures forall k :: |Good(g, p, ts)| <= k < |Step(g, p, ts)| ==> Step(g, p, ts)[k].p3 == p
    ensures forall t :: t in Step(g, p, ts) && t.p3 != p ==> t in ts && !CircumCircle(g, p, t)
  {
    BadGoodPartition(g, p, ts);
  }
}
