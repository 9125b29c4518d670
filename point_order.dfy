/**
  The order in which points are inserted: compareCoords, a lexicographic
  order on (x, y), and the sort of the point list that precedes every build.
 */
module PointOrder {
  import opened Geometry

  /** compareCoords: by x, and by y between points with the same x. */
  function CompareCoords(a: Coords, b: Coords): (r: bool)
    ensures r <==> a.x < b.x || (a.x == b.x && a.y < b.y)
  {
    if a.x == b.x then a.y < b.y else a.x < b.x
  }

  /** compareCoords is a strict total order whose only ties are equal points,
      the requirement std::sort places on its comparator. */
  lemma CompareCoordsIsStrictTotalOrder(a: Coords, b: Coords, c: Coords)
    ensures !CompareCoords(a, a)
    ensures CompareCoords(a, b) ==> !CompareCoords(b, a)
    ensures CompareCoords(a, b) && CompareCoords(b, c) ==> CompareCoords(a, c)
    ensures a != b ==> CompareCoords(a, b) || CompareCoords(b, a)
  {
  }

  /** Non-decreasing under compareCoords: no later point is smaller. */
  predicate Sorted(s: seq<Coords>) {
    forall i, j :: 0 <= i < j < |s| ==> !CompareCoords(s[j], s[i])
  }

  /** Inserts x into a sorted list, before the first element not smaller than x. */
  function Insert(x: Coords, s: seq<Coords>): (r: seq<Coords>)
    requires Sorted(s)
    ensures Sorted(r)
    ensures multiset(r) == multiset(s) + multiset{x}
  {
    if s == [] || !CompareCoords(s[0], x) then
      InsertAtFront(x, s);
      [x] + s
    else
      var rest := Insert(x, s[1..]);
      InsertBehindHead(x, s, rest);
      [s[0]] + rest
  }

  lemma InsertAtFront(x: Coords, s: seq<Coords>)
    requires Sorted(s)
    requires s == [] || !CompareCoords(s[0], x)
    ensures Sorted([x] + s)
  {
    var r := [x] + s;
    forall i, j | 0 <= i < j < |r|
      ensures !CompareCoords(r[j], r[i])
    {
      if i == 0 {
        assert r[j] == s[j - 1];
        if j > 1 {
          assert !CompareCoords(s[j - 1], s[0]);
        }
      } else {
        assert r[i] == s[i - 1] && r[j] == s[j - 1];
      }
    }
  }

  lemma InsertBehindHead(x: Coords, s: seq<Coords>, rest: seq<Coords>)
    requires Sorted(s) && s != [] && CompareCoords(s[0], x)
    requires Sorted(rest) && multiset(rest) == multiset(s[1..]) + multiset{x}
    ensures Sorted([s[0]] + rest)
    ensures multiset([s[0]] + rest) == multiset(s) + multiset{x}
  {
    assert s == [s[0]] + s[1..];
    var r := [s[0]] + rest;
    forall i, j | 0 <= i < j < |r|
      ensures !CompareCoords(r[j], r[i])
    {
      if i == 0 {
        assert r[j] == rest[j - 1];
        assert rest[j - 1] in multiset(rest);
        if rest[j - 1] != x {
          assert rest[j - 1] in multiset(s[1..]);
          var m :| 0 <= m < |s[1..]| && s[1..][m] == rest[j - 1];
          assert s[m + 1] == rest[j - 1];
        }
      } else {
        assert r[i] == rest[i - 1] && r[j] == rest[j - 1];
      }
    }
  }

  /** The point list after std::sort(points, compareCoords): sorted and a
      permutation of its input. */
  function SortCoords(s: seq<Coords>): (r: seq<Coords>)
    ensures Sorted(r)
    ensures multiset(r) == multiset(s)
  {
    if s == [] then []
    else
      assert s == [s[0]] + s[1..];
      Insert(s[0], SortCoords(s[1..]))
  }

  /** A sorted permutation is unique: since the only ties of compareCoords
      are equal points, every correct sort of the same points gives the
      same list, whatever algorithm std::sort uses. */
  lemma {:induction false} SortedIsUnique(a: seq<Coords>, b: seq<Coords>)
    requires Sorted(a) && Sorted(b)
    requires multiset(a) == multiset(b)
    ensures a == b
  {
    if a == [] {
      assert |b| == |multiset(b)| == 0;
    } else {
      assert |b| == |multiset(b)| == |multiset(a)| == |a|;
      SortedHeadsAgree(a, b);
      DropHead(a);
      DropHead(b);
      SortedIsUnique(a[1..], b[1..]);
      assert a == [a[0]] + a[1..] && b == [b[0]] + b[1..];
    }
  }

  /** Two non-empty sorted permutations of each other start with the same point. */
  lemma SortedHeadsAgree(a: seq<Coords>, b: seq<Coords>)
    requires Sorted(a) && Sorted(b) && a != [] && b != []
    requires multiset(a) == multiset(b)
    ensures a[0] == b[0]
  {
    assert a[0] in multiset(b) && b[0] in multiset(a);
    var i :| 0 <= i < |b| && b[i] == a[0];
    var j :| 0 <= j < |a| && a[j] == b[0];
    CompareCoordsIsStrictTotalOrder(a[0], b[0], a[0]);
  }

  /** The tail of a list holds its points minus one copy of the head. */
  lemma DropHead(a: seq<Coords>)
    requires a != []
    ensures Sorted(a) ==> Sorted(a[1..])
    ensures multiset(a[1..]) == multiset(a) - multiset{a[0]}
  {
    assert a == [a[0]] + a[1..];
  }

  /** Sorting a sorted list changes nothing, so rebuilding from the already
      sorted points sorts them to the same list. */
  lemma SortIsIdempotent(s: seq<Coords>)
    ensures SortCoords(SortCoords(s)) == SortCoords(s)
  {
    SortedIsUnique(SortCoords(SortCoords(s)), SortCoords(s));
  }

  /** The sort depends only on which points there are and how often. */
  lemma SortDependsOnlyOnMultiset(s: seq<Coords>, t: seq<Coords>)
    requires multiset(s) == multiset(t)
    ensures SortCoords(s) == SortCoords(t)
  {
    SortedIsUnique(SortCoords(s), SortCoords(t));
  }
}
