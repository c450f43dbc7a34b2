/** The three targets of the search counterexample, built by the
    constructor: the layout the counterexample searches is the one the
    build produces. */
module ThreeTargets {
  import opened Geometry
  import opened Partition
  import opened Sorting
  import opened TargetOrders
  import opened KdBuild
  import opened RadiusSearch

  /** The constructor lays out ThreeTree for ThreeOnAxis. */
  lemma ThreeTreeBuilt()
    ensures Built(ThreeOnAxis()).0 == ThreeTree()
  {
    var pts := ThreeOnAxis();
    assert pts[0] == Point(0, 0, 0) && pts[1] == Point(50, 0, 0) && pts[2] == Point(100, 0, 0);
    InitialThree(pts);
    InitialReady(pts);
    BuildThree(pts, Initial(pts));
  }

  /** A single entry is already sorted. */
  lemma SortOne(pts: seq<Point>, a: Axis)
    requires |pts| == 3
    ensures SortBy(pts, a, [0]) == [0]
  {
    var s0: seq<nat> := [0];
    assert s0[..0] == [];
  }

  /** Two entries already in order on axis `a` stay in order. */
  lemma SortTwo(pts: seq<Point>, a: Axis)
    requires |pts| == 3
    requires Coord(pts[0], a) <= Coord(pts[1], a)
    ensures SortBy(pts, a, [0, 1]) == [0, 1]
  {
    var s1: seq<nat> := [0, 1];
    assert s1[..1] == [0];
    SortOne(pts, a);
    assert Insert(pts, a, [0], 1) == [0] + Insert(pts, a, [], 1);
  }

  /** Three entries already in order on axis `a` stay in order. */
  lemma SortThree(pts: seq<Point>, a: Axis)
    requires |pts| == 3
    requires Coord(pts[0], a) <= Coord(pts[1], a) <= Coord(pts[2], a)
    ensures SortBy(pts, a, [0, 1, 2]) == [0, 1, 2]
  {
    var s2: seq<nat> := [0, 1, 2];
    assert s2[..2] == [0, 1];
    SortTwo(pts, a);
    assert [0, 1][1..] == [1];
    assert Insert(pts, a, [1], 2) == [1, 2];
    assert Insert(pts, a, [0, 1], 2) == [0] + Insert(pts, a, [1], 2);
  }

  /** Three targets in order on every axis: each sorted copy is the identity. */
  lemma InitialThree(pts: seq<Point>)
    requires |pts| == 3
    requires forall a: Axis :: Coord(pts[0], a) <= Coord(pts[1], a) <= Coord(pts[2], a)
    ensures Initial(pts) == Orders([0, 1, 2], [0, 1, 2], [0, 1, 2])
  {
    assert Ids(3) == [0, 1, 2];
    SortThree(pts, 0);
    SortThree(pts, 1);
    SortThree(pts, 2);
  }

  /** The first two slots split around target 1 on x: only target 0 goes left. */
  lemma SplitTwo(pts: seq<Point>)
    requires |pts| == 3
    requires Coord(pts[0], 0) <= Coord(pts[1], 0)
    ensures Below(pts, 0, [0, 1], 1) == [0]
    ensures Above(pts, 0, [0, 1], 1) == []
  {
    var s1: seq<nat> := [0, 1];
    assert s1[..1] == [0];
    var s0: seq<nat> := [0];
    assert s0[..0] == [];
  }

  /** Around target 1 on x, target 0 goes left and target 2 right. */
  lemma SplitThree(pts: seq<Point>)
    requires |pts| == 3
    requires Coord(pts[0], 0) <= Coord(pts[1], 0) < Coord(pts[2], 0)
    ensures Split(pts, 0, [0, 1, 2], 1) == [0, 2]
  {
    var s2: seq<nat> := [0, 1, 2];
    assert s2[..2] == [0, 1];
    SplitTwo(pts);
  }

  /** Rewriting the y array [0, 1, 2] around target 1 on x leaves it as it is. */
  lemma RepartitionThree(pts: seq<Point>)
    requires |pts| == 3
    requires Coord(pts[0], 0) <= Coord(pts[1], 0) < Coord(pts[2], 0)
    ensures multiset([0, 1, 2][0..3])[1] == 1
    ensures Repartition(pts, 0, [0, 1, 2], 0, 3, 1, 1) == [0, 1, 2]
  {
    var s: seq<nat> := [0, 1, 2];
    assert s[0..3] == s && multiset(s)[1] == 1;
    var w := Repartition(pts, 0, s, 0, 3, 1, 1);
    RepartitionMiddle(pts, 0, s, 0, 3, 1, 1);
    SplitThree(pts);
    assert w[0..3] == [0] + [1] + [2];
  }

  /** The root's step leaves the y array of the identity orders unchanged. */
  lemma StepThree(pts: seq<Point>, o: Orders)
    requires |pts| == 3
    requires Coord(pts[0], 0) <= Coord(pts[1], 0) < Coord(pts[2], 0)
    requires o == Orders([0, 1, 2], [0, 1, 2], [0, 1, 2])
    requires RangesNoDup(o, 0, 3)
    ensures Step(pts, o, 0, 0, 3) == o
  {
    var s: seq<nat> := [0, 1, 2];
    assert Median(0, 3) == 1 && o.At(0)[1] == 1 && o.At(Next(0)) == s;
    assert s[0..3] == s && multiset(s)[1] == 1;
    RepartitionThree(pts);
    StepIs(pts, o, 0, 0, 3, s);
  }

  /** From the identity orders the build gives the root 1 on x, leaves 0 and 2 on y. */
  lemma BuildThree(pts: seq<Point>, o: Orders)
    requires |pts| == 3
    requires Coord(pts[0], 0) <= Coord(pts[1], 0) < Coord(pts[2], 0)
    requires o == Orders([0, 1, 2], [0, 1, 2], [0, 1, 2])
    requires RangesNoDup(o, 0, 3)
    ensures Build(pts, o, 0, 0, 3).0 == Node(1, 0, Node(0, 1, Nil, Nil), Node(2, 1, Nil, Nil))
  {
    StepThree(pts, o);
    BuildOfThree(pts, o, 0);
  }
}
