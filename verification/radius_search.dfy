/** The fixed-radius query `neighbors`: the targets of a subtree whose
    squared distance to the probe (the bomb) is strictly below the squared
    radius. Results are listed node first, then the left subtree's, then
    the right subtree's. */
module RadiusSearch {
  import opened Geometry
  import opened KdBuild

  /** The children of a node name targets whenever the node's subtree does. */
  lemma ChildIdsBelow(id: nat, axis: Axis, l: Tree, r: Tree, n: nat)
    requires IdsBelow(PreOrder(Node(id, axis, l, r)), n)
    ensures id < n && IdsBelow(PreOrder(l), n) && IdsBelow(PreOrder(r), n)
  {
    var s := PreOrder(Node(id, axis, l, r));
    assert s == [id] + PreOrder(l) + PreOrder(r);
    assert s[0] == id;
    forall i | 0 <= i < |PreOrder(l)| ensures PreOrder(l)[i] < n {
      assert s[1 + i] == PreOrder(l)[i];
    }
    forall i | 0 <= i < |PreOrder(r)| ensures PreOrder(r)[i] < n {
      assert s[1 + |PreOrder(l)| + i] == PreOrder(r)[i];
    }
  }

  /** The recursive `neighbors` as written: a node inside the radius is
      reported and both subtrees are searched; a node outside it whose
      split-axis distance is below the radius leads to the one subtree on
      the probe's side (left exactly when the probe's coordinate is
      smaller); any other node ends the search. */
  function Search(pts: seq<Point>, probe: Point, r2: int, t: Tree): (found: seq<nat>)
    requires IdsBelow(PreOrder(t), |pts|)
    ensures forall i :: 0 <= i < |found| ==> found[i] < |pts| && SqDist(probe, pts[found[i]]) < r2
  {
    match t
    case Nil => []
    case Node(id, axis, l, r) =>
      ChildIdsBelow(id, axis, l, r, |pts|);
      var p := pts[id];
      if SqDist(probe, p) < r2 then
        [id] + Search(pts, probe, r2, l) + Search(pts, probe, r2, r)
      else if AxisSqDist(probe, p, axis) < r2 then
        if Coord(probe, axis) < Coord(p, axis) then Search(pts, probe, r2, l)
        else Search(pts, probe, r2, r)
      else
        []
  }

  /** The brute-force reference: the entries of `s` inside the radius, in order. */
  function InRadius(pts: seq<Point>, probe: Point, r2: int, s: seq<nat>): seq<nat>
    requires IdsBelow(s, |pts|)
  {
    if s == [] then []
    else (if SqDist(probe, pts[s[0]]) < r2 then [s[0]] else []) + InRadius(pts, probe, r2, s[1..])
  }

  lemma {:induction false} InRadiusAppend(pts: seq<Point>, probe: Point, r2: int, s: seq<nat>, u: seq<nat>)
    requires IdsBelow(s, |pts|) && IdsBelow(u, |pts|)
    ensures IdsBelow(s + u, |pts|)
    ensures InRadius(pts, probe, r2, s + u) == InRadius(pts, probe, r2, s) + InRadius(pts, probe, r2, u)
  {
    if s == [] {
      assert s + u == u;
    } else {
      assert (s + u)[0] == s[0] && (s + u)[1..] == s[1..] + u;
      InRadiusAppend(pts, probe, r2, s[1..], u);
      var h: seq<nat> := if SqDist(probe, pts[s[0]]) < r2 then [s[0]] else [];
      var x := InRadius(pts, probe, r2, s[1..]);
      var y := InRadius(pts, probe, r2, u);
      assert h + (x + y) == (h + x) + y;
    }
  }

  /** The reference over a node's pre-order list: the node if it is inside,
      then the left subtree's entries, then the right subtree's. */
  lemma InRadiusNode(pts: seq<Point>, probe: Point, r2: int, id: nat, axis: Axis, l: Tree, r: Tree)
    requires IdsBelow(PreOrder(Node(id, axis, l, r)), |pts|)
    ensures id < |pts| && IdsBelow(PreOrder(l), |pts|) && IdsBelow(PreOrder(r), |pts|)
    ensures InRadius(pts, probe, r2, PreOrder(Node(id, axis, l, r)))
         == (if SqDist(probe, pts[id]) < r2 then [id] else [])
          + InRadius(pts, probe, r2, PreOrder(l)) + InRadius(pts, probe, r2, PreOrder(r))
  {
    ChildIdsBelow(id, axis, l, r, |pts|);
    var pl, pr := PreOrder(l), PreOrder(r);
    InRadiusAppend(pts, probe, r2, [id], pl);
    InRadiusAppend(pts, probe, r2, [id] + pl, pr);
    assert InRadius(pts, probe, r2, [id]) == (if SqDist(probe, pts[id]) < r2 then [id] else []) + InRadius(pts, probe, r2, []);
  }

  /** `x` is `y` with some entries left out, the rest in their order. */
  predicate IsSubseq(x: seq<nat>, y: seq<nat>)
    decreases |y|
  {
    if y == [] then x == []
    else (x != [] && x[0] == y[0] && IsSubseq(x[1..], y[1..])) || IsSubseq(x, y[1..])
  }

  lemma {:induction false} SubseqOfEmpty(y: seq<nat>)
    ensures IsSubseq([], y)
    decreases |y|
  {
    if y != [] {
      SubseqOfEmpty(y[1..]);
    }
  }

  lemma {:induction false} SubseqPrepend(x: seq<nat>, b: seq<nat>, y: seq<nat>)
    requires IsSubseq(x, y)
    ensures IsSubseq(x, b + y)
    decreases |b|
  {
    if b != [] {
      assert (b + y)[1..] == b[1..] + y;
      SubseqPrepend(x, b[1..], y);
    } else {
      assert b + y == y;
    }
  }

  lemma {:induction false} SubseqConcat(a: seq<nat>, b: seq<nat>, c: seq<nat>, d: seq<nat>)
    requires IsSubseq(a, b) && IsSubseq(c, d)
    ensures IsSubseq(a + c, b + d)
    decreases |b|
  {
    if b == [] {
      assert a == [];
      assert a + c == c && b + d == d;
    } else {
      assert (b + d)[0] == b[0] && (b + d)[1..] == b[1..] + d;
      if a != [] && a[0] == b[0] && IsSubseq(a[1..], b[1..]) {
        SubseqConcat(a[1..], b[1..], c, d);
        assert (a + c)[0] == a[0] && (a + c)[1..] == a[1..] + c;
      } else {
        SubseqConcat(a, b[1..], c, d);
      }
    }
  }

  /** Every answer of the search is an answer of the brute-force scan of the
      subtree, in the same relative order: the search is sound and lists
      its results in pre-order. */
  lemma {:induction false} SearchIsSubseq(pts: seq<Point>, probe: Point, r2: int, t: Tree)
    requires IdsBelow(PreOrder(t), |pts|)
    ensures IsSubseq(Search(pts, probe, r2, t), InRadius(pts, probe, r2, PreOrder(t)))
  {
    match t
    case Nil =>
    case Node(id, axis, l, r) =>
      InRadiusNode(pts, probe, r2, id, axis, l, r);
      SearchIsSubseq(pts, probe, r2, l);
      SearchIsSubseq(pts, probe, r2, r);
      var sl, sr := Search(pts, probe, r2, l), Search(pts, probe, r2, r);
      var il, ir := InRadius(pts, probe, r2, PreOrder(l)), InRadius(pts, probe, r2, PreOrder(r));
      var h: seq<nat> := if SqDist(probe, pts[id]) < r2 then [id] else [];
      var p := pts[id];
      if SqDist(probe, p) < r2 {
        assert IsSubseq([id], [id]) by {
          assert [id][1..] == [];
        }
        SubseqConcat([id], [id], sl, il);
        SubseqConcat([id] + sl, [id] + il, sr, ir);
      } else if AxisSqDist(probe, p, axis) < r2 {
        if Coord(probe, axis) < Coord(p, axis) {
          SubseqOfEmpty(ir);
          SubseqConcat(sl, il, [], ir);
          assert sl + [] == sl;
          SubseqPrepend(sl, h, il + ir);
          assert h + (il + ir) == h + il + ir;
        } else {
          SubseqPrepend(sr, h + il, ir);
        }
      } else {
        SubseqOfEmpty(h + il + ir);
      }
  }

  /** A node outside the radius is never reported: if its split-axis
      distance is not below the radius nothing of its subtree is, and
      otherwise only the subtree on the probe's side is searched. */
  lemma SearchOutsideRadius(pts: seq<Point>, probe: Point, r2: int, id: nat, axis: Axis, l: Tree, r: Tree)
    requires IdsBelow(PreOrder(Node(id, axis, l, r)), |pts|)
    requires id < |pts| && SqDist(probe, pts[id]) >= r2
    ensures IdsBelow(PreOrder(l), |pts|) && IdsBelow(PreOrder(r), |pts|)
    ensures AxisSqDist(probe, pts[id], axis) >= r2 ==> Search(pts, probe, r2, Node(id, axis, l, r)) == []
    ensures AxisSqDist(probe, pts[id], axis) < r2 && Coord(probe, axis) < Coord(pts[id], axis)
            ==> Search(pts, probe, r2, Node(id, axis, l, r)) == Search(pts, probe, r2, l)
    ensures AxisSqDist(probe, pts[id], axis) < r2 && Coord(probe, axis) >= Coord(pts[id], axis)
            ==> Search(pts, probe, r2, Node(id, axis, l, r)) == Search(pts, probe, r2, r)
  {
    ChildIdsBelow(id, axis, l, r, |pts|);
  }

  /** The search ordering a KD tree promises: on its split axis, every target
      of a node's left subtree lies at or below the node, and every target
      of its right subtree at or above it. */
  predicate KdOrdered(pts: seq<Point>, t: Tree)
    requires IdsBelow(PreOrder(t), |pts|)
  {
    match t
    case Nil => true
    case Node(id, axis, l, r) =>
      ChildIdsBelow(id, axis, l, r, |pts|);
      && (forall i :: 0 <= i < |PreOrder(l)| ==> Coord(pts[PreOrder(l)[i]], axis) <= Coord(pts[id], axis))
      && (forall i :: 0 <= i < |PreOrder(r)| ==> Coord(pts[id], axis) <= Coord(pts[PreOrder(r)[i]], axis))
      && KdOrdered(pts, l) && KdOrdered(pts, r)
  }

  /** The search with the usual KD pruning: the node is reported when it is
      inside the radius, the subtree on the probe's side is always searched
      and the other one exactly when the split-axis distance is below the
      radius. */
  function CompleteSearch(pts: seq<Point>, probe: Point, r2: int, t: Tree): (found: seq<nat>)
    requires IdsBelow(PreOrder(t), |pts|)
  {
    match t
    case Nil => []
    case Node(id, axis, l, r) =>
      ChildIdsBelow(id, axis, l, r, |pts|);
      var p := pts[id];
      var onLeft := Coord(probe, axis) < Coord(p, axis);
      var reach := AxisSqDist(probe, p, axis) < r2;
      (if SqDist(probe, p) < r2 then [id] else [])
        + (if onLeft || reach then CompleteSearch(pts, probe, r2, l) else [])
        + (if !onLeft || reach then CompleteSearch(pts, probe, r2, r) else [])
  }

  /** A target at least as far from the probe along one axis as the
      pruning bound allows is outside the radius. */
  lemma FarOnAxis(probe: Point, p: Point, q: Point, axis: Axis, r2: int)
    requires AxisSqDist(probe, p, axis) >= r2
    requires Coord(probe, axis) < Coord(p, axis) <= Coord(q, axis)
          || Coord(q, axis) <= Coord(p, axis) <= Coord(probe, axis)
    ensures SqDist(probe, q) >= r2
  {
    AxisSqDistBound(probe, q, axis);
    var c, u, v := Coord(probe, axis), Coord(p, axis), Coord(q, axis);
    if c < u {
      SquareMonotone(u - c, v - c);
      SquareOfNegation(u - c);
      SquareOfNegation(v - c);
    } else {
      SquareMonotone(c - u, c - v);
    }
  }

  /** The brute-force scan finds nothing in a list of targets that are all
      outside the radius. */
  lemma {:induction false} NoneInRadius(pts: seq<Point>, probe: Point, r2: int, s: seq<nat>)
    requires IdsBelow(s, |pts|)
    requires forall i :: 0 <= i < |s| ==> SqDist(probe, pts[s[i]]) >= r2
    ensures InRadius(pts, probe, r2, s) == []
  {
    if s != [] {
      NoneInRadius(pts, probe, r2, s[1..]);
    }
  }

  /** On a KD-ordered tree the pruned search finds exactly what the
      brute-force scan of the subtree finds, in the same order. */
  lemma {:induction false} CompleteSearchIsExact(pts: seq<Point>, probe: Point, r2: int, t: Tree)
    requires IdsBelow(PreOrder(t), |pts|) && KdOrdered(pts, t)
    ensures CompleteSearch(pts, probe, r2, t) == InRadius(pts, probe, r2, PreOrder(t))
  {
    match t
    case Nil =>
    case Node(id, axis, l, r) =>
      InRadiusNode(pts, probe, r2, id, axis, l, r);
      CompleteSearchIsExact(pts, probe, r2, l);
      CompleteSearchIsExact(pts, probe, r2, r);
      var p := pts[id];
      var reach := AxisSqDist(probe, p, axis) < r2;
      if !reach {
        if Coord(probe, axis) < Coord(p, axis) {
          forall i | 0 <= i < |PreOrder(r)| ensures SqDist(probe, pts[PreOrder(r)[i]]) >= r2 {
            FarOnAxis(probe, p, pts[PreOrder(r)[i]], axis, r2);
          }
          NoneInRadius(pts, probe, r2, PreOrder(r));
        } else {
          forall i | 0 <= i < |PreOrder(l)| ensures SqDist(probe, pts[PreOrder(l)[i]]) >= r2 {
            FarOnAxis(probe, p, pts[PreOrder(l)[i]], axis, r2);
          }
          NoneInRadius(pts, probe, r2, PreOrder(l));
        }
      }
  }

  /** A root with two leaf children is KD-ordered when the left leaf lies
      at or below the root and the right leaf at or above it on the root's
      axis. */
  lemma ThreeNodeOrdered(pts: seq<Point>, m: nat, a: Axis, x: nat, b: Axis, y: nat)
    requires m < |pts| && x < |pts| && y < |pts|
    requires Coord(pts[x], a) <= Coord(pts[m], a) <= Coord(pts[y], a)
    ensures IdsBelow(PreOrder(Node(m, a, Node(x, b, Nil, Nil), Node(y, b, Nil, Nil))), |pts|)
    ensures KdOrdered(pts, Node(m, a, Node(x, b, Nil, Nil), Node(y, b, Nil, Nil)))
  {
    assert PreOrder(Node(x, b, Nil, Nil)) == [x];
    assert PreOrder(Node(y, b, Nil, Nil)) == [y];
    assert PreOrder(Node(m, a, Node(x, b, Nil, Nil), Node(y, b, Nil, Nil))) == [m, x, y];
  }

  /** The shape of the miss: the root is outside the radius and at least the
      radius away along its axis, the probe lies on the right, the left leaf
      is outside and the right leaf inside. The search stops at the root,
      while the brute-force scan and the pruned search report the right
      leaf. */
  lemma MissAtRoot(pts: seq<Point>, probe: Point, r2: int, m: nat, a: Axis, x: nat, b: Axis, y: nat)
    requires m < |pts| && x < |pts| && y < |pts|
    requires SqDist(probe, pts[m]) >= r2 && AxisSqDist(probe, pts[m], a) >= r2
    requires Coord(pts[m], a) <= Coord(probe, a)
    requires SqDist(probe, pts[x]) >= r2 && SqDist(probe, pts[y]) < r2
    ensures IdsBelow(PreOrder(Node(m, a, Node(x, b, Nil, Nil), Node(y, b, Nil, Nil))), |pts|)
    ensures Search(pts, probe, r2, Node(m, a, Node(x, b, Nil, Nil), Node(y, b, Nil, Nil))) == []
    ensures InRadius(pts, probe, r2, PreOrder(Node(m, a, Node(x, b, Nil, Nil), Node(y, b, Nil, Nil)))) == [y]
    ensures CompleteSearch(pts, probe, r2, Node(m, a, Node(x, b, Nil, Nil), Node(y, b, Nil, Nil))) == [y]
  {
    var t := Node(m, a, Node(x, b, Nil, Nil), Node(y, b, Nil, Nil));
    assert PreOrder(Node(x, b, Nil, Nil)) == [x];
    assert PreOrder(Node(y, b, Nil, Nil)) == [y];
    assert PreOrder(t) == [m, x, y];
    assert [m, x, y][1..] == [x, y] && [x, y][1..] == [y] && [y][1..] == [];
    assert InRadius(pts, probe, r2, [y]) == [y];
    assert InRadius(pts, probe, r2, [x, y]) == [y];
    assert CompleteSearch(pts, probe, r2, Node(y, b, Nil, Nil)) == [y];
  }

  /** Three targets on the x axis, 50 apart. */
  function ThreeOnAxis(): seq<Point> {
    [Point(0, 0, 0), Point(50, 0, 0), Point(100, 0, 0)]
  }

  /** The tree a build of ThreeOnAxis starting on x lays out (proved by
      ThreeTargets.ThreeTreeBuilt): the middle target at the root, split on x, the
      others below it, split on y. */
  function ThreeTree(): Tree {
    Node(1, 0, Node(0, 1, Nil, Nil), Node(2, 1, Nil, Nil))
  }

  /** The tree of the example is KD-ordered: 0 <= 50 <= 100 on x. */
  lemma ThreeTreeOrdered()
    ensures IdsBelow(PreOrder(ThreeTree()), |ThreeOnAxis()|)
    ensures KdOrdered(ThreeOnAxis(), ThreeTree())
  {
    var pts := ThreeOnAxis();
    assert pts[0] == Point(0, 0, 0) && pts[1] == Point(50, 0, 0) && pts[2] == Point(100, 0, 0);
    ThreeNodeOrdered(pts, 1, 0, 0, 1, 2);
  }

  /** With the probe at the third target and squared radius 4, `neighbors`
      returns nothing on this KD-ordered tree: the root is 50 away along its
      split axis, so the search stops there. The brute-force scan and the
      pruned search both find the third target. */
  lemma SearchMissesTarget()
    ensures IdsBelow(PreOrder(ThreeTree()), |ThreeOnAxis()|)
    ensures Search(ThreeOnAxis(), Point(100, 0, 0), 4, ThreeTree()) == []
    ensures InRadius(ThreeOnAxis(), Point(100, 0, 0), 4, PreOrder(ThreeTree())) == [2]
    ensures CompleteSearch(ThreeOnAxis(), Point(100, 0, 0), 4, ThreeTree()) == [2]
  {
    var pts := ThreeOnAxis();
    assert pts[0] == Point(0, 0, 0) && pts[1] == Point(50, 0, 0) && pts[2] == Point(100, 0, 0);
    MissAtRoot(pts, Point(100, 0, 0), 4, 1, 0, 0, 1, 2);
  }
}
