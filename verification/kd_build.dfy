/** The KD tree and its construction (`buildTreeX`, `buildTreeY` and
    `buildTreeZ` in one function with an axis parameter), as a function of
    the three arrays of target ids. The class in KdTrees runs the same steps
    in place on arrays and is proved to compute exactly this. */
module KdBuild {
  import opened Geometry
  import opened Duplicates
  import opened Partition
  import opened Sorting
  import opened TargetOrders

  /** A tree node: the target it holds, the axis it splits on (its `type`)
      and its two children; `Nil` is the absent child. */
  datatype Tree = Nil | Node(id: nat, axis: Axis, left: Tree, right: Tree)

  function Size(t: Tree): nat {
    match t
    case Nil => 0
    case Node(_, _, l, r) => 1 + Size(l) + Size(r)
  }

  /** The ids of the tree, node before left subtree before right subtree. */
  function PreOrder(t: Tree): (s: seq<nat>)
    ensures |s| == Size(t)
  {
    match t
    case Nil => []
    case Node(id, _, l, r) => [id] + PreOrder(l) + PreOrder(r)
  }

  /** The root splits on `a`, its children on the next axis, and so on down. */
  predicate AxesFrom(t: Tree, a: Axis) {
    match t
    case Nil => true
    case Node(_, axis, l, r) => axis == a && AxesFrom(l, Next(a)) && AxesFrom(r, Next(a))
  }

  /** At every node the left subtree has as many nodes as the right one, or one more. */
  predicate Balanced(t: Tree) {
    match t
    case Nil => true
    case Node(_, _, l, r) => Size(r) <= Size(l) <= Size(r) + 1 && Balanced(l) && Balanced(r)
  }

  /** The slot holding the node of a non-empty range. */
  function Median(start: int, end: int): (median: int)
    requires start < end
    ensures start <= median < end
  {
    start + (end - start) / 2
  }

  /** The arrays after the partition step of a node built on axis `a`
      over [start, end): only the next axis's array is rewritten. */
  function Step(pts: seq<Point>, o: Orders, a: Axis, start: int, end: int): (o1: Orders)
    requires Shaped(o, |pts|)
    requires 0 <= start < end <= |pts|
    requires RangesNoDup(o, start, end)
    ensures Shaped(o1, |pts|)
  {
    var b := Next(a);
    RangeNoDupAt(o, b, start, end);
    RepartitionNoDup(pts, a, o.At(b), start, end, Median(start, end), o.At(a)[Median(start, end)]);
    RepartitionIds(pts, a, o.At(b), start, end, Median(start, end), o.At(a)[Median(start, end)]);
    assert o.At(0) == o.byX && o.At(1) == o.byY && o.At(2) == o.byZ;
    o.With(b, Repartition(pts, a, o.At(b), start, end, Median(start, end), o.At(a)[Median(start, end)]))
  }

  /** The step replaces the next axis's array by its rewrite around the node. */
  lemma StepIs(pts: seq<Point>, o: Orders, a: Axis, start: int, end: int, w: seq<nat>)
    requires Shaped(o, |pts|)
    requires 0 <= start < end <= |pts|
    requires RangesNoDup(o, start, end)
    requires multiset(o.At(Next(a))[start..end])[o.At(a)[Median(start, end)]] <= 1
    requires w == Repartition(pts, a, o.At(Next(a)), start, end, Median(start, end), o.At(a)[Median(start, end)])
    ensures Step(pts, o, a, start, end) == o.With(Next(a), w)
  {
  }

  /** The partition step keeps the arrays well formed, leaves every slot
      outside the range alone, and leaves both child ranges free of
      duplicates. */
  lemma StepKeepsRanges(pts: seq<Point>, o: Orders, a: Axis, start: int, end: int)
    requires Shaped(o, |pts|)
    requires 0 <= start < end <= |pts|
    requires RangesNoDup(o, start, end)
    ensures Shaped(Step(pts, o, a, start, end), |pts|)
    ensures SameOutside(o, Step(pts, o, a, start, end), start, end)
    ensures RangesNoDup(Step(pts, o, a, start, end), start, Median(start, end))
    ensures RangesNoDup(Step(pts, o, a, start, end), Median(start, end) + 1, end)
  {
    StepShaped(pts, o, a, start, end);
    StepFrame(pts, o, a, start, end);
    StepChildRanges(pts, o, a, start, end);
  }

  lemma StepShaped(pts: seq<Point>, o: Orders, a: Axis, start: int, end: int)
    requires Shaped(o, |pts|)
    requires 0 <= start < end <= |pts|
    requires RangesNoDup(o, start, end)
    ensures Shaped(Step(pts, o, a, start, end), |pts|)
  {
    var median, b := Median(start, end), Next(a);
    var s := o.At(b);
    RangeNoDupAt(o, b, start, end);
    RepartitionNoDup(pts, a, s, start, end, median, o.At(a)[median]);
    RepartitionIds(pts, a, s, start, end, median, o.At(a)[median]);
    var o1 := Step(pts, o, a, start, end);
    assert o1.At(0) == o1.byX && o1.At(1) == o1.byY && o1.At(2) == o1.byZ;
  }

  lemma StepFrame(pts: seq<Point>, o: Orders, a: Axis, start: int, end: int)
    requires Shaped(o, |pts|)
    requires 0 <= start < end <= |pts|
    requires RangesNoDup(o, start, end)
    ensures Shaped(Step(pts, o, a, start, end), |pts|)
    ensures SameOutside(o, Step(pts, o, a, start, end), start, end)
  {
    StepShaped(pts, o, a, start, end);
    var median, b := Median(start, end), Next(a);
    var s, m := o.At(b), o.At(a)[median];
    RangeNoDupAt(o, b, start, end);
    RepartitionNoDup(pts, a, s, start, end, median, m);
    RepartitionLayout(pts, a, s, start, end, median, m);
    var o1 := Step(pts, o, a, start, end);
    assert o1.At(b) == Repartition(pts, a, s, start, end, median, m);
    assert o1.At(0) == o1.byX && o1.At(1) == o1.byY && o1.At(2) == o1.byZ;
    assert o.At(0) == o.byX && o.At(1) == o.byY && o.At(2) == o.byZ;
  }

  lemma StepChildRanges(pts: seq<Point>, o: Orders, a: Axis, start: int, end: int)
    requires Shaped(o, |pts|)
    requires 0 <= start < end <= |pts|
    requires RangesNoDup(o, start, end)
    ensures Shaped(Step(pts, o, a, start, end), |pts|)
    ensures RangesNoDup(Step(pts, o, a, start, end), start, Median(start, end))
    ensures RangesNoDup(Step(pts, o, a, start, end), Median(start, end) + 1, end)
  {
    StepShaped(pts, o, a, start, end);
    var median, b := Median(start, end), Next(a);
    var s, m := o.At(b), o.At(a)[median];
    RangeNoDupAt(o, b, start, end);
    RepartitionNoDup(pts, a, s, start, end, median, m);
    var r := Repartition(pts, a, s, start, end, median, m);
    var o1 := Step(pts, o, a, start, end);
    assert RangesNoDup(o1, start, end) by {
      assert o1.At(b) == r;
      NoDupDistinctIn(r, start, end);
      if b == 0 {
        assert o1.byY == o.byY && o1.byZ == o.byZ;
      } else if b == 1 {
        assert o1.byX == o.byX && o1.byZ == o.byZ;
      } else {
        assert o1.byX == o.byX && o1.byY == o.byY;
      }
    }
    RangesNoDupSplit(o1, start, median, end);
  }

  /** The construction: an empty range gives no node; otherwise the entry
      in the median slot of the active array becomes the node, the next
      axis's array is rewritten around it, and the left and right subtrees
      are built over [start, median) and [median + 1, end) on the next axis,
      the left first. Returns the tree and the arrays as they are left. */
  function Build(pts: seq<Point>, o: Orders, a: Axis, start: int, end: int): (res: (Tree, Orders))
    requires Shaped(o, |pts|)
    requires 0 <= start <= end <= |pts|
    requires RangesNoDup(o, start, end)
    ensures Shaped(res.1, |pts|)
    ensures SameOutside(o, res.1, start, end)
    ensures Size(res.0) == end - start
    ensures AxesFrom(res.0, a) && Balanced(res.0)
    ensures IdsBelow(PreOrder(res.0), |pts|)
    decreases end - start, 2
  {
    if start >= end then (Nil, o) else BuildNode(pts, o, a, start, end)
  }

  /** A non-empty range: the node in the median slot, then its subtrees
      over the arrays rewritten around it. */
  function BuildNode(pts: seq<Point>, o: Orders, a: Axis, start: int, end: int): (res: (Tree, Orders))
    requires Shaped(o, |pts|)
    requires 0 <= start < end <= |pts|
    requires RangesNoDup(o, start, end)
    ensures Shaped(res.1, |pts|)
    ensures SameOutside(o, res.1, start, end)
    ensures Size(res.0) == end - start
    ensures AxesFrom(res.0, a) && Balanced(res.0)
    ensures IdsBelow(PreOrder(res.0), |pts|)
    decreases end - start, 1
  {
    StepKeepsRanges(pts, o, a, start, end);
    var o1 := Step(pts, o, a, start, end);
    assert RangesNoDup(o1, start, Median(start, end)) && RangesNoDup(o1, Median(start, end) + 1, end);
    var children := BuildChildren(pts, o1, Next(a), start, Median(start, end), end);
    SameOutsideChain(o, o1, children.2, start, end, start, end);
    IdsBelowConcat([o.At(a)[Median(start, end)]], PreOrder(children.0), PreOrder(children.1), |pts|);
    (Node(o.At(a)[Median(start, end)], a, children.0, children.1), children.2)
  }

  /** The left subtree over [start, median), then the right subtree over
      [median + 1, end) on the arrays the left one leaves. */
  function BuildChildren(pts: seq<Point>, o: Orders, a: Axis, start: int, median: int, end: int): (res: (Tree, Tree, Orders))
    requires Shaped(o, |pts|)
    requires 0 <= start <= median < end <= |pts|
    requires RangesNoDup(o, start, median) && RangesNoDup(o, median + 1, end)
    ensures Shaped(res.2, |pts|)
    ensures SameOutside(o, res.2, start, end)
    ensures Size(res.0) == median - start && Size(res.1) == end - median - 1
    ensures AxesFrom(res.0, a) && Balanced(res.0) && AxesFrom(res.1, a) && Balanced(res.1)
    ensures IdsBelow(PreOrder(res.0), |pts|) && IdsBelow(PreOrder(res.1), |pts|)
    decreases end - start, 0
  {
    var left := Build(pts, o, a, start, median);
    RangesNoDupUnchanged(o, left.1, start, median, median + 1, end);
    var right := Build(pts, left.1, a, median + 1, end);
    SameOutsideJoin(o, left.1, right.1, start, median, end);
    (left.0, right.0, right.1)
  }

  /** Two successive builds, the left range then the right range, are
      what BuildChildren computes. */
  lemma ChildrenAre(pts: seq<Point>, o: Orders, a: Axis, start: int, median: int, end: int,
                    left: Tree, o2: Orders, right: Tree, o3: Orders)
    requires Shaped(o, |pts|)
    requires 0 <= start <= median < end <= |pts|
    requires RangesNoDup(o, start, median) && RangesNoDup(o, median + 1, end)
    requires (left, o2) == Build(pts, o, a, start, median)
    requires RangesNoDup(o2, median + 1, end)
    requires (right, o3) == Build(pts, o2, a, median + 1, end)
    ensures BuildChildren(pts, o, a, start, median, end) == (left, right, o3)
  {
  }

  /** A build over a nonempty range is one step, then the two children
      built over the arrays the step leaves. */
  lemma NodeIs(pts: seq<Point>, o: Orders, a: Axis, start: int, end: int)
    requires Shaped(o, |pts|)
    requires 0 <= start < end <= |pts|
    requires RangesNoDup(o, start, end)
    ensures RangesNoDup(Step(pts, o, a, start, end), start, Median(start, end))
    ensures RangesNoDup(Step(pts, o, a, start, end), Median(start, end) + 1, end)
    ensures var c := BuildChildren(pts, Step(pts, o, a, start, end), Next(a), start, Median(start, end), end);
      Build(pts, o, a, start, end) == (Node(o.At(a)[Median(start, end)], a, c.0, c.1), c.2)
  {
    StepKeepsRanges(pts, o, a, start, end);
  }

  /** An empty range builds no node. A non-empty one builds a node on
      axis `a` holding the active array's entry in the median slot, with
      `median - start` nodes on its left and `end - median - 1` on its
      right. */
  lemma BuildRoot(pts: seq<Point>, o: Orders, a: Axis, start: int, end: int)
    requires Shaped(o, |pts|)
    requires 0 <= start <= end <= |pts|
    requires RangesNoDup(o, start, end)
    ensures start == end ==> Build(pts, o, a, start, end) == (Nil, o)
    ensures start < end ==> Build(pts, o, a, start, end).0.Node?
    ensures start < end ==>
      var t := Build(pts, o, a, start, end).0;
      && t.id == o.At(a)[Median(start, end)] && t.axis == a
      && Size(t.left) == Median(start, end) - start && Size(t.right) == end - Median(start, end) - 1
  {

  }

  /** A one-slot range builds a leaf holding the active array's entry. */
  lemma BuildLeaf(pts: seq<Point>, o: Orders, a: Axis, i: int)
    requires Shaped(o, |pts|)
    requires 0 <= i < |pts|
    requires RangesNoDup(o, i, i + 1)
    ensures Build(pts, o, a, i, i + 1).0 == Node(o.At(a)[i], a, Nil, Nil)
  {
    BuildRoot(pts, o, a, i, i + 1);
    assert Median(i, i + 1) == i;
  }

  /** Three slots whose step leaves the arrays as they were: a root with
      two leaves, taken from the median and the ends of the next array. */
  lemma BuildOfThree(pts: seq<Point>, o: Orders, a: Axis)
    requires Shaped(o, |pts|) && |pts| == 3
    requires RangesNoDup(o, 0, 3)
    requires Step(pts, o, a, 0, 3) == o
    ensures Build(pts, o, a, 0, 3).0
         == Node(o.At(a)[1], a, Node(o.At(Next(a))[0], Next(a), Nil, Nil), Node(o.At(Next(a))[2], Next(a), Nil, Nil))
  {
    NodeIs(pts, o, a, 0, 3);
    assert Median(0, 3) == 1;
    var b := Next(a);
    var (left, o2) := Build(pts, o, b, 0, 1);
    BuildLeaf(pts, o, b, 0);
    RangesNoDupUnchanged(o, o2, 0, 1, 2, 3);
    assert o2.At(b)[1..] == o.At(b)[1..];
    assert o2.At(b)[2] == o2.At(b)[1..][1] == o.At(b)[2];
    var (right, o3) := Build(pts, o2, b, 2, 3);
    BuildLeaf(pts, o2, b, 2);
    ChildrenAre(pts, o, b, 0, 1, 3, left, o2, right, o3);
  }

  lemma IdsBelowConcat(x: seq<nat>, y: seq<nat>, z: seq<nat>, n: nat)
    requires IdsBelow(x, n) && IdsBelow(y, n) && IdsBelow(z, n)
    ensures IdsBelow(x + y + z, n)
  {
    forall p | 0 <= p < |x + y + z| ensures (x + y + z)[p] < n {
      if p < |x| {
      } else if p < |x| + |y| {
        assert (x + y + z)[p] == y[p - |x|];
      } else {
        assert (x + y + z)[p] == z[p - |x| - |y|];
      }
    }
  }

  /** The ids 0, 1, ..., n - 1 in order: the list of targets copied into an
      array, each slot naming the target at the same position. */
  function Ids(n: nat): (s: seq<nat>)
    ensures |s| == n && IdsBelow(s, n)
    ensures forall i :: 0 <= i < n ==> s[i] == i
  {
    if n == 0 then [] else Ids(n - 1) + [n - 1]
  }

  /** Every target occurs exactly once among the copied ids. */
  lemma {:induction false} IdsOnce(n: nat)
    ensures forall x: nat :: Occurrences(Ids(n), x) == if x < n then 1 else 0
  {
    if n == 0 {
      assert Ids(n) == [];
    } else {
      IdsOnce(n - 1);
      var last: nat := n - 1;
      var prev := Ids(last);
      assert Ids(n) == prev + [last];
      forall x: nat ensures Occurrences(Ids(n), x) == if x < n then 1 else 0 {
        assert Occurrences(Ids(n), x) == Occurrences(prev, x) + if x == last then 1 else 0;
        assert Occurrences(prev, x) == if x < last then 1 else 0;
      }
    }
  }

  /** The three arrays as the constructor hands them to the build: the
      copied ids sorted by x, by y and by z. */
  function Initial(pts: seq<Point>): (o: Orders)
    ensures Shaped(o, |pts|)
  {
    var ids := Ids(|pts|);
    var xs, ys, zs := SortBy(pts, 0, ids), SortBy(pts, 1, ids), SortBy(pts, 2, ids);
    assert |multiset(xs)| == |multiset(ys)| == |multiset(zs)| == |multiset(ids)|;
    Orders(xs, ys, zs)
  }

  /** Each initial array holds every target exactly once, so the whole
      range is free of duplicates and the build may start on it. */
  lemma InitialReady(pts: seq<Point>)
    ensures RangesNoDup(Initial(pts), 0, |pts|)
  {
    SortedIdsDistinct(pts, 0);
    SortedIdsDistinct(pts, 1);
    SortedIdsDistinct(pts, 2);
  }

  /** The copied ids sorted on one axis hold every target once. */
  lemma SortedIdsDistinct(pts: seq<Point>, a: Axis)
    ensures |SortBy(pts, a, Ids(|pts|))| == |pts|
    ensures DistinctIn(SortBy(pts, a, Ids(|pts|)), 0, |pts|)
  {
    var n := |pts|;
    var s := SortBy(pts, a, Ids(n));
    assert |multiset(s)| == |multiset(Ids(n))|;
    IdsOnce(n);
    assert NoDup(Ids(n));
    NoDupPermutation(Ids(n), s);
    assert s[0..n] == s;
    NoDupDistinctIn(s, 0, n);
  }

  /** The tree the constructor builds over the targets, and the arrays it
      leaves behind. */
  function Built(pts: seq<Point>): (res: (Tree, Orders))
    ensures Shaped(res.1, |pts|)
    ensures Size(res.0) == |pts|
    ensures AxesFrom(res.0, 0) && Balanced(res.0)
    ensures IdsBelow(PreOrder(res.0), |pts|)
  {
    InitialReady(pts);
    Build(pts, Initial(pts), 0, 0, |pts|)
  }
}
