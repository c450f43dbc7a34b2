/** The KD tree object: the three arrays of target ids it keeps as fields,
    the constructor that fills and sorts them and builds the tree, the
    in-place rewrite of the next axis's array, the recursive build over
    array ranges, and the radius query. Every method is proved to compute
    exactly what the functions of KdBuild and RadiusSearch describe. */
module KdTrees {
  import opened Geometry
  import opened Sorting
  import opened Duplicates
  import opened Partition
  import opened TargetOrders
  import opened KdBuild
  import opened RadiusSearch

  /** The library sort with the comparator of axis `a`, applied in place. */
  method SortArray(pts: seq<Point>, arr: array<nat>, a: Axis)
    requires IdsBelow(arr[..], |pts|)
    modifies arr
    ensures arr[..] == SortBy(pts, a, old(arr[..]))
  {
    var sorted := SortBy(pts, a, arr[..]);
    assert |multiset(sorted)| == |multiset(arr[..])|;
    forall p | 0 <= p < arr.Length {
      arr[p] := sorted[p];
    }
  }

  /** The first loop of the rewrite: copies into `temp`, in array order,
      the entries of `next[start..end]` whose coordinate on axis `a` is at
      most node `m`'s, skipping `m` itself; returns how many it copied. */
  method CollectBelow(pts: seq<Point>, next: array<nat>, a: Axis, start: int, end: int, m: nat, temp: array<nat>)
    returns (j: int)
    requires next != temp && 0 <= start <= end <= next.Length && temp.Length == end - start
    requires IdsBelow(next[start..end], |pts|) && m < |pts|
    modifies temp
    ensures 0 <= j <= end - start && temp[..j] == Below(pts, a, next[start..end], m)
  {
    ghost var r := next[start..end];
    j := 0;
    for i := start to end
      invariant j == |Below(pts, a, r[..i - start], m)| <= i - start
      invariant temp[..j] == Below(pts, a, r[..i - start], m)
    {
      BelowStep(pts, a, r, i - start, m);
      assert next[i] == r[i - start];
      if Coord(pts[next[i]], a) <= Coord(pts[m], a) {
        if next[i] == m {
          continue;
        }
        ghost var prev := temp[..j];
        temp[j] := next[i];
        assert temp[..j + 1] == prev + [next[i]];
        j := j + 1;
      }
    }
    assert r[..end - start] == r;
  }

  /** The second loop of the rewrite: appends to the `j0` entries already
      in `temp` the entries of `next[start..end]` whose coordinate on axis
      `a` is greater than node `m`'s, in array order; returns the new fill. */
  method CollectAbove(pts: seq<Point>, next: array<nat>, a: Axis, start: int, end: int, m: nat, temp: array<nat>, j0: int)
    returns (j: int)
    requires next != temp && 0 <= start <= end <= next.Length && temp.Length == end - start
    requires IdsBelow(next[start..end], |pts|) && m < |pts|
    requires 0 <= j0 && j0 + |Above(pts, a, next[start..end], m)| <= end - start
    modifies temp
    ensures j == j0 + |Above(pts, a, next[start..end], m)|
    ensures temp[..j] == old(temp[..j0]) + Above(pts, a, next[start..end], m)
  {
    ghost var r := next[start..end];
    ghost var before := temp[..j0];
    j := j0;
    for k := start to end
      invariant j == j0 + |Above(pts, a, r[..k - start], m)| <= end - start
      invariant temp[..j] == before + Above(pts, a, r[..k - start], m)
    {
      AboveStep(pts, a, r, k - start, m);
      assert next[k] == r[k - start];
      if Coord(pts[next[k]], a) > Coord(pts[m], a) {
        temp[j] := next[k];
        j := j + 1;
      }
    }
    assert r[..end - start] == r;
  }

  /** The last loop of the rewrite: slots before the median take the
      scratch buffer's entries in order, the median slot takes the node,
      and later slots take the buffer's entries one place further on. */
  method CopyBack(next: array<nat>, temp: array<nat>, start: int, end: int, median: int, m: nat)
    requires next != temp
    requires 0 <= start <= median < end <= next.Length && temp.Length == end - start
    modifies next
    ensures next[..] == Place(old(next[..]), temp[..end - start - 1], start, end, median, m)
  {
    ghost var s := next[..];
    for l := start to end
      invariant forall p :: 0 <= p < start || l <= p < next.Length ==> next[p] == s[p]
      invariant forall p :: start <= p < l ==>
        next[p] == if p < median then temp[p - start] else if p == median then m else temp[p - start - 1]
    {
      if l < median {
        next[l] := temp[l - start];
      } else if l == median {
        next[l] := m;
      } else {
        next[l] := temp[l - start - 1];
      }
    }
    ghost var w := Place(s, temp[..end - start - 1], start, end, median, m);
    forall p | 0 <= p < next.Length ensures next[p] == w[p] {
    }
  }

  /** The step before the recursion of a node on axis `a` over
      [start, end): `active` is the array ordered by `a`, whose median slot
      holds the node, and `next` the array ordered by the next axis. The
      range of `next` is split around the node in a scratch buffer (first
      the entries at most the node on `a`, skipping the node itself, then
      the greater ones) and copied back with the node in the median slot.
      The range must not hold the node twice: buildTreeX/Y/Z would then
      copy unfilled (null) buffer entries into the last slots of the range. */
  method PartitionNext(pts: seq<Point>, a: Axis, active: array<nat>, next: array<nat>, start: int, end: int)
    requires active != next && active.Length == next.Length
    requires 0 <= start < end <= next.Length
    requires IdsBelow(active[..], |pts|) && IdsBelow(next[..], |pts|)
    requires multiset(next[start..end])[active[Median(start, end)]] <= 1
    modifies next
    ensures next[..] == Repartition(pts, a, old(next[..]), start, end, Median(start, end), active[Median(start, end)])
  {
    var median := Median(start, end);
    var m := active[median];
    ghost var s := next[..];
    ghost var r := s[start..end];
    var temp := new nat[end - start];
    var j := CollectBelow(pts, next, a, start, end, m, temp);
    SplitLength(pts, a, r, m);
    j := CollectAbove(pts, next, a, start, end, m, temp, j);
    ghost var t := temp[..j];
    assert t == Split(pts, a, r, m);
    assert temp[..end - start - 1] == t[..end - start - 1];
    CopyBack(next, temp, start, end, median, m);
    RepartitionIsPlace(pts, a, s, start, end, median, m);
  }

  /** The copy loop of the constructor: three new arrays, each holding the
      ids of the targets in list order. */
  method CopyTargets(n: nat) returns (xs: array<nat>, ys: array<nat>, zs: array<nat>)
    ensures fresh(xs) && fresh(ys) && fresh(zs)
    ensures xs != ys && ys != zs && xs != zs
    ensures xs[..] == Ids(n) && ys[..] == Ids(n) && zs[..] == Ids(n)
  {
    xs := new nat[n];
    ys := new nat[n];
    zs := new nat[n];
    for i := 0 to n
      invariant forall p :: 0 <= p < i ==> xs[p] == p && ys[p] == p && zs[p] == p
    {
      xs[i], ys[i], zs[i] := i, i, i;
    }
  }

  /** The first half of the constructor: the copied ids, sorted by x, by y
      and by z in three new arrays. */
  method SortedTargets(pts: seq<Point>) returns (xs: array<nat>, ys: array<nat>, zs: array<nat>)
    ensures fresh(xs) && fresh(ys) && fresh(zs)
    ensures xs != ys && ys != zs && xs != zs
    ensures Orders(xs[..], ys[..], zs[..]) == Initial(pts)
  {
    xs, ys, zs := CopyTargets(|pts|);
    SortArray(pts, xs, 0);
    SortArray(pts, ys, 1);
    SortArray(pts, zs, 2);
  }

  class KdTree {
    /** The targets; a target is named by its index. */
    const pts: seq<Point>
    /** `TargetsSortedByX`, `TargetsSortedByY` and `TargetsSortedByZ`. */
    const byX: array<nat>
    const byY: array<nat>
    const byZ: array<nat>
    var root: Tree

    function Arrays(): Orders
      reads byX, byY, byZ
    {
      Orders(byX[..], byY[..], byZ[..])
    }

    /** The array ordered by axis `a`. */
    function ArrayOn(a: Axis): (arr: array<nat>)
      ensures arr == byX || arr == byY || arr == byZ
    {
      if a == 0 then byX else if a == 1 then byY else byZ
    }

    /** The three arrays are distinct objects. */
    predicate Distinct() {
      byX != byY && byY != byZ && byX != byZ
    }

    /** The root is the tree built over the targets and the arrays are
        as the build left them. */
    ghost predicate Valid()
      reads this, byX, byY, byZ
    {
      && Distinct()
      && root == Built(pts).0
      && Arrays() == Built(pts).1
    }

    /** Copies the targets into three arrays, sorts them by x, y and z,
        and builds the tree starting on the x axis over all of them. */
    constructor (points: seq<Point>)
      ensures pts == points
      ensures Valid()
    {
      var xs, ys, zs := SortedTargets(points);
      pts, byX, byY, byZ := points, xs, ys, zs;
      new;
      InitialReady(pts);
      root := BuildTree(0, 0, |points|);
    }

    /** The partition step on the arrays of this tree: the node on axis
        `a` sits in the median slot of [start, end) of the array for `a`,
        and the array for the next axis is rewritten around it. */
    method Partition(a: Axis, start: int, end: int)
      requires Distinct() && Shaped(Arrays(), |pts|)
      requires 0 <= start < end <= |pts|
      requires RangesNoDup(Arrays(), start, end)
      modifies ArrayOn(Next(a))
      ensures Arrays() == Step(pts, old(Arrays()), a, start, end)
    {
      ghost var o := Arrays();
      var active, next := ArrayOn(a), ArrayOn(Next(a));
      assert active[..] == o.At(a) && next[..] == o.At(Next(a));
      RangeNoDupAt(o, Next(a), start, end);
      assert Occurrences(o.At(Next(a))[start..end], active[Median(start, end)]) <= 1;
      PartitionNext(pts, a, active, next, start, end);
      StepIs(pts, o, a, start, end, next[..]);
      if Next(a) == 0 {
        assert byY[..] == o.byY && byZ[..] == o.byZ;
      } else if Next(a) == 1 {
        assert byX[..] == o.byX && byZ[..] == o.byZ;
      } else {
        assert byX[..] == o.byX && byY[..] == o.byY;
      }
    }

    /** `buildTreeX`, `buildTreeY` and `buildTreeZ`: the node in the median
        slot of the active array, the next axis's array rewritten around
        it, then the left and right subtrees on the next axis. */
    method BuildTree(a: Axis, start: int, end: int) returns (t: Tree)
      requires Distinct() && Shaped(Arrays(), |pts|)
      requires 0 <= start <= end <= |pts|
      requires RangesNoDup(Arrays(), start, end)
      modifies byX, byY, byZ
      ensures (t, Arrays()) == Build(pts, old(Arrays()), a, start, end)
      decreases end - start, 1
    {
      if start >= end {
        return Nil;
      }
      ghost var o := Arrays();
      var median := Median(start, end);
      var m := ArrayOn(a)[median];
      assert m == o.At(a)[median];
      Partition(a, start, end);
      StepKeepsRanges(pts, o, a, start, end);
      var left, right := BuildChildren(Next(a), start, median, end);
      t := Node(m, a, left, right);
      NodeIs(pts, o, a, start, end);
    }

    /** The two recursive calls of a build step: the left subtree over
        [start, median), then the right subtree over [median + 1, end). */
    method BuildChildren(a: Axis, start: int, median: int, end: int) returns (left: Tree, right: Tree)
      requires Distinct() && Shaped(Arrays(), |pts|)
      requires 0 <= start <= median < end <= |pts|
      requires RangesNoDup(Arrays(), start, median) && RangesNoDup(Arrays(), median + 1, end)
      modifies byX, byY, byZ
      ensures (left, right, Arrays()) == KdBuild.BuildChildren(pts, old(Arrays()), a, start, median, end)
      decreases end - start, 0
    {
      ghost var o := Arrays();
      left := BuildTree(a, start, median);
      ghost var o1 := Arrays();
      assert (left, o1) == Build(pts, o, a, start, median);
      RangesNoDupUnchanged(o, o1, start, median, median + 1, end);
      right := BuildTree(a, median + 1, end);
      ghost var o2 := Arrays();
      assert (right, o2) == Build(pts, o1, a, median + 1, end);
      ChildrenAre(pts, o, a, start, median, end, left, o1, right, o2);
    }

    /** `neighbors(point, squareRadius)`: the targets the search of the tree
        reports, all strictly inside the radius and listed in tree order. */
    function Neighbors(probe: Point, r2: int): (found: seq<nat>)
      reads this, byX, byY, byZ
      requires Valid()
      ensures forall i :: 0 <= i < |found| ==> found[i] < |pts| && SqDist(probe, pts[found[i]]) < r2
      ensures IsSubseq(found, InRadius(pts, probe, r2, PreOrder(root)))
    {
      SearchIsSubseq(pts, probe, r2, root);
      Search(pts, probe, r2, root)
    }
  }
}
