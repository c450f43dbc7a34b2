/** The three arrays of target ids the tree is built from, each sorted on
    one axis, and the facts the construction keeps about them: their shape,
    freedom from duplicates within a range, and agreement outside a range. */
module TargetOrders {
  import opened Geometry
  import opened Duplicates
  import opened Partition

  /** The arrays `TargetsSortedByX`, `TargetsSortedByY`, `TargetsSortedByZ`. */
  datatype Orders = Orders(byX: seq<nat>, byY: seq<nat>, byZ: seq<nat>) {

    function At(a: Axis): seq<nat> {
      if a == 0 then byX else if a == 1 then byY else byZ
    }

    /** The same arrays with the one for axis `a` replaced by `s`. */
    function With(a: Axis, s: seq<nat>): (o: Orders)
      ensures o.At(a) == s
      ensures forall b: Axis :: b != a ==> o.At(b) == At(b)
    {
      if a == 0 then this.(byX := s) else if a == 1 then this.(byY := s) else this.(byZ := s)
    }
  }

  /** All three arrays have one slot per target and name targets only. */
  predicate Shaped(o: Orders, n: nat) {
    && |o.byX| == n && |o.byY| == n && |o.byZ| == n
    && IdsBelow(o.byX, n) && IdsBelow(o.byY, n) && IdsBelow(o.byZ, n)
  }

  /** No array holds a target twice within [start, end). */
  ghost predicate RangesNoDup(o: Orders, start: int, end: int)
    requires 0 <= start && end <= |o.byX| && end <= |o.byY| && end <= |o.byZ|
  {
    DistinctIn(o.byX, start, end) && DistinctIn(o.byY, start, end) && DistinctIn(o.byZ, start, end)
  }

  lemma RangeNoDupAt(o: Orders, c: Axis, start: int, end: int)
    requires 0 <= start < end && end <= |o.byX| && end <= |o.byY| && end <= |o.byZ|
    requires RangesNoDup(o, start, end)
    ensures NoDup(o.At(c)[start..end])
  {
    DistinctInNoDup(o.At(c), start, end);
  }

  /** `o'` agrees with `o` on every slot outside [start, end). */
  predicate SameOutside(o: Orders, o': Orders, start: int, end: int)
    requires 0 <= start <= end <= |o.byX| && end <= |o.byY| && end <= |o.byZ|
    requires |o'.byX| == |o.byX| && |o'.byY| == |o.byY| && |o'.byZ| == |o.byZ|
  {
    && o'.byX[..start] == o.byX[..start] && o'.byX[end..] == o.byX[end..]
    && o'.byY[..start] == o.byY[..start] && o'.byY[end..] == o.byY[end..]
    && o'.byZ[..start] == o.byZ[..start] && o'.byZ[end..] == o.byZ[end..]
  }

  /** Agreement outside a sub-range of one array implies agreement outside
      the enclosing range. */
  lemma SameOutsideWiden(s: seq<nat>, s': seq<nat>, start: int, lo: int, hi: int, end: int)
    requires 0 <= start <= lo <= hi <= end <= |s| == |s'|
    requires s'[..lo] == s[..lo] && s'[hi..] == s[hi..]
    ensures s'[..start] == s[..start] && s'[end..] == s[end..]
  {
    assert s'[..start] == s'[..lo][..start];
    assert s[..start] == s[..lo][..start];
    assert s'[end..] == s'[hi..][end - hi..];
    assert s[end..] == s[hi..][end - hi..];
  }

  /** Agreement outside a range carries over to an enclosing range and
      composes. */
  lemma SameOutsideChain(o: Orders, o1: Orders, o2: Orders, lo: int, hi: int, start: int, end: int)
    requires |o1.byX| == |o.byX| && |o1.byY| == |o.byY| && |o1.byZ| == |o.byZ|
    requires |o2.byX| == |o.byX| && |o2.byY| == |o.byY| && |o2.byZ| == |o.byZ|
    requires 0 <= start <= lo <= hi <= end <= |o.byX| && end <= |o.byY| && end <= |o.byZ|
    requires SameOutside(o, o1, start, end) && SameOutside(o1, o2, lo, hi)
    ensures SameOutside(o, o2, start, end)
  {
    SameOutsideWiden(o1.byX, o2.byX, start, lo, hi, end);
    SameOutsideWiden(o1.byY, o2.byY, start, lo, hi, end);
    SameOutsideWiden(o1.byZ, o2.byZ, start, lo, hi, end);
  }

  /** Agreement outside the left range, then outside the right range,
      gives agreement outside the whole range. */
  lemma SameOutsideJoin(o: Orders, o1: Orders, o2: Orders, start: int, median: int, end: int)
    requires |o1.byX| == |o.byX| && |o1.byY| == |o.byY| && |o1.byZ| == |o.byZ|
    requires |o2.byX| == |o.byX| && |o2.byY| == |o.byY| && |o2.byZ| == |o.byZ|
    requires 0 <= start <= median < end <= |o.byX| && end <= |o.byY| && end <= |o.byZ|
    requires SameOutside(o, o1, start, median) && SameOutside(o1, o2, median + 1, end)
    ensures SameOutside(o, o2, start, end)
  {
    SameOutsideWiden(o.byX, o1.byX, start, start, median, end);
    SameOutsideWiden(o.byY, o1.byY, start, start, median, end);
    SameOutsideWiden(o.byZ, o1.byZ, start, start, median, end);
    SameOutsideWiden(o1.byX, o2.byX, start, median + 1, end, end);
    SameOutsideWiden(o1.byY, o2.byY, start, median + 1, end, end);
    SameOutsideWiden(o1.byZ, o2.byZ, start, median + 1, end, end);
  }

  /** Both halves around the median slot of a duplicate-free range are duplicate-free. */
  lemma RangesNoDupSplit(o: Orders, start: int, median: int, end: int)
    requires 0 <= start <= median < end && end <= |o.byX| && end <= |o.byY| && end <= |o.byZ|
    requires RangesNoDup(o, start, end)
    ensures RangesNoDup(o, start, median) && RangesNoDup(o, median + 1, end)
  {
  }

  /** A range outside [lo, hi) that `o'` left as `o` had it keeps `o`'s
      freedom from duplicates. */
  lemma RangesNoDupUnchanged(o: Orders, o': Orders, lo: int, hi: int, start: int, end: int)
    requires |o'.byX| == |o.byX| && |o'.byY| == |o.byY| && |o'.byZ| == |o.byZ|
    requires 0 <= lo <= hi <= start <= end <= |o.byX| && end <= |o.byY| && end <= |o.byZ|
    requires SameOutside(o, o', lo, hi)
    requires RangesNoDup(o, start, end)
    ensures RangesNoDup(o', start, end)
  {
    SliceAfter(o.byX, o'.byX, hi, start, end);
    SliceAfter(o.byY, o'.byY, hi, start, end);
    SliceAfter(o.byZ, o'.byZ, hi, start, end);
  }

  lemma SliceAfter(s: seq<nat>, s': seq<nat>, hi: int, start: int, end: int)
    requires 0 <= hi <= start <= end <= |s| == |s'|
    requires s'[hi..] == s[hi..]
    ensures forall p :: start <= p < end ==> s'[p] == s[p]
  {
    forall p | start <= p < end ensures s'[p] == s[p] {
      assert s'[p] == s'[hi..][p - hi] && s[p] == s[hi..][p - hi];
    }
  }
}
