/** The step that `buildTreeX`, `buildTreeY` and `buildTreeZ` perform before
    recursing: the array ordered by the NEXT axis is rewritten over the
    current range [start, end) around the node just chosen. Entries whose
    coordinate on the active axis is at most the node's (the node itself
    excluded, by identity) come first, then the entries whose coordinate is
    greater, each group in its original order; the result is written back
    with the node placed in the median slot. */
module Partition {
  import opened Geometry
  import opened Duplicates

  /** The entries of `r` that go to the left of node `m`: coordinate on `a`
      at most `m`'s, and not `m` itself. */
  function Below(pts: seq<Point>, a: Axis, r: seq<nat>, m: nat): (b: seq<nat>)
    requires IdsBelow(r, |pts|) && m < |pts|
    ensures |b| <= |r|
  {
    if r == [] then []
    else
      var last := r[|r| - 1];
      Below(pts, a, r[..|r| - 1], m)
        + (if Coord(pts[last], a) <= Coord(pts[m], a) && last != m then [last] else [])
  }

  /** The entries of `r` that go to the right of node `m`: coordinate on `a`
      greater than `m`'s. */
  function Above(pts: seq<Point>, a: Axis, r: seq<nat>, m: nat): (b: seq<nat>)
    requires IdsBelow(r, |pts|) && m < |pts|
    ensures |b| <= |r|
  {
    if r == [] then []
    else
      var last := r[|r| - 1];
      Above(pts, a, r[..|r| - 1], m)
        + (if Coord(pts[m], a) < Coord(pts[last], a) then [last] else [])
  }

  /** The two groups together hold every entry of `r` except the copies of
      `m`, each exactly as often as in `r`. */
  lemma {:induction false} SplitCounts(pts: seq<Point>, a: Axis, r: seq<nat>, m: nat)
    requires IdsBelow(r, |pts|) && m < |pts|
    ensures multiset(Below(pts, a, r, m) + Above(pts, a, r, m)) == multiset(r)[m := 0]
  {
    if r != [] {
      var init: seq<nat>, last: nat := r[..|r| - 1], r[|r| - 1];
      assert r == init + [last];
      SplitCounts(pts, a, init, m);
      SplitCountsStep(Below(pts, a, init, m), Above(pts, a, init, m), init, last, m,
        Coord(pts[last], a) <= Coord(pts[m], a));
    }
  }

  /** One more entry: it joins the left group, the right group, or neither
      when it is the node itself. */
  lemma SplitCountsStep(b: seq<nat>, c: seq<nat>, init: seq<nat>, last: nat, m: nat, low: bool)
    requires multiset(b + c) == multiset(init)[m := 0]
    requires last == m ==> low
    ensures multiset((b + (if low && last != m then [last] else [])) + (c + (if !low then [last] else [])))
         == multiset(init + [last])[m := 0]
  {
    var b1: seq<nat> := if low && last != m then [last] else [];
    var c1: seq<nat> := if !low then [last] else [];
    var added: seq<nat> := if last == m then [] else [last];
    assert multiset(b1) + multiset(c1) == multiset(added);
    calc {
      multiset((b + b1) + (c + c1));
      (multiset(b) + multiset(c)) + (multiset(b1) + multiset(c1));
      multiset(init)[m := 0] + multiset(added);
      { DropAppend(init, last, m); }
      multiset(init + [last])[m := 0];
    }
  }

  lemma DropAppend(init: seq<nat>, last: nat, m: nat)
    ensures multiset(init + [last])[m := 0]
         == multiset(init)[m := 0] + multiset(if last == m then [] else [last])
  {
    assert multiset(init + [last]) == multiset(init) + multiset{last};
  }

  /** The groups are as long as the range less the copies of `m`. */
  lemma {:induction false} SplitLength(pts: seq<Point>, a: Axis, r: seq<nat>, m: nat)
    requires IdsBelow(r, |pts|) && m < |pts|
    ensures |Below(pts, a, r, m)| + |Above(pts, a, r, m)| == |r| - multiset(r)[m]
  {
    if r != [] {
      var init: seq<nat>, last: nat := r[..|r| - 1], r[|r| - 1];
      assert r == init + [last];
      assert multiset(r)[m] == multiset(init)[m] + (if last == m then 1 else 0);
      SplitLength(pts, a, init, m);
    }
  }

  /** One more entry of the range considered by the first pass. */
  lemma BelowStep(pts: seq<Point>, a: Axis, r: seq<nat>, q: int, m: nat)
    requires IdsBelow(r, |pts|) && m < |pts| && 0 <= q < |r|
    ensures Below(pts, a, r[..q + 1], m)
         == Below(pts, a, r[..q], m) + (if Coord(pts[r[q]], a) <= Coord(pts[m], a) && r[q] != m then [r[q]] else [])
  {
    assert r[..q + 1][..q] == r[..q];
  }

  /** One more entry of the range considered by the second pass. */
  lemma AboveStep(pts: seq<Point>, a: Axis, r: seq<nat>, q: int, m: nat)
    requires IdsBelow(r, |pts|) && m < |pts| && 0 <= q < |r|
    ensures Above(pts, a, r[..q + 1], m)
         == Above(pts, a, r[..q], m) + (if Coord(pts[m], a) < Coord(pts[r[q]], a) then [r[q]] else [])
    ensures |Above(pts, a, r[..q + 1], m)| <= |Above(pts, a, r, m)|
  {
    assert r[..q + 1][..q] == r[..q];
    AbovePrefix(pts, a, r, q + 1, m);
  }

  /** The right group of a prefix of `r` is a prefix of the right group
      of `r`: the second pass only ever appends. */
  lemma {:induction false} AbovePrefix(pts: seq<Point>, a: Axis, r: seq<nat>, q: int, m: nat)
    requires IdsBelow(r, |pts|) && m < |pts| && 0 <= q <= |r|
    ensures Above(pts, a, r[..q], m) <= Above(pts, a, r, m)
    decreases |r| - q
  {
    if q == |r| {
      assert r[..q] == r;
    } else {
      var init := r[..|r| - 1];
      assert init[..q] == r[..q];
      AbovePrefix(pts, a, init, q, m);
    }
  }

  /** Below followed by Above: the order in which the rewrite lays the
      entries out around the node. */
  function Split(pts: seq<Point>, a: Axis, r: seq<nat>, m: nat): (t: seq<nat>)
    requires IdsBelow(r, |pts|) && m < |pts|
    ensures |t| == |r| - multiset(r)[m]
  {
    SplitLength(pts, a, r, m);
    Below(pts, a, r, m) + Above(pts, a, r, m)
  }

  /** The split holds every entry of the range but the node. */
  lemma SplitFacts(pts: seq<Point>, a: Axis, r: seq<nat>, m: nat)
    requires IdsBelow(r, |pts|) && m < |pts|
    ensures multiset(Split(pts, a, r, m)) == multiset(r)[m := 0]
  {
    SplitCounts(pts, a, r, m);
  }

  /** The array ordered by the next axis after the rewrite of [start, end)
      around node `m`, which the caller places in slot `median`. The range
      must not hold `m` twice, as the build guarantees (BuildTree keeps
      every range free of duplicates). */
  function Repartition(pts: seq<Point>, a: Axis, s: seq<nat>, start: int, end: int, median: int, m: nat): (r: seq<nat>)
    requires 0 <= start <= median < end <= |s|
    requires IdsBelow(s, |pts|) && m < |pts|
    requires multiset(s[start..end])[m] <= 1
    ensures |r| == |s|
  {
    seq(|s|, p requires 0 <= p < |s| => Slot(pts, a, s, start, end, median, m, p))
  }

  /** What slot `p` holds after the rewrite: the slot itself outside the
      range, the node at `median`, and the split filling the other slots
      of the range in order. */
  function Slot(pts: seq<Point>, a: Axis, s: seq<nat>, start: int, end: int, median: int, m: nat, p: int): nat
    requires 0 <= start <= median < end <= |s|
    requires IdsBelow(s, |pts|) && m < |pts|
    requires multiset(s[start..end])[m] <= 1
    requires 0 <= p < |s|
  {
    var t := Split(pts, a, s[start..end], m);
    if p < start || end <= p then s[p]
    else if p < median then t[p - start]
    else if p == median then m
    else t[p - start - 1]
  }

  /** Only the range is rewritten; the node lands in the median slot; the
      other slots of the range hold the stable Below/Above split, cut to
      the range's size. */
  lemma RepartitionLayout(pts: seq<Point>, a: Axis, s: seq<nat>, start: int, end: int, median: int, m: nat)
    requires 0 <= start <= median < end <= |s|
    requires IdsBelow(s, |pts|) && m < |pts|
    requires multiset(s[start..end])[m] <= 1
    ensures Repartition(pts, a, s, start, end, median, m)[..start] == s[..start]
    ensures Repartition(pts, a, s, start, end, median, m)[end..] == s[end..]
    ensures Repartition(pts, a, s, start, end, median, m)[median] == m
  {
  }

  /** Inside the range: the entries that go left, the node, then the
      entries that go right. */
  lemma RepartitionMiddle(pts: seq<Point>, a: Axis, s: seq<nat>, start: int, end: int, median: int, m: nat)
    requires 0 <= start <= median < end <= |s|
    requires IdsBelow(s, |pts|) && m < |pts|
    requires multiset(s[start..end])[m] <= 1
    ensures Repartition(pts, a, s, start, end, median, m)[start..end]
         == Split(pts, a, s[start..end], m)[..median - start] + [m]
          + Split(pts, a, s[start..end], m)[median - start..end - start - 1]
  {
    var r := Repartition(pts, a, s, start, end, median, m);
    var t := Split(pts, a, s[start..end], m);
    var u := t[..median - start] + [m] + t[median - start..end - start - 1];
    assert |u| == end - start;
    forall p | 0 <= p < end - start ensures r[start..end][p] == u[p] {
      assert r[start..end][p] == r[start + p] == Slot(pts, a, s, start, end, median, m, start + p);
      if p < median - start {
        assert u[p] == t[p];
      } else if p > median - start {
        assert u[p] == t[p - 1];
      }
    }
  }

  /** `s` with the slots of [start, end) refilled: the node `m` at
      `median`, and the entries of `t` in order in the other slots. */
  function Place(s: seq<nat>, t: seq<nat>, start: int, end: int, median: int, m: nat): (w: seq<nat>)
    requires 0 <= start <= median < end <= |s| && end - start - 1 <= |t|
    ensures |w| == |s|
  {
    seq(|s|, p requires 0 <= p < |s| =>
      if p < start || end <= p then s[p]
      else if p < median then t[p - start]
      else if p == median then m
      else t[p - start - 1])
  }

  /** The rewrite places the first `end - start - 1` entries of the split
      around the node. */
  lemma RepartitionIsPlace(pts: seq<Point>, a: Axis, s: seq<nat>, start: int, end: int, median: int, m: nat)
    requires 0 <= start <= median < end <= |s|
    requires IdsBelow(s, |pts|) && m < |pts|
    requires multiset(s[start..end])[m] <= 1
    ensures |Split(pts, a, s[start..end], m)| >= end - start - 1
    ensures Repartition(pts, a, s, start, end, median, m)
         == Place(s, Split(pts, a, s[start..end], m)[..end - start - 1], start, end, median, m)
  {
    var t := Split(pts, a, s[start..end], m);
    var r := Repartition(pts, a, s, start, end, median, m);
    var w := Place(s, t[..end - start - 1], start, end, median, m);
    forall p | 0 <= p < |s| ensures r[p] == w[p] {
      assert r[p] == Slot(pts, a, s, start, end, median, m, p);
    }
  }

  /** Every id in the rewritten array already named a point. */
  lemma RepartitionIds(pts: seq<Point>, a: Axis, s: seq<nat>, start: int, end: int, median: int, m: nat)
    requires 0 <= start <= median < end <= |s|
    requires IdsBelow(s, |pts|) && m < |pts|
    requires multiset(s[start..end])[m] <= 1
    ensures IdsBelow(Repartition(pts, a, s, start, end, median, m), |pts|)
  {
    SplitFacts(pts, a, s[start..end], m);
    RepartitionLayout(pts, a, s, start, end, median, m);
    RepartitionMiddle(pts, a, s, start, end, median, m);
    IdsBelowSlices(s, 0, start, end, |s|, |pts|);
    PlacedIds(Repartition(pts, a, s, start, end, median, m)[start..end], Split(pts, a, s[start..end], m),
      median - start, end - start - 1, m, s[start..end], |pts|);
    IdsBelowJoin(Repartition(pts, a, s, start, end, median, m), start, end, |pts|);
  }

  lemma IdsBelowSlices(s: seq<nat>, lo: int, i: int, j: int, hi: int, n: nat)
    requires 0 <= lo <= i <= j <= hi <= |s| && IdsBelow(s, n)
    ensures IdsBelow(s[lo..i], n) && IdsBelow(s[i..j], n) && IdsBelow(s[j..hi], n)
    ensures IdsBelow(s[..i], n) && IdsBelow(s[j..], n)
  {
  }

  /** A sequence whose three consecutive parts name points only names points only. */
  lemma IdsBelowJoin(r: seq<nat>, start: int, end: int, n: nat)
    requires 0 <= start <= end <= |r|
    requires IdsBelow(r[..start], n) && IdsBelow(r[start..end], n) && IdsBelow(r[end..], n)
    ensures IdsBelow(r, n)
  {
    forall p | 0 <= p < |r| ensures r[p] < n {
      if p < start {
        assert r[p] == r[..start][p];
      } else if p < end {
        assert r[p] == r[start..end][p - start];
      } else {
        assert r[p] == r[end..][p - end];
      }
    }
  }

  /** The node placed among entries of the split of a range names points only. */
  lemma PlacedIds(u: seq<nat>, t: seq<nat>, k: int, e: int, m: nat, rng: seq<nat>, n: nat)
    requires 0 <= k <= e <= |t|
    requires u == t[..k] + [m] + t[k..e]
    requires multiset(t) == multiset(rng)[m := 0]
    requires IdsBelow(rng, n) && m < n
    ensures IdsBelow(u, n)
  {
    forall p | 0 <= p < |u| ensures u[p] < n {
      if p != k {
        var q := if p < k then p else p - 1;
        assert u[p] == t[q];
        assert t[q] in multiset(t);
        assert t[q] in rng;
      }
    }
  }

  /** The node placed among the first `e` entries of `t`. */
  lemma PlacedCounts(t: seq<nat>, k: int, e: int, m: nat)
    requires 0 <= k <= e <= |t|
    ensures multiset(t[..k] + [m] + t[k..e]) == multiset(t[..e]) + multiset{m}
  {
    assert t[..e] == t[..k] + t[k..e];
  }

  /** Placing the node back among all of the split restores the range's contents. */
  lemma PlacedAll(u: seq<nat>, t: seq<nat>, k: int, m: nat, whole: multiset<nat>)
    requires 0 <= k <= |t|
    requires u == t[..k] + [m] + t[k..|t|]
    requires multiset(t) == whole[m := 0] && whole[m] == 1
    ensures multiset(u) == whole
  {
    PlacedCounts(t, k, |t|, m);
    assert t[..|t|] == t;
  }

  /** If the node occurs exactly once in the range, the rewrite only
      permutes the range. */
  lemma RepartitionPermutes(pts: seq<Point>, a: Axis, s: seq<nat>, start: int, end: int, median: int, m: nat)
    requires 0 <= start <= median < end <= |s|
    requires IdsBelow(s, |pts|) && m < |pts|
    requires multiset(s[start..end])[m] == 1
    ensures multiset(Repartition(pts, a, s, start, end, median, m)[start..end]) == multiset(s[start..end])
  {
    SplitFacts(pts, a, s[start..end], m);
    RepartitionMiddle(pts, a, s, start, end, median, m);
    PlacedAll(Repartition(pts, a, s, start, end, median, m)[start..end], Split(pts, a, s[start..end], m),
      median - start, m, multiset(s[start..end]));
  }

  /** A range without duplicates stays without duplicates. */
  lemma RepartitionNoDup(pts: seq<Point>, a: Axis, s: seq<nat>, start: int, end: int, median: int, m: nat)
    requires 0 <= start <= median < end <= |s|
    requires IdsBelow(s, |pts|) && m < |pts|
    requires NoDup(s[start..end])
    ensures multiset(s[start..end])[m] <= 1
    ensures NoDup(Repartition(pts, a, s, start, end, median, m)[start..end])
  {
    var rng: seq<nat> := s[start..end];
    assert Occurrences(rng, m) <= 1;
    if multiset(rng)[m] == 1 {
      RepartitionPermutes(pts, a, s, start, end, median, m);
      NoDupPermutation(rng, Repartition(pts, a, s, start, end, median, m)[start..end]);
    } else {
      RepartitionNewNode(pts, a, s, start, end, median, m);
    }
  }

  /** When the node is not in the range, the rewrite drops the last entry
      of the split and adds the node, so a range without duplicates keeps
      none. */
  lemma RepartitionNewNode(pts: seq<Point>, a: Axis, s: seq<nat>, start: int, end: int, median: int, m: nat)
    requires 0 <= start <= median < end <= |s|
    requires IdsBelow(s, |pts|) && m < |pts|
    requires multiset(s[start..end])[m] == 0 && NoDup(s[start..end])
    ensures NoDup(Repartition(pts, a, s, start, end, median, m)[start..end])
  {
    var rng := s[start..end];
    var t := Split(pts, a, rng, m);
    SplitFacts(pts, a, rng, m);
    RepartitionMiddle(pts, a, s, start, end, median, m);
    var u := Repartition(pts, a, s, start, end, median, m)[start..end];
    PlacedNew(u, t, median - start, end - start - 1, m, rng);
  }

  /** The node placed among a prefix of the split of a range that lacks
      it: the prefix plus the node, and no duplicates if the range had none. */
  lemma PlacedNew(u: seq<nat>, t: seq<nat>, k: int, e: int, m: nat, rng: seq<nat>)
    requires 0 <= k <= e <= |t|
    requires u == t[..k] + [m] + t[k..e]
    requires multiset(t) == multiset(rng)[m := 0] && multiset(rng)[m] == 0
    ensures multiset(u) == multiset(t[..e]) + multiset{m}
    ensures NoDup(rng) ==> NoDup(u)
  {
    PlacedCounts(t, k, e, m);
    var kept: multiset<nat> := multiset(t[..e]);
    var whole: multiset<nat> := multiset(rng);
    assert multiset(t) == kept + multiset(t[e..]) by {
      assert t == t[..e] + t[e..];
    }
    assert multiset(t) == whole;
    if NoDup(rng) {
      forall x: nat ensures Occurrences(u, x) <= 1 {
        assert kept[x] <= whole[x] && Occurrences(rng, x) <= 1;
      }
    }
  }

  /** A permutation of a duplicate-free sequence is duplicate-free. */
  lemma NoDupPermutation(s: seq<nat>, u: seq<nat>)
    requires NoDup(s) && multiset(u) == multiset(s)
    ensures NoDup(u)
  {
    forall x: nat ensures Occurrences(u, x) <= 1 {
      assert Occurrences(u, x) == Occurrences(s, x);
    }
  }
}
