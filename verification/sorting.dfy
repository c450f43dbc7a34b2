/** The library sort the tree constructor applies to its three arrays of
    targets, each with one of the coordinate comparators. The library sort
    for objects is stable, so it is modelled by a stable insertion sort:
    sorted on the axis, a permutation of its input, and keeping the input
    order among entries with equal coordinates. */
module Sorting {
  import opened Geometry

  /** Nondecreasing on axis `a`. */
  predicate SortedOn(pts: seq<Point>, a: Axis, s: seq<nat>)
    requires IdsBelow(s, |pts|)
  {
    forall i, j :: 0 <= i < j < |s| ==> Coord(pts[s[i]], a) <= Coord(pts[s[j]], a)
  }

  /** The entries of `s` whose coordinate on `a` is `k`, in their order in `s`. */
  function WithKey(pts: seq<Point>, a: Axis, s: seq<nat>, k: int): seq<nat>
    requires IdsBelow(s, |pts|)
  {
    if s == [] then []
    else (if Coord(pts[s[0]], a) == k then [s[0]] else []) + WithKey(pts, a, s[1..], k)
  }

  lemma {:induction false} WithKeyAppend(pts: seq<Point>, a: Axis, s: seq<nat>, t: seq<nat>, k: int)
    requires IdsBelow(s, |pts|) && IdsBelow(t, |pts|)
    ensures IdsBelow(s + t, |pts|)
    ensures WithKey(pts, a, s + t, k) == WithKey(pts, a, s, k) + WithKey(pts, a, t, k)
  {
    if s == [] {
      assert s + t == t;
    } else {
      var rest: seq<nat> := s[1..];
      assert s == [s[0]] + rest;
      assert s + t == [s[0]] + (rest + t);
      WithKeyAppend(pts, a, rest, t, k);
      WithKeyCons(pts, a, s[0], rest + t, k);
      WithKeyCons(pts, a, s[0], rest, k);
    }
  }

  /** Prepending an entry no greater than the head keeps a sequence sorted. */
  lemma SortedCons(pts: seq<Point>, a: Axis, x: nat, s: seq<nat>)
    requires x < |pts| && IdsBelow(s, |pts|) && SortedOn(pts, a, s)
    requires s != [] ==> Coord(pts[x], a) <= Coord(pts[s[0]], a)
    ensures IdsBelow([x] + s, |pts|) && SortedOn(pts, a, [x] + s)
  {
    var r := [x] + s;
    forall i, j | 0 <= i < j < |r|
      ensures Coord(pts[r[i]], a) <= Coord(pts[r[j]], a)
    {
      if i == 0 && j > 1 {
        assert r[j] == s[j - 1];
        assert Coord(pts[s[0]], a) <= Coord(pts[s[j - 1]], a);
      }
    }
  }

  /** Places `id` after every entry of `s` that does not compare greater. */
  function Insert(pts: seq<Point>, a: Axis, s: seq<nat>, id: nat): (r: seq<nat>)
    requires IdsBelow(s, |pts|) && id < |pts|
    ensures multiset(r) == multiset(s) + multiset{id}
    ensures IdsBelow(r, |pts|)
    ensures r[0] == id || (s != [] && r[0] == s[0])
  {
    if s == [] then [id]
    else if Compare(pts[s[0]], pts[id], a) <= 0 then
      assert s == [s[0]] + s[1..];
      [s[0]] + Insert(pts, a, s[1..], id)
    else
      [id] + s
  }

  /** Inserting into a sorted sequence keeps it sorted. */
  lemma {:induction false} InsertSorted(pts: seq<Point>, a: Axis, s: seq<nat>, id: nat)
    requires IdsBelow(s, |pts|) && id < |pts| && SortedOn(pts, a, s)
    ensures SortedOn(pts, a, Insert(pts, a, s, id))
  {
    if s == [] {
    } else if Compare(pts[s[0]], pts[id], a) <= 0 {
      var rest := Insert(pts, a, s[1..], id);
      assert SortedOn(pts, a, s[1..]);
      InsertSorted(pts, a, s[1..], id);
      assert rest[0] == id || rest[0] == s[1];
      SortedCons(pts, a, s[0], rest);
    } else {
      SortedCons(pts, a, id, s);
    }
  }

  /** Sorts `s` by the comparator of axis `a`, inserting entries left to right. */
  function SortBy(pts: seq<Point>, a: Axis, s: seq<nat>): (r: seq<nat>)
    requires IdsBelow(s, |pts|)
    ensures multiset(r) == multiset(s)
    ensures IdsBelow(r, |pts|)
  {
    if s == [] then []
    else
      assert s == s[..|s| - 1] + [s[|s| - 1]];
      Insert(pts, a, SortBy(pts, a, s[..|s| - 1]), s[|s| - 1])
  }

  /** The sort's result is ordered by the comparator. */
  lemma {:induction false} SortBySorted(pts: seq<Point>, a: Axis, s: seq<nat>)
    requires IdsBelow(s, |pts|)
    ensures SortedOn(pts, a, SortBy(pts, a, s))
  {
    if s != [] {
      assert s == s[..|s| - 1] + [s[|s| - 1]];
      SortBySorted(pts, a, s[..|s| - 1]);
      InsertSorted(pts, a, SortBy(pts, a, s[..|s| - 1]), s[|s| - 1]);
    }
  }

  /** In a sorted sequence whose first entry lies above `k`, no entry has key `k`. */
  lemma {:induction false} NoKeyBelowSortedHead(pts: seq<Point>, a: Axis, s: seq<nat>, k: int)
    requires IdsBelow(s, |pts|) && SortedOn(pts, a, s)
    requires s != [] ==> k < Coord(pts[s[0]], a)
    ensures WithKey(pts, a, s, k) == []
  {
    if s != [] {
      if s[1..] != [] {
        assert s[1..][0] == s[1];
      }
      NoKeyBelowSortedHead(pts, a, s[1..], k);
    }
  }

  lemma WithKeyCons(pts: seq<Point>, a: Axis, x: nat, s: seq<nat>, k: int)
    requires x < |pts| && IdsBelow(s, |pts|)
    ensures IdsBelow([x] + s, |pts|)
    ensures WithKey(pts, a, [x] + s, k) == (if Coord(pts[x], a) == k then [x] else []) + WithKey(pts, a, s, k)
  {
    assert ([x] + s)[0] == x && ([x] + s)[1..] == s;
  }

  lemma {:induction false} InsertStable(pts: seq<Point>, a: Axis, s: seq<nat>, id: nat, k: int)
    requires IdsBelow(s, |pts|) && id < |pts| && SortedOn(pts, a, s)
    ensures WithKey(pts, a, Insert(pts, a, s, id), k)
         == WithKey(pts, a, s, k) + (if Coord(pts[id], a) == k then [id] else [])
  {
    if s == [] {
      assert Insert(pts, a, s, id) == [id] + [];
      WithKeyCons(pts, a, id, [], k);
    } else if Compare(pts[s[0]], pts[id], a) <= 0 {
      assert SortedOn(pts, a, s[1..]);
      InsertStable(pts, a, s[1..], id, k);
      InsertStableAfterHead(pts, a, s, id, k);
    } else {
      InsertStableBeforeHead(pts, a, s, id, k);
    }
  }

  /** `id` goes after the head: the head's key run is untouched. */
  lemma InsertStableAfterHead(pts: seq<Point>, a: Axis, s: seq<nat>, id: nat, k: int)
    requires IdsBelow(s, |pts|) && id < |pts| && s != []
    requires Compare(pts[s[0]], pts[id], a) <= 0
    requires WithKey(pts, a, Insert(pts, a, s[1..], id), k)
          == WithKey(pts, a, s[1..], k) + (if Coord(pts[id], a) == k then [id] else [])
    ensures WithKey(pts, a, Insert(pts, a, s, id), k)
         == WithKey(pts, a, s, k) + (if Coord(pts[id], a) == k then [id] else [])
  {
    var rest: seq<nat> := s[1..];
    var inserted := Insert(pts, a, rest, id);
    assert s == [s[0]] + rest;
    assert Insert(pts, a, s, id) == [s[0]] + inserted;
    WithKeyCons(pts, a, s[0], rest, k);
    WithKeyCons(pts, a, s[0], inserted, k);
    var h: seq<nat> := if Coord(pts[s[0]], a) == k then [s[0]] else [];
    var tail: seq<nat> := if Coord(pts[id], a) == k then [id] else [];
    var w := WithKey(pts, a, rest, k);
    calc {
      WithKey(pts, a, Insert(pts, a, s, id), k);
      h + WithKey(pts, a, inserted, k);
      h + (w + tail);
      { AppendAssoc(h, w, tail); }
      (h + w) + tail;
      WithKey(pts, a, s, k) + tail;
    }
  }

  lemma AppendAssoc(x: seq<nat>, y: seq<nat>, z: seq<nat>)
    ensures x + (y + z) == (x + y) + z
  {
  }

  /** `id` goes in front of a sorted sequence whose head is greater, so no
      entry of the sequence shares its key. */
  lemma InsertStableBeforeHead(pts: seq<Point>, a: Axis, s: seq<nat>, id: nat, k: int)
    requires IdsBelow(s, |pts|) && id < |pts| && SortedOn(pts, a, s) && s != []
    requires Compare(pts[s[0]], pts[id], a) > 0
    ensures WithKey(pts, a, Insert(pts, a, s, id), k)
         == WithKey(pts, a, s, k) + (if Coord(pts[id], a) == k then [id] else [])
  {
    assert Insert(pts, a, s, id) == [id] + s;
    WithKeyCons(pts, a, id, s, k);
    if Coord(pts[id], a) == k {
      NoKeyBelowSortedHead(pts, a, s, k);
    }
  }

  /** Stability: for every coordinate value, the entries carrying it keep
      their input order. Together with SortBy's contract this pins the
      result down to the one sequence a stable library sort produces. */
  lemma {:induction false} SortByStable(pts: seq<Point>, a: Axis, s: seq<nat>, k: int)
    requires IdsBelow(s, |pts|)
    ensures WithKey(pts, a, SortBy(pts, a, s), k) == WithKey(pts, a, s, k)
  {
    if s != [] {
      var init: seq<nat>, last: nat := s[..|s| - 1], s[|s| - 1];
      assert s == init + [last];
      var sorted := SortBy(pts, a, init);
      SortBySorted(pts, a, init);
      assert SortBy(pts, a, s) == Insert(pts, a, sorted, last);
      var tail: seq<nat> := if Coord(pts[last], a) == k then [last] else [];
      calc {
        WithKey(pts, a, SortBy(pts, a, s), k);
        { InsertStable(pts, a, sorted, last, k); }
        WithKey(pts, a, sorted, k) + tail;
        { SortByStable(pts, a, init, k); }
        WithKey(pts, a, init, k) + tail;
        { WithKeyAppend(pts, a, init, [last], k); WithKeyLast(pts, a, last, k); }
        WithKey(pts, a, s, k);
      }
    }
  }

  lemma WithKeyLast(pts: seq<Point>, a: Axis, x: nat, k: int)
    requires x < |pts|
    ensures WithKey(pts, a, [x], k) == if Coord(pts[x], a) == k then [x] else []
  {
    assert [x][1..] == [];
  }
}
