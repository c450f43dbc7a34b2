/** Points, axes and the integer distance arithmetic the KD tree works with.
    A point's identity is its index in the sequence of targets handed to the
    tree; coordinates are integers so that squared distances are exact. */
module Geometry {

  datatype Point = Point(x: int, y: int, z: int)

  /** A split axis: 0 is x, 1 is y, 2 is z (the tree node's `type` tag). */
  type Axis = a: int | 0 <= a < 3

  /** Every entry of `s` names one of the `n` points. */
  predicate IdsBelow(s: seq<nat>, n: nat) {
    forall i :: 0 <= i < |s| ==> s[i] < n
  }

  /** The axis used one level further down: x, then y, then z, then x again. */
  function Next(a: Axis): (b: Axis)
    ensures b != a
    ensures a == 0 ==> b == 1
    ensures a == 1 ==> b == 2
    ensures a == 2 ==> b == 0
  {
    (a + 1) % 3
  }

  function Coord(p: Point, a: Axis): int {
    if a == 0 then p.x else if a == 1 then p.y else p.z
  }

  function Square(d: int): (s: int)
    ensures s >= 0
  {
    SquareNonNegative(d);
    d * d
  }

  lemma SquareNonNegative(d: int)
    ensures d * d >= 0
  {
    if d < 0 {
      assert d * d == (-d) * (-d);
    }
  }

  /** The sign of the difference does not matter. */
  lemma SquareOfNegation(d: int)
    ensures Square(-d) == Square(d)
  {
    assert (-d) * (-d) == d * d;
  }

  /** Squared distance along one axis (the `x`, `y` or `z` of the query). */
  function AxisSqDist(p: Point, q: Point, a: Axis): int {
    Square(Coord(p, a) - Coord(q, a))
  }

  /** Squared Euclidean distance: no square root is ever taken. */
  function SqDist(p: Point, q: Point): int {
    AxisSqDist(p, q, 0) + AxisSqDist(p, q, 1) + AxisSqDist(p, q, 2)
  }

  /** The squared distance along any one axis is at most the squared distance. */
  lemma AxisSqDistBound(p: Point, q: Point, a: Axis)
    ensures 0 <= AxisSqDist(p, q, a) <= SqDist(p, q)
  {
  }

  /** Squares are monotone on the non-negative integers. */
  lemma SquareMonotone(u: int, v: int)
    requires 0 <= u <= v
    ensures Square(u) <= Square(v)
  {
    assert v * v - u * u == (v - u) * (v + u);
    assert (v - u) * (v + u) >= 0;
  }

  /** The comparators XComparator, YComparator and ZComparator: negative,
      zero or positive as p's coordinate on the axis is below, equal to or
      above q's. */
  function Compare(p: Point, q: Point, a: Axis): (r: int)
    ensures r == -1 || r == 0 || r == 1
    ensures r < 0 <==> Coord(p, a) < Coord(q, a)
    ensures r > 0 <==> Coord(q, a) < Coord(p, a)
  {
    if Coord(p, a) < Coord(q, a) then -1
    else if Coord(q, a) < Coord(p, a) then 1
    else 0
  }

  /** The comparator contract that a library sort relies on: the sign flips
      when the arguments are swapped, and "not greater" is transitive. */
  lemma CompareIsConsistent(p: Point, q: Point, s: Point, a: Axis)
    ensures Compare(p, q, a) == -Compare(q, p, a)
    ensures Compare(p, q, a) <= 0 && Compare(q, s, a) <= 0 ==> Compare(p, s, a) <= 0
  {
  }
}
