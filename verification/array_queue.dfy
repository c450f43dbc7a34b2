/** The circular array queue. Elements live in a buffer whose length is the
    capacity; `front` is the slot of the oldest element and `back` the slot
    the next element goes to. Both wrap lazily: a cursor may sit at the
    capacity itself and is moved to 0 only just before it is used. The
    buffer doubles when an element arrives at a full queue and halves when a
    dequeue finds it at most a quarter full. */
module ArrayQueues {

  /** 1, 2, 4, 8, ... */
  predicate IsPow2(n: nat)
  {
    n == 1 || (n >= 2 && n % 2 == 0 && IsPow2(n / 2))
  }

  lemma DoublePow2(n: nat)
    requires IsPow2(n)
    ensures IsPow2(2 * n) && 2 * n >= 2
  {
    assert (2 * n) / 2 == n;
  }

  lemma HalfPow2(n: nat)
    requires IsPow2(n) && n >= 2
    ensures IsPow2(n / 2) && 2 * (n / 2) == n
  {
  }

  /** Where a lazily wrapped cursor `k` lands: a position at or past the end
      of a buffer of length `cap` continues from slot 0. */
  function Wrap(k: nat, cap: nat): (j: nat)
    requires k < 2 * cap
    ensures j < cap
  {
    if k < cap then k else k - cap
  }

  /** The `size` elements of buffer `buf` read from slot `front` onwards,
      wrapping round once: the queue's logical contents, oldest first. */
  function Circular<T>(buf: seq<T>, front: nat, size: nat): (s: seq<T>)
    requires front <= |buf| && size <= |buf|
    ensures |s| == size
  {
    seq(size, i requires 0 <= i < size => buf[Wrap(front + i, |buf|)])
  }

  lemma CircularAt<T>(buf: seq<T>, front: nat, size: nat, i: nat)
    requires front <= |buf| && size <= |buf| && i < size
    ensures Circular(buf, front, size)[i] == buf[Wrap(front + i, |buf|)]
  {
  }

  /** Writing the back slot of a queue that is not full appends to its
      contents and disturbs none of the elements already there. */
  lemma CircularPush<T>(buf: seq<T>, front: nat, size: nat, back: nat, x: T)
    requires front <= |buf| && size < |buf| && back < |buf|
    requires back == Wrap(front + size, |buf|)
    ensures Circular(buf[back := x], front, size + 1) == Circular(buf, front, size) + [x]
  {
    var after, before := Circular(buf[back := x], front, size + 1), Circular(buf, front, size);
    forall i | 0 <= i < size + 1
      ensures after[i] == (before + [x])[i]
    {
      CircularAt(buf[back := x], front, size + 1, i);
      if i < size {
        CircularAt(buf, front, size, i);
      }
    }
  }

  /** Taking the oldest element: after the lazy wrap the front cursor names
      it, and the rest of the contents start one slot further on. */
  lemma CircularPop<T>(buf: seq<T>, front: nat, size: nat)
    requires front <= |buf| && 0 < size <= |buf|
    ensures var f := if front == |buf| then 0 else front;
      f < |buf|
      && Circular(buf, front, size)[0] == buf[f]
      && Circular(buf, front, size)[1..] == Circular(buf, f + 1, size - 1)
  {
    var f := if front == |buf| then 0 else front;
    var s, t := Circular(buf, front, size), Circular(buf, f + 1, size - 1);
    CircularAt(buf, front, size, 0);
    forall i | 0 <= i < size - 1
      ensures s[1..][i] == t[i]
    {
      CircularAt(buf, front, size, i + 1);
      CircularAt(buf, f + 1, size - 1, i);
    }
  }

  /** Contents copied to the start of a buffer read back unchanged from slot 0. */
  lemma CircularFromStart<T>(buf: seq<T>, contents: seq<T>)
    requires |contents| <= |buf| && buf[..|contents|] == contents
    ensures Circular(buf, 0, |contents|) == contents
  {
    var s := Circular(buf, 0, |contents|);
    forall i | 0 <= i < |contents|
      ensures s[i] == contents[i]
    {
      CircularAt(buf, 0, |contents|, i);
      assert buf[..|contents|][i] == buf[i];
    }
  }

  class ArrayQueue<T(0)> {
    var a: array<T>
    var front: nat
    var back: nat
    var size: nat
    /** The elements in the queue, oldest first. */
    ghost var contents: seq<T>

    /** The representation invariant: a power-of-two capacity holding the
        contents circularly from `front`, with `back` lazily `size` slots on. */
    ghost predicate Valid()
      reads this, a
    {
      IsPow2(a.Length)
      && size <= a.Length && front <= a.Length && back <= a.Length
      && (back == front + size || back + a.Length == front + size)
      && contents == Circular(a[..], front, size)
    }

    /** A new queue is empty, with capacity 1 and both cursors at 0. */
    constructor ()
      ensures Valid() && fresh(a)
      ensures contents == [] && size == 0
      ensures a.Length == 1 && front == 0 && back == 0
    {
      front, back, size := 0, 0, 0;
      a := new T[1];
      contents := [];
    }

    /** True exactly when the queue holds nothing. */
    function IsEmpty(): (r: bool)
      reads this, a
      requires Valid()
      ensures r <==> contents == []
    {
      size == 0
    }

    /** The copy loop shared by both resizing methods: walks `front` through
        the buffer, wrapping it lazily, and lays the contents out in order at
        the start of `b`. */
    method CopyInto(b: array<T>)
      requires Valid() && b != a && size <= b.Length
      modifies this`front, b
      ensures b[..size] == contents
    {
      ghost var f0 := front;
      var i := 0;
      while i < size
        invariant 0 <= i <= size
        invariant front == if f0 + i <= a.Length then f0 + i else f0 + i - a.Length
        invariant forall j :: 0 <= j < i ==> b[j] == contents[j]
      {
        if front == a.Length {
          front := 0;
        }
        CircularAt(a[..], f0, size, i);
        b[i] := a[front];
        front := front + 1;
        i := i + 1;
      }
    }

    /** Moves the contents into a buffer twice as large, at its start. */
    method DoubleSize()
      requires Valid()
      modifies this
      ensures Valid() && fresh(a)
      ensures a.Length == 2 * old(a.Length)
      ensures contents == old(contents) && size == old(size)
      ensures front == 0 && back == size
    {
      var b := new T[a.Length * 2];
      CopyInto(b);
      DoublePow2(a.Length);
      a := b;
      front := 0;
      back := size;
      CircularFromStart(b[..], contents);
    }

    /** Moves the contents into a buffer half as large, at its start. The
        caller only halves a queue at most a quarter full. */
    method HalfSize()
      requires Valid() && a.Length >= 2 && size <= a.Length / 4
      modifies this
      ensures Valid() && fresh(a)
      ensures 2 * a.Length == old(a.Length)
      ensures contents == old(contents) && size == old(size)
      ensures 2 * size <= a.Length
      ensures front == 0 && back == size
    {
      var b := new T[a.Length / 2];
      CopyInto(b);
      HalfPow2(a.Length);
      a := b;
      front := 0;
      back := size;
      CircularFromStart(b[..], contents);
    }

    /** Adds `data` at the back, first doubling the buffer if it is full. */
    method Enqueue(data: T)
      requires Valid()
      modifies this, a
      ensures Valid()
      ensures contents == old(contents) + [data]
      ensures size == old(size) + 1
      ensures old(size) == old(a.Length) ==> fresh(a) && a.Length == 2 * old(a.Length)
      ensures old(size) < old(a.Length) ==> a == old(a)
    {
      if size >= a.Length {
        DoubleSize();
      }
      if back == a.Length {
        back := 0;
      }
      CircularPush(a[..], front, size, back, data);
      a[back] := data;
      back := back + 1;
      size := size + 1;
      contents := contents + [data];
    }

    /** Removes and returns the oldest element, first halving the buffer if
        it is at most a quarter full. */
    method Dequeue() returns (x: T)
      requires Valid() && size > 0
      modifies this
      ensures Valid()
      ensures x == old(contents)[0] && contents == old(contents)[1..]
      ensures size == old(size) - 1
      ensures old(size) <= old(a.Length) / 4 ==> fresh(a) && 2 * a.Length == old(a.Length)
      ensures old(a.Length) / 4 < old(size) ==> a == old(a)
    {
      if size <= a.Length / 4 {
        HalfSize();
      }
      CircularPop(a[..], front, size);
      if front == a.Length {
        front := 0;
      }
      size := size - 1;
      x := a[front];
      front := front + 1;
      contents := contents[1..];
    }
  }

  /** One call on the queue, for stating the first-in first-out law. */
  datatype Op<T> = Enqueue(x: T) | Dequeue

  /** `ops` never dequeues from an empty queue when started on contents `q`. */
  predicate Feasible<T>(q: seq<T>, ops: seq<Op<T>>)
    decreases |ops|
  {
    ops == [] ||
    match ops[0]
    case Enqueue(x) => Feasible(q + [x], ops[1..])
    case Dequeue => q != [] && Feasible(q[1..], ops[1..])
  }

  /** The values `ops` enqueues, in order. */
  function Enqueued<T>(ops: seq<Op<T>>): (r: seq<T>)
    ensures |r| <= |ops|
  {
    if ops == [] then []
    else match ops[0]
      case Enqueue(x) => [x] + Enqueued(ops[1..])
      case Dequeue => Enqueued(ops[1..])
  }

  /** Running `o1` and then `o2` enqueues what `o1` enqueues followed by
      what `o2` enqueues. */
  lemma {:induction false} EnqueuedAppend<T>(o1: seq<Op<T>>, o2: seq<Op<T>>)
    ensures Enqueued(o1 + o2) == Enqueued(o1) + Enqueued(o2)
    decreases |o1|
  {
    if o1 == [] {
      assert o1 + o2 == o2;
    } else {
      assert (o1 + o2)[0] == o1[0] && (o1 + o2)[1..] == o1[1..] + o2;
      EnqueuedAppend(o1[1..], o2);
      match o1[0]
      case Enqueue(x) =>
        assert [x] + (Enqueued(o1[1..]) + Enqueued(o2)) == ([x] + Enqueued(o1[1..])) + Enqueued(o2);
      case Dequeue =>
    }
  }

  /** The values `ops` dequeues, in order, and the contents it leaves. */
  function Run<T>(q: seq<T>, ops: seq<Op<T>>): (r: (seq<T>, seq<T>))
    requires Feasible(q, ops)
    decreases |ops|
  {
    if ops == [] then ([], q)
    else match ops[0]
      case Enqueue(x) => Run(q + [x], ops[1..])
      case Dequeue =>
        var rest := Run(q[1..], ops[1..]);
        ([q[0]] + rest.0, rest.1)
  }

  /** First in, first out: what a run dequeues followed by what it leaves
      is what the queue held followed by what the run enqueued. Started on
      an empty queue, the dequeued values are the enqueued ones, in order. */
  lemma {:induction false} Fifo<T>(q: seq<T>, ops: seq<Op<T>>)
    requires Feasible(q, ops)
    ensures Run(q, ops).0 + Run(q, ops).1 == q + Enqueued(ops)
    decreases |ops|
  {
    if ops != [] {
      match ops[0]
      case Enqueue(x) =>
        Fifo(q + [x], ops[1..]);
      case Dequeue =>
        Fifo(q[1..], ops[1..]);
        var rest := Run(q[1..], ops[1..]);
        calc {
          Run(q, ops).0 + Run(q, ops).1;
          ([q[0]] + rest.0) + rest.1;
          [q[0]] + (rest.0 + rest.1);
          [q[0]] + (q[1..] + Enqueued(ops));
          { assert q == [q[0]] + q[1..]; }
          q + Enqueued(ops);
        }
    }
  }

  /** Applies `ops` to a live queue; the methods' contracts make it follow
      `Run` step by step, so the live queue is first in, first out. */
  method Replay<T(0)>(q: ArrayQueue<T>, ops: seq<Op<T>>) returns (out: seq<T>)
    requires q.Valid() && Feasible(q.contents, ops)
    modifies q, q.a
    ensures q.Valid()
    ensures out == Run(old(q.contents), ops).0
    ensures q.contents == Run(old(q.contents), ops).1
    ensures out + q.contents == old(q.contents) + Enqueued(ops)
  {
    out := [];
    var i := 0;
    assert ops[0..] == ops;
    while i < |ops|
      invariant 0 <= i <= |ops| && q.Valid()
      invariant q.a == old(q.a) || fresh(q.a)
      invariant Feasible(q.contents, ops[i..])
      invariant out + Run(q.contents, ops[i..]).0 == Run(old(q.contents), ops).0
      invariant Run(q.contents, ops[i..]).1 == Run(old(q.contents), ops).1
      decreases |ops| - i
    {
      assert ops[i..][1..] == ops[i + 1..];
      match ops[i] {
        case Enqueue(x) =>
          q.Enqueue(x);
        case Dequeue =>
          ghost var rest := Run(q.contents[1..], ops[i + 1..]).0;
          var y := q.Dequeue();
          assert out + ([y] + rest) == (out + [y]) + rest;
          out := out + [y];
      }
      i := i + 1;
    }
    assert ops[i..] == [];
    assert out + [] == out;
    Fifo(old(q.contents), ops);
  }
}
