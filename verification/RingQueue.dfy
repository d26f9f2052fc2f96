/** The non-blocking ring operations, and every run of them against a bounded queue that drops its oldest item. */
module RingQueue {
  import opened CText
  import opened Ring

  // ----- one operation -----

  /** `ringbuf_enqueue`: the ring afterwards and the return code. */
  function Enqueued<T>(r: Ring<T>, x: T): (Ring<T>, int)
    requires Wf(r)
  {
    if Full(r) then (Push(Discard(r), x), -1) else (Push(r, x), 0)
  }

  /** `ringbuf_dequeue`: the ring afterwards and the item, if there was one. */
  function Dequeued<T>(r: Ring<T>): (Ring<T>, Option<T>)
    requires Wf(r)
  {
    if r.readpos.None? then (r, None) else (Pop(r), Some(r.arr[r.readpos.value]))
  }

  lemma EnqueuedItems<T>(r: Ring<T>, x: T)
    requires Wf(r)
    ensures var (r', code) := Enqueued(r, x);
            && Wf(r') && |r'.arr| == |r.arr|
            && code == (if |Items(r)| == Capacity(|r.arr|) then -1 else 0) && (code == -1 <==> Full(r))
            && Items(r') == (if code == -1 then Items(r)[1..] else Items(r)) + [x]
  {
    FullIsCapacity(r);
    if Full(r) { OverwriteDropsOldest(r, x); } else { PushAppends(r, x); }
  }

  class RingBuffer<T(0)> {
    var writepos: nat
    var size: nat
    var num: nat
    var readpos: Option<nat>
    var arr: array<T>

    ghost function Value(): Ring<T>
      reads this, arr
    {
      Ring(arr[..], readpos, writepos)
    }

    ghost predicate Valid()
      reads this, arr
    {
      size == arr.Length && Wf(Value()) && num == |Items(Value())|
    }

    ghost function Contents(): seq<T>
      requires Valid()
      reads this, arr
    {
      Items(Value())
    }

    /** `ringbuf_init` on a caller's array. */
    constructor (arr: array<T>)
      requires arr.Length > 0
      ensures Valid() && this.arr == arr && Contents() == []
    {
      this.arr := arr;
      size, num, readpos, writepos := arr.Length, 0, None, 0;
    }

    function WrapPos(pos: nat): (p: nat)
      requires 0 < size && pos < 2 * size
      reads this
      ensures p == Wrap(size, pos)
    {
      if pos >= size then pos - size else pos
    }

    method Enqueue(d: T) returns (overflow: int)
      requires Valid()
      modifies this, arr
      ensures Valid() && arr == old(arr) && size == old(size)
      ensures (Value(), overflow) == Enqueued(old(Value()), d)
      ensures overflow == if |old(Contents())| == Capacity(size) then -1 else 0
      ensures Contents() == (if overflow == -1 then old(Contents())[1..] else old(Contents())) + [d]
    {
      ghost var r := Value();
      EnqueuedItems(r, d);
      hide Items, Count;
      var newWritepos := WrapPos(writepos + 1);
      if readpos != None && newWritepos == readpos.value {
        readpos := Some(WrapPos(readpos.value + 1));
        overflow := -1;
      } else {
        overflow := 0;
        num := num + 1;
      }
      arr[writepos] := d;
      assert arr[..] == r.arr[r.writepos := d];
      hide Wf;
      if readpos == None {
        readpos := Some(writepos);
      }
      writepos := newWritepos;
      assert Value() == Enqueued(r, d).0;
    }

    method Dequeue() returns (underflow: int, d: Option<T>)
      requires Valid()
      modifies this
      ensures Valid() && arr == old(arr) && size == old(size)
      ensures (Value(), d) == Dequeued(old(Value()))
      ensures underflow == (if d.None? then -1 else 0) && (d.None? <==> old(Contents()) == [])
      ensures old(Contents()) == (if d.None? then [] else [d.value]) + Contents()
    {
      ghost var r := Value();
      d := None;
      if readpos == None {
        underflow := -1;
      } else {
        PopTakesOldest(r);
        hide Items, Count;
        underflow := 0;
        num := num - 1;
        d := Some(arr[readpos.value]);
        var newReadpos := WrapPos(readpos.value + 1);
        if newReadpos == writepos {
          readpos := None;
        } else {
          readpos := Some(newReadpos);
        }
        assert Value() == Pop(r);
      }
    }
  }

  // ----- runs -----

  datatype Op<T> = Enqueue(item: T) | Dequeue

  /** A bounded queue with its history; `removed` lists dequeued and dropped items in order. */
  datatype Fifo<T> = Fifo(queue: seq<T>, enqueued: seq<T>, dequeued: seq<T>, dropped: seq<T>, removed: seq<T>)

  function FifoStep<T>(q: Fifo<T>, op: Op<T>, capacity: nat): Fifo<T>
    requires 0 < capacity
  {
    match op
    case Enqueue(x) =>
      var q' := q.(enqueued := q.enqueued + [x]);
      if |q.queue| < capacity then q'.(queue := q.queue + [x])
      else q'.(queue := q.queue[1..] + [x], dropped := q.dropped + [q.queue[0]],
               removed := q.removed + [q.queue[0]])
    case Dequeue =>
      if q.queue == [] then q
      else q.(queue := q.queue[1..], dequeued := q.dequeued + [q.queue[0]],
              removed := q.removed + [q.queue[0]])
  }

  function FifoRun<T>(ops: seq<Op<T>>, capacity: nat): Fifo<T>
    requires 0 < capacity
  {
    if ops == [] then Fifo([], [], [], [], [])
    else FifoStep(FifoRun(ops[..|ops| - 1], capacity), ops[|ops| - 1], capacity)
  }

  /** The ring after a run, with what the calls returned: items out of dequeues, overflows of enqueues. */
  datatype RingLog<T> = RingLog(ring: Ring<T>, out: seq<T>, overflows: nat)

  function RingStep<T>(s: RingLog<T>, op: Op<T>): RingLog<T>
    requires Wf(s.ring)
  {
    match op
    case Enqueue(x) =>
      var (r, code) := Enqueued(s.ring, x);
      s.(ring := r, overflows := s.overflows + (if code == -1 then 1 else 0))
    case Dequeue =>
      var (r, d) := Dequeued(s.ring);
      s.(ring := r, out := s.out + (if d.Some? then [d.value] else []))
  }

  ghost predicate Matches<T>(s: RingLog<T>, q: Fifo<T>, capacity: nat) {
    && Wf(s.ring) && Capacity(|s.ring.arr|) == capacity
    && Items(s.ring) == q.queue && s.out == q.dequeued && s.overflows == |q.dropped|
  }

  lemma StepMatches<T>(s: RingLog<T>, q: Fifo<T>, op: Op<T>, capacity: nat)
    requires 0 < capacity && Matches(s, q, capacity)
    ensures Matches(RingStep(s, op), FifoStep(q, op, capacity), capacity)
  {
    FullIsCapacity(s.ring);
    match op
    case Enqueue(x) =>
      if Full(s.ring) { OverwriteDropsOldest(s.ring, x); } else { PushAppends(s.ring, x); }
      hide Items, Full;
    case Dequeue =>
      if s.ring.readpos.Some? { PopTakesOldest(s.ring); }
      hide Full;
  }

  function RingRun<T>(arr: seq<T>, ops: seq<Op<T>>): (s: RingLog<T>)
    requires |arr| > 0
    ensures Wf(s.ring) && Matches(s, FifoRun(ops, Capacity(|arr|)), Capacity(|arr|))
  {
    if ops == [] then RingLog(Init(arr), [], 0)
    else
      var s := RingRun(arr, ops[..|ops| - 1]);
      StepMatches(s, FifoRun(ops[..|ops| - 1], Capacity(|arr|)), ops[|ops| - 1], Capacity(|arr|));
      RingStep(s, ops[|ops| - 1])
  }

  /** Nothing is lost, duplicated or reordered, and every removed item was dequeued or dropped. */
  ghost predicate Balanced<T>(q: Fifo<T>, capacity: nat) {
    && q.enqueued == q.removed + q.queue && |q.queue| <= capacity
    && multiset(q.removed) == multiset(q.dequeued) + multiset(q.dropped)
    && |q.removed| == |q.dequeued| + |q.dropped|
  }

  lemma MoveFirst<T>(removed: seq<T>, queue: seq<T>)
    requires queue != []
    ensures removed + queue == removed + [queue[0]] + queue[1..]
    ensures multiset(removed + [queue[0]]) == multiset(removed) + multiset{queue[0]}
  {
    assert queue == [queue[0]] + queue[1..];
  }

  lemma StepBalances<T>(q: Fifo<T>, op: Op<T>, capacity: nat)
    requires 0 < capacity && Balanced(q, capacity)
    ensures Balanced(FifoStep(q, op, capacity), capacity)
  {
    if q.queue != [] {
      MoveFirst(q.removed, q.queue);
      MoveFirst(q.dequeued, q.queue);
      MoveFirst(q.dropped, q.queue);
    }
    match op
    case Dequeue =>
    case Enqueue(x) =>
      if |q.queue| < capacity {
        assert q.removed + q.queue + [x] == q.removed + (q.queue + [x]);
      } else {
        var first, rest := q.removed + [q.queue[0]], q.queue[1..];
        assert first + rest + [x] == first + (rest + [x]);
      }
  }

  lemma {:induction false} FifoConserves<T>(ops: seq<Op<T>>, capacity: nat)
    requires 0 < capacity
    ensures Balanced(FifoRun(ops, capacity), capacity)
  {
    hide Balanced, FifoStep;
    if ops == [] {
      EmptyBalanced<T>(capacity);
    } else {
      FifoConserves(ops[..|ops| - 1], capacity);
      StepBalances(FifoRun(ops[..|ops| - 1], capacity), ops[|ops| - 1], capacity);
    }
  }

  lemma EmptyBalanced<T>(capacity: nat)
    ensures Balanced<T>(Fifo([], [], [], [], []), capacity)
  {
  }

  /** A run of ring operations: its results are those of the bounded queue, and the counts balance. */
  lemma RunConserves<T>(arr: seq<T>, ops: seq<Op<T>>)
    requires |arr| > 0
    ensures var s := RingRun(arr, ops); var q := FifoRun(ops, Capacity(|arr|));
            && Items(s.ring) == q.queue && s.out == q.dequeued
            && q.enqueued == q.removed + Items(s.ring)
            && |q.enqueued| == |s.out| + s.overflows + |Items(s.ring)|
  {
    FifoConserves(ops, Capacity(|arr|));
  }
}
