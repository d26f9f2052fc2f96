/**
  The circular buffer as a value: the array, the read position (none when empty) and the
  write position, with the queue that they stand for.
*/
module Ring {
  import opened CText

  datatype Ring<T> = Ring(arr: seq<T>, readpos: Option<nat>, writepos: nat)

  /** Keeps a position that moved by one inside the array. */
  function Wrap(size: nat, pos: nat): (p: nat)
    requires 0 < size && pos < 2 * size
    ensures p < size
  {
    if pos >= size then pos - size else pos
  }

  /**
    Positions lie in the array. A non-empty ring whose positions meet would be confused with
    a full one; only a ring of size one may do that.
  */
  predicate Wf<T>(r: Ring<T>) {
    && |r.arr| > 0 && r.writepos < |r.arr|
    && (r.readpos.Some? ==> r.readpos.value < |r.arr| && (|r.arr| > 1 ==> r.readpos.value != r.writepos))
  }

  /** One slot stays free, except in a ring of size one. */
  function Capacity(size: nat): nat { if size <= 1 then size else size - 1 }

  function Count<T>(r: Ring<T>): (n: nat)
    requires Wf(r)
    ensures n <= Capacity(|r.arr|)
    ensures n == 0 <==> r.readpos.None?
  {
    if r.readpos.None? then 0
    else if r.readpos.value < r.writepos then r.writepos - r.readpos.value
    else r.writepos + |r.arr| - r.readpos.value
  }

  /** The item `i` places behind the oldest. */
  function At<T>(r: Ring<T>, i: nat): T
    requires Wf(r) && i < Count(r)
  {
    r.arr[Wrap(|r.arr|, r.readpos.value + i)]
  }

  /** The stored items, oldest first. */
  function Items<T>(r: Ring<T>): (q: seq<T>)
    requires Wf(r)
    ensures |q| == Count(r)
    ensures forall i | 0 <= i < |q| :: q[i] == At(r, i)
  {
    seq(Count(r), i requires 0 <= i < Count(r) => At(r, i))
  }

  predicate Full<T>(r: Ring<T>)
    requires Wf(r)
  {
    r.readpos == Some(Wrap(|r.arr|, r.writepos + 1))
  }

  lemma FullIsCapacity<T>(r: Ring<T>)
    requires Wf(r)
    ensures Full(r) <==> |Items(r)| == Capacity(|r.arr|)
  {
  }

  function Init<T>(arr: seq<T>): (r: Ring<T>)
    requires |arr| > 0
    ensures Wf(r) && Items(r) == []
  {
    Ring(arr, None, 0)
  }

  /** Stores at the write position and moves it on. */
  function Push<T>(r: Ring<T>, x: T): (r': Ring<T>)
    requires r.writepos < |r.arr|
  {
    Ring(r.arr[r.writepos := x],
         if r.readpos.None? then Some(r.writepos) else r.readpos,
         Wrap(|r.arr|, r.writepos + 1))
  }

  /** Moves the read position on; none if that empties the ring. */
  function Pop<T>(r: Ring<T>): (r': Ring<T>)
    requires Wf(r) && r.readpos.Some?
  {
    var next := Wrap(|r.arr|, r.readpos.value + 1);
    r.(readpos := if next == r.writepos then None else Some(next))
  }

  /** Throws the oldest item away by moving the read position only. */
  function Discard<T>(r: Ring<T>): (r': Ring<T>)
    requires Wf(r) && r.readpos.Some?
  {
    r.(readpos := Some(Wrap(|r.arr|, r.readpos.value + 1)))
  }

  lemma PushAppends<T>(r: Ring<T>, x: T)
    requires Wf(r) && !Full(r)
    ensures Wf(Push(r, x)) && Items(Push(r, x)) == Items(r) + [x]
  {
    var r' := Push(r, x);
    assert Count(r') == Count(r) + 1;
    assert At(r', Count(r)) == x;
    forall i | 0 <= i < Count(r)
      ensures At(r', i) == At(r, i)
    {
    }
  }

  lemma PopTakesOldest<T>(r: Ring<T>)
    requires Wf(r) && r.readpos.Some?
    ensures Wf(Pop(r)) && Items(r) == [r.arr[r.readpos.value]] + Items(Pop(r))
  {
    var r' := Pop(r);
    assert Count(r') == Count(r) - 1;
    assert At(r, 0) == r.arr[r.readpos.value];
    forall i | 0 <= i < Count(r')
      ensures At(r', i) == At(r, i + 1)
    {
    }
    assert forall i | 1 <= i < Count(r) :: Items(r)[i] == Items(r')[i - 1];
  }

  /** Storing into a full ring replaces the oldest item by the new one at the other end. */
  lemma OverwriteDropsOldest<T>(r: Ring<T>, x: T)
    requires Wf(r) && Full(r)
    ensures var r' := Push(Discard(r), x);
            Wf(r') && Items(r') == Items(r)[1..] + [x] && Full(r')
  {
    var r' := Push(Discard(r), x);
    assert Count(r') == Count(r);
    assert At(r', Count(r) - 1) == x;
    forall i | 0 <= i < Count(r) - 1
      ensures At(r', i) == At(r, i + 1)
    {
    }
    assert forall i | 0 <= i < Count(r) - 1 :: Items(r')[i] == Items(r)[i + 1];
  }
}
