/** How the entry pool grows, and which pools an insertion in the middle leaves. */
module IniPool {

  /** Bytes of one entry on a 64-bit machine: four pointers and the flags, padded. */
  const ENTRY_SIZE: nat := 40

  /** The new size when `count` entries do not fit into `max`. */
  function Grown(max: nat, count: nat): (r: nat)
    ensures r >= max + count
  {
    if max == 0 then count + 4096 / ENTRY_SIZE else count + max + max / 2
  }

  /** `maxEntries` after `n` single allocations from an empty pool. */
  function PoolSize(n: nat): (max: nat)
    ensures n <= max
  {
    if n == 0 then 0
    else if n <= PoolSize(n - 1) then PoolSize(n - 1)
    else Grown(PoolSize(n - 1), 1)
  }

  /** Entries copied by all reallocations on the way to `n` entries. */
  function Copied(n: nat): nat {
    if n == 0 then 0
    else Copied(n - 1) + (if n <= PoolSize(n - 1) then 0 else n - 1)
  }

  /** Growing is linear in total: at most three copies for each entry. */
  lemma {:induction false} CopiedBound(n: nat)
    ensures Copied(n) <= 3 * n && Copied(n) <= 2 * PoolSize(n)
  {
    if n > 0 { CopiedBound(n - 1); }
  }

  // ----- insertion in the middle -----

  /** `generation` counts reallocations: a pointer taken in an earlier generation is dead. */
  datatype Pool = Pool(generation: nat, num: nat, max: nat)

  /** `_cfg_poolalloc`. */
  function Allocated(p: Pool, count: nat): Pool {
    if p.num + count <= p.max then p.(num := p.num + count)
    else Pool(p.generation + 1, p.num + count, Grown(p.max, count))
  }

  /** The pool after `n` single allocations. */
  function Filled(n: nat): Pool {
    if n == 0 then Pool(0, 0, 0) else Allocated(Filled(n - 1), 1)
  }

  /**
    Insertion takes a pointer to entry `k`, allocates, and then moves `num - k` entries from `k`
    to `k + 1` through that pointer. It stays inside the pool if the pointer is still alive and
    the end of the target is not behind the array.
  */
  predicate InsertStays(p: Pool, k: nat) {
    var p' := Allocated(p, 1);
    p'.generation == p.generation && k + 1 + (p'.num - k) <= p'.max
  }

  /** Insertion needs two free slots, one more than it uses, wherever it happens. */
  lemma InsertStaysExactly(p: Pool, k: nat)
    requires k <= p.num <= p.max
    ensures InsertStays(p, k) <==> p.num + 2 <= p.max
  {
  }

  lemma {:induction false} FilledSize(n: nat)
    ensures Filled(n).num == n && Filled(n).max == PoolSize(n)
  {
    if n > 0 { FilledSize(n - 1); }
  }

  /** The sizes the pool takes as it grows: 103, 155, 233 and so on. */
  function Boundary(j: nat): (b: nat)
    ensures b >= 103
  {
    if j == 0 then Grown(0, 1) else Grown(Boundary(j - 1), 1)
  }

  lemma {:induction false} BoundaryGrows(i: nat, j: nat)
    requires i < j
    ensures Boundary(i) + 2 <= Boundary(j)
    decreases j
  {
    if i < j - 1 { BoundaryGrows(i, j - 1); }
  }

  /** A filled pool has the first of these sizes that is enough. */
  lemma {:induction false} PoolIsBoundary(n: nat) returns (j: nat)
    requires n > 0
    ensures PoolSize(n) == Boundary(j) && (j > 0 ==> Boundary(j - 1) < n)
  {
    if n == 1 {
      j := 0;
    } else {
      j := PoolIsBoundary(n - 1);
      if n > PoolSize(n - 1) { j := j + 1; }
    }
  }

  /** Exactly the files whose entries fill the pool, or all of it but one slot, have no room to insert. */
  lemma TightSizes(n: nat, k: nat)
    requires 0 < n && k <= n
    ensures !InsertStays(Filled(n), k) <==> exists j :: n == Boundary(j) || n + 1 == Boundary(j)
  {
    hide PoolSize, Filled, Boundary;
    FilledSize(n);
    InsertStaysExactly(Filled(n), k);
    var i := PoolIsBoundary(n);
    if j :| n == Boundary(j) || n + 1 == Boundary(j) {
      if i < j { BoundaryGrows(i, j); }
      if j + 1 < i { BoundaryGrows(j, i - 1); }
    }
  }

  lemma FirstBoundaries()
    ensures Boundary(0) == 103 && Boundary(1) == 155 && Boundary(2) == 233
  {
  }
}
