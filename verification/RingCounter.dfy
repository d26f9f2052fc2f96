/**
  The counter `num` over every interleaving. Its updates inside the lock and the decrement after
  the unlock may each be a load and a store that other threads can get between.
*/
module RingCounter {
  import opened CText
  import opened Ring
  import opened RingProtocol

  /** In every run the counter is off by exactly the updates that stores have overwritten. */
  lemma CounterAccount<T>(s: State<T>, steps: seq<Step<T>>)
    requires Initial(s) && Run(s, steps).Some?
    ensures var e := Run(s, steps).value;
            Wf(e.ring) && e.num + e.lost + InLock(e) == |Items(e.ring)| + |Pending(e.pc)|
  {
    RunKeepsInv(s, steps);
  }

  /** Whenever a counter store happens, the counter still is what its thread has loaded. */
  predicate Undisturbed<T>(s: State<T>, steps: seq<Step<T>>) {
    steps == [] ||
    (var n := |steps| - 1;
     var m := Run(s, steps[..n]);
     && Undisturbed(s, steps[..n])
     && (m.Some? && Enabled(m.value, steps[n]) && steps[n].Store? ==> m.value.num == m.value.pc[steps[n].t].seen))
  }

  /** The counter and the updates that are still to be made add up to the number of stored items. */
  predicate CounterRight<T>(s: State<T>) {
    Wf(s.ring) && s.num + InLock(s) - |Pending(s.pc)| == |Items(s.ring)|
  }

  predicate AlwaysRight<T>(s: State<T>, steps: seq<Step<T>>) {
    Run(s, steps).Some? && CounterRight(Run(s, steps).value) &&
    (steps == [] || AlwaysRight(s, steps[..|steps| - 1]))
  }

  /** The counter is right all the time exactly in the runs whose stores are undisturbed. */
  lemma {:induction false} RightIffUndisturbed<T>(s: State<T>, steps: seq<Step<T>>)
    requires Initial(s) && Run(s, steps).Some?
    ensures AlwaysRight(s, steps) <==> Undisturbed(s, steps)
    ensures Undisturbed(s, steps) ==> Run(s, steps).value.lost == 0
  {
    hide Initial, Items, Pending, Wf, InLock, Enabled, Apply;
    CounterAccount(s, steps);
    if steps == [] {
      InitialLost(s);
    } else {
      var n := |steps| - 1;
      var m := Run(s, steps[..n]).value;
      RightIffUndisturbed(s, steps[..n]);
      CounterAccount(s, steps[..n]);
      LostBy(m, steps[n]);
    }
  }

  lemma InitialLost<T>(s: State<T>)
    requires Initial(s)
    ensures s.lost == 0
  {
  }

  /** Only a disturbed store changes what is lost. */
  lemma LostBy<T>(s: State<T>, step: Step<T>)
    requires Enabled(s, step)
    ensures Apply(s, step).lost == s.lost + if step.Store? then s.num - s.pc[step.t].seen else 0
  {
    hide Wf, Full;
  }

  /**
    With undisturbed updates the counter never underflows. Unless the thread inside the lock is
    about to count, it lags only behind consumers that have not decremented it yet.
  */
  lemma CounterExact<T>(s: State<T>, steps: seq<Step<T>>)
    requires Initial(s) && Run(s, steps).Some? && Undisturbed(s, steps)
    ensures var e := Run(s, steps).value;
            && Wf(e.ring) && e.num + InLock(e) == |Items(e.ring)| + |Pending(e.pc)| && e.num >= 0
            && (InLock(e) == 0 ==> (e.num == |Items(e.ring)| <==> forall t | t in e.pc :: !IsPending(e.pc[t])))
  {
    var e := Run(s, steps).value;
    RightIffUndisturbed(s, steps);
    RunKeepsInv(s, steps);
    hide Run, Initial, Undisturbed;
    NonePending(e.pc);
    SomethingStored(e);
    hide Pending, Items, InLock, Inv;
  }

  /** A put that is to be counted has its item in the ring. */
  lemma SomethingStored<T>(s: State<T>)
    requires Inv(s)
    ensures InLock(s) <= if Items(s.ring) == [] then 0 else 1
    ensures s.num + s.lost + InLock(s) == |Items(s.ring)| + |Pending(s.pc)|
  {
    hide Pending, Values, Ready, Watched;
  }

  /** Updates in one step are undisturbed. */
  lemma {:induction false} AtomicUndisturbed<T>(s: State<T>, steps: seq<Step<T>>)
    requires forall i | 0 <= i < |steps| :: !steps[i].Store?
    ensures Undisturbed(s, steps)
  {
    hide Run;
    if steps != [] { AtomicUndisturbed(s, steps[..|steps| - 1]); }
  }

  // ----- three runs -----

  lemma RunMore<T>(s: State<T>, steps: seq<Step<T>>, m: State<T>, step: Step<T>)
    requires Run(s, steps) == Some(m) && Enabled(m, step)
    ensures Run(s, steps + [step]) == Some(Apply(m, step))
  {
    assert (steps + [step])[..|steps|] == steps;
  }

  lemma {:induction false} RunConcat<T>(s: State<T>, a: seq<Step<T>>, m: State<T>, b: seq<Step<T>>)
    requires Run(s, a) == Some(m)
    ensures Run(s, a + b) == Run(m, b)
    decreases |b|
  {
    hide Enabled, Apply;
    if b == [] {
      assert a + b == a;
    } else {
      var n := |b| - 1;
      assert (a + b)[..|a| + n] == a + b[..n];
      assert (a + b)[|a| + n] == b[n];
      RunConcat(s, a, m, b[..n]);
    }
  }

  /** `m` with the thread `t` at another place. */
  function Moved<T>(m: State<T>, t: Tid, pc: Pc<T>, inside: bool): State<T> {
    m.(pc := m.pc[t := pc], owner := if inside then Some(t) else None)
  }

  lemma MovedTwice<T>(m: State<T>, t: Tid, p: Pc<T>, q: Pc<T>, i: bool, j: bool)
    ensures Moved(Moved(m, t, p, i), t, q, j) == Moved(m, t, q, j)
  {
    assert m.pc[t := p][t := q] == m.pc[t := q];
  }

  lemma CallTaken<T>(m: State<T>, t: Tid, c: Call<T>)
    requires Wf(m.ring) && t in m.pc && m.pc[t].Idle? && m.owner.None? && !MustWait(m.ring, c)
    ensures Run(m, [Invoke(t, c), Acquire(t), Test(t)]) == Some(Moved(m, t, Committing(c), true))
  {
    hide Wf, Full;
    MovedTwice(m, t, Locking(c), Checking(c), false, true);
    MovedTwice(m, t, Checking(c), Committing(c), true, true);
    RunNothing(m);
    hide Run;
    RunMore(m, [], m, Invoke(t, c));
    assert [] + [Invoke(t, c)] == [Invoke(t, c)];
    RunMore(m, [Invoke(t, c)], Moved(m, t, Locking(c), false), Acquire(t));
    assert [Invoke(t, c)] + [Acquire(t)] == [Invoke(t, c), Acquire(t)];
    RunMore(m, [Invoke(t, c), Acquire(t)], Moved(m, t, Checking(c), true), Test(t));
    assert [Invoke(t, c), Acquire(t)] + [Test(t)] == [Invoke(t, c), Acquire(t), Test(t)];
  }

  lemma RunNothing<T>(s: State<T>)
    ensures Run(s, []) == Some(s)
  {
  }

  /** A call up to and with its change of the ring. */
  function EnterSteps<T>(t: Tid, c: Call<T>): seq<Step<T>> { [Invoke(t, c), Acquire(t), Test(t)] + [Commit(t)] }

  /** The thread can make the call without waiting. */
  predicate CanEnter<T>(m: State<T>, t: Tid, c: Call<T>) {
    Wf(m.ring) && t in m.pc && m.pc[t].Idle? && m.owner.None? && !MustWait(m.ring, c)
  }

  function Entered<T>(m: State<T>, t: Tid, c: Call<T>): State<T>
    requires Wf(m.ring)
  {
    Moved(Effect(m, c), t, if Counts(m.ring, c) then Counting(c) else Signalling(c), true)
  }

  lemma EnterRuns<T>(s: State<T>, steps: seq<Step<T>>, m: State<T>, t: Tid, c: Call<T>)
    requires Run(s, steps) == Some(m) && CanEnter(m, t, c)
    ensures Run(s, steps + EnterSteps(t, c)) == Some(Entered(m, t, c))
  {
    hide Run, MustWait;
    var a, m0 := [Invoke(t, c), Acquire(t), Test(t)], Moved(m, t, Committing(c), true);
    CallTaken(m, t, c);
    CommitMoved(m, t, c);
    hide Enabled, Apply, Entered;
    RunMore(m, a, m0, Commit(t));
    RunConcat(s, steps, m, EnterSteps(t, c));
  }

  lemma CommitMoved<T>(m: State<T>, t: Tid, c: Call<T>)
    requires Wf(m.ring) && t in m.pc
    ensures var m0 := Moved(m, t, Committing(c), true);
            Enabled(m0, Commit(t)) && Apply(m0, Commit(t)) == Entered(m, t, c)
  {
    hide Wf, Full;
    var p := if Counts(m.ring, c) then Counting(c) else Signalling(c);
    EffectLocal(m, c);
    MovedTwice(Effect(m, c), t, Committing(c), p, true, true);
  }

  function LeaveSteps<T>(t: Tid): seq<Step<T>> { [Broadcast(t), Unlock(t)] }

  /** The broadcast wakes nobody, since nobody sleeps. */
  lemma LeaveRuns<T>(s: State<T>, steps: seq<Step<T>>, e: State<T>, t: Tid, c: Call<T>)
    requires Run(s, steps) == Some(Moved(e, t, Signalling(c), true)) && Wf(e.ring) && t in e.pc
    requires forall u | u in e.pc :: !e.pc[u].Sleeping?
    ensures Run(s, steps + LeaveSteps(t)) == Some(Moved(e, t, if c.TakeBlocking? then Late else Idle, false))
  {
    hide Run, Wf;
    var m1, m2 := Moved(e, t, Signalling(c), true), Moved(e, t, Unlocking(c), true);
    MovedTwice(e, t, Signalling(c), Unlocking(c), true, true);
    MovedTwice(e, t, Unlocking(c), if c.TakeBlocking? then Late else Idle, true, false);
    assert WakeAll(m1.pc, c) == m1.pc;
    RunMore(s, steps, m1, Broadcast(t));
    RunMore(s, steps + [Broadcast(t)], m2, Unlock(t));
    assert steps + [Broadcast(t)] + [Unlock(t)] == steps + LeaveSteps(t);
  }

  // The states of the runs: two threads and a ring of three slots.

  function Two(a: Pc<int>, b: Pc<int>): map<Tid, Pc<int>> { map[0 := a, 1 := b] }

  function Start(): State<int> { State(Ring([0, 0, 0], None, 0), 0, None, Two(Idle, Idle), [], [], 0) }

  function OneIn(): State<int> { State(Ring([7, 0, 0], Some(0), 1), 1, None, Two(Idle, Idle), [7], [], 0) }

  /** The item is out, the counter not yet decremented. */
  function Lagging(): State<int> {
    State(Ring([7, 0, 0], None, 1), 1, None, Two(Idle, Late), [7], [Removal(7, false)], 0)
  }

  /** A second item is in, the counter says `num` and its thread is at `p`, the consumer at `q`. */
  function SecondIn(num: int, p: Pc<int>, q: Pc<int>, lost: int): State<int> {
    State(Ring([7, 8, 0], Some(1), 2), num, if p.Idle? then None else Some(0), Two(p, q), [7, 8],
          [Removal(7, false)], lost)
  }

  const Seven: Call<int> := PutBlocking(7)
  const Eight: Call<int> := PutBlocking(8)

  lemma FirstPut()
    ensures Initial(Start()) && CanEnter(Start(), 0, Seven)
    ensures var e := Entered(Start(), 0, Seven);
            Enabled(e, Count(0)) && Apply(e, Count(0)) == Moved(OneIn(), 0, Signalling(Seven), true)
    ensures Moved(OneIn(), 0, Idle, false) == OneIn() && Wf(OneIn().ring)
  {
    assert Two(Idle, Idle)[0 := Counting(Seven)][0 := Signalling(Seven)] == Two(Signalling(Seven), Idle);
    assert Two(Idle, Idle)[0 := Signalling(Seven)] == Two(Signalling(Seven), Idle);
    assert Two(Idle, Idle)[0 := Idle] == Two(Idle, Idle);
  }

  lemma FirstTake()
    ensures CanEnter(OneIn(), 1, TakeBlocking)
    ensures Entered(OneIn(), 1, TakeBlocking) == Moved(Lagging(), 1, Signalling(TakeBlocking), true)
    ensures Moved(Lagging(), 1, Late, false) == Lagging() && Wf(Lagging().ring) && Items(Lagging().ring) == []
  {
    assert Two(Idle, Idle)[1 := Signalling(TakeBlocking)] == Two(Idle, Late)[1 := Signalling(TakeBlocking)];
    assert Two(Idle, Late)[1 := Late] == Two(Idle, Late);
  }

  /** A blocking dequeue that has taken the only item: the ring is empty and the counter says one. */
  lemma CounterLags() returns (steps: seq<Step<int>>)
    ensures Initial(Start()) && Undisturbed(Start(), steps) && Run(Start(), steps) == Some(Lagging())
    ensures Items(Lagging().ring) == [] && Lagging().num == 1
  {
    RunNothing(Start());
    FirstPut();
    FirstTake();
    hide Run, Undisturbed, Initial, Entered, CanEnter, Items, Enabled, Apply, Wf;
    hide Start, OneIn, Lagging;
    EnterRuns(Start(), [], Start(), 0, Seven);
    steps := [] + EnterSteps(0, Seven);
    RunMore(Start(), steps, Entered(Start(), 0, Seven), Count(0));
    steps := steps + [Count(0)];
    Awake();
    LeaveRuns(Start(), steps, OneIn(), 0, Seven);
    steps := steps + LeaveSteps(0);
    EnterRuns(Start(), steps, OneIn(), 1, TakeBlocking);
    steps := steps + EnterSteps(1, TakeBlocking);
    LeaveRuns(Start(), steps, Lagging(), 1, TakeBlocking);
    steps := steps + LeaveSteps(1);
    AtomicUndisturbed(Start(), steps);
  }

  lemma Awake()
    ensures forall u | u in OneIn().pc :: !OneIn().pc[u].Sleeping?
    ensures forall u | u in Lagging().pc :: !Lagging().pc[u].Sleeping?
    ensures 0 in OneIn().pc && 1 in Lagging().pc && Lagging().num == 1
  {
  }

  /** The second put from two places of the consumer. */
  lemma SecondPut(q: Pc<int>)
    requires q == Late || q == Loaded(1)
    ensures var m := Lagging().(pc := Two(Idle, q));
            CanEnter(m, 0, Eight) && Entered(m, 0, Eight) == SecondIn(1, Counting(Eight), q, 0)
  {
    assert Two(Idle, q)[0 := Counting(Eight)] == Two(Counting(Eight), q);
  }

  /** What the counter steps of the two threads do in these states. */
  lemma ProducerSteps(num: int, p: Pc<int>, q: Pc<int>, lost: int)
    ensures var m := SecondIn(num, p, q, lost);
            && (p.Counting? ==> Enabled(m, Load(0)) && Enabled(m, Count(0)) &&
                                Apply(m, Load(0)) == SecondIn(num, CountLoaded(p.call, num), q, lost) &&
                                Apply(m, Count(0)) == SecondIn(num + Delta(p), Signalling(p.call), q, lost))
            && (p.CountLoaded? ==> Enabled(m, Store(0)) &&
                                   Apply(m, Store(0)) ==
                                   SecondIn(p.seen + Delta(p), Signalling(p.call), q, lost + num - p.seen))
  {
    forall r: Pc<int>
      ensures Two(p, q)[0 := r] == Two(r, q)
    {
    }
  }

  lemma ConsumerSteps(num: int, p: Pc<int>, q: Pc<int>, lost: int)
    ensures var m := SecondIn(num, p, q, lost);
            && (q.Late? ==> Enabled(m, Count(1)) && Apply(m, Count(1)) == SecondIn(num - 1, p, Idle, lost))
            && (q.Loaded? ==> Enabled(m, Store(1)) &&
                              Apply(m, Store(1)) == SecondIn(q.seen - 1, p, Idle, lost + num - q.seen))
  {
    assert Two(p, q)[1 := Idle] == Two(p, Idle);
  }

  lemma SecondLeaves(num: int, q: Pc<int>, lost: int)
    requires !q.Sleeping?
    ensures var e := SecondIn(num, Idle, q, lost);
            && SecondIn(num, Signalling(Eight), q, lost) == Moved(e, 0, Signalling(Eight), true)
            && Moved(e, 0, Idle, false) == e && Wf(e.ring) && 0 in e.pc && Items(e.ring) == [8]
            && forall u | u in e.pc :: !e.pc[u].Sleeping?
  {
    assert Two(Idle, q)[0 := Signalling(Eight)] == Two(Signalling(Eight), q);
    assert Two(Idle, q)[0 := Idle] == Two(Idle, q);
  }

  /**
    A put between the load and the store of a late decrement is lost for good: everybody is done,
    one item is stored, and the counter says zero.
  */
  lemma LostUpdate() returns (steps: seq<Step<int>>)
    ensures Initial(Start()) && Run(Start(), steps) == Some(SecondIn(0, Idle, Idle, 1))
    ensures Items(SecondIn(0, Idle, Idle, 1).ring) == [8]
  {
    hide Run, Undisturbed, Initial, Entered, CanEnter, Items, Enabled, Apply, Wf, SecondIn, Start;
    steps := CounterLags();
    LoadStep();
    RunMore(Start(), steps, Lagging(), Load(1));
    steps := steps + [Load(1)];
    SecondPut(Loaded(1));
    EnterRuns(Start(), steps, Lagging().(pc := Two(Idle, Loaded(1))), 0, Eight);
    steps := steps + EnterSteps(0, Eight);
    ProducerSteps(1, Counting(Eight), Loaded(1), 0);
    RunMore(Start(), steps, SecondIn(1, Counting(Eight), Loaded(1), 0), Count(0));
    steps := steps + [Count(0)];
    SecondLeaves(2, Loaded(1), 0);
    LeaveRuns(Start(), steps, SecondIn(2, Idle, Loaded(1), 0), 0, Eight);
    steps := steps + LeaveSteps(0);
    ConsumerSteps(2, Idle, Loaded(1), 0);
    RunMore(Start(), steps, SecondIn(2, Idle, Loaded(1), 0), Store(1));
    steps := steps + [Store(1)];
    SecondLeaves(0, Idle, 1);
  }

  lemma LoadStep()
    ensures Enabled(Lagging(), Load(1)) && Apply(Lagging(), Load(1)) == Lagging().(pc := Two(Idle, Loaded(1)))
    ensures Lagging().(pc := Two(Idle, Late)) == Lagging()
  {
    assert Two(Idle, Late)[1 := Loaded(1)] == Two(Idle, Loaded(1));
  }

  /**
    The other way round, a late decrement in one step is swallowed by a put that is counting:
    everybody is done, one item is stored, and the counter says two.
  */
  lemma SwallowedDecrement() returns (steps: seq<Step<int>>)
    ensures Initial(Start()) && Run(Start(), steps) == Some(SecondIn(2, Idle, Idle, -1))
    ensures Items(SecondIn(2, Idle, Idle, -1).ring) == [8]
  {
    hide Run, Undisturbed, Initial, Entered, CanEnter, Items, Enabled, Apply, Wf, SecondIn, Start;
    steps := CounterLags();
    LoadStep();
    SecondPut(Late);
    EnterRuns(Start(), steps, Lagging(), 0, Eight);
    steps := steps + EnterSteps(0, Eight);
    ProducerSteps(1, Counting(Eight), Late, 0);
    RunMore(Start(), steps, SecondIn(1, Counting(Eight), Late, 0), Load(0));
    steps := steps + [Load(0)];
    ConsumerSteps(1, CountLoaded(Eight, 1), Late, 0);
    RunMore(Start(), steps, SecondIn(1, CountLoaded(Eight, 1), Late, 0), Count(1));
    steps := steps + [Count(1)];
    ProducerSteps(0, CountLoaded(Eight, 1), Idle, 0);
    RunMore(Start(), steps, SecondIn(0, CountLoaded(Eight, 1), Idle, 0), Store(0));
    steps := steps + [Store(0)];
    SecondLeaves(2, Idle, -1);
    LeaveRuns(Start(), steps, SecondIn(2, Idle, Idle, -1), 0, Eight);
    steps := steps + LeaveSteps(0);
  }
}
