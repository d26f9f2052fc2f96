/**
  The ring shared by any number of threads: one mutex, two condition variables, blocking and
  non-blocking calls. Every step of a thread between two synchronisation points is one
  transition; wake-ups may be spurious. Only the counter `num` is also touched outside the lock,
  so each of its updates, inside the lock and after it, is a transition of its own: either one
  step, or a load and a store with anything in between.
*/
module RingProtocol {
  import opened CText
  import opened Ring
  import opened RingQueue

  type Tid = nat

  datatype Call<T> = PutBlocking(item: T) | TakeBlocking | PutNow(item: T) | TakeNow

  predicate IsPut<T>(c: Call<T>) { c.PutBlocking? || c.PutNow? }

  /**
    Where a thread is. Between `Checking` and `Unlocking` it holds the mutex. `Counting` is before
    the counter update inside the lock, `Late` before the one after it; `seen` is what was loaded.
  */
  datatype Pc<T> =
    | Idle
    | Locking(call: Call<T>)
    | Checking(call: Call<T>)
    | Sleeping(call: Call<T>)
    | Woken(call: Call<T>)
    | Committing(call: Call<T>)
    | Counting(call: Call<T>)
    | CountLoaded(call: Call<T>, seen: int)
    | Signalling(call: Call<T>)
    | Unlocking(call: Call<T>)
    | Late
    | Loaded(seen: int)

  /** An item that left the ring, by a dequeue or thrown away by a full enqueue. */
  datatype Removal<T> = Removal(item: T, dropped: bool)

  /** `lost` is the net amount of counter updates that stores have overwritten. */
  datatype State<T> = State(
    ring: Ring<T>, num: int, owner: Option<Tid>, pc: map<Tid, Pc<T>>,
    enqueued: seq<T>, removed: seq<Removal<T>>, lost: int)

  datatype Step<T> =
    | Invoke(t: Tid, call: Call<T>)
    | Acquire(t: Tid)
    | Test(t: Tid)
    | Spurious(t: Tid)
    | Commit(t: Tid)
    | Broadcast(t: Tid)
    | Unlock(t: Tid)
    | Count(t: Tid)
    | Load(t: Tid)
    | Store(t: Tid)

  // ----- transitions -----

  predicate Enabled<T>(s: State<T>, step: Step<T>) {
    step.t in s.pc && Wf(s.ring) &&
    var pc := s.pc[step.t];
    match step
    case Invoke(_, _) => pc.Idle?
    case Acquire(_) => (pc.Locking? || pc.Woken?) && s.owner.None?
    case Test(_) => pc.Checking?
    case Spurious(_) => pc.Sleeping?
    case Commit(_) => pc.Committing?
    case Broadcast(_) => pc.Signalling?
    case Unlock(_) => pc.Unlocking?
    case Count(_) => pc.Late? || pc.Counting?
    case Load(_) => pc.Late? || pc.Counting?
    case Store(_) => pc.Loaded? || pc.CountLoaded?
  }

  function At<T>(s: State<T>, t: Tid, pc: Pc<T>): State<T> { s.(pc := s.pc[t := pc]) }

  /** Whether a blocking call has to wait. */
  predicate MustWait<T>(r: Ring<T>, c: Call<T>)
    requires Wf(r)
  {
    (c.PutBlocking? && Full(r)) || (c.TakeBlocking? && r.readpos.None?)
  }

  /** The condition variable a thread sleeps on, by the kind of call that broadcasts on it. */
  predicate WokenBy<T>(pc: Pc<T>, c: Call<T>) {
    pc.Sleeping? && (if IsPut(c) then pc.call.TakeBlocking? else pc.call.PutBlocking?)
  }

  function WakeAll<T>(pc: map<Tid, Pc<T>>, c: Call<T>): map<Tid, Pc<T>> {
    map t | t in pc :: if WokenBy(pc[t], c) then Woken(pc[t].call) else pc[t]
  }

  /** Whether the call changes the counter while it holds the lock. */
  predicate Counts<T>(r: Ring<T>, c: Call<T>)
    requires Wf(r)
  {
    match c
    case PutBlocking(_) => true
    case TakeBlocking => false
    case PutNow(_) => !Full(r)
    case TakeNow => r.readpos.Some?
  }

  /** The change that a thread is about to make to the counter. */
  function Delta<T>(pc: Pc<T>): int {
    if pc.Counting? || pc.CountLoaded? then (if IsPut(pc.call) then 1 else -1)
    else if pc.Late? || pc.Loaded? then -1
    else 0
  }

  function AfterCount<T>(pc: Pc<T>): Pc<T> {
    if pc.Counting? || pc.CountLoaded? then Signalling(pc.call) else Idle
  }

  /** The effect of a call on the ring and the history. */
  function Effect<T>(s: State<T>, c: Call<T>): State<T>
    requires Wf(s.ring)
  {
    match c
    case PutBlocking(x) => s.(ring := Push(s.ring, x), enqueued := s.enqueued + [x])
    case PutNow(x) =>
      var s' := s.(ring := Enqueued(s.ring, x).0, enqueued := s.enqueued + [x]);
      if Full(s.ring) then s'.(removed := s.removed + [Removal(s.ring.arr[s.ring.readpos.value], true)]) else s'
    case _ =>
      var (r, d) := Dequeued(s.ring);
      if d.None? then s else s.(ring := r, removed := s.removed + [Removal(d.value, false)])
  }

  function Apply<T>(s: State<T>, step: Step<T>): State<T>
    requires Enabled(s, step)
  {
    var t := step.t;
    var pc := s.pc[t];
    match step
    case Invoke(_, c) => At(s, t, Locking(c))
    case Acquire(_) => At(s.(owner := Some(t)), t, Checking(pc.call))
    case Test(_) =>
      if MustWait(s.ring, pc.call) then At(s.(owner := None), t, Sleeping(pc.call))
      else At(s, t, Committing(pc.call))
    case Spurious(_) => At(s, t, Woken(pc.call))
    case Commit(_) =>
      At(Effect(s, pc.call), t, if Counts(s.ring, pc.call) then Counting(pc.call) else Signalling(pc.call))
    case Broadcast(_) => At(s.(pc := WakeAll(s.pc, pc.call)), t, Unlocking(pc.call))
    case Unlock(_) => At(s.(owner := None), t, if pc.call.TakeBlocking? then Late else Idle)
    case Count(_) => At(s.(num := s.num + Delta(pc)), t, AfterCount(pc))
    case Load(_) => At(s, t, if pc.Late? then Loaded(s.num) else CountLoaded(pc.call, s.num))
    case Store(_) => At(s.(num := pc.seen + Delta(pc), lost := s.lost + (s.num - pc.seen)), t, AfterCount(pc))
  }

  /** An initialised ring and idle threads. */
  ghost predicate Initial<T>(s: State<T>) {
    && |s.ring.arr| > 0 && s.ring == Init(s.ring.arr) && s.num == 0 && s.lost == 0 && s.owner.None?
    && s.enqueued == [] && s.removed == [] && forall t | t in s.pc :: s.pc[t].Idle?
  }

  /** The state after a run of enabled steps, if they are enabled one after another. */
  function Run<T>(s: State<T>, steps: seq<Step<T>>): Option<State<T>> {
    if steps == [] then Some(s)
    else
      match Run(s, steps[..|steps| - 1])
      case None => None
      case Some(m) => if Enabled(m, steps[|steps| - 1]) then Some(Apply(m, steps[|steps| - 1])) else None
  }

  // ----- the invariant -----

  predicate InSection<T>(pc: Pc<T>) {
    pc.Checking? || pc.Committing? || pc.Counting? || pc.CountLoaded? || pc.Signalling? || pc.Unlocking?
  }

  /** The mutex is held by exactly the thread that is inside. */
  ghost predicate Exclusive<T>(s: State<T>) {
    && (s.owner.Some? ==> s.owner.value in s.pc)
    && forall t | t in s.pc :: InSection(s.pc[t]) <==> s.owner == Some(t)
  }

  function Values<T>(removed: seq<Removal<T>>): (v: seq<T>)
    ensures |v| == |removed|
  {
    seq(|removed|, i requires 0 <= i < |removed| => removed[i].item)
  }

  /** What went in is what came out, in order, followed by what is stored. */
  ghost predicate Conserved<T>(s: State<T>) {
    Wf(s.ring) && s.enqueued == Values(s.removed) + Items(s.ring)
  }

  /** A thread that left its wait loop still finds room or an item. */
  ghost predicate Ready<T>(s: State<T>)
    requires Wf(s.ring)
  {
    forall t | t in s.pc && s.pc[t].Committing? :: !MustWait(s.ring, s.pc[t].call)
  }

  /** What a thread has stored is still there when it counts it. */
  ghost predicate Stored<T>(s: State<T>) {
    forall t | t in s.pc && (s.pc[t].Counting? || s.pc[t].CountLoaded?) ::
      !s.pc[t].call.TakeBlocking? && (IsPut(s.pc[t].call) ==> s.ring.readpos.Some?)
  }

  /** A blocking dequeue has taken its item but not yet decremented the counter. */
  predicate IsPending<T>(pc: Pc<T>) {
    pc.Late? || pc.Loaded? || ((pc.Signalling? || pc.Unlocking?) && pc.call.TakeBlocking?)
  }

  function Pending<T>(pc: map<Tid, Pc<T>>): set<Tid> { set t | t in pc && IsPending(pc[t]) }

  /** The counter update that the thread inside the lock still has to make. */
  function InLock<T>(s: State<T>): int {
    if s.owner.Some? && s.owner.value in s.pc then LockDelta(s.pc[s.owner.value]) else 0
  }

  function LockDelta<T>(pc: Pc<T>): int { if pc.Counting? || pc.CountLoaded? then Delta(pc) else 0 }

  ghost predicate Counted<T>(s: State<T>)
    requires Wf(s.ring)
  {
    s.num + s.lost + InLock(s) == |Items(s.ring)| + |Pending(s.pc)|
  }

  /** The thread inside has changed the ring by a put (or a take) and will broadcast. */
  predicate WillSignal<T>(s: State<T>, put: bool) {
    s.owner.Some? && s.owner.value in s.pc &&
    var pc := s.pc[s.owner.value];
    (pc.Counting? || pc.CountLoaded? || pc.Signalling?) && IsPut(pc.call) == put
  }

  /** Nobody sleeps without reason: the condition still holds, or the broadcast is about to come. */
  ghost predicate Watched<T>(s: State<T>)
    requires Wf(s.ring)
  {
    forall t | t in s.pc && s.pc[t].Sleeping? ::
      && (s.pc[t].call.PutBlocking? || s.pc[t].call.TakeBlocking?)
      && (MustWait(s.ring, s.pc[t].call) || WillSignal(s, s.pc[t].call.TakeBlocking?))
  }

  ghost predicate Inv<T>(s: State<T>) {
    Exclusive(s) && Conserved(s) && Ready(s) && Stored(s) && Counted(s) && Watched(s)
  }

  // ----- every step keeps it -----

  lemma ExclusiveKept<T>(s: State<T>, step: Step<T>)
    requires Inv(s) && Enabled(s, step)
    ensures Exclusive(Apply(s, step))
  {
    hide Wf, Items, Full;
  }

  lemma ValuesGrow<T>(removed: seq<Removal<T>>, r: Removal<T>)
    ensures Values(removed + [r]) == Values(removed) + [r.item]
  {
  }

  /** What a call does to the state once its wait is over. */
  ghost predicate EffectRight<T>(s: State<T>, s': State<T>, c: Call<T>)
    requires Wf(s.ring)
  {
    && Conserved(s') && s'.pc == s.pc && s'.owner == s.owner && s'.lost == s.lost && s'.num == s.num
    && |Items(s'.ring)| == |Items(s.ring)| + (if Counts(s.ring, c) then Delta(Counting(c))
                                              else if c.TakeBlocking? then -1 else 0)
    && (IsPut(c) ==> s'.ring.readpos.Some? && (Full(s.ring) ==> Full(s'.ring)))
    && (!IsPut(c) && s.ring.readpos.None? ==> s'.ring.readpos.None?)
  }

  lemma OverwriteEffect<T>(s: State<T>, x: T)
    requires Conserved(s) && Full(s.ring)
    ensures EffectRight(s, Effect(s, PutNow(x)), PutNow(x))
  {
    var r := s.ring;
    var first := r.arr[r.readpos.value];
    OverwriteDropsOldest(r, x);
    PopTakesOldest(r);
    ValuesGrow(s.removed, Removal(first, true));
    Shift(Values(s.removed), first, Items(Pop(r)), x);
    hide Items, Values, Full, Pop;
  }

  lemma Shift<T>(done: seq<T>, first: T, rest: seq<T>, x: T)
    ensures done + ([first] + rest) + [x] == done + [first] + (rest + [x])
    ensures ([first] + rest)[1..] == rest
  {
    assert done + ([first] + rest) == done + [first] + rest;
    assert done + [first] + rest + [x] == done + [first] + (rest + [x]);
  }

  lemma PutEffect<T>(s: State<T>, c: Call<T>)
    requires Conserved(s) && IsPut(c) && !Full(s.ring)
    ensures EffectRight(s, Effect(s, c), c)
  {
    PushAppends(s.ring, c.item);
    hide Items, Values, Full;
    assert Values(s.removed) + Items(s.ring) + [c.item] == Values(s.removed) + (Items(s.ring) + [c.item]);
  }

  lemma TakeEffect<T>(s: State<T>, c: Call<T>)
    requires Conserved(s) && !IsPut(c) && !MustWait(s.ring, c)
    ensures EffectRight(s, Effect(s, c), c)
  {
    if s.ring.readpos.Some? {
      var first := s.ring.arr[s.ring.readpos.value];
      PopTakesOldest(s.ring);
      ValuesGrow(s.removed, Removal(first, false));
      hide Items, Values, Full;
      assert Values(s.removed) + ([first] + Items(Pop(s.ring))) ==
             Values(s.removed) + [first] + Items(Pop(s.ring));
    }
  }

  lemma CallEffect<T>(s: State<T>, c: Call<T>)
    requires Conserved(s) && !MustWait(s.ring, c)
    ensures EffectRight(s, Effect(s, c), c)
  {
    var full := Full(s.ring);
    hide Conserved, EffectRight, Effect;
    if !IsPut(c) {
      TakeEffect(s, c);
    } else if full {
      OverwriteEffect(s, c.item);
    } else {
      PutEffect(s, c);
    }
  }

  /** Any step but a commit leaves the ring and its history alone. */
  lemma ConservedKept<T>(s: State<T>, step: Step<T>)
    requires Inv(s) && Enabled(s, step)
    ensures Conserved(Apply(s, step))
  {
    hide Items, Full, Wf, Values, Effect;
    if step.Commit? { CallEffect(s, s.pc[step.t].call); }
  }

  lemma ReadyKept<T>(s: State<T>, step: Step<T>)
    requires Inv(s) && Enabled(s, step)
    ensures Conserved(Apply(s, step)) && Ready(Apply(s, step))
  {
    ConservedKept(s, step);
    hide Items, Full, Wf, Values, Conserved, Effect, Counted, Watched, Stored;
    var s' := Apply(s, step);
    forall t | t in s'.pc && s'.pc[t].Committing?
      ensures !MustWait(s'.ring, s'.pc[t].call)
    {
      OnlyOne(s, step.t, t);
      if step.Commit? { CallEffect(s, s.pc[step.t].call); }
    }
  }

  lemma StoredKept<T>(s: State<T>, step: Step<T>)
    requires Inv(s) && Enabled(s, step)
    ensures Stored(Apply(s, step))
  {
    hide Items, Full, Wf, Values, Effect, Conserved, Counted, Watched, Ready;
    var s' := Apply(s, step);
    if step.Commit? { CommitStores(s, s.pc[step.t].call); }
    forall t | t in s'.pc && (s'.pc[t].Counting? || s'.pc[t].CountLoaded?)
      ensures !s'.pc[t].call.TakeBlocking? && (IsPut(s'.pc[t].call) ==> s'.ring.readpos.Some?)
    {
      OnlyOne(s, step.t, t);
    }
  }

  lemma CommitStores<T>(s: State<T>, c: Call<T>)
    requires Wf(s.ring)
    ensures Effect(s, c).pc == s.pc && (IsPut(c) ==> Effect(s, c).ring.readpos.Some?)
  {
    hide Full;
  }

  /** Two threads are never inside together. */
  lemma OnlyOne<T>(s: State<T>, t: Tid, u: Tid)
    requires Exclusive(s) && t in s.pc && u in s.pc
    ensures InSection(s.pc[t]) && InSection(s.pc[u]) ==> t == u
    ensures InSection(s.pc[u]) ==> s.owner == Some(u)
  {
  }

  lemma PendingAt<T>(pc: map<Tid, Pc<T>>, t: Tid, p: Pc<T>)
    requires t in pc
    ensures |Pending(pc[t := p])| ==
            |Pending(pc)| - (if IsPending(pc[t]) then 1 else 0) + (if IsPending(p) then 1 else 0)
  {
    var before, after := Pending(pc), Pending(pc[t := p]);
    assert after == if IsPending(p) then before + {t} else before - {t};
  }

  lemma NonePending<T>(pc: map<Tid, Pc<T>>)
    ensures |Pending(pc)| == 0 <==> forall t | t in pc :: !IsPending(pc[t])
  {
    if t :| t in pc && IsPending(pc[t]) { assert t in Pending(pc); }
  }

  lemma PendingWake<T>(pc: map<Tid, Pc<T>>, c: Call<T>)
    ensures Pending(WakeAll(pc, c)) == Pending(pc)
  {
  }

  /** A step changes the pending consumers by its own thread only. */
  lemma PendingStep<T>(s: State<T>, step: Step<T>)
    requires Enabled(s, step)
    ensures var s' := Apply(s, step);
            |Pending(s'.pc)| == |Pending(s.pc)| - (if IsPending(s.pc[step.t]) then 1 else 0)
                                + (if IsPending(s'.pc[step.t]) then 1 else 0)
  {
    hide Wf, Full, Pending;
    var t, pc, pc' := step.t, s.pc[step.t], Apply(s, step).pc;
    PendingAt(s.pc, t, pc'[t]);
    if step.Broadcast? {
      var woken := WakeAll(s.pc, pc.call);
      PendingWake(s.pc, pc.call);
      PendingAt(woken, t, pc'[t]);
      assert pc' == woken[t := pc'[t]];
    } else {
      if step.Commit? { EffectLocal(s, pc.call); }
      hide Effect;
      assert pc' == s.pc[t := pc'[t]];
    }
  }

  lemma EffectLocal<T>(m: State<T>, c: Call<T>)
    requires Wf(m.ring)
    ensures Effect(m, c).pc == m.pc && Effect(m, c).owner == m.owner
  {
    hide Wf, Full;
  }

  /** A step changes the update that is due inside the lock by its own thread only. */
  lemma InLockStep<T>(s: State<T>, step: Step<T>)
    requires Exclusive(s) && Enabled(s, step)
    ensures var s' := Apply(s, step);
            InLock(s') == InLock(s) - LockDelta(s.pc[step.t]) + LockDelta(s'.pc[step.t])
  {
    hide Wf, Full, Counts;
    if step.Commit? { EffectLocal(s, s.pc[step.t].call); }
    hide Effect;
  }

  lemma CountedKept<T>(s: State<T>, step: Step<T>)
    requires Inv(s) && Enabled(s, step)
    ensures Conserved(Apply(s, step)) && Counted(Apply(s, step))
  {
    ConservedKept(s, step);
    PendingStep(s, step);
    InLockStep(s, step);
    if step.Commit? { CallEffect(s, s.pc[step.t].call); }
    hide Items, Full, Wf, Values, Conserved, Pending, Watched, Effect, WakeAll, InLock, Exclusive;
  }

  lemma WatchedKept<T>(s: State<T>, step: Step<T>)
    requires Inv(s) && Enabled(s, step)
    ensures Conserved(Apply(s, step)) && Watched(Apply(s, step))
  {
    ConservedKept(s, step);
    hide Items, Full, Wf, Values, Conserved, Effect;
    var s' := Apply(s, step);
    forall t | t in s'.pc && s'.pc[t].Sleeping?
      ensures s'.pc[t].call.PutBlocking? || s'.pc[t].call.TakeBlocking?
      ensures MustWait(s'.ring, s'.pc[t].call) || WillSignal(s', s'.pc[t].call.TakeBlocking?)
    {
      OnlyOne(s, step.t, t);
      if step.Commit? { CallEffect(s, s.pc[step.t].call); }
    }
  }

  lemma StepKeepsInv<T>(s: State<T>, step: Step<T>)
    requires Inv(s) && Enabled(s, step)
    ensures Inv(Apply(s, step))
  {
    ExclusiveKept(s, step);
    ConservedKept(s, step);
    ReadyKept(s, step);
    StoredKept(s, step);
    CountedKept(s, step);
    WatchedKept(s, step);
  }

  // ----- every run -----

  lemma InitialInv<T>(s: State<T>)
    requires Initial(s)
    ensures Inv(s)
  {
    assert Pending(s.pc) == {};
    assert Values(s.removed) + Items(s.ring) == [];
  }

  lemma {:induction false} RunKeepsInv<T>(s: State<T>, steps: seq<Step<T>>)
    requires Initial(s) && Run(s, steps).Some?
    ensures Inv(Run(s, steps).value)
  {
    hide Inv, Initial, Enabled, Apply;
    if steps == [] {
      InitialInv(s);
    } else {
      RunKeepsInv(s, steps[..|steps| - 1]);
      StepKeepsInv(Run(s, steps[..|steps| - 1]).value, steps[|steps| - 1]);
    }
  }

  /**
    In every interleaving: the items enqueued in critical-section order are the removed items
    followed by the stored ones, and at most one thread is inside.
  */
  lemma NothingLost<T>(s: State<T>, steps: seq<Step<T>>)
    requires Initial(s) && Run(s, steps).Some?
    ensures var e := Run(s, steps).value;
            && Wf(e.ring) && e.enqueued == Values(e.removed) + Items(e.ring)
            && forall t, u | t in e.pc && u in e.pc && InSection(e.pc[t]) && InSection(e.pc[u]) :: t == u
  {
    RunKeepsInv(s, steps);
  }

  /** No lost wake-up: with the mutex free, sleepers have a reason to sleep, and only one kind sleeps. */
  lemma NoLostWakeup<T>(s: State<T>, steps: seq<Step<T>>)
    requires Initial(s) && Run(s, steps).Some? && Run(s, steps).value.owner.None?
    ensures var e := Run(s, steps).value;
            && Wf(e.ring)
            && (forall t | t in e.pc && e.pc[t].Sleeping? && IsPut(e.pc[t].call) ::
                  |Items(e.ring)| == Capacity(|e.ring.arr|))
            && (forall t | t in e.pc && e.pc[t].Sleeping? && !IsPut(e.pc[t].call) :: Items(e.ring) == [])
            && (forall t, u | t in e.pc && u in e.pc && e.pc[t].Sleeping? && e.pc[u].Sleeping? ::
                  IsPut(e.pc[t].call) == IsPut(e.pc[u].call))
  {
    RunKeepsInv(s, steps);
    var e := Run(s, steps).value;
    FullIsCapacity(e.ring);
    hide Items, Full, Capacity, Run, Initial;
  }

  /** A step that a thread inside a call makes on its own; a spurious wake-up is not one. */
  predicate Moves<T>(s: State<T>, step: Step<T>) {
    Enabled(s, step) && !step.Invoke? && !step.Spurious?
  }

  /** The step that a thread inside a call is about to make. */
  function NextStep<T>(t: Tid, pc: Pc<T>): Step<T> {
    match pc
    case Checking(_) => Test(t)
    case Committing(_) => Commit(t)
    case Counting(_) => Load(t)
    case CountLoaded(_, _) => Store(t)
    case Signalling(_) => Broadcast(t)
    case Unlocking(_) => Unlock(t)
    case Late => Load(t)
    case Loaded(_) => Store(t)
    case _ => Acquire(t)
  }

  lemma CanMove<T>(s: State<T>, t: Tid)
    requires Exclusive(s) && Wf(s.ring) && t in s.pc
    ensures s.pc[t].Idle? || s.pc[t].Sleeping? || Moves(s, NextStep(t, s.pc[t]))
            || (s.owner.Some? && Moves(s, NextStep(s.owner.value, s.pc[s.owner.value])))
  {
    hide Wf;
  }

  /**
    Deadlock only where the callers ask for it: when no thread can move on, the mutex is free and
    every thread is idle, or waits to put into a full ring, or all wait to take from an empty one.
  */
  lemma StuckOnlyWaiting<T>(s: State<T>, steps: seq<Step<T>>)
    requires Initial(s) && Run(s, steps).Some?
    requires forall step | Enabled(Run(s, steps).value, step) :: !Moves(Run(s, steps).value, step)
    ensures var e := Run(s, steps).value;
            && Wf(e.ring) && e.owner.None?
            && (forall t | t in e.pc :: e.pc[t].Idle? || e.pc[t].Sleeping?)
            && ((forall t | t in e.pc && e.pc[t].Sleeping? ::
                   IsPut(e.pc[t].call) && |Items(e.ring)| == Capacity(|e.ring.arr|))
                || (forall t | t in e.pc && e.pc[t].Sleeping? :: !IsPut(e.pc[t].call) && Items(e.ring) == []))
  {
    RunKeepsInv(s, steps);
    var e := Run(s, steps).value;
    hide Items, Full, Capacity, Run, Initial, Wf;
    forall t | t in e.pc
      ensures e.pc[t].Idle? || e.pc[t].Sleeping?
    {
      CanMove(e, t);
    }
    assert e.owner.None?;
    NoLostWakeup(s, steps);
  }

  /** A broadcast wakes all the threads that wait for it, and no others. */
  lemma BroadcastWakes<T>(s: State<T>, t: Tid, u: Tid)
    requires Enabled(s, Broadcast(t)) && u in s.pc && s.pc[u].Sleeping?
    ensures var put := s.pc[t].call.PutBlocking? || s.pc[t].call.PutNow?;
            var waits := if put then s.pc[u].call.TakeBlocking? else s.pc[u].call.PutBlocking?;
            Apply(s, Broadcast(t)).pc[u] == if waits then Woken(s.pc[u].call) else s.pc[u]
  {
    hide Wf;
  }

  // ----- blocking calls only -----

  /** No thread is in a call that may drop items, and none was dropped. */
  ghost predicate NoDrops<T>(s: State<T>) {
    && (forall t | t in s.pc && !s.pc[t].Idle? && !s.pc[t].Late? && !s.pc[t].Loaded? :: !s.pc[t].call.PutNow?)
    && forall i | 0 <= i < |s.removed| :: !s.removed[i].dropped
  }

  lemma StepKeepsNoDrops<T>(s: State<T>, step: Step<T>)
    requires Enabled(s, step) && NoDrops(s) && (step.Invoke? ==> !step.call.PutNow?)
    ensures NoDrops(Apply(s, step))
  {
    hide Wf, Full;
  }

  /** As long as nobody uses the dropping enqueue, every removed item was delivered by a dequeue. */
  lemma {:induction false} BlockingDelivers<T>(s: State<T>, steps: seq<Step<T>>)
    requires Initial(s) && Run(s, steps).Some?
    requires forall i | 0 <= i < |steps| :: steps[i].Invoke? ==> !steps[i].call.PutNow?
    ensures NoDrops(Run(s, steps).value)
  {
    if steps == [] {
    } else {
      hide NoDrops, Initial, Enabled, Apply;
      var n := |steps| - 1;
      BlockingDelivers(s, steps[..n]);
      StepKeepsNoDrops(Run(s, steps[..n]).value, steps[n]);
    }
  }
}
