/** BoundedBlockingQueue, BlockingQueue and LogQueue as step systems: any number of threads, one mutex,
    Mesa condition variables (a woken thread competes for the mutex again), spurious wakeups and barging. */
module QueueProtocol {
  import opened Wrappers
  import opened Counting

  datatype Kind =
    | Bounded(capacity: nat)  // BoundedBlockingQueue: notEmpty_ and notFull_, notify under the mutex
    | Blocking                // BlockingQueue: notEmpty_ only, notify under the mutex, drain
    | Log                     // LogQueue before exit: notify_one after the mutex is released

  /** Where a thread is. The mutex is held exactly at the points of `Holds`. */
  datatype Pc<T> =
    | Idle
    | PutLocks(x: T)      // wants the mutex: on entry, or woken inside notFull_.wait()
    | PutTests(x: T)      // holds it, at the loop test
    | PutSleeps(x: T)     // asleep on notFull_
    | PutReady(x: T)      // past the loop, about to push
    | PutPushed           // pushed, mutex still held
    | PutNotifies         // Log only: mutex released, notify_one still to come
    | TakeLocks | TakeTests | TakeSleeps
    | TakeReady           // past the loop, about to pop
    | TakePopped(x: T)    // Bounded only: popped, notFull_.notify() still to come
    | DrainLocks | DrainHolds
    | Leaving(got: seq<T>) // about to release the mutex and return

  datatype State<T> = State(
    kind: Kind, queue: seq<T>, owner: Option<Tid>, threads: map<Tid, Pc<T>>,
    put: seq<T>,    // everything pushed so far, in lock order
    taken: seq<T>)  // everything popped or drained so far, in lock order

  datatype Action<T> =
    | CallPut(t: Tid, x: T) | CallTake(t: Tid) | CallDrain(t: Tid)
    | Acquire(t: Tid) | Test(t: Tid) | Push(t: Tid) | Pop(t: Tid) | DrainAll(t: Tid)
    | Notify(t: Tid, wake: Option<Tid>) | Release(t: Tid)
    | Spurious(t: Tid)

  function Init<T>(kind: Kind): State<T>
  {
    State(kind, [], None, map[], [], [])
  }

  function At<T>(s: State<T>, t: Tid): Pc<T>
  {
    if t in s.threads then s.threads[t] else Idle
  }

  function Move<T>(s: State<T>, t: Tid, pc: Pc<T>): State<T>
  {
    s.(threads := s.threads[t := pc])
  }

  predicate Full<T>(s: State<T>)
  {
    s.kind.Bounded? && |s.queue| == s.kind.capacity
  }

  /** boost::circular_buffer::push_back drops the front of a full ring; deque and queue just grow. */
  function PushBack<T>(s: State<T>, x: T): seq<T>
  {
    if Full(s) then (if s.queue == [] then [] else s.queue[1..] + [x]) else s.queue + [x]
  }

  predicate Holds<T>(pc: Pc<T>)
  {
    pc.PutTests? || pc.PutReady? || pc.PutPushed? || pc.TakeTests? || pc.TakeReady? || pc.TakePopped?
    || pc.DrainHolds? || pc.Leaving?
  }

  predicate SleepingTaker<T>(pc: Pc<T>) { pc.TakeSleeps? }
  predicate SleepingPutter<T>(pc: Pc<T>) { pc.PutSleeps? }

  /** Takers on their way to the queue, and the wakeups still owed to notEmpty. */
  predicate ContendingTaker<T>(pc: Pc<T>) { pc.TakeLocks? || pc.TakeTests? || pc.TakeReady? }
  predicate OwesNotEmpty<T>(pc: Pc<T>) { pc.PutPushed? || pc.PutNotifies? }

  predicate ContendingPutter<T>(pc: Pc<T>) { pc.PutLocks? || pc.PutTests? || pc.PutReady? }
  predicate OwesNotFull<T>(pc: Pc<T>) { pc.TakePopped? }

  // ---------- the steps ----------

  /** pthread_cond_signal / notify_one: wakes one sleeper if there is any, otherwise nobody. */
  function Signal<T>(s: State<T>, wake: Option<Tid>, takers: bool): Option<State<T>>
  {
    match wake
    case None =>
      if exists w :: w in s.threads && (if takers then s.threads[w].TakeSleeps? else s.threads[w].PutSleeps?)
      then None else Some(s)
    case Some(w) =>
      if takers && At(s, w).TakeSleeps? then Some(Move(s, w, TakeLocks))
      else if !takers && At(s, w).PutSleeps? then Some(Move(s, w, PutLocks(At(s, w).x)))
      else None
  }

  function Then<T>(s: Option<State<T>>, t: Tid, pc: Pc<T>): Option<State<T>>
  {
    if s.None? then None else Some(Move(s.value, t, pc))
  }

  function Call<T>(s: State<T>, t: Tid, entry: Pc<T>): Option<State<T>>
  {
    if At(s, t).Idle? && (entry.PutLocks? || entry.TakeLocks? || (entry.DrainLocks? && s.kind.Blocking?))
    then Some(Move(s, t, entry)) else None
  }

  function Lock<T>(s: State<T>, t: Tid): Option<State<T>>
  {
    var pc := At(s, t);
    if s.owner.Some? then None
    else if pc.PutLocks? then Some(Move(s, t, PutTests(pc.x)).(owner := Some(t)))
    else if pc.TakeLocks? then Some(Move(s, t, TakeTests).(owner := Some(t)))
    else if pc.DrainLocks? then Some(Move(s, t, DrainHolds).(owner := Some(t)))
    else None
  }

  /** The loop test: wait, which releases the mutex and sleeps at once, or go on. */
  function LoopTest<T>(s: State<T>, t: Tid): Option<State<T>>
  {
    var pc := At(s, t);
    if pc.PutTests? then
      (if Full(s) then Some(Move(s, t, PutSleeps(pc.x)).(owner := None)) else Some(Move(s, t, PutReady(pc.x))))
    else if pc.TakeTests? then
      (if s.queue == [] then Some(Move(s, t, TakeSleeps).(owner := None)) else Some(Move(s, t, TakeReady)))
    else None
  }

  function PushItem<T>(s: State<T>, t: Tid): Option<State<T>>
  {
    var pc := At(s, t);
    if pc.PutReady? then Some(Move(s, t, PutPushed).(queue := PushBack(s, pc.x), put := s.put + [pc.x])) else None
  }

  function PopItem<T>(s: State<T>, t: Tid): Option<State<T>>
  {
    if At(s, t).TakeReady? && s.queue != [] then
      Some(Move(s, t, if s.kind.Bounded? then TakePopped(s.queue[0]) else Leaving([s.queue[0]]))
           .(queue := s.queue[1..], taken := s.taken + [s.queue[0]]))
    else None
  }

  function TakeAll<T>(s: State<T>, t: Tid): Option<State<T>>
  {
    if At(s, t).DrainHolds? then Some(Move(s, t, Leaving(s.queue)).(queue := [], taken := s.taken + s.queue)) else None
  }

  function NotifyOne<T>(s: State<T>, t: Tid, wake: Option<Tid>): Option<State<T>>
  {
    var pc := At(s, t);
    if pc.PutPushed? && !s.kind.Log? then Then(Signal(s, wake, true), t, Leaving([]))
    else if pc.PutNotifies? then Then(Signal(s, wake, true), t, Idle)
    else if pc.TakePopped? then Then(Signal(s, wake, false), t, Leaving([pc.x]))
    else None
  }

  function Unlock<T>(s: State<T>, t: Tid): Option<State<T>>
  {
    var pc := At(s, t);
    if pc.Leaving? then Some(Move(s, t, Idle).(owner := None))
    else if pc.PutPushed? && s.kind.Log? then Some(Move(s, t, PutNotifies).(owner := None))
    else None
  }

  function WakeUp<T>(s: State<T>, t: Tid): Option<State<T>>
  {
    var pc := At(s, t);
    if pc.PutSleeps? then Some(Move(s, t, PutLocks(pc.x)))
    else if pc.TakeSleeps? then Some(Move(s, t, TakeLocks))
    else None
  }

  /** One step, or None when it is not enabled. */
  function Do<T>(s: State<T>, a: Action<T>): Option<State<T>>
  {
    match a
    case CallPut(t, x) => Call(s, t, PutLocks(x))
    case CallTake(t) => Call(s, t, TakeLocks)
    case CallDrain(t) => Call(s, t, DrainLocks)
    case Acquire(t) => Lock(s, t)
    case Test(t) => LoopTest(s, t)
    case Push(t) => PushItem(s, t)
    case Pop(t) => PopItem(s, t)
    case DrainAll(t) => TakeAll(s, t)
    case Notify(t, wake) => NotifyOne(s, t, wake)
    case Release(t) => Unlock(s, t)
    case Spurious(t) => WakeUp(s, t)
  }

  function Run<T>(s: State<T>, actions: seq<Action<T>>): Option<State<T>>
    decreases actions
  {
    if actions == [] then Some(s)
    else
      match Do(s, actions[0])
      case None => None
      case Some(s') => Run(s', actions[1..])
  }

  // ---------- the invariant ----------

  ghost predicate Inv<T>(s: State<T>)
  {
    && OwnerInv(s)
    && QueueInv(s)
    && KindInv(s)
    && TakersInv(s)
    && PuttersInv(s)
  }

  /** The mutex has an owner exactly when a thread is inside, and then only that thread is. */
  ghost predicate OwnerInv<T>(s: State<T>)
  {
    && (forall t :: t in s.threads ==> (Holds(s.threads[t]) <==> s.owner == Some(t)))
    && (s.owner.Some? ==> s.owner.value in s.threads)
  }

  /** Nothing is lost, duplicated or reordered, the capacity is kept, and the asserts after the loops hold. */
  ghost predicate QueueInv<T>(s: State<T>)
  {
    && s.put == s.taken + s.queue
    && (s.kind.Bounded? ==> |s.queue| <= s.kind.capacity)
    && (forall t :: t in s.threads && s.threads[t].PutReady? ==> !Full(s))
    && (forall t :: t in s.threads && s.threads[t].TakeReady? ==> s.queue != [])
  }

  ghost predicate KindInv<T>(s: State<T>)
  {
    forall t :: t in s.threads ==>
      && (s.threads[t].PutSleeps? || s.threads[t].TakePopped? ==> s.kind.Bounded?)
      && (s.threads[t].PutNotifies? ==> s.kind.Log?)
      && (s.threads[t].DrainLocks? || s.threads[t].DrainHolds? ==> s.kind.Blocking?)
  }

  /** No wakeup of a taker is lost: while one sleeps, every queued item has a taker coming or a notify owed. */
  ghost predicate TakersInv<T>(s: State<T>)
  {
    Count(s.threads, SleepingTaker<T>) > 0 ==>
      |s.queue| <= Count(s.threads, ContendingTaker<T>) + Count(s.threads, OwesNotEmpty<T>)
  }

  /** No wakeup of a putter is lost: while one sleeps, every free slot has a putter coming or a notify owed. */
  ghost predicate PuttersInv<T>(s: State<T>)
  {
    s.kind.Bounded? && Count(s.threads, SleepingPutter<T>) > 0 ==>
      s.kind.capacity - |s.queue| <= Count(s.threads, ContendingPutter<T>) + Count(s.threads, OwesNotFull<T>)
  }

  lemma Recount<T>(threads: map<Tid, Pc<T>>, t: Tid, pc: Pc<T>)
    ensures var was := if t in threads then threads[t] else Idle;
            && Count(threads[t := pc], SleepingTaker<T>)
               == Count(threads, SleepingTaker<T>) - Weigh(was.TakeSleeps?) + Weigh(pc.TakeSleeps?)
            && Count(threads[t := pc], ContendingTaker<T>)
               == Count(threads, ContendingTaker<T>) - Weigh(ContendingTaker(was)) + Weigh(ContendingTaker(pc))
            && Count(threads[t := pc], OwesNotEmpty<T>)
               == Count(threads, OwesNotEmpty<T>) - Weigh(OwesNotEmpty(was)) + Weigh(OwesNotEmpty(pc))
            && Count(threads[t := pc], SleepingPutter<T>)
               == Count(threads, SleepingPutter<T>) - Weigh(was.PutSleeps?) + Weigh(pc.PutSleeps?)
            && Count(threads[t := pc], ContendingPutter<T>)
               == Count(threads, ContendingPutter<T>) - Weigh(ContendingPutter(was)) + Weigh(ContendingPutter(pc))
            && Count(threads[t := pc], OwesNotFull<T>)
               == Count(threads, OwesNotFull<T>) - Weigh(OwesNotFull(was)) + Weigh(OwesNotFull(pc))
  {
    CountMove(threads, t, pc, SleepingTaker<T>);
    CountMove(threads, t, pc, ContendingTaker<T>);
    CountMove(threads, t, pc, OwesNotEmpty<T>);
    CountMove(threads, t, pc, SleepingPutter<T>);
    CountMove(threads, t, pc, ContendingPutter<T>);
    CountMove(threads, t, pc, OwesNotFull<T>);
  }

  lemma CallKeeps<T>(s: State<T>, t: Tid, entry: Pc<T>)
    requires Inv(s) && Call(s, t, entry).Some?
    ensures Inv(Call(s, t, entry).value)
  {
    hide Count;
    var s' := Call(s, t, entry).value;
    Recount(s.threads, t, s'.threads[t]);
  }

  lemma LockKeeps<T>(s: State<T>, t: Tid)
    requires Inv(s) && Lock(s, t).Some?
    ensures Inv(Lock(s, t).value)
  {
    hide Count;
    var s' := Lock(s, t).value;
    Recount(s.threads, t, s'.threads[t]);
  }

  lemma LoopTestKeeps<T>(s: State<T>, t: Tid)
    requires Inv(s) && LoopTest(s, t).Some?
    ensures Inv(LoopTest(s, t).value)
  {
    hide Count;
    var s' := LoopTest(s, t).value;
    Recount(s.threads, t, s'.threads[t]);
  }

  lemma PushKeeps<T>(s: State<T>, t: Tid)
    requires Inv(s) && PushItem(s, t).Some?
    ensures Inv(PushItem(s, t).value)
  {
    hide Count;
    var s' := PushItem(s, t).value;
    Recount(s.threads, t, s'.threads[t]);
  }

  lemma PopKeeps<T>(s: State<T>, t: Tid)
    requires Inv(s) && PopItem(s, t).Some?
    ensures Inv(PopItem(s, t).value)
  {
    hide Count;
    var s' := PopItem(s, t).value;
    Recount(s.threads, t, s'.threads[t]);
    assert s.taken + [s.queue[0]] + s.queue[1..] == s.put;
  }

  lemma TakeAllKeeps<T>(s: State<T>, t: Tid)
    requires Inv(s) && TakeAll(s, t).Some?
    ensures Inv(TakeAll(s, t).value)
  {
    hide Count;
    var s' := TakeAll(s, t).value;
    Recount(s.threads, t, s'.threads[t]);
  }

  lemma UnlockKeeps<T>(s: State<T>, t: Tid)
    requires Inv(s) && Unlock(s, t).Some?
    ensures Inv(Unlock(s, t).value)
  {
    hide Count;
    var s' := Unlock(s, t).value;
    Recount(s.threads, t, s'.threads[t]);
  }

  lemma WakeUpKeeps<T>(s: State<T>, t: Tid)
    requires Inv(s) && WakeUp(s, t).Some?
    ensures Inv(WakeUp(s, t).value)
  {
    hide Count;
    var s' := WakeUp(s, t).value;
    Recount(s.threads, t, s'.threads[t]);
  }

  lemma NotifyNobodyKeeps<T>(s: State<T>, t: Tid)
    requires Inv(s) && NotifyOne(s, t, None).Some?
    ensures Inv(NotifyOne(s, t, None).value)
  {
    hide Count;
    var s' := NotifyOne(s, t, None).value;
    Recount(s.threads, t, s'.threads[t]);
    if At(s, t).TakePopped? {
      CountZero(s.threads, SleepingPutter<T>);
    } else {
      CountZero(s.threads, SleepingTaker<T>);
    }
  }

  /** A notify that wakes `w` owes one wakeup less and has one thread more on its way. */
  lemma NotifySomebodyKeeps<T>(s: State<T>, t: Tid, w: Tid)
    requires Inv(s) && NotifyOne(s, t, Some(w)).Some?
    ensures Inv(NotifyOne(s, t, Some(w)).value)
  {
    var was := At(s, t);
    var pc := if was.PutPushed? then Leaving([]) else if was.PutNotifies? then Idle else Leaving([was.x]);
    if was.TakePopped? {
      WakePutterKeeps(s, t, pc, w);
    } else {
      WakeTakerKeeps(s, t, pc, w);
    }
  }

  lemma WakeTakerKeeps<T>(s: State<T>, t: Tid, pc: Pc<T>, w: Tid)
    requires Inv(s) && OwesNotEmpty(At(s, t)) && At(s, w).TakeSleeps?
    requires (pc.Idle? || pc.Leaving?) && Holds(pc) == Holds(At(s, t))
    ensures Inv(Move(Move(s, w, TakeLocks), t, pc))
  {
    hide Count;
    Recount(s.threads, w, TakeLocks);
    Recount(s.threads[w := TakeLocks], t, pc);
  }

  lemma WakePutterKeeps<T>(s: State<T>, t: Tid, pc: Pc<T>, w: Tid)
    requires Inv(s) && OwesNotFull(At(s, t)) && At(s, w).PutSleeps? && pc.Leaving?
    ensures Inv(Move(Move(s, w, PutLocks(At(s, w).x)), t, pc))
  {
    hide Count;
    Recount(s.threads, w, PutLocks(At(s, w).x));
    Recount(s.threads[w := PutLocks(At(s, w).x)], t, pc);
  }

  /** Every step keeps the invariant. */
  lemma InvStep<T>(s: State<T>, a: Action<T>)
    requires Inv(s) && Do(s, a).Some?
    ensures Inv(Do(s, a).value)
  {
    hide Inv, Call, Lock, LoopTest, PushItem, PopItem, TakeAll, NotifyOne, Unlock, WakeUp;
    match a
    case CallPut(t, x) => CallKeeps(s, t, PutLocks(x));
    case CallTake(t) => CallKeeps(s, t, TakeLocks);
    case CallDrain(t) => CallKeeps(s, t, DrainLocks);
    case Acquire(t) => LockKeeps(s, t);
    case Test(t) => LoopTestKeeps(s, t);
    case Push(t) => PushKeeps(s, t);
    case Pop(t) => PopKeeps(s, t);
    case DrainAll(t) => TakeAllKeeps(s, t);
    case Notify(t, None) => NotifyNobodyKeeps(s, t);
    case Notify(t, Some(w)) => NotifySomebodyKeeps(s, t, w);
    case Release(t) => UnlockKeeps(s, t);
    case Spurious(t) => WakeUpKeeps(s, t);
  }

  // ---------- every run ----------

  lemma InitInv<T>(kind: Kind)
    ensures Inv(Init<T>(kind))
  {
    CountZero(map[], SleepingTaker<T>);
    CountZero(map[], SleepingPutter<T>);
  }

  lemma DoKeepsKind<T>(s: State<T>, a: Action<T>)
    requires Do(s, a).Some?
    ensures Do(s, a).value.kind == s.kind
  {
  }

  lemma {:induction false} RunKeeps<T>(s: State<T>, actions: seq<Action<T>>)
    requires Inv(s) && Run(s, actions).Some?
    ensures Inv(Run(s, actions).value) && Run(s, actions).value.kind == s.kind
    decreases actions
  {
    hide Inv, Do;
    if actions != [] {
      InvStep(s, actions[0]);
      DoKeepsKind(s, actions[0]);
      RunKeeps(Do(s, actions[0]).value, actions[1..]);
    }
  }

  /** Over every interleaving, what was taken is a prefix of what was put, the queue is the rest of it, the
      capacity is never exceeded, and a thread about to push never finds a full ring (so push_back never
      overwrites), nor one about to pop an empty queue. */
  lemma RunsAreFifo<T>(kind: Kind, actions: seq<Action<T>>)
    requires Run(Init<T>(kind), actions).Some?
    ensures var s := Run(Init<T>(kind), actions).value;
            && s.put == s.taken + s.queue
            && (kind.Bounded? ==> |s.queue| <= kind.capacity)
            && (forall t :: At(s, t).PutReady? ==> PushBack(s, At(s, t).x) == s.queue + [At(s, t).x])
            && (forall t :: At(s, t).TakeReady? ==> s.queue != [])
  {
    InitInv<T>(kind);
    RunKeeps(Init<T>(kind), actions);
  }

  /** Mutual exclusion: at most one thread is inside. */
  lemma RunsExclude<T>(kind: Kind, actions: seq<Action<T>>, t: Tid, u: Tid)
    requires Run(Init<T>(kind), actions).Some?
    requires Holds(At(Run(Init<T>(kind), actions).value, t)) && Holds(At(Run(Init<T>(kind), actions).value, u))
    ensures t == u
  {
    InitInv<T>(kind);
    RunKeeps(Init<T>(kind), actions);
  }

  /** No wakeup is lost. In every state a sleeping taker means that no more items are queued than takers are on
      their way plus notifies still to come, and a sleeping putter the same of free slots and putters. Whenever the
      mutex is free no notify is still to come but those of LogQueue, which come after the unlock. */
  lemma RunsLoseNoWakeup<T>(kind: Kind, actions: seq<Action<T>>)
    requires Run(Init<T>(kind), actions).Some?
    ensures var s := Run(Init<T>(kind), actions).value;
            && (Count(s.threads, SleepingTaker<T>) > 0 ==>
                  |s.queue| <= Count(s.threads, ContendingTaker<T>) + Count(s.threads, OwesNotEmpty<T>))
            && (kind.Bounded? && Count(s.threads, SleepingPutter<T>) > 0 ==>
                  kind.capacity - |s.queue| <= Count(s.threads, ContendingPutter<T>) + Count(s.threads, OwesNotFull<T>))
    ensures var s := Run(Init<T>(kind), actions).value;
            s.owner.None? ==>
              && Count(s.threads, OwesNotFull<T>) == 0
              && (!kind.Log? ==> Count(s.threads, OwesNotEmpty<T>) == 0)
  {
    hide Count;
    InitInv<T>(kind);
    RunKeeps(Init<T>(kind), actions);
    var s := Run(Init<T>(kind), actions).value;
    if s.owner.None? {
      CountZero(s.threads, OwesNotFull<T>);
      if !kind.Log? {
        CountZero(s.threads, OwesNotEmpty<T>);
      }
    }
  }

  // ---------- no deadlock ----------

  /** Nobody is running: every thread is idle or asleep on a condition variable. */
  ghost predicate Quiet<T>(s: State<T>)
  {
    forall t :: t in s.threads ==> s.threads[t].Idle? || s.threads[t].PutSleeps? || s.threads[t].TakeSleeps?
  }

  ghost predicate SomeTakerAsleep<T>(s: State<T>)
  {
    exists t :: t in s.threads && s.threads[t].TakeSleeps?
  }

  ghost predicate SomePutterAsleep<T>(s: State<T>)
  {
    exists t :: t in s.threads && s.threads[t].PutSleeps?
  }

  /** When everything has come to rest, sleeping takers have nothing to take and sleeping putters no room. */
  lemma RestIsJustified<T>(s: State<T>)
    requires Inv(s) && Quiet(s)
    ensures SomeTakerAsleep(s) ==> s.queue == []
    ensures SomePutterAsleep(s) ==> s.kind.Bounded? && |s.queue| == s.kind.capacity
  {
    hide Count;
    CountZero(s.threads, ContendingTaker<T>);
    CountZero(s.threads, OwesNotEmpty<T>);
    CountZero(s.threads, ContendingPutter<T>);
    CountZero(s.threads, OwesNotFull<T>);
    if t :| t in s.threads && s.threads[t].TakeSleeps? {
      CountPositive(s.threads, t, SleepingTaker<T>);
    }
    if t :| t in s.threads && s.threads[t].PutSleeps? {
      CountPositive(s.threads, t, SleepingPutter<T>);
    }
  }

  /** A run after which nothing can happen any more although both a put and a take are unfinished. */
  ghost predicate Deadlocks<T>(capacity: nat, actions: seq<Action<T>>)
  {
    var end := Run(Init<T>(Bounded(capacity)), actions);
    end.Some? && Quiet(end.value) && SomeTakerAsleep(end.value) && SomePutterAsleep(end.value)
  }

  /** Putters and takers can all be asleep at once exactly when the capacity is zero. */
  lemma DeadlockIffNoCapacity<T>(capacity: nat, x: T)
    ensures (exists actions: seq<Action<T>> :: Deadlocks(capacity, actions)) <==> capacity == 0
  {
    if actions: seq<Action<T>> :| Deadlocks(capacity, actions) {
      InitInv<T>(Bounded(capacity));
      RunKeeps(Init<T>(Bounded(capacity)), actions);
      RestIsJustified(Run(Init<T>(Bounded(capacity)), actions).value);
    }
    if capacity == 0 {
      ZeroCapacityDeadlocks(x);
    }
  }

  function PutterAsleep<T>(x: T): State<T>
  {
    Move(Init<T>(Bounded(0)), 0, PutSleeps(x))
  }

  lemma PutterFallsAsleep<T>(x: T)
    ensures Run(Init<T>(Bounded(0)), [CallPut(0, x), Acquire(0), Test(0)]) == Some(PutterAsleep(x))
  {
    var actions: seq<Action<T>> := [CallPut(0, x), Acquire(0), Test(0)];
    var s0 := Init<T>(Bounded(0));
    var s1, s2, s3 := Move(s0, 0, PutLocks(x)), Move(s0, 0, PutTests(x)).(owner := Some(0)), PutterAsleep(x);
    assert Do(s0, actions[0]) == Some(s1);
    assert Do(s1, actions[1]) == Some(s2) by { assert s2 == Move(s1, 0, PutTests(x)).(owner := Some(0)); }
    assert Do(s2, actions[2]) == Some(s3) by { assert s3 == Move(s2, 0, PutSleeps(x)).(owner := None); }
    hide Do;
    assert Run(s3, actions[3..]) == Some(s3);
    assert Run(s2, actions[2..]) == Some(s3);
    assert Run(s1, actions[1..]) == Some(s3);
  }

  lemma TakerFallsAsleep<T>(x: T)
    ensures Run(PutterAsleep(x), [CallTake(1), Acquire(1), Test(1)]) == Some(Move(PutterAsleep(x), 1, TakeSleeps))
  {
    var actions: seq<Action<T>> := [CallTake(1), Acquire(1), Test(1)];
    var s3 := PutterAsleep(x);
    var s4, s5, s6 := Move(s3, 1, TakeLocks), Move(s3, 1, TakeTests).(owner := Some(1)), Move(s3, 1, TakeSleeps);
    assert Do(s3, actions[0]) == Some(s4);
    assert Do(s4, actions[1]) == Some(s5) by { assert s5 == Move(s4, 1, TakeTests).(owner := Some(1)); }
    assert Do(s5, actions[2]) == Some(s6) by { assert s6 == Move(s5, 1, TakeSleeps).(owner := None); }
    hide Do;
    assert Run(s6, actions[3..]) == Some(s6);
    assert Run(s5, actions[2..]) == Some(s6);
    assert Run(s4, actions[1..]) == Some(s6);
  }

  lemma {:induction false} RunOn<T>(s: State<T>, a: seq<Action<T>>, b: seq<Action<T>>)
    requires Run(s, a).Some?
    ensures Run(s, a + b) == Run(Run(s, a).value, b)
    decreases a
  {
    hide Do;
    if a == [] {
      assert a + b == b;
    } else {
      RunOn(Do(s, a[0]).value, a[1..], b);
      assert (a + b)[1..] == a[1..] + b;
    }
  }

  lemma ZeroCapacityDeadlocks<T>(x: T)
    ensures Deadlocks(0, [CallPut(0, x), Acquire(0), Test(0)] + [CallTake(1), Acquire(1), Test(1)])
  {
    PutterFallsAsleep(x);
    TakerFallsAsleep(x);
    hide Run;
    RunOn(Init<T>(Bounded(0)), [CallPut(0, x), Acquire(0), Test(0)], [CallTake(1), Acquire(1), Test(1)]);
    var end := Move(PutterAsleep(x), 1, TakeSleeps);
    assert end.threads[0].PutSleeps? && end.threads[1].TakeSleeps?;
  }

  /** Steps that are neither new calls nor spurious wakeups. */
  predicate IsWork<T>(a: Action<T>)
  {
    a.Acquire? || a.Test? || a.Push? || a.Pop? || a.DrainAll? || a.Notify? || a.Release?
  }

  /** As long as some thread is neither idle nor asleep, the system can do work without help from outside. */
  lemma WorkIsEnabled<T>(s: State<T>) returns (a: Action<T>)
    requires Inv(s) && !Quiet(s)
    ensures IsWork(a) && Do(s, a).Some?
  {
    hide Count;
    if s.owner.Some? {
      a := OwnerWorks(s, s.owner.value);
    } else {
      var t :| t in s.threads && !s.threads[t].Idle? && !s.threads[t].PutSleeps? && !s.threads[t].TakeSleeps?;
      if s.threads[t].PutNotifies? {
        a := NotifyIsEnabled(s, t);
      } else {
        a := Acquire(t);
      }
    }
  }

  lemma OwnerWorks<T>(s: State<T>, t: Tid) returns (a: Action<T>)
    requires Inv(s) && t in s.threads && Holds(s.threads[t])
    ensures IsWork(a) && Do(s, a).Some?
  {
    hide Count;
    match s.threads[t]
    case PutTests(_) => a := Test(t);
    case TakeTests => a := Test(t);
    case PutReady(_) => a := Push(t);
    case TakeReady => a := Pop(t);
    case DrainHolds => a := DrainAll(t);
    case Leaving(_) => a := Release(t);
    case PutPushed => if s.kind.Log? { a := Release(t); } else { a := NotifyIsEnabled(s, t); }
    case TakePopped(_) => a := NotifyIsEnabled(s, t);
  }

  lemma NotifyIsEnabled<T>(s: State<T>, t: Tid) returns (a: Action<T>)
    requires t in s.threads
    requires s.threads[t].TakePopped? || s.threads[t].PutNotifies? || (s.threads[t].PutPushed? && !s.kind.Log?)
    ensures IsWork(a) && Do(s, a).Some?
  {
    var takers := !s.threads[t].TakePopped?;
    if w :| w in s.threads && (if takers then s.threads[w].TakeSleeps? else s.threads[w].PutSleeps?) {
      a := Notify(t, Some(w));
    } else {
      a := Notify(t, None);
    }
  }

  // ---------- every run comes to rest ----------

  /** More than the work a thread can still do without being notified. A notify lowers the weight of the thread that
      does it by more than it raises that of the thread it wakes. */
  function Weight<T>(pc: Pc<T>): nat
  {
    match pc
    case Idle => 0
    case Leaving(_) => 1
    case DrainHolds => 2
    case DrainLocks | PutNotifies => 3
    case PutPushed | TakePopped(_) => 4
    case PutReady(_) | TakeReady | PutSleeps(_) | TakeSleeps => 5
    case PutTests(_) | TakeTests => 6
    case PutLocks(_) | TakeLocks => 7
  }

  ghost function WorkLeft<T>(s: State<T>): nat
  {
    Sum(s.threads, Weight<T>, 7)
  }

  lemma MoveWeight<T>(s: State<T>, t: Tid, pc: Pc<T>)
    ensures WorkLeft(Move(s, t, pc)) == WorkLeft(s) - Weight(At(s, t)) + Weight(pc)
  {
    hide Sum;
    SumMove(s.threads, t, pc, Weight<T>, 7);
  }

  /** A step of one thread that wakes nobody. */
  lemma StepLowersWeight<T>(s: State<T>, s': State<T>, t: Tid, pc: Pc<T>)
    requires s'.threads == s.threads[t := pc] && Weight(pc) < Weight(At(s, t))
    ensures WorkLeft(s') < WorkLeft(s)
  {
    hide Sum, Weight;
    MoveWeight(s, t, pc);
  }

  lemma NotifyLowersWeight<T>(s: State<T>, t: Tid, wake: Option<Tid>)
    requires NotifyOne(s, t, wake).Some?
    ensures WorkLeft(NotifyOne(s, t, wake).value) < WorkLeft(s)
  {
    hide Sum, WorkLeft;
    var pc := At(NotifyOne(s, t, wake).value, t);
    if wake.Some? {
      var w := wake.value;
      var woken := if At(s, t).TakePopped? then PutLocks(At(s, w).x) else TakeLocks;
      assert NotifyOne(s, t, wake) == Some(Move(Move(s, w, woken), t, pc));
      MoveWeight(s, w, woken);
      MoveWeight(Move(s, w, woken), t, pc);
    } else {
      assert NotifyOne(s, t, wake) == Some(Move(s, t, pc));
      MoveWeight(s, t, pc);
    }
  }

  lemma WorkLowersWeight<T>(s: State<T>, a: Action<T>)
    requires IsWork(a) && Do(s, a).Some?
    ensures WorkLeft(Do(s, a).value) < WorkLeft(s)
  {
    hide WorkLeft;
    if a.Notify? {
      NotifyLowersWeight(s, a.t, a.wake);
    } else {
      hide NotifyOne;
      var s' := Do(s, a).value;
      StepLowersWeight(s, s', a.t, At(s', a.t));
    }
  }

  predicate AllWork<T>(actions: seq<Action<T>>)
  {
    forall i :: 0 <= i < |actions| ==> IsWork(actions[i])
  }

  lemma {:induction false} WorkIsBounded<T>(s: State<T>, work: seq<Action<T>>)
    requires AllWork(work) && Run(s, work).Some?
    ensures |work| + WorkLeft(Run(s, work).value) <= WorkLeft(s)
    decreases work
  {
    hide Do, WorkLeft, IsWork;
    if work != [] {
      WorkLowersWeight(s, work[0]);
      WorkIsBounded(Do(s, work[0]).value, work[1..]);
    }
  }

  /** From every reachable state: without new calls and spurious wakeups only so many steps can follow, and when none
      can any more, every thread is idle or asleep, takers sleep only on an empty queue and putters only on a full
      one. So every call for which there is an item or a slot returns. */
  lemma RunsComeToRest<T>(kind: Kind, actions: seq<Action<T>>, work: seq<Action<T>>)
    requires Run(Init<T>(kind), actions).Some? && AllWork(work)
    requires Run(Run(Init<T>(kind), actions).value, work).Some?
    ensures var s := Run(Init<T>(kind), actions).value;
            var end := Run(s, work).value;
            && |work| <= WorkLeft(s)
            && ((forall a :: IsWork(a) ==> Do(end, a).None?) ==>
                  && Quiet(end)
                  && (SomeTakerAsleep(end) ==> end.queue == [])
                  && (SomePutterAsleep(end) ==> kind.Bounded? && |end.queue| == kind.capacity))
  {
    InitInv<T>(kind);
    RunKeeps(Init<T>(kind), actions);
    hide Inv, Do, WorkLeft, Quiet, SomeTakerAsleep, SomePutterAsleep, IsWork;
    var s := Run(Init<T>(kind), actions).value;
    WorkIsBounded(s, work);
    RunKeeps(s, work);
    var end := Run(s, work).value;
    if forall a :: IsWork(a) ==> Do(end, a).None? {
      if !Quiet(end) {
        var a := WorkIsEnabled(end);
      }
      RestIsJustified(end);
    }
  }

  /** And rest is always within reach. */
  lemma {:induction false} RestIsReached<T>(s: State<T>) returns (work: seq<Action<T>>)
    requires Inv(s)
    ensures AllWork(work) && Run(s, work).Some? && Quiet(Run(s, work).value)
    decreases WorkLeft(s)
  {
    hide Inv, Do, WorkLeft, Quiet, IsWork;
    if Quiet(s) {
      work := [];
    } else {
      var a := WorkIsEnabled(s);
      WorkLowersWeight(s, a);
      InvStep(s, a);
      var rest := RestIsReached(Do(s, a).value);
      work := [a] + rest;
      assert work[1..] == rest;
    }
  }
}
