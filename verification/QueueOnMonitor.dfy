/** The coarse steps of QueueProtocol are runs of the mutex protocol: BoundedBlockingQueue and BlockingQueue
    hold the lock, with the holder recorded, at exactly the program points QueueProtocol says they do. */
module QueueOnMonitor {
  import opened Wrappers
  import opened Counting
  import Q = QueueProtocol
  import M = Monitor

  function PointAt<T>(pc: Q.Pc<T>): M.Point
  {
    if Q.Holds(pc) then M.Inside
    else if pc.PutSleeps? || pc.TakeSleeps? then M.Asleep
    else if pc.PutLocks? || pc.TakeLocks? || pc.DrainLocks? then M.Locking
    else M.Outside
  }

  /** The mutex as it is between two queue steps. */
  function LockOf<T>(s: Q.State<T>): M.Lock
  {
    M.Lock(s.owner, if s.owner.Some? then s.owner.value + 1 else 0, map t | t in s.threads :: PointAt(s.threads[t]))
  }

  /** The mutex operations inside one queue step. */
  function OpsOf<T>(s: Q.State<T>, a: Q.Action<T>): seq<M.Op>
  {
    match a
    case CallPut(t, _) => [M.Enter(t)]
    case CallTake(t) => [M.Enter(t)]
    case CallDrain(t) => [M.Enter(t)]
    case Acquire(t) => [M.Acquire(t), M.Assign(t)]
    case Test(t) =>
      if Q.LoopTest(s, t).Some? && Q.LoopTest(s, t).value.owner.None? then [M.UnassignToWait(t), M.CondWait(t)] else []
    case Push(_) => []
    case Pop(_) => []
    case DrainAll(_) => []
    case Notify(_, wake) => if wake.Some? then [M.Wake(wake.value)] else []
    case Release(t) => [M.UnassignToUnlock(t), M.Unlock(t)]
    case Spurious(t) => [M.Wake(t)]
  }

  function AllOps<T>(s: Q.State<T>, actions: seq<Q.Action<T>>): seq<M.Op>
    decreases actions
  {
    if actions == [] || Q.Do(s, actions[0]).None? then []
    else OpsOf(s, actions[0]) + AllOps(Q.Do(s, actions[0]).value, actions[1..])
  }

  lemma {:induction false} PerformConcat(m: M.Lock, a: seq<M.Op>, b: seq<M.Op>)
    requires M.PerformAll(m, a).Some?
    ensures M.PerformAll(m, a + b) == M.PerformAll(M.PerformAll(m, a).value, b)
    decreases a
  {
    hide M.Perform;
    if a == [] {
      assert a + b == b;
    } else {
      PerformConcat(M.Perform(m, a[0]).value, a[1..], b);
      assert (a + b)[1..] == a[1..] + b;
    }
  }

  lemma PerformTwo(m: M.Lock, a: M.Op, b: M.Op)
    requires M.Perform(m, a).Some?
    ensures M.PerformAll(m, [a, b]) == M.Perform(M.Perform(m, a).value, b)
  {
    hide M.Perform;
    var mid := M.Perform(m, a).value;
    assert [a, b][1..] == [b];
    assert M.PerformAll(mid, [b]) == M.Perform(mid, b);
  }

  lemma MovePoint<T>(s: Q.State<T>, t: Tid, pc: Q.Pc<T>)
    ensures LockOf(Q.Move(s, t, pc)) == M.GoTo(LockOf(s), t, PointAt(pc))
    ensures M.PointOf(LockOf(s), t) == PointAt(Q.At(s, t))
  {
  }

  lemma LockIsMonitorRun<T>(s: Q.State<T>, t: Tid)
    requires Q.OwnerInv(s) && Q.Lock(s, t).Some?
    ensures M.PerformAll(LockOf(s), [M.Acquire(t), M.Assign(t)]) == Some(LockOf(Q.Lock(s, t).value))
  {
    var s' := Q.Lock(s, t).value;
    MovePoint(s, t, Q.At(s', t));
    PerformTwo(LockOf(s), M.Acquire(t), M.Assign(t));
    assert M.GoTo(M.GoTo(LockOf(s), t, M.Locked), t, M.Inside).points == LockOf(s').points;
  }

  lemma ReleaseIsMonitorRun<T>(s: Q.State<T>, t: Tid, pc: Q.Pc<T>)
    requires Q.OwnerInv(s) && Q.Holds(Q.At(s, t)) && PointAt(pc).Outside?
    ensures M.PerformAll(LockOf(s), [M.UnassignToUnlock(t), M.Unlock(t)]) ==
            Some(LockOf(Q.Move(s, t, pc).(owner := None)))
  {
    MovePoint(s, t, pc);
    PerformTwo(LockOf(s), M.UnassignToUnlock(t), M.Unlock(t));
    assert M.GoTo(M.GoTo(LockOf(s), t, M.Leaving), t, M.Outside).points == LockOf(Q.Move(s, t, pc)).points;
  }

  lemma WaitIsMonitorRun<T>(s: Q.State<T>, t: Tid, pc: Q.Pc<T>)
    requires Q.OwnerInv(s) && Q.Holds(Q.At(s, t)) && PointAt(pc).Asleep?
    ensures M.PerformAll(LockOf(s), [M.UnassignToWait(t), M.CondWait(t)]) ==
            Some(LockOf(Q.Move(s, t, pc).(owner := None)))
  {
    MovePoint(s, t, pc);
    PerformTwo(LockOf(s), M.UnassignToWait(t), M.CondWait(t));
    assert M.GoTo(M.GoTo(LockOf(s), t, M.Parking), t, M.Asleep).points == LockOf(Q.Move(s, t, pc)).points;
  }

  /** A step that moves one thread within its guarded section leaves the mutex alone. */
  lemma InsideIsMonitorRun<T>(s: Q.State<T>, t: Tid, pc: Q.Pc<T>)
    requires Q.Holds(Q.At(s, t)) && Q.Holds(pc)
    ensures LockOf(Q.Move(s, t, pc)) == LockOf(s)
  {
    assert LockOf(Q.Move(s, t, pc)).points == LockOf(s).points;
  }

  lemma OneOp<T>(s: Q.State<T>, t: Tid, pc: Q.Pc<T>, op: M.Op)
    requires op == M.Enter(t) || op == M.Wake(t)
    requires PointAt(pc).Locking?
    requires if op.Enter? then PointAt(Q.At(s, t)).Outside? else PointAt(Q.At(s, t)).Asleep?
    ensures M.PerformAll(LockOf(s), [op]) == Some(LockOf(Q.Move(s, t, pc)))
  {
    MovePoint(s, t, pc);
    assert M.Perform(LockOf(s), op) == Some(LockOf(Q.Move(s, t, pc)));
    assert [op][1..] == [];
  }

  lemma TestIsMonitorRun<T>(s: Q.State<T>, t: Tid)
    requires Q.OwnerInv(s) && Q.LoopTest(s, t).Some?
    ensures M.PerformAll(LockOf(s), OpsOf(s, Q.Test(t))) == Some(LockOf(Q.LoopTest(s, t).value))
  {
    var pc := Q.At(Q.LoopTest(s, t).value, t);
    if pc.PutSleeps? || pc.TakeSleeps? {
      WaitIsMonitorRun(s, t, pc);
    } else {
      InsideIsMonitorRun(s, t, pc);
    }
  }

  lemma NotifyIsMonitorRun<T>(s: Q.State<T>, t: Tid, wake: Option<Tid>)
    requires Q.OwnerInv(s) && Q.KindInv(s) && Q.NotifyOne(s, t, wake).Some? && !s.kind.Log?
    ensures M.PerformAll(LockOf(s), OpsOf(s, Q.Notify(t, wake))) == Some(LockOf(Q.NotifyOne(s, t, wake).value))
  {
    var pc := Q.At(Q.NotifyOne(s, t, wake).value, t);
    match wake
    case None => InsideIsMonitorRun(s, t, pc);
    case Some(w) =>
      var woken := Q.At(Q.NotifyOne(s, t, wake).value, w);
      OneOp(s, w, woken, M.Wake(w));
      InsideIsMonitorRun(Q.Move(s, w, woken), t, pc);
  }

  /** Each queue step, in the kinds built on MutexLock, is a run of mutex operations between the same states. */
  lemma StepIsMonitorRun<T>(s: Q.State<T>, a: Q.Action<T>)
    requires Q.Inv(s) && Q.Do(s, a).Some? && !s.kind.Log?
    ensures M.PerformAll(LockOf(s), OpsOf(s, a)) == Some(LockOf(Q.Do(s, a).value))
  {
    hide M.Perform, Q.QueueInv, Q.TakersInv, Q.PuttersInv, M.GoTo, LockOf;
    match a
    case CallPut(t, x) => OneOp(s, t, Q.PutLocks(x), M.Enter(t));
    case CallTake(t) => OneOp(s, t, Q.TakeLocks, M.Enter(t));
    case CallDrain(t) => OneOp(s, t, Q.DrainLocks, M.Enter(t));
    case Acquire(t) => LockIsMonitorRun(s, t);
    case Test(t) => TestIsMonitorRun(s, t);
    case Push(t) => PushIsMonitorRun(s, a);
    case Pop(t) => PushIsMonitorRun(s, a);
    case DrainAll(t) => PushIsMonitorRun(s, a);
    case Notify(t, wake) => NotifyIsMonitorRun(s, t, wake);
    case Release(t) => ReleaseIsMonitorRun(s, t, Q.Idle);
    case Spurious(t) => OneOp(s, t, Q.At(Q.Do(s, a).value, t), M.Wake(t));
  }

  lemma PushIsMonitorRun<T>(s: Q.State<T>, a: Q.Action<T>)
    requires Q.Do(s, a).Some? && (a.Push? || a.Pop? || a.DrainAll?)
    ensures LockOf(Q.Do(s, a).value) == LockOf(s)
  {
    var s' := Q.Do(s, a).value;
    InsideIsMonitorRun(s, a.t, Q.At(s', a.t));
    assert LockOf(s').points == LockOf(Q.Move(s, a.t, Q.At(s', a.t))).points;
  }

  lemma {:induction false} RunIsMonitorRun<T>(s: Q.State<T>, actions: seq<Q.Action<T>>)
    requires Q.Inv(s) && Q.Run(s, actions).Some? && !s.kind.Log?
    ensures M.PerformAll(LockOf(s), AllOps(s, actions)) == Some(LockOf(Q.Run(s, actions).value))
    decreases actions
  {
    hide Q.Inv, Q.Do, M.Perform, OpsOf;
    if actions != [] {
      StepIsMonitorRun(s, actions[0]);
      Q.InvStep(s, actions[0]);
      Q.DoKeepsKind(s, actions[0]);
      var s' := Q.Do(s, actions[0]).value;
      RunIsMonitorRun(s', actions[1..]);
      PerformConcat(LockOf(s), OpsOf(s, actions[0]), AllOps(s', actions[1..]));
    }
  }

  /** In every run of put, take and drain, a thread between its queue operations' lock and unlock (and awake)
      passes assertLocked, and no other thread does. */
  lemma QueueBodiesAreLocked<T>(kind: Q.Kind, actions: seq<Q.Action<T>>, t: Tid)
    requires !kind.Log? && Q.Run(Q.Init<T>(kind), actions).Some?
    ensures var s := Q.Run(Q.Init<T>(kind), actions).value;
            var m := M.PerformAll(M.Free(), AllOps(Q.Init<T>(kind), actions));
            && m == Some(LockOf(s))
            && (M.IsLockedBy(m.value, t) <==> Q.Holds(Q.At(s, t)))
            && (M.PointOf(m.value, t).Inside? <==> Q.Holds(Q.At(s, t)))
  {
    var init := Q.Init<T>(kind);
    Q.InitInv<T>(kind);
    RunIsMonitorRun(init, actions);
    assert LockOf(init) == M.Free();
    M.HolderIsAccurate(AllOps(init, actions), t);
  }
}
