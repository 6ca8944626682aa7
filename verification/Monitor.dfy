/** MutexLock's holder tracking under MutexLockGuard and Condition::wait, one memory or pthread operation a step. */
module Monitor {
  import opened Wrappers
  import opened Counting

  /** Where a thread is with respect to one MutexLock. */
  datatype Point =
    | Outside
    | Locking      // inside pthread_mutex_lock, or woken inside pthread_cond_wait
    | Locked       // owns the pthread mutex, assignHolder still to come
    | Inside       // the guarded section
    | Leaving      // unlock: holder cleared, pthread_mutex_unlock still to come
    | Parking      // wait: UnassignGuard built, pthread_cond_wait still to come
    | Asleep       // inside pthread_cond_wait, mutex released

  /** `holder` is the holder_ field: 0, or a thread id (thread ids are positive, so t is stored as t + 1). */
  datatype Lock = Lock(owner: Option<Tid>, holder: nat, points: map<Tid, Point>)

  datatype Op = Enter(t: Tid) | Acquire(t: Tid) | Assign(t: Tid)
              | UnassignToUnlock(t: Tid) | Unlock(t: Tid)
              | UnassignToWait(t: Tid) | CondWait(t: Tid) | Wake(t: Tid)

  function Free(): Lock
  {
    Lock(None, 0, map[])
  }

  function PointOf(m: Lock, t: Tid): Point
  {
    if t in m.points then m.points[t] else Outside
  }

  /** isLockedByThisThread called by thread t. */
  predicate IsLockedBy(m: Lock, t: Tid)
  {
    m.holder == t + 1
  }

  function GoTo(m: Lock, t: Tid, p: Point): Lock
  {
    m.(points := m.points[t := p])
  }

  function Perform(m: Lock, op: Op): Option<Lock>
  {
    var t, p := op.t, PointOf(m, op.t);
    match op
    case Enter(_) => if p.Outside? then Some(GoTo(m, t, Locking)) else None
    case Acquire(_) => if p.Locking? && m.owner.None? then Some(GoTo(m, t, Locked).(owner := Some(t))) else None
    case Assign(_) => if p.Locked? then Some(GoTo(m, t, Inside).(holder := t + 1)) else None
    case UnassignToUnlock(_) => if p.Inside? then Some(GoTo(m, t, Leaving).(holder := 0)) else None
    case Unlock(_) => if p.Leaving? then Some(GoTo(m, t, Outside).(owner := None)) else None
    case UnassignToWait(_) => if p.Inside? then Some(GoTo(m, t, Parking).(holder := 0)) else None
    case CondWait(_) => if p.Parking? then Some(GoTo(m, t, Asleep).(owner := None)) else None
    case Wake(_) => if p.Asleep? then Some(GoTo(m, t, Locking)) else None
  }

  function PerformAll(m: Lock, ops: seq<Op>): Option<Lock>
    decreases ops
  {
    if ops == [] then Some(m)
    else
      match Perform(m, ops[0])
      case None => None
      case Some(m') => PerformAll(m', ops[1..])
  }

  predicate Owns(p: Point)
  {
    p.Locked? || p.Inside? || p.Leaving? || p.Parking?
  }

  ghost predicate LockInv(m: Lock)
  {
    && (forall t :: t in m.points ==> (Owns(m.points[t]) <==> m.owner == Some(t)))
    && (m.owner.Some? ==> m.owner.value in m.points)
    && (forall t :: t in m.points ==> (m.points[t].Inside? <==> m.holder == t + 1))
    && (m.holder != 0 ==> m.holder - 1 in m.points)
  }

  lemma PerformKeeps(m: Lock, op: Op)
    requires LockInv(m) && Perform(m, op).Some?
    ensures LockInv(Perform(m, op).value)
  {
  }

  lemma {:induction false} PerformAllKeeps(m: Lock, ops: seq<Op>)
    requires LockInv(m) && PerformAll(m, ops).Some?
    ensures LockInv(PerformAll(m, ops).value)
    decreases ops
  {
    hide LockInv, Perform;
    if ops != [] {
      PerformKeeps(m, ops[0]);
      PerformAllKeeps(Perform(m, ops[0]).value, ops[1..]);
    }
  }

  /** In every step of every run: a non-zero holder_ is the pthread owner, isLockedByThisThread answers yes
      exactly inside the caller's guarded section, and holder_ is 0 whenever nobody owns the mutex. */
  lemma HolderIsAccurate(ops: seq<Op>, t: Tid)
    requires PerformAll(Free(), ops).Some?
    ensures var m := PerformAll(Free(), ops).value;
            && (m.holder != 0 ==> m.owner == Some(m.holder - 1))
            && (IsLockedBy(m, t) <==> PointOf(m, t).Inside?)
            && (m.owner.None? ==> m.holder == 0)
  {
    PerformAllKeeps(Free(), ops);
  }
}
