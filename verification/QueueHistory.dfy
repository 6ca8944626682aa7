/** What the callers of put, take and drain see: which item each call puts in, and which items each call returns. */
module QueueHistory {
  import opened Wrappers
  import opened Counting
  import opened QueueProtocol

  // ---------- the history, read off the actions alone ----------

  predicate IsCall<T>(a: Action<T>)
  {
    a.CallPut? || a.CallTake? || a.CallDrain?
  }

  /** The call that thread t made last. */
  function LastCall<T>(actions: seq<Action<T>>, t: Tid): Option<Action<T>>
  {
    if actions == [] then None
    else
      var a := actions[|actions| - 1];
      if a.t == t && IsCall(a) then Some(a)
      else LastCall(actions[..|actions| - 1], t)
  }

  /** How often thread t has pushed since its last call. */
  function Pushes<T>(actions: seq<Action<T>>, t: Tid): nat
  {
    if actions == [] then 0
    else
      var a := actions[|actions| - 1];
      if a.t == t && IsCall(a) then 0
      else Pushes(actions[..|actions| - 1], t) + if a.t == t && a.Push? then 1 else 0
  }

  /** The items in the order of the pushes, each as it was handed to put. */
  function Puts<T>(actions: seq<Action<T>>): seq<T>
  {
    if actions == [] then []
    else
      var before, a := actions[..|actions| - 1], actions[|actions| - 1];
      var call := LastCall(before, a.t);
      Puts(before) + if a.Push? && call.Some? && call.value.CallPut? then [call.value.x] else []
  }

  /** What a step returns to the caller: only leaving the mutex at the end of a call does. */
  function ReturnedBy<T>(s: State<T>, a: Action<T>): seq<T>
  {
    if a.Release? && At(s, a.t).Leaving? then At(s, a.t).got else []
  }

  /** All items returned to callers so far, in the order of the returns. */
  function Returns<T>(s: State<T>, actions: seq<Action<T>>): seq<T>
  {
    if actions == [] then []
    else
      var before, a := actions[..|actions| - 1], actions[|actions| - 1];
      Returns(s, before) + if Run(s, before).Some? then ReturnedBy(Run(s, before).value, a) else []
  }

  // ---------- how the threads stand to their calls ----------

  /** The items that the thread inside has taken out and not returned yet. */
  function InHand<T>(s: State<T>): seq<T>
  {
    if s.owner.None? then []
    else
      match At(s, s.owner.value)
      case TakePopped(x) => [x]
      case Leaving(got) => got
      case _ => []
  }

  /** Thread t is where its last call can have brought it, with as many pushes as that call makes by then, and has
      in hand what that call may return. */
  ghost predicate AtCall<T>(s: State<T>, t: Tid, call: Option<Action<T>>, pushes: nat)
  {
    match At(s, t)
    case Idle => call.Some? && call.value.CallPut? ==> pushes == 1
    case PutLocks(x) => call == Some(CallPut(t, x)) && pushes == 0
    case PutTests(x) => call == Some(CallPut(t, x)) && pushes == 0
    case PutSleeps(x) => call == Some(CallPut(t, x)) && pushes == 0
    case PutReady(x) => call == Some(CallPut(t, x)) && pushes == 0
    case PutPushed => call.Some? && call.value.CallPut? && pushes == 1
    case PutNotifies => call.Some? && call.value.CallPut? && pushes == 1
    case DrainLocks => call == Some(CallDrain(t))
    case DrainHolds => call == Some(CallDrain(t))
    case Leaving(got) =>
      call.Some? &&
      (|| (call.value.CallPut? && got == [] && pushes == 1)
       || (call.value.CallTake? && |got| == 1)
       || (call.value.CallDrain? && s.queue == []))
    case _ => call == Some(CallTake(t))
  }

  /** Thread t after one more action. */
  ghost predicate AtCallAfter<T>(s: State<T>, a: Action<T>, t: Tid, call: Option<Action<T>>, pushes: nat)
  {
    if a.t == t && IsCall(a) then AtCall(s, t, Some(a), 0)
    else AtCall(s, t, call, pushes + if a.t == t && a.Push? then 1 else 0)
  }

  /** Whatever a step does to the threads, those it does not move stay where their calls brought them. */
  lemma CallsKeep<T>(s: State<T>, a: Action<T>, t: Tid, call: Option<Action<T>>, pushes: nat)
    requires Inv(s) && Do(s, a).Some? && AtCall(s, t, call, pushes)
    ensures AtCallAfter(Do(s, a).value, a, t, call, pushes)
  {
    hide TakersInv, PuttersInv;
    if a.t == t {
      OwnStep(s, a, call, pushes);
    } else {
      OthersStep(s, a, t, call, pushes);
    }
  }

  lemma OwnStep<T>(s: State<T>, a: Action<T>, call: Option<Action<T>>, pushes: nat)
    requires Inv(s) && Do(s, a).Some? && AtCall(s, a.t, call, pushes)
    ensures AtCallAfter(Do(s, a).value, a, a.t, call, pushes)
  {
    hide Inv;
  }

  lemma OthersStep<T>(s: State<T>, a: Action<T>, t: Tid, call: Option<Action<T>>, pushes: nat)
    requires Inv(s) && Do(s, a).Some? && AtCall(s, t, call, pushes) && a.t != t
    ensures AtCall(Do(s, a).value, t, call, pushes)
  {
    OthersStay(s, a, t);
    if At(s, t).Leaving? {
      OwnerKeepsQueue(s, a, t);
    }
    hide Do, Inv;
  }

  /** Others are left where they are, or woken. */
  lemma OthersStay<T>(s: State<T>, a: Action<T>, t: Tid)
    requires Do(s, a).Some? && a.t != t
    ensures var was, now := At(s, t), At(Do(s, a).value, t);
            now == was || (was.TakeSleeps? && now == TakeLocks) || (was.PutSleeps? && now == PutLocks(was.x))
  {
    if a.Notify? {
      NotifyWakes(s, a.t, a.wake, t);
    } else {
      hide NotifyOne;
    }
  }

  lemma NotifyWakes<T>(s: State<T>, t: Tid, wake: Option<Tid>, u: Tid)
    requires NotifyOne(s, t, wake).Some? && u != t
    ensures var was, now := At(s, u), At(NotifyOne(s, t, wake).value, u);
            now == was || (was.TakeSleeps? && now == TakeLocks) || (was.PutSleeps? && now == PutLocks(was.x))
  {
  }

  /** Nobody else touches the queue while t is inside. */
  lemma OwnerKeepsQueue<T>(s: State<T>, a: Action<T>, t: Tid)
    requires OwnerInv(s) && Do(s, a).Some? && a.t != t && Holds(At(s, t))
    ensures Do(s, a).value.queue == s.queue
  {
  }

  /** What is pushed is the item of the call. */
  lemma PushedByCall<T>(s: State<T>, a: Action<T>, call: Option<Action<T>>, pushes: nat)
    requires Do(s, a).Some? && AtCall(s, a.t, call, pushes)
    ensures Do(s, a).value.put ==
            s.put + if a.Push? && call.Some? && call.value.CallPut? then [call.value.x] else []
  {
    hide Signal;
    if a.Notify? {
      NotifyTouchesThreads(s, a.t, a.wake);
      hide NotifyOne;
    }
  }

  lemma NotifyTouchesThreads<T>(s: State<T>, t: Tid, wake: Option<Tid>)
    requires NotifyOne(s, t, wake).Some?
    ensures var s' := NotifyOne(s, t, wake).value;
            && s'.put == s.put && s'.taken == s.taken && s'.queue == s.queue && s'.owner == s.owner
            && At(s', t) == match At(s, t) {
                 case TakePopped(x) => Leaving([x])
                 case PutPushed => Leaving([])
                 case _ => Idle
               }
            && forall u :: u != t ==> At(s', u) == At(s, u) || SleepingTaker(At(s, u)) || SleepingPutter(At(s, u))
  {
  }

  /** What leaves the queue is in hand until it is returned. */
  lemma TakenIsInHand<T>(s: State<T>, a: Action<T>, returned: seq<T>)
    requires Inv(s) && Do(s, a).Some? && s.taken == returned + InHand(s)
    ensures var s' := Do(s, a).value;
            s'.taken == returned + ReturnedBy(s, a) + InHand(s')
  {
    hide TakersInv, PuttersInv, Signal, QueueInv;
    match a
    case Notify(t, wake) => NotifyTouchesThreads(s, t, wake); HandAfterNotify(s, t, wake);
    case Pop(t) => HandAfterPop(s, t);
    case DrainAll(t) => HandAfterDrain(s, t);
    case Release(t) => HandAfterRelease(s, t);
    case _ => HandStays(s, a);
  }

  lemma HandAfterNotify<T>(s: State<T>, t: Tid, wake: Option<Tid>)
    requires OwnerInv(s) && KindInv(s) && NotifyOne(s, t, wake).Some?
    ensures InHand(NotifyOne(s, t, wake).value) == InHand(s)
  {
    NotifyTouchesThreads(s, t, wake);
    hide NotifyOne;
  }

  lemma HandAfterPop<T>(s: State<T>, t: Tid)
    requires OwnerInv(s) && PopItem(s, t).Some?
    ensures InHand(s) == [] && InHand(PopItem(s, t).value) == [s.queue[0]]
    ensures PopItem(s, t).value.taken == s.taken + [s.queue[0]]
  {
  }

  lemma HandAfterDrain<T>(s: State<T>, t: Tid)
    requires OwnerInv(s) && TakeAll(s, t).Some?
    ensures InHand(s) == [] && InHand(TakeAll(s, t).value) == s.queue
    ensures TakeAll(s, t).value.taken == s.taken + s.queue
  {
  }

  lemma HandAfterRelease<T>(s: State<T>, t: Tid)
    requires OwnerInv(s) && Unlock(s, t).Some?
    ensures InHand(s) == ReturnedBy(s, Release(t)) && InHand(Unlock(s, t).value) == []
    ensures Unlock(s, t).value.taken == s.taken
  {
  }

  lemma HandStays<T>(s: State<T>, a: Action<T>)
    requires OwnerInv(s) && Do(s, a).Some? && !a.Notify? && !a.Pop? && !a.DrainAll? && !a.Release?
    ensures InHand(Do(s, a).value) == InHand(s) && Do(s, a).value.taken == s.taken
  {
  }

  ghost predicate HistoryInv<T>(s: State<T>, kind: Kind, actions: seq<Action<T>>)
  {
    && s.put == Puts(actions)
    && s.taken == Returns(Init<T>(kind), actions) + InHand(s)
    && forall t :: AtCall(s, t, LastCall(actions, t), Pushes(actions, t))
  }

  lemma {:induction false} RunSnoc<T>(s: State<T>, actions: seq<Action<T>>, a: Action<T>)
    ensures Run(s, actions + [a]) == if Run(s, actions).None? then None else Do(Run(s, actions).value, a)
    decreases actions
  {
    hide Do;
    if actions == [] {
      assert actions + [a] == [a] && [a][1..] == [];
    } else {
      assert (actions + [a])[1..] == actions[1..] + [a];
      if Do(s, actions[0]).Some? {
        RunSnoc(Do(s, actions[0]).value, actions[1..], a);
      }
    }
  }

  lemma OneMoreAction<T>(s: State<T>, actions: seq<Action<T>>, a: Action<T>, t: Tid)
    ensures LastCall(actions + [a], t) ==
            if a.t == t && IsCall(a) then Some(a) else LastCall(actions, t)
    ensures Pushes(actions + [a], t) ==
            if a.t == t && IsCall(a) then 0 else Pushes(actions, t) + if a.t == t && a.Push? then 1 else 0
    ensures var call := LastCall(actions, a.t);
            Puts(actions + [a]) ==
            Puts(actions) + if a.Push? && call.Some? && call.value.CallPut? then [call.value.x] else []
    ensures Returns(s, actions + [a]) ==
            Returns(s, actions) + if Run(s, actions).Some? then ReturnedBy(Run(s, actions).value, a) else []
  {
    hide Run, ReturnedBy;
    assert (actions + [a])[..|actions|] == actions;
  }

  lemma HistoryStep<T>(kind: Kind, actions: seq<Action<T>>, a: Action<T>)
    requires Run(Init<T>(kind), actions).Some? && Inv(Run(Init<T>(kind), actions).value)
    requires HistoryInv(Run(Init<T>(kind), actions).value, kind, actions)
    requires Do(Run(Init<T>(kind), actions).value, a).Some?
    ensures HistoryInv(Do(Run(Init<T>(kind), actions).value, a).value, kind, actions + [a])
  {
    var s := Run(Init<T>(kind), actions).value;
    hide Do, Inv, Run, AtCall, LastCall, Pushes, Puts, Returns, ReturnedBy, InHand;
    OneMoreAction(Init<T>(kind), actions, a, a.t);
    assert AtCall(s, a.t, LastCall(actions, a.t), Pushes(actions, a.t));
    PushedByCall(s, a, LastCall(actions, a.t), Pushes(actions, a.t));
    TakenIsInHand(s, a, Returns(Init<T>(kind), actions));
    forall t
      ensures AtCall(Do(s, a).value, t, LastCall(actions + [a], t), Pushes(actions + [a], t))
    {
      OneMoreAction(Init<T>(kind), actions, a, t);
      assert AtCall(s, t, LastCall(actions, t), Pushes(actions, t));
      CallsKeep(s, a, t, LastCall(actions, t), Pushes(actions, t));
    }
  }

  lemma HistoryStart<T>(kind: Kind)
    ensures HistoryInv(Init<T>(kind), kind, [])
  {
    assert Run(Init<T>(kind), []) == Some(Init<T>(kind));
  }

  lemma {:induction false} RunHasHistory<T>(kind: Kind, actions: seq<Action<T>>)
    requires Run(Init<T>(kind), actions).Some?
    ensures Inv(Run(Init<T>(kind), actions).value) && HistoryInv(Run(Init<T>(kind), actions).value, kind, actions)
    decreases |actions|
  {
    InitInv<T>(kind);
    RunKeeps(Init<T>(kind), actions);
    if actions == [] {
      HistoryStart<T>(kind);
    } else {
      var before, a := actions[..|actions| - 1], actions[|actions| - 1];
      assert before + [a] == actions;
      hide Do, Inv, Run, HistoryInv;
      RunSnoc(Init<T>(kind), before, a);
      RunHasHistory<T>(kind, before);
      HistoryStep<T>(kind, before, a);
    }
  }

  // ---------- what the callers get ----------

  /** Over every interleaving: the items put, in the order of the pushes and each as the caller handed it over, are
      the items returned so far, then those the thread inside is about to return, then the queue. */
  lemma ReturnsAreFifo<T>(kind: Kind, actions: seq<Action<T>>)
    requires Run(Init<T>(kind), actions).Some?
    ensures var s := Run(Init<T>(kind), actions).value;
            Puts(actions) == Returns(Init<T>(kind), actions) + InHand(s) + s.queue
  {
    RunHasHistory<T>(kind, actions);
    hide Run, Puts, Returns, InHand, AtCall, LastCall, Pushes;
  }

  /** Every call does what it is for: a put pushes once and returns nothing, a take returns the oldest item that no
      call has returned before, and a drain all that has been put and not returned. */
  lemma CallsReturnTheirItems<T>(kind: Kind, actions: seq<Action<T>>, t: Tid)
    requires Run(Init<T>(kind), actions).Some?
    requires At(Run(Init<T>(kind), actions).value, t).Leaving?
    ensures var got := At(Run(Init<T>(kind), actions).value, t).got;
            var call, returned := LastCall(actions, t), Returns(Init<T>(kind), actions);
            && call.Some?
            && (|| (call.value.CallPut? && got == [] && Pushes(actions, t) == 1)
                || (call.value.CallTake? && returned + got <= Puts(actions) && |got| == 1)
                || (call.value.CallDrain? && returned + got == Puts(actions)))
    ensures Returns(Init<T>(kind), actions + [Release(t)]) ==
            Returns(Init<T>(kind), actions) + At(Run(Init<T>(kind), actions).value, t).got
  {
    RunHasHistory<T>(kind, actions);
    var s := Run(Init<T>(kind), actions).value;
    assert AtCall(s, t, LastCall(actions, t), Pushes(actions, t));
    assert s.owner == Some(t);
    ReturnsAreFifo<T>(kind, actions);
    OneMoreAction(Init<T>(kind), actions, Release(t), t);
    hide Run, Puts, Returns, LastCall, Pushes, Inv;
    assert Returns(Init<T>(kind), actions) + At(s, t).got + [] == Returns(Init<T>(kind), actions) + At(s, t).got;
  }

  // ---------- what may always happen ----------

  /** In every run: whoever has returned may make any call again, whoever waits for the free mutex may be the next to
      get it, and whoever sleeps may wake unasked, and then has to get the mutex again. */
  lemma NothingIsExcluded<T>(kind: Kind, actions: seq<Action<T>>, t: Tid, x: T)
    requires Run(Init<T>(kind), actions).Some?
    ensures var pc := At(Run(Init<T>(kind), actions).value, t);
            && (pc.Idle? ==>
                  && Run(Init<T>(kind), actions + [CallPut(t, x)]).Some?
                  && Run(Init<T>(kind), actions + [CallTake(t)]).Some?
                  && (Run(Init<T>(kind), actions + [CallDrain(t)]).Some? <==> kind.Blocking?))
            && ((pc.PutLocks? || pc.TakeLocks? || pc.DrainLocks?) && Run(Init<T>(kind), actions).value.owner.None? ==>
                  Run(Init<T>(kind), actions + [Acquire(t)]).Some?)
            && (pc.PutSleeps? || pc.TakeSleeps? ==>
                  var woken := Run(Init<T>(kind), actions + [Spurious(t)]);
                  woken.Some? && (At(woken.value, t).PutLocks? || At(woken.value, t).TakeLocks?))
  {
    InitInv<T>(kind);
    RunKeeps(Init<T>(kind), actions);
    hide Run, Inv;
    RunSnoc(Init<T>(kind), actions, CallPut(t, x));
    RunSnoc(Init<T>(kind), actions, CallTake(t));
    RunSnoc(Init<T>(kind), actions, CallDrain(t));
    RunSnoc(Init<T>(kind), actions, Acquire(t));
    RunSnoc(Init<T>(kind), actions, Spurious(t));
  }

  lemma PushedInLog<T>(x: T)
    ensures var end := Run(Init<T>(Log), [CallPut(1, x), Acquire(1), Test(1), Push(1)]);
            end.Some? && end.value.kind == Log && end.value.owner == Some(1) && At(end.value, 1) == PutPushed
            && At(end.value, 2) == Idle
  {
    var s0 := Init<T>(Log);
    var s1 := Move(s0, 1, PutLocks(x));
    var s2 := Move(s1, 1, PutTests(x)).(owner := Some(1));
    var s3 := Move(s2, 1, PutReady(x));
    var s4 := Move(s3, 1, PutPushed).(queue := s3.queue + [x], put := s3.put + [x]);
    assert Do(s0, CallPut(1, x)) == Some(s1) && Do(s1, Acquire(1)) == Some(s2);
    assert Do(s2, Test(1)) == Some(s3) && Do(s3, Push(1)) == Some(s4);
    assert Run(s0, []) == Some(s0);
    hide Do, Run;
    var none: seq<Action<T>> := [];
    RunSnoc(s0, none, CallPut(1, x));
    RunSnoc(s0, none + [CallPut(1, x)], Acquire(1));
    RunSnoc(s0, none + [CallPut(1, x)] + [Acquire(1)], Test(1));
    RunSnoc(s0, none + [CallPut(1, x)] + [Acquire(1)] + [Test(1)], Push(1));
    assert none + [CallPut(1, x)] + [Acquire(1)] + [Test(1)] + [Push(1)]
        == [CallPut(1, x), Acquire(1), Test(1), Push(1)];
  }

  /** LogQueue's push notifies after it has let go of the mutex: another thread can be inside by then. */
  lemma LogNotifiesOutside<T>(x: T)
    ensures var actions := [CallPut(1, x), Acquire(1), Test(1), Push(1), Release(1), CallTake(2), Acquire(2)];
            var end := Run(Init<T>(Log), actions);
            end.Some? && At(end.value, 1).PutNotifies? && end.value.owner == Some(2)
  {
    var pushed := [CallPut(1, x), Acquire(1), Test(1), Push(1)];
    var s := Init<T>(Log);
    PushedInLog(x);
    hide Run;
    RunSnoc(s, pushed, Release(1));
    RunSnoc(s, pushed + [Release(1)], CallTake(2));
    RunSnoc(s, pushed + [Release(1)] + [CallTake(2)], Acquire(2));
    assert pushed + [Release(1)] + [CallTake(2)] + [Acquire(2)] ==
           [CallPut(1, x), Acquire(1), Test(1), Push(1), Release(1), CallTake(2), Acquire(2)];
  }
}
