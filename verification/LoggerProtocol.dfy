/** The Logger's writer thread on top of LogQueue: any number of threads call Logger::log, one detached thread
    pops and appends to the log file, and the first empty message ends it. */
module LoggerProtocol {
  import opened Wrappers
  import opened Counting
  import opened QueueHistory
  import opened QueueProtocol

  const WRITER: Tid := 0

  /** What the writer thread does between two pops. */
  datatype Stage = Popping | Got(msg: string) | Stopped

  datatype Logger = Logger(
    q: State<string>, stage: Stage,
    written: string,       // the contents of the log
    done: seq<string>)     // the messages written so far

  datatype Step =
    | LogStep(a: Action<string>)     // a step of a thread inside Logger::log
    | PopStep(a: Action<string>)     // a step of the writer inside pop
    | WriteStep                      // the writer acts on the message it popped

  function Start(): Logger
  {
    Logger(Init<string>(Log), Popping, "", [])
  }

  function Take(l: Logger, s: Step): Option<Logger>
  {
    match s
    case LogStep(a) =>
      if a.t == WRITER || a.CallTake? || a.CallDrain? || Do(l.q, a).None? then None
      else Some(l.(q := Do(l.q, a).value))
    case PopStep(a) =>
      if a.t != WRITER || !l.stage.Popping? || a.CallPut? || a.CallDrain? || Do(l.q, a).None? then None
      else if a.Release? && At(l.q, WRITER).Leaving? && |At(l.q, WRITER).got| == 1
      then Some(l.(q := Do(l.q, a).value, stage := Got(At(l.q, WRITER).got[0])))
      else Some(l.(q := Do(l.q, a).value))
    case WriteStep =>
      if !l.stage.Got? then None
      else if l.stage.msg == "" then Some(l.(stage := Stopped))
      else Some(l.(stage := Popping, written := l.written + l.stage.msg, done := l.done + [l.stage.msg]))
  }

  function Steps(l: Logger, steps: seq<Step>): Option<Logger>
    decreases steps
  {
    if steps == [] then Some(l)
    else
      match Take(l, steps[0])
      case None => None
      case Some(l') => Steps(l', steps[1..])
  }

  function Concat(msgs: seq<string>): string
  {
    if msgs == [] then "" else Concat(msgs[..|msgs| - 1]) + msgs[|msgs| - 1]
  }

  /** The messages before the first empty one. */
  function UpToEmpty(msgs: seq<string>): seq<string>
  {
    if msgs == [] || msgs[0] == "" then [] else [msgs[0]] + UpToEmpty(msgs[1..])
  }

  // ---------- the invariant ----------

  /** Popped but not yet written. */
  function InHand(l: Logger): seq<string>
  {
    if l.stage.Got? then [l.stage.msg]
    else if l.stage.Stopped? then [""]
    else if At(l.q, WRITER).Leaving? then At(l.q, WRITER).got
    else []
  }

  predicate InPut(pc: Pc<string>)
  {
    pc.Idle? || pc.PutLocks? || pc.PutTests? || pc.PutReady? || pc.PutPushed? || pc.PutNotifies?
  }

  predicate InTake(pc: Pc<string>)
  {
    pc.Idle? || pc.TakeLocks? || pc.TakeTests? || pc.TakeSleeps? || pc.TakeReady? || (pc.Leaving? && |pc.got| == 1)
  }

  ghost predicate LoggerInv(l: Logger)
  {
    && Inv(l.q) && l.q.kind.Log?
    && (forall t :: t in l.q.threads && t != WRITER ==> InPut(l.q.threads[t]))
    && InTake(At(l.q, WRITER))
    && (!l.stage.Popping? ==> At(l.q, WRITER).Idle?)
    && l.q.taken == l.done + InHand(l)
    && l.written == Concat(l.done)
    && (forall i :: 0 <= i < |l.done| ==> l.done[i] != "")
  }

  lemma LogStepKeeps(l: Logger, a: Action<string>)
    requires LoggerInv(l) && Take(l, LogStep(a)).Some?
    ensures LoggerInv(Take(l, LogStep(a)).value)
  {
    hide Inv;
    InvStep(l.q, a);
  }

  lemma PopStepKeeps(l: Logger, a: Action<string>)
    requires LoggerInv(l) && Take(l, PopStep(a)).Some?
    ensures LoggerInv(Take(l, PopStep(a)).value)
  {
    hide Inv;
    InvStep(l.q, a);
  }

  lemma WriteStepKeeps(l: Logger)
    requires LoggerInv(l) && Take(l, WriteStep).Some?
    ensures LoggerInv(Take(l, WriteStep).value)
  {
    hide Inv;
    if l.stage.msg != "" {
      assert (l.done + [l.stage.msg])[..|l.done|] == l.done;
    }
  }

  lemma {:induction false} StepsKeep(l: Logger, steps: seq<Step>)
    requires LoggerInv(l) && Steps(l, steps).Some?
    ensures LoggerInv(Steps(l, steps).value)
    decreases steps
  {
    hide LoggerInv, Take;
    if steps != [] {
      match steps[0] {
        case LogStep(a) => LogStepKeeps(l, a);
        case PopStep(a) => PopStepKeeps(l, a);
        case WriteStep => WriteStepKeeps(l);
      }
      StepsKeep(Take(l, steps[0]).value, steps[1..]);
    }
  }

  lemma StartInv()
    ensures LoggerInv(Start())
  {
    InitInv<string>(Log);
  }

  // ---------- what the log holds ----------

  lemma {:induction false} UpToEmptyOf(good: seq<string>, rest: seq<string>)
    requires forall i :: 0 <= i < |good| ==> good[i] != ""
    ensures UpToEmpty(good + rest) == good + UpToEmpty(rest)
  {
    if good == [] {
      assert good + rest == rest;
    } else {
      UpToEmptyOf(good[1..], rest);
      assert (good + rest)[1..] == good[1..] + rest;
    }
  }

  lemma {:induction false} ConcatPrefix(a: seq<string>, b: seq<string>)
    ensures Concat(a) <= Concat(a + b)
  {
    if b == [] {
      assert a + b == a;
    } else {
      ConcatPrefix(a, b[..|b| - 1]);
      assert (a + b)[..|a + b| - 1] == a + b[..|b| - 1];
    }
  }

  /** At every moment the log is the concatenation of the first messages pushed, in lock order, and never goes
      past the first empty one; once the writer has stopped it is everything before that one. */
  lemma LogIsPrefixOfMessages(steps: seq<Step>)
    requires Steps(Start(), steps).Some?
    ensures var l := Steps(Start(), steps).value;
            && l.written == Concat(l.done) && l.done <= UpToEmpty(l.q.put)
            && l.written <= Concat(UpToEmpty(l.q.put))
            && (l.stage.Stopped? ==> l.written == Concat(UpToEmpty(l.q.put)) && "" in l.q.put)
  {
    StartInv();
    StepsKeep(Start(), steps);
    var l := Steps(Start(), steps).value;
    assert l.q.put == l.q.taken + l.q.queue;
    hide Inv;
    var rest := InHand(l) + l.q.queue;
    assert l.q.put == l.done + rest;
    UpToEmptyOf(l.done, rest);
    ConcatPrefix(l.done, UpToEmpty(rest));
    if l.stage.Stopped? {
      assert rest[0] == "" && l.q.put[|l.done|] == "";
      assert l.done + UpToEmpty(rest) == l.done;
    }
  }

  /** No message gets stuck: when every thread has come to rest with the writer waiting for more, the log
      holds every message that was pushed. */
  lemma RestedLogIsComplete(steps: seq<Step>)
    requires Steps(Start(), steps).Some?
    requires var l := Steps(Start(), steps).value; Quiet(l.q) && At(l.q, WRITER).TakeSleeps? && l.stage.Popping?
    ensures var l := Steps(Start(), steps).value; l.written == Concat(l.q.put)
  {
    StartInv();
    StepsKeep(Start(), steps);
    var l := Steps(Start(), steps).value;
    RestIsJustified(l.q);
    assert SomeTakerAsleep(l.q);
    assert l.q.put == l.done;
  }

  /** Whatever the writer is doing, any other thread that is not logging may log. */
  lemma AnyoneMayLog(l: Logger, t: Tid, msg: string)
    requires t != WRITER && At(l.q, t).Idle?
    ensures var next := Take(l, LogStep(CallPut(t, msg)));
            next.Some? && At(next.value.q, t) == PutLocks(msg) && next.value.stage == l.stage
  {
  }

  // ---------- every message is written ----------

  /** A popped message is the next one to be written; the writer's next step appends it and goes back for more, or
      stops at the empty one. */
  lemma PoppedIsWritten(steps: seq<Step>)
    requires Steps(Start(), steps).Some? && Steps(Start(), steps).value.stage.Got?
    ensures var l := Steps(Start(), steps).value;
            var next := Take(l, WriteStep);
            && |l.done| < |l.q.put| && l.stage.msg == l.q.put[|l.done|]
            && next.Some? && next.value.q == l.q
            && next.value.written == l.written + l.stage.msg
            && (if l.stage.msg == "" then next.value.stage.Stopped? else next.value.stage.Popping?)
  {
    StartInv();
    StepsKeep(Start(), steps);
    var l := Steps(Start(), steps).value;
    assert l.q.put == l.q.taken + l.q.queue;
    assert l.stage.msg == "" ==> l.written + "" == l.written;
  }

  /** Steps other than new log messages and spurious wakeups; the writer keeps calling pop by itself. */
  predicate LoggerWork(s: Step)
  {
    match s
    case LogStep(a) => IsWork(a)
    case PopStep(a) => IsWork(a) || a.CallTake?
    case WriteStep => true
  }

  /** A message still to be pushed is worth the writer's turn with it. */
  function LoggerWeight(pc: Pc<string>): nat
  {
    Weight(pc) + if pc.PutLocks? || pc.PutTests? || pc.PutReady? || pc.PutSleeps? then 6 else 0
  }

  /** What the writer still has to do before it waits, queued messages aside. */
  function WriterWeight(l: Logger): nat
  {
    if l.stage.Stopped? then 0
    else if l.stage.Got? || At(l.q, WRITER).Leaving? then 9
    else if At(l.q, WRITER).Idle? then 8
    else 0
  }

  ghost function LoggerLeft(l: Logger): nat
  {
    Sum(l.q.threads, LoggerWeight, 13) + 6 * |l.q.queue| + WriterWeight(l)
  }

  lemma MoveLoggerWeight(s: State<string>, t: Tid, pc: Pc<string>)
    ensures Sum(Move(s, t, pc).threads, LoggerWeight, 13) ==
            Sum(s.threads, LoggerWeight, 13) - LoggerWeight(At(s, t)) + LoggerWeight(pc)
  {
    hide Sum;
    SumMove(s.threads, t, pc, LoggerWeight, 13);
  }

  /** What a step of the queue does to the weights: only notify moves a second thread, and it wakes the writer. */
  lemma QueueStepWeight(s: State<string>, a: Action<string>)
    requires Do(s, a).Some? && s.kind.Log? && !a.Notify? && !a.Spurious?
    ensures var s' := Do(s, a).value;
            Sum(s'.threads, LoggerWeight, 13) ==
            Sum(s.threads, LoggerWeight, 13) - LoggerWeight(At(s, a.t)) + LoggerWeight(At(s', a.t))
  {
    hide Sum, LoggerWeight, NotifyOne;
    var s' := Do(s, a).value;
    MoveLoggerWeight(s, a.t, At(s', a.t));
    assert s'.threads == Move(s, a.t, At(s', a.t)).threads;
  }

  lemma NotifyWeight(s: State<string>, t: Tid, wake: Option<Tid>)
    requires NotifyOne(s, t, wake).Some? && At(s, t).PutNotifies?
    ensures var s' := NotifyOne(s, t, wake).value;
            && Sum(s'.threads, LoggerWeight, 13) < Sum(s.threads, LoggerWeight, 13) && s'.queue == s.queue
            && forall u :: u != t ==> At(s', u) == At(s, u) || (At(s, u).TakeSleeps? && At(s', u) == TakeLocks)
  {
    hide Sum;
    if wake.Some? {
      var w := wake.value;
      MoveLoggerWeight(s, w, TakeLocks);
      MoveLoggerWeight(Move(s, w, TakeLocks), t, Idle);
    } else {
      MoveLoggerWeight(s, t, Idle);
    }
  }

  lemma LogStepLowers(l: Logger, a: Action<string>)
    requires LoggerInv(l) && IsWork(a) && Take(l, LogStep(a)).Some?
    ensures LoggerLeft(Take(l, LogStep(a)).value) < LoggerLeft(l)
  {
    hide Sum, Inv;
    assert InPut(At(l.q, a.t));
    if a.Notify? {
      NotifyWeight(l.q, a.t, a.wake);
      hide NotifyOne;
    } else {
      QueueStepWeight(l.q, a);
      assert Inv(l.q) ==> QueueInv(l.q) by { QueueIsSafe(l.q); }
      hide NotifyOne;
    }
  }

  lemma QueueIsSafe(s: State<string>)
    ensures Inv(s) ==> QueueInv(s)
  {
  }

  lemma PopStepLowers(l: Logger, a: Action<string>)
    requires LoggerInv(l) && (IsWork(a) || a.CallTake?) && Take(l, PopStep(a)).Some?
    ensures LoggerLeft(Take(l, PopStep(a)).value) < LoggerLeft(l)
  {
    hide Sum, Inv;
    QueueStepWeight(l.q, a);
    hide NotifyOne;
  }

  lemma WriteStepLowers(l: Logger)
    requires LoggerInv(l) && Take(l, WriteStep).Some?
    ensures LoggerLeft(Take(l, WriteStep).value) < LoggerLeft(l)
  {
    hide Sum, Inv;
  }

  lemma LoggerWorkLowers(l: Logger, s: Step)
    requires LoggerInv(l) && LoggerWork(s) && Take(l, s).Some?
    ensures LoggerLeft(Take(l, s).value) < LoggerLeft(l)
  {
    hide LoggerInv;
    match s
    case LogStep(a) => LogStepLowers(l, a);
    case PopStep(a) => PopStepLowers(l, a);
    case WriteStep => WriteStepLowers(l);
  }

  lemma TakeKeeps(l: Logger, s: Step)
    requires LoggerInv(l) && Take(l, s).Some?
    ensures LoggerInv(Take(l, s).value)
  {
    hide LoggerInv, Take;
    match s
    case LogStep(a) => LogStepKeeps(l, a);
    case PopStep(a) => PopStepKeeps(l, a);
    case WriteStep => WriteStepKeeps(l);
  }

  predicate AllLoggerWork(work: seq<Step>)
  {
    forall i :: 0 <= i < |work| ==> LoggerWork(work[i])
  }

  lemma {:induction false} LoggerWorkIsBounded(l: Logger, work: seq<Step>)
    requires LoggerInv(l) && AllLoggerWork(work) && Steps(l, work).Some?
    ensures |work| + LoggerLeft(Steps(l, work).value) <= LoggerLeft(l) && LoggerInv(Steps(l, work).value)
    decreases work
  {
    hide LoggerInv, Take, LoggerLeft, LoggerWork;
    if work != [] {
      TakeKeeps(l, work[0]);
      LoggerWorkLowers(l, work[0]);
      LoggerWorkIsBounded(Take(l, work[0]).value, work[1..]);
    }
  }

  /** Everything pushed before the first empty message is in the log, and nobody is inside log any more. */
  ghost predicate Complete(l: Logger)
  {
    && l.written == Concat(UpToEmpty(l.q.put))
    && forall t :: t != WRITER ==> At(l.q, t).Idle?
  }

  /** Unless the log is complete, there is work to do. */
  lemma LoggerWorkIsEnabled(l: Logger) returns (s: Step)
    requires LoggerInv(l)
    ensures LoggerWork(s) && (Take(l, s).None? ==> Complete(l))
  {
    hide Inv, Concat, UpToEmpty;
    if !Quiet(l.q) {
      var a := WorkIsEnabled(l.q);
      s := if a.t == WRITER then PopStep(a) else LogStep(a);
      WorkIsNotIdle(l.q, a);
    } else if l.stage.Got? {
      s := WriteStep;
    } else if l.stage.Popping? && At(l.q, WRITER).Idle? {
      s := PopStep(CallTake(WRITER));
    } else {
      s := WriteStep;
      RestIsComplete(l);
    }
  }

  lemma WorkIsNotIdle(s: State<string>, a: Action<string>)
    requires IsWork(a) && Do(s, a).Some?
    ensures !At(s, a.t).Idle?
  {
  }

  lemma RestIsComplete(l: Logger)
    requires LoggerInv(l) && Quiet(l.q) && !l.stage.Got? && !(l.stage.Popping? && At(l.q, WRITER).Idle?)
    ensures Complete(l)
  {
    assert l.q.put == l.q.taken + l.q.queue;
    forall t | t != WRITER
      ensures At(l.q, t).Idle?
    {
      assert t in l.q.threads ==> InPut(l.q.threads[t]);
    }
    if l.stage.Stopped? {
      UpToEmptyOf(l.done, [""] + l.q.queue);
      assert l.q.put == l.done + ([""] + l.q.queue);
      assert l.done + [] == l.done;
    } else {
      assert At(l.q, WRITER).TakeSleeps? && SomeTakerAsleep(l.q);
      RestIsJustified(l.q);
      UpToEmptyOf(l.done, []);
      assert l.done + [] == l.done == l.q.put;
    }
  }

  /** From every reachable state: without new messages and spurious wakeups only so many steps follow, and when none
      can any more, the log holds everything that was pushed before the first empty message. */
  lemma LogComesToRest(steps: seq<Step>, work: seq<Step>)
    requires Steps(Start(), steps).Some? && AllLoggerWork(work)
    requires Steps(Steps(Start(), steps).value, work).Some?
    ensures var l := Steps(Start(), steps).value;
            var end := Steps(l, work).value;
            |work| <= LoggerLeft(l) && ((forall s :: LoggerWork(s) ==> Take(end, s).None?) ==> Complete(end))
  {
    StartInv();
    StepsKeep(Start(), steps);
    hide LoggerInv, Take, LoggerLeft, LoggerWork, Complete;
    var l := Steps(Start(), steps).value;
    LoggerWorkIsBounded(l, work);
    var s := LoggerWorkIsEnabled(Steps(l, work).value);
  }

  /** And such a state is always within reach. */
  lemma {:induction false} LogGetsComplete(l: Logger) returns (work: seq<Step>)
    requires LoggerInv(l)
    ensures AllLoggerWork(work) && Steps(l, work).Some? && Complete(Steps(l, work).value)
    decreases LoggerLeft(l)
  {
    hide LoggerInv, Take, LoggerLeft, LoggerWork, Complete;
    var s := LoggerWorkIsEnabled(l);
    if Take(l, s).None? {
      work := [];
    } else {
      TakeKeeps(l, s);
      LoggerWorkLowers(l, s);
      var rest := LogGetsComplete(Take(l, s).value);
      work := [s] + rest;
      assert work[1..] == rest;
    }
  }

  // ---------- the messages as their callers handed them over ----------

  /** The queue's part of a run. */
  function QueueActions(steps: seq<Step>): seq<Action<string>>
  {
    if steps == [] then []
    else (if steps[0].WriteStep? then [] else [steps[0].a]) + QueueActions(steps[1..])
  }

  lemma {:induction false} QueueRuns(l: Logger, steps: seq<Step>)
    requires Steps(l, steps).Some?
    ensures Run(l.q, QueueActions(steps)) == Some(Steps(l, steps).value.q)
    decreases steps
  {
    hide Do;
    if steps != [] {
      QueueRuns(Take(l, steps[0]).value, steps[1..]);
      if !steps[0].WriteStep? {
        var actions := [steps[0].a] + QueueActions(steps[1..]);
        assert actions[1..] == QueueActions(steps[1..]);
      } else {
        assert [] + QueueActions(steps[1..]) == QueueActions(steps[1..]);
      }
    }
  }

  /** What is queued and logged is what the callers of log handed over, in the order of their pushes. */
  lemma MessagesAreThoseLogged(steps: seq<Step>)
    requires Steps(Start(), steps).Some?
    ensures Steps(Start(), steps).value.q.put == Puts(QueueActions(steps))
  {
    QueueRuns(Start(), steps);
    RunHasHistory(Log, QueueActions(steps));
  }
}
