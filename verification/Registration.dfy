/** What check-then-create gives a provider: which of its methods it is registered for, and for how long. */
module Registration {
  import opened Wrappers
  import opened Bytes
  import opened Provider
  import opened Registry

  // ---------- who is registered, and for how long ----------

  /** The session holds the entry at `path`. */
  ghost predicate Owned(s: System, path: Path, session: Session)
  {
    path in s.tree && s.tree[path].owner == Some(session)
  }

  /** A provider never has an entry for a method it still has to register, and has every task once. */
  ghost predicate TodoIsNew(s: System, p: Publisher)
  {
    && NoRepeats(p.todo)
    && forall i :: 0 <= i < |p.todo| && p.todo[i].MethodTask? ==> !Owned(s, PathOf(p.todo[i]), p.session)
  }

  ghost predicate TodosAreNew(s: System)
  {
    forall p :: p in s.publishers ==> TodoIsNew(s, s.publishers[p])
  }

  lemma {:induction false} TasksAreDistinct(services: seq<seq<Byte>>, methods: map<seq<Byte>, seq<seq<Byte>>>)
    requires NoRepeats(services) && forall s :: s in services ==> s in methods && NoRepeats(methods[s])
    ensures NoRepeats(Tasks(services, methods))
    decreases services
  {
    if services != [] {
      var head := [ServiceTask(services[0])] + MethodTasks(services[0], methods[services[0]]);
      var rest := Tasks(services[1..], methods);
      TasksAreDistinct(services[1..], methods);
      assert forall i :: 0 <= i < |head| ==> head[i].service == services[0];
      forall i | 0 <= i < |rest|
        ensures rest[i].service != services[0]
      {
        TasksShape(services[1..], methods, i);
      }
      assert Tasks(services, methods) == head + rest;
    }
  }

  /** A session that was never opened owns nothing. */
  lemma NewSessionOwnsNothing(s: System, path: Path, session: Session)
    requires Inv(s) && session !in s.everOpened
    ensures !Owned(s, path, session)
  {
    if path in s.tree && s.tree[path].owner.Some? {
      assert NodeOk(s, path);
      var p, service, name :| Backed(s, path, p, service, name);
    }
  }

  /** Only a provider's own zoo_create makes its session the owner of an entry. */
  lemma OwnersCreate(s: System, step: Step, p: nat, path: Path)
    requires Inv(s) && Do(s, step).Some? && p in s.publishers
    requires !Owned(s, path, s.publishers[p].session)
    requires step == Create(p) ==> PathOf(s.publishers[p].todo[0]) != path || s.publishers[p].todo[0].ServiceTask?
    ensures !Owned(Do(s, step).value, path, s.publishers[p].session)
  {
    hide NodeOk, PublisherOk;
  }

  lemma DifferentTasksDifferentPaths(s: System, p: Publisher, i: nat, task: Task)
    requires PublisherOk(s, p) && i < |p.todo| && p.todo[i] != task
    requires task.MethodTask? && SlashFree(task.service)
    ensures PathOf(p.todo[i]) != PathOf(task)
  {
    assert TaskOk(s, p, i) && SlashFree(p.todo[i].service);
    var other := p.todo[i];
    if other.MethodTask? {
      PathsAreDistinct(task.service, task.name, other.service, other.name);
    } else {
      PathsAreDistinct(task.service, task.name, other.service, []);
    }
  }

  /** The step of a provider other than by Start leaves it all its tasks, or all but the first. */
  lemma TodoShrinks(s: System, step: Step, p: nat)
    requires Do(s, step).Some? && p in s.publishers
    ensures var q := Do(s, step).value.publishers;
            && p in q && SamePublisher(s.publishers[p], q[p])
            && (|| q[p].todo == s.publishers[p].todo
                || (s.publishers[p].todo != [] && q[p].todo == s.publishers[p].todo[1..]))
            && (step == Create(p) ==> s.publishers[p].todo != [] && q[p].todo == s.publishers[p].todo[1..])
  {
  }

  lemma TodosStayNew(s: System, step: Step)
    requires Inv(s) && TodosAreNew(s) && Do(s, step).Some?
    ensures TodosAreNew(Do(s, step).value)
  {
    var s' := Do(s, step).value;
    forall p | p in s'.publishers
      ensures TodoIsNew(s', s'.publishers[p])
    {
      if p in s.publishers {
        TodoOfOneStaysNew(s, step, p);
      } else {
        StartedTodoIsNew(s, step, p);
      }
    }
  }

  lemma StartedTodoIsNew(s: System, step: Step, p: nat)
    requires Inv(s) && Do(s, step).Some? && p !in s.publishers && p in Do(s, step).value.publishers
    ensures TodoIsNew(Do(s, step).value, Do(s, step).value.publishers[p])
  {
    var s' := Do(s, step).value;
    var me := s'.publishers[p];
    assert step.Start? && step.p == p;
    TasksAreDistinct(step.walk.services, step.walk.methods);
    forall i | 0 <= i < |me.todo|
      ensures !Owned(s', PathOf(me.todo[i]), me.session)
    {
      NewSessionOwnsNothing(s, PathOf(me.todo[i]), me.session);
    }
  }

  lemma TodoOfOneStaysNew(s: System, step: Step, p: nat)
    requires Inv(s) && TodosAreNew(s) && Do(s, step).Some? && p in s.publishers
    requires p in Do(s, step).value.publishers
    ensures TodoIsNew(Do(s, step).value, Do(s, step).value.publishers[p])
  {
    hide Do;
    var s', me := Do(s, step).value, s.publishers[p];
    TodoShrinks(s, step, p);
    var me' := s'.publishers[p];
    assert TodoIsNew(s, me) && PublisherOk(s, me);
    forall i | 0 <= i < |me'.todo| && me'.todo[i].MethodTask?
      ensures !Owned(s', PathOf(me'.todo[i]), me'.session)
    {
      var task, j := me'.todo[i], if me'.todo == me.todo then i else i + 1;
      assert me.todo[j] == task && TaskOk(s, me, j);
      if step == Create(p) {
        assert me.todo[0] != task by {
          assert me'.todo == me.todo[1..] && |me'.todo| == |me.todo| - 1;
        }
        DifferentTasksDifferentPaths(s, me, 0, task);
      }
      OwnersCreate(s, step, p, PathOf(task));
    }
  }

  lemma {:induction false} RunKeepsTodosNew(s: System, steps: seq<Step>)
    requires Inv(s) && TodosAreNew(s) && Run(s, steps).Some?
    ensures TodosAreNew(Run(s, steps).value)
    decreases steps
  {
    hide Inv, Do, TodosAreNew;
    if steps != [] {
      InvStep(s, steps[0]);
      TodosStayNew(s, steps[0]);
      RunKeepsTodosNew(Do(s, steps[0]).value, steps[1..]);
    }
  }

  /** A provider that is done with a method and has no entry for it. */
  ghost predicate Lost(s: System, p: nat, task: Task)
  {
    && task.MethodTask? && SlashFree(task.service)
    && p in s.publishers && task !in s.publishers[p].todo
    && !Owned(s, PathOf(task), s.publishers[p].session)
  }

  lemma LostStep(s: System, step: Step, p: nat, task: Task)
    requires Inv(s) && Lost(s, p, task) && Do(s, step).Some?
    ensures Lost(Do(s, step).value, p, task) && SamePublisher(s.publishers[p], Do(s, step).value.publishers[p])
  {
    hide Do;
    TodoShrinks(s, step, p);
    assert PublisherOk(s, s.publishers[p]);
    if step == Create(p) {
      DifferentTasksDifferentPaths(s, s.publishers[p], 0, task);
    }
    OwnersCreate(s, step, p, PathOf(task));
  }

  lemma {:induction false} LostRun(s: System, steps: seq<Step>, p: nat, task: Task)
    requires Inv(s) && Lost(s, p, task) && Run(s, steps).Some?
    ensures Lost(Run(s, steps).value, p, task) && SamePublisher(s.publishers[p], Run(s, steps).value.publishers[p])
    decreases steps
  {
    hide Inv, Do, Lost;
    if steps != [] {
      InvStep(s, steps[0]);
      LostStep(s, steps[0], p, task);
      LostRun(Do(s, steps[0]).value, steps[1..], p, task);
    }
  }

  /** A provider that is done with a method without having the entry never gets it, whatever happens to the entry and
      to the session that had it: from a reachable state on, no run makes it the owner. */
  lemma LoserStaysUnregistered(before: seq<Step>, p: nat, task: Task, after: seq<Step>)
    requires Run(Empty(), before).Some? && Lost(Run(Empty(), before).value, p, task)
    requires Run(Run(Empty(), before).value, after).Some?
    ensures var s := Run(Empty(), before).value;
            !Owned(Run(s, after).value, PathOf(task), s.publishers[p].session)
  {
    EmptyInv();
    RunKeeps(Empty(), before);
    LostRun(Run(Empty(), before).value, after, p, task);
  }

  /** The step with which a provider, its session open, is done with the method at the head of its list. */
  ghost predicate Finishes(s: System, step: Step, p: nat)
  {
    && (step == Exists(p) || step == Create(p)) && Do(s, step).Some?
    && p in s.publishers && s.publishers[p].todo != [] && s.publishers[p].todo[0].MethodTask?
    && s.publishers[p].session in s.open
    && Do(s, step).value.publishers[p] == Done(s.publishers[p])
  }

  lemma FinishedOwnsIff(s: System, step: Step, p: nat)
    requires Inv(s) && TodosAreNew(s) && Finishes(s, step, p)
    ensures var me := s.publishers[p];
            Owned(Do(s, step).value, PathOf(me.todo[0]), me.session) <==> step.Create? && PathOf(me.todo[0]) !in s.tree
  {
    assert TodoIsNew(s, s.publishers[p]);
    ParentExists(s, p);
  }

  lemma DoneIsLost(s: System, step: Step, p: nat)
    requires Inv(s) && TodosAreNew(s) && Finishes(s, step, p)
    requires !Owned(Do(s, step).value, PathOf(s.publishers[p].todo[0]), s.publishers[p].session)
    ensures Lost(Do(s, step).value, p, s.publishers[p].todo[0])
  {
    var me := s.publishers[p];
    assert TodoIsNew(s, me) && TaskOk(s, me, 0);
    assert me.todo[0] !in me.todo[1..];
  }

  /** For every provider, method and run: a provider that is done with a method has its entry for the rest of its
      session if and only if it came to zoo_create and nothing was at the path at that moment; otherwise it never has
      it, not even when the entry that stood in the way is gone. */
  lemma RegisteredIff(before: seq<Step>, step: Step, p: nat, after: seq<Step>)
    requires Run(Empty(), before).Some? && Finishes(Run(Empty(), before).value, step, p)
    requires Run(Do(Run(Empty(), before).value, step).value, after).Some?
    ensures var s := Run(Empty(), before).value;
            var s', me := Run(Do(s, step).value, after).value, s.publishers[p];
            me.session in s'.open ==>
              (Owned(s', PathOf(me.todo[0]), me.session) <==> step.Create? && PathOf(me.todo[0]) !in s.tree)
  {
    EmptyInv();
    RunKeeps(Empty(), before);
    RunKeepsTodosNew(Empty(), before);
    var s := Run(Empty(), before).value;
    var s1, me := Do(s, step).value, s.publishers[p];
    hide Do, Run;
    InvStep(s, step);
    FinishedOwnsIff(s, step, p);
    var path := PathOf(me.todo[0]);
    if Owned(s1, path, me.session) {
      assert Unmoved(s1, path, s1.tree[path]) by { EntryIsUnmoved(s1, path); }
      UnmovedRun(s1, after, path, s1.tree[path]);
    } else {
      DoneIsLost(s, step, p);
      LostRun(s1, after, p, me.todo[0]);
    }
  }

  lemma EntryIsUnmoved(s: System, path: Path)
    requires Inv(s) && path in s.tree && s.tree[path].owner.Some?
    ensures Unmoved(s, path, s.tree[path])
  {
    assert NodeOk(s, path);
    var p, service, name :| Backed(s, path, p, service, name);
  }

  lemma {:induction false} RunSnoc(s: System, steps: seq<Step>, step: Step)
    ensures Run(s, steps + [step]) == if Run(s, steps).None? then None else Do(Run(s, steps).value, step)
    decreases steps
  {
    hide Do;
    if steps == [] {
      assert steps + [step] == [step] && [step][1..] == [];
    } else {
      assert (steps + [step])[1..] == steps[1..] + [step];
      if Do(s, steps[0]).Some? {
        RunSnoc(Do(s, steps[0]).value, steps[1..], step);
      }
    }
  }

  // ---------- every method gets its createNode ----------

  lemma {:induction false} EveryServiceIsATask(services: seq<seq<Byte>>, methods: map<seq<Byte>, seq<seq<Byte>>>,
                                               s: seq<Byte>)
    requires (forall x :: x in services ==> x in methods) && s in services
    ensures ServiceTask(s) in Tasks(services, methods)
    ensures forall m :: m in methods[s] ==> MethodTask(s, m) in Tasks(services, methods)
    decreases services
  {
    var own := MethodTasks(services[0], methods[services[0]]);
    var rest := Tasks(services[1..], methods);
    var tasks := [ServiceTask(services[0])] + own + rest;
    assert Tasks(services, methods) == tasks;
    if s == services[0] {
      assert tasks[0] == ServiceTask(s);
      forall m | m in methods[s]
        ensures MethodTask(s, m) in tasks
      {
        var i :| 0 <= i < |methods[s]| && methods[s][i] == m;
        assert own[i] == MethodTask(s, m) && tasks[1 + i] == own[i];
      }
    } else {
      EveryServiceIsATask(services[1..], methods, s);
    }
  }

  /** In whatever order run walks its two maps, it calls createNode for every service and every method of it. */
  lemma WalkIsComplete(walk: Walk, services: Services, s: seq<Byte>, m: seq<Byte>)
    requires IsWalk(walk, services) && s in services
    ensures ServiceTask(s) in Tasks(walk.services, walk.methods)
    ensures m in services[s] ==> MethodTask(s, m) in Tasks(walk.services, walk.methods)
  {
    EveryServiceIsATask(walk.services, walk.methods, s);
  }

  /** In the i-th step provider p was done with the method's createNode, its session open, and the node was there. */
  ghost predicate FinishedAt(steps: seq<Step>, i: nat, p: nat, task: Task)
    requires i < |steps|
  {
    var s := Run(Empty(), steps[..i]);
    && s.Some? && Finishes(s.value, steps[i], p) && s.value.publishers[p].todo[0] == task
    && PathOf(task) in Do(s.value, steps[i]).value.tree
  }

  /** Every method a provider with an open session serves is still to come, or was finished at some step. */
  ghost predicate NothingForgotten(steps: seq<Step>, s: System, p: nat, service: seq<Byte>, name: seq<Byte>)
  {
    p in s.publishers && s.publishers[p].session in s.open && Serves(s.publishers[p], service, name) ==>
      || MethodTask(service, name) in s.publishers[p].todo
      || exists i :: 0 <= i < |steps| && FinishedAt(steps, i, p, MethodTask(service, name))
  }

  lemma FinishedStays(steps: seq<Step>, step: Step, i: nat, p: nat, task: Task)
    requires i < |steps| && FinishedAt(steps, i, p, task)
    ensures FinishedAt(steps + [step], i, p, task)
  {
    hide Finishes, Run, Do;
    assert (steps + [step])[..i] == steps[..i] && (steps + [step])[i] == steps[i];
  }

  lemma NothingForgottenStep(steps: seq<Step>, step: Step, p: nat, service: seq<Byte>, name: seq<Byte>)
    requires Run(Empty(), steps).Some? && Do(Run(Empty(), steps).value, step).Some?
    requires Inv(Run(Empty(), steps).value)
    requires NothingForgotten(steps, Run(Empty(), steps).value, p, service, name)
    ensures NothingForgotten(steps + [step], Do(Run(Empty(), steps).value, step).value, p, service, name)
  {
    var s, task := Run(Empty(), steps).value, MethodTask(service, name);
    var s' := Do(s, step).value;
    hide Run, FinishedAt;
    if p in s'.publishers && s'.publishers[p].session in s'.open && Serves(s'.publishers[p], service, name) {
      if p !in s.publishers {
        WalkIsComplete(step.walk, step.services, service, name);
      } else {
        TodoShrinks(s, step, p);
        SessionWasOpen(s, step, p);
        if task in s.publishers[p].todo && task !in s'.publishers[p].todo {
          FinishedNow(steps, step, p, task);
          assert 0 <= |steps| < |steps + [step]|;
        } else if task !in s.publishers[p].todo {
          var i :| 0 <= i < |steps| && FinishedAt(steps, i, p, task);
          FinishedStays(steps, step, i, p, task);
        }
      }
    }
  }

  lemma SessionWasOpen(s: System, step: Step, p: nat)
    requires Inv(s) && Do(s, step).Some? && p in s.publishers
    requires s.publishers[p].session in Do(s, step).value.open
    ensures s.publishers[p].session in s.open
  {
    assert PublisherOk(s, s.publishers[p]);
  }

  lemma FinishedNow(steps: seq<Step>, step: Step, p: nat, task: Task)
    requires Run(Empty(), steps).Some? && Do(Run(Empty(), steps).value, step).Some?
    requires Inv(Run(Empty(), steps).value)
    requires var s := Run(Empty(), steps).value;
             var s' := Do(s, step).value;
             && p in s.publishers && p in s'.publishers && s.publishers[p].session in s.open
             && task.MethodTask? && task in s.publishers[p].todo && task !in s'.publishers[p].todo
    ensures FinishedAt(steps + [step], |steps|, p, task)
  {
    var s := Run(Empty(), steps).value;
    assert (steps + [step])[..|steps|] == steps && (steps + [step])[|steps|] == step;
    hide Run;
    FinishingStep(s, step, p, task);
    if step.Create? {
      ParentExists(s, p);
    }
  }

  /** A task leaves the list only from its head, by a step of the provider itself. */
  lemma FinishingStep(s: System, step: Step, p: nat, task: Task)
    requires Do(s, step).Some? && p in s.publishers && p in Do(s, step).value.publishers
    requires s.publishers[p].session in s.open
    requires task.MethodTask? && task in s.publishers[p].todo && task !in Do(s, step).value.publishers[p].todo
    ensures Finishes(s, step, p) && s.publishers[p].todo[0] == task
  {
    var todo := s.publishers[p].todo;
    assert todo != [] && todo == [todo[0]] + todo[1..];
  }

  lemma {:induction false} NothingIsForgotten(steps: seq<Step>, p: nat, service: seq<Byte>, name: seq<Byte>)
    requires Run(Empty(), steps).Some?
    ensures NothingForgotten(steps, Run(Empty(), steps).value, p, service, name)
    decreases |steps|
  {
    if steps == [] {
      assert Run(Empty(), steps) == Some(Empty());
    } else {
      var before, step := steps[..|steps| - 1], steps[|steps| - 1];
      assert before + [step] == steps;
      hide Do, Inv, NothingForgotten;
      RunSnoc(Empty(), before, step);
      EmptyInv();
      RunKeeps(Empty(), before);
      NothingIsForgotten(before, p, service, name);
      NothingForgottenStep(before, step, p, service, name);
    }
  }

  /** A provider that is through with run, its session open, has finished a createNode for every method it serves, and
      a node was there after it: its own, or that of the provider that had come first. */
  lemma EveryMethodWasCreated(steps: seq<Step>, p: nat, service: seq<Byte>, name: seq<Byte>)
    requires Run(Empty(), steps).Some? && p in Run(Empty(), steps).value.publishers
    requires var s := Run(Empty(), steps).value;
             && s.publishers[p].todo == [] && s.publishers[p].session in s.open
             && Serves(s.publishers[p], service, name)
    ensures exists i :: 0 <= i < |steps| && FinishedAt(steps, i, p, MethodTask(service, name))
  {
    NothingIsForgotten(steps, p, service, name);
  }

  // ---------- runs that show what is possible ----------

  ghost predicate Reachable(s: System)
  {
    exists steps :: Run(Empty(), steps) == Some(s)
  }

  lemma Then(s: System, step: Step, s': System)
    requires Reachable(s) && Do(s, step) == Some(s')
    ensures Reachable(s')
  {
    hide Do;
    var steps :| Run(Empty(), steps) == Some(s);
    RunSnoc(Empty(), steps, step);
  }

  const SERVICE: seq<Byte> := [83]
  const METHOD: seq<Byte> := [77]

  function OneMethod(): Services
  {
    map[SERVICE := {METHOD}]
  }

  function OneWalk(): Walk
  {
    Walk([SERVICE], map[SERVICE := [METHOD]])
  }

  lemma OneWalkTasks()
    ensures IsWalk(OneWalk(), OneMethod()) && AllSlashFree(OneMethod())
    ensures Tasks(OneWalk().services, OneWalk().methods) == [ServiceTask(SERVICE), MethodTask(SERVICE, METHOD)]
  {
    assert [SERVICE][1..] == [];
    assert MethodTasks(SERVICE, [METHOD]) == [MethodTask(SERVICE, METHOD)];
    assert Tasks([], OneWalk().methods) == [];
  }

  /** A provider of S.M with session `session` and the tasks `todo` before it. */
  function Server(host: seq<Byte>, session: Session, todo: seq<Task>, creating: bool): Publisher
  {
    Publisher(OneMethod(), host, session, todo, creating)
  }

  function Both(): seq<Task>
  {
    [ServiceTask(SERVICE), MethodTask(SERVICE, METHOD)]
  }

  function Last(): seq<Task>
  {
    [MethodTask(SERVICE, METHOD)]
  }

  /** Two providers of S.M, both started, of which the first has made the service node. */
  lemma TwoStarted(a: seq<Byte>, b: seq<Byte>)
    ensures Reachable(System(map[ServicePath(SERVICE) := Node([], None)], {0, 1}, {0, 1},
                             map[0 := Server(a, 0, Last(), false), 1 := Server(b, 1, Both(), false)], map[]))
  {
    OneWalkTasks();
    hide IsWalk, AllSlashFree, OneMethod, OneWalk;
    var empty: map<nat, Lookup> := map[];
    var s1 := System(map[], {0}, {0}, map[0 := Server(a, 0, Both(), false)], empty);
    var s2 := System(map[], {0, 1}, {0, 1},
                     map[0 := Server(a, 0, Both(), false), 1 := Server(b, 1, Both(), false)], empty);
    var s3 := s2.(publishers := s2.publishers[0 := Server(a, 0, Both(), true)]);
    var s4 := System(map[ServicePath(SERVICE) := Node([], None)], {0, 1}, {0, 1},
                     map[0 := Server(a, 0, Last(), false), 1 := Server(b, 1, Both(), false)], empty);
    assert Run(Empty(), []) == Some(Empty());
    assert Both() == Tasks(OneWalk().services, OneWalk().methods);
    assert Empty().publishers[0 := Server(a, 0, Both(), false)] == s1.publishers && {} + {0} == {0};
    assert s1.publishers[1 := Server(b, 1, Both(), false)] == s2.publishers && {0} + {1} == {0, 1};
    assert s3.publishers[0 := Server(a, 0, Last(), false)] == s4.publishers;
    assert s3.tree[ServicePath(SERVICE) := Node([], None)] == s4.tree;
    Then(Empty(), Start(0, OneMethod(), a, 0, OneWalk()), s1);
    Then(s1, Start(1, OneMethod(), b, 1, OneWalk()), s2);
    Then(s2, Exists(0), s3);
    assert Both()[1..] == Last();
    Then(s3, Create(0), s4);
  }

  /** Both find no entry for S.M; the first creates it, and the second fails. */
  function Raced(a: seq<Byte>, b: seq<Byte>): System
  {
    System(map[ServicePath(SERVICE) := Node([], None), MethodPath(SERVICE, METHOD) := Node(a, Some(0))], {0, 1}, {0, 1},
           map[0 := Server(a, 0, [], false), 1 := Server(b, 1, [], false)], map[])
  }

  lemma RaceIsReached(a: seq<Byte>, b: seq<Byte>)
    ensures Reachable(Raced(a, b))
  {
    TwoStarted(a, b);
    hide Reachable;
    PathsAreDistinct(SERVICE, METHOD, SERVICE, []);
    var empty: map<nat, Lookup> := map[];
    var made: Tree := map[ServicePath(SERVICE) := Node([], None)];
    var both := map[ServicePath(SERVICE) := Node([], None), MethodPath(SERVICE, METHOD) := Node(a, Some(0))];
    var s0 := System(made, {0, 1}, {0, 1},
                     map[0 := Server(a, 0, Last(), false), 1 := Server(b, 1, Both(), false)], empty);
    var s1 := s0.(publishers := s0.publishers[1 := Server(b, 1, Last(), false)]);
    var s2 := s1.(publishers := s1.publishers[0 := Server(a, 0, Last(), true)]);
    var s3 := s2.(publishers := s2.publishers[1 := Server(b, 1, Last(), true)]);
    var s4 := s3.(publishers := s3.publishers[0 := Server(a, 0, [], false)], tree := both);
    assert Both()[1..] == Last() && Last()[1..] == [];
    assert s4.publishers[1 := Server(b, 1, [], false)] == Raced(a, b).publishers && s4.tree == Raced(a, b).tree;
    Then(s0, Exists(1), s1);
    Then(s1, Exists(0), s2);
    Then(s2, Exists(1), s3);
    Then(s3, Create(0), s4);
    Then(s4, Create(1), Raced(a, b));
  }

  /** The race of two providers and then the end of the winner's session: the loser is open and serves the method,
      nothing is at its path, and no further run makes it the owner. */
  lemma LoserOutlivesWinner(a: seq<Byte>, b: seq<Byte>) returns (s: System)
    ensures Reachable(s) && 1 in s.publishers && s.publishers[1] == Server(b, 1, [], false) && 1 in s.open
    ensures Serves(s.publishers[1], SERVICE, METHOD) && MethodPath(SERVICE, METHOD) !in s.tree
    ensures forall after :: Run(s, after).Some? ==> !Owned(Run(s, after).value, MethodPath(SERVICE, METHOD), 1)
  {
    RaceIsReached(a, b);
    s := Do(Raced(a, b), Close(0)).value;
    Then(Raced(a, b), Close(0), s);
    hide Do;
    var before :| Run(Empty(), before) == Some(s);
    forall after | Run(s, after).Some?
      ensures !Owned(Run(s, after).value, MethodPath(SERVICE, METHOD), 1)
    {
      LoserStaysUnregistered(before, 1, MethodTask(SERVICE, METHOD), after);
    }
  }
}
