/** The service registry: any number of providers run Provide::run against one ZooKeeper tree while clients look
    methods up, exists and create (and exists and get) being separate steps of each. */
module Registry {
  import opened Wrappers
  import opened Bytes
  import opened Framing
  import opened Provider

  const SLASH: Byte := 47
  const PATH_BUFFER: nat := 128

  type Path = seq<Byte>
  type Session = nat

  // ---------- the ZooKeeper tree ----------

  /** A node's data, and the session it is tied to when it is ephemeral. */
  datatype Node = Node(data: seq<Byte>, owner: Option<Session>)

  type Tree = map<Path, Node>

  /** One createNode call of Provide::run. */
  datatype Task = ServiceTask(service: seq<Byte>) | MethodTask(service: seq<Byte>, name: seq<Byte>)

  function ServicePath(service: seq<Byte>): Path
  {
    [SLASH] + service
  }

  function MethodPath(service: seq<Byte>, name: seq<Byte>): Path
  {
    [SLASH] + service + [SLASH] + name
  }

  function PathOf(task: Task): Path
  {
    if task.ServiceTask? then ServicePath(task.service) else MethodPath(task.service, task.name)
  }

  /** The path that run creates and CallMethod looks up. */
  lemma PathsAreTexts(service: string, name: string)
    ensures ServicePath(Ascii(service)) == Ascii("/" + service)
    ensures MethodPath(Ascii(service), Ascii(name)) == Ascii("/" + service + "/" + name)
  {
  }

  predicate SlashFree(name: seq<Byte>)
  {
    SLASH !in name
  }

  // ---------- providers ----------

  datatype Publisher = Publisher(
    services: Services,    // _servicesMap, fixed before run
    host: seq<Byte>,       // "ip:port"
    session: Session,
    todo: seq<Task>,       // the createNode calls still to come
    creating: bool)        // zoo_exists answered ZNONODE, zoo_create comes next

  /** The order in which the two unordered maps are walked: services, and the methods of each. */
  datatype Walk = Walk(services: seq<seq<Byte>>, methods: map<seq<Byte>, seq<seq<Byte>>>)

  ghost predicate IsWalk(w: Walk, services: Services)
  {
    && (forall s :: s in w.services <==> s in services)
    && w.methods.Keys == services.Keys
    && (forall s :: s in services ==> forall m :: m in w.methods[s] <==> m in services[s])
    && NoRepeats(w.services)
    && (forall s :: s in services ==> NoRepeats(w.methods[s]))
  }

  ghost predicate NoRepeats<T>(xs: seq<T>)
  {
    forall i, j :: 0 <= i < j < |xs| ==> xs[i] != xs[j]
  }

  function MethodTasks(service: seq<Byte>, names: seq<seq<Byte>>): (ts: seq<Task>)
    ensures |ts| == |names|
    ensures forall i :: 0 <= i < |ts| ==> ts[i] == MethodTask(service, names[i])
  {
    seq(|names|, i requires 0 <= i < |names| => MethodTask(service, names[i]))
  }

  /** The createNode calls of run, in order. */
  function Tasks(services: seq<seq<Byte>>, methods: map<seq<Byte>, seq<seq<Byte>>>): seq<Task>
    requires forall s :: s in services ==> s in methods
  {
    if services == [] then []
    else [ServiceTask(services[0])] + MethodTasks(services[0], methods[services[0]]) + Tasks(services[1..], methods)
  }

  // ---------- the whole system ----------

  datatype Lookup = Looking(path: Path) | Found(path: Path, host: seq<Byte>) | Missing

  datatype System = System(
    tree: Tree,
    open: set<Session>, everOpened: set<Session>,
    publishers: map<nat, Publisher>,
    lookups: map<nat, Lookup>)

  datatype Step =
    | Start(p: nat, services: Services, host: seq<Byte>, session: Session, walk: Walk)
    | Exists(p: nat)            // createNode: zoo_exists
    | Create(p: nat)            // createNode: zoo_create
    | Close(session: Session)   // zookeeper_close, or the session expires
    | LookUp(c: nat, service: seq<Byte>, name: seq<Byte>)   // getNodeData: zoo_exists
    | Get(c: nat)               // getNodeData: zoo_get

  function Empty(): System
  {
    System(map[], {}, {}, map[], map[])
  }

  /** getNodeData returns its 128-byte buffer as a C string. */
  function ReadBack(data: seq<Byte>): seq<Byte>
  {
    UpToNul(if |data| <= PATH_BUFFER then data else data[..PATH_BUFFER])
  }

  function UpToNul(data: seq<Byte>): seq<Byte>
  {
    if data == [] || data[0] == 0 then [] else [data[0]] + UpToNul(data[1..])
  }

  function Done(p: Publisher): Publisher
    requires p.todo != []
  {
    p.(todo := p.todo[1..], creating := false)
  }

  /** zoo_create: the parent must exist, the node must not; service nodes are persistent and empty, method
      nodes are ephemeral and hold the host. */
  function ZooCreate(tree: Tree, task: Task, p: Publisher): Option<Tree>
  {
    if PathOf(task) in tree || (task.MethodTask? && ServicePath(task.service) !in tree) then None
    else Some(tree[PathOf(task) := if task.ServiceTask? then Node([], None) else Node(p.host, Some(p.session))])
  }

  ghost function Do(s: System, step: Step): Option<System>
  {
    match step
    case Start(p, services, host, session, walk) =>
      if p in s.publishers || session in s.everOpened || !IsWalk(walk, services) || !AllSlashFree(services) then None
      else Some(s.(open := s.open + {session}, everOpened := s.everOpened + {session},
                   publishers := s.publishers[p :=
                     Publisher(services, host, session, Tasks(walk.services, walk.methods), false)]))
    case Exists(p) =>
      if p !in s.publishers || s.publishers[p].todo == [] || s.publishers[p].creating then None
      else
        var me := s.publishers[p];
        if me.session in s.open && PathOf(me.todo[0]) !in s.tree
        then Some(s.(publishers := s.publishers[p := me.(creating := true)]))
        else Some(s.(publishers := s.publishers[p := Done(me)]))
    case Create(p) =>
      if p !in s.publishers || s.publishers[p].todo == [] || !s.publishers[p].creating then None
      else
        var me := s.publishers[p];
        var made := ZooCreate(s.tree, me.todo[0], me);
        Some(s.(publishers := s.publishers[p := Done(me)],
                tree := if me.session in s.open && made.Some? then made.value else s.tree))
    case Close(session) =>
      if session !in s.open then None
      else Some(s.(open := s.open - {session},
                   tree := map path | path in s.tree && s.tree[path].owner != Some(session) :: s.tree[path]))
    case LookUp(c, service, name) =>
      var path := MethodPath(service, name);
      Some(s.(lookups := s.lookups[c := if path in s.tree then Looking(path) else Missing]))
    case Get(c) =>
      if c !in s.lookups || !s.lookups[c].Looking? then None
      else
        var path := s.lookups[c].path;
        var host := if path in s.tree then ReadBack(s.tree[path].data) else [];
        Some(s.(lookups := s.lookups[c := if host == [] then Missing else Found(path, host)]))
  }

  ghost predicate AllSlashFree(services: Services)
  {
    forall s :: s in services ==> SlashFree(s) && forall m :: m in services[s] ==> SlashFree(m)
  }

  ghost function Run(s: System, steps: seq<Step>): Option<System>
    decreases steps
  {
    if steps == [] then Some(s)
    else
      match Do(s, steps[0])
      case None => None
      case Some(s') => Run(s', steps[1..])
  }

  // ---------- paths ----------

  /** The position of the first slash, or the length when there is none. */
  function SlashAt(w: seq<Byte>): nat
  {
    if w == [] || w[0] == SLASH then 0 else 1 + SlashAt(w[1..])
  }

  lemma {:induction false} SlashAfter(a: seq<Byte>, x: seq<Byte>)
    requires SlashFree(a)
    ensures SlashAt(a + [SLASH] + x) == |a|
  {
    if a != [] {
      SlashAfter(a[1..], x);
      assert (a + [SLASH] + x)[1..] == a[1..] + [SLASH] + x;
    }
  }

  lemma {:induction false} NoSlash(a: seq<Byte>)
    requires SlashFree(a)
    ensures SlashAt(a) == |a|
  {
    if a != [] {
      NoSlash(a[1..]);
    }
  }

  /** Different methods are published at different paths, and no method at a service's path. */
  lemma PathsAreDistinct(s: seq<Byte>, m: seq<Byte>, s': seq<Byte>, m': seq<Byte>)
    requires SlashFree(s) && SlashFree(s')
    ensures MethodPath(s, m) == MethodPath(s', m') ==> s == s' && m == m'
    ensures MethodPath(s, m) != ServicePath(s')
  {
    var w, w' := s + [SLASH] + m, s' + [SLASH] + m';
    assert MethodPath(s, m)[1..] == w && MethodPath(s', m')[1..] == w' && ServicePath(s')[1..] == s';
    SlashAfter(s, m);
    SlashAfter(s', m');
    NoSlash(s');
    assert w[..|s|] == s && w[|s| + 1..] == m;
    assert w'[..|s'|] == s' && w'[|s'| + 1..] == m';
  }

  // ---------- the invariant ----------

  predicate Serves(p: Publisher, service: seq<Byte>, name: seq<Byte>)
  {
    service in p.services && name in p.services[service]
  }

  /** A method node was written by a provider whose session is open and which serves that method. */
  ghost predicate Backed(s: System, path: Path, p: nat, service: seq<Byte>, name: seq<Byte>)
    requires path in s.tree
  {
    && p in s.publishers
    && s.tree[path] == Node(s.publishers[p].host, Some(s.publishers[p].session))
    && s.publishers[p].session in s.open
    && path == MethodPath(service, name)
    && Serves(s.publishers[p], service, name)
    && SlashFree(service) && SlashFree(name)
  }

  ghost predicate NodeOk(s: System, path: Path)
    requires path in s.tree
  {
    if s.tree[path].owner.None?
    then s.tree[path].data == [] && exists service :: path == ServicePath(service) && SlashFree(service)
    else exists p, service, name :: Backed(s, path, p, service, name)
  }

  /** What a provider still has to create is its own, and a method never comes before its service node. */
  ghost predicate TodoOk(s: System, p: Publisher)
  {
    forall i :: 0 <= i < |p.todo| ==> TaskOk(s, p, i)
  }

  ghost predicate TaskOk(s: System, p: Publisher, i: nat)
    requires i < |p.todo|
  {
    && p.todo[i].service in p.services
    && (p.todo[i].MethodTask? ==>
          && p.todo[i].name in p.services[p.todo[i].service]
          && (p.session in s.open ==>
                || ServicePath(p.todo[i].service) in s.tree
                || exists j :: 0 <= j < i && p.todo[j] == ServiceTask(p.todo[i].service)))
  }

  ghost predicate Inv(s: System)
  {
    && (forall path :: path in s.tree ==> NodeOk(s, path))
    && (forall p :: p in s.publishers ==> PublisherOk(s, s.publishers[p]))
    && (forall p, q :: p in s.publishers && q in s.publishers && p != q ==>
          s.publishers[p].session != s.publishers[q].session)
    && s.open <= s.everOpened
  }

  ghost predicate PublisherOk(s: System, p: Publisher)
  {
    && p.session in s.everOpened
    && AllSlashFree(p.services)
    && TodoOk(s, p)
    && (p.creating ==> p.todo != [])
  }

  // ---------- every step keeps the invariant ----------

  lemma {:induction false} TasksShape(services: seq<seq<Byte>>, methods: map<seq<Byte>, seq<seq<Byte>>>, i: nat)
    requires forall s :: s in services ==> s in methods
    requires i < |Tasks(services, methods)|
    ensures var ts := Tasks(services, methods);
            && ts[i].service in services
            && (ts[i].MethodTask? ==> ts[i].name in methods[ts[i].service]
                                      && exists j :: 0 <= j < i && ts[j] == ServiceTask(ts[i].service))
    decreases services
  {
    var ts := Tasks(services, methods);
    var head := [ServiceTask(services[0])] + MethodTasks(services[0], methods[services[0]]);
    assert ts == head + Tasks(services[1..], methods);
    if i < |head| {
      assert ts[i] == head[i];
      assert i > 0 ==> ts[0] == ServiceTask(ts[i].service);
    } else {
      TasksShape(services[1..], methods, i - |head|);
      var rest := Tasks(services[1..], methods);
      assert ts[i] == rest[i - |head|];
      if ts[i].MethodTask? {
        var j :| 0 <= j < i - |head| && rest[j] == ServiceTask(ts[i].service);
        assert ts[j + |head|] == rest[j];
      }
    }
  }

  /** Nodes stay backed when publishers only gain entries or move on in their work. */
  lemma NodeStaysOk(s: System, s': System, path: Path)
    requires path in s.tree && NodeOk(s, path)
    requires path in s'.tree && s'.tree[path] == s.tree[path]
    requires forall p :: p in s.publishers ==> p in s'.publishers && SamePublisher(s.publishers[p], s'.publishers[p])
    requires s.tree[path].owner.Some? ==> s.tree[path].owner.value in s'.open
    ensures NodeOk(s', path)
  {
    if s.tree[path].owner.Some? {
      var p, service, name :| Backed(s, path, p, service, name);
      assert Backed(s', path, p, service, name);
    }
  }

  /** As long as no session closes, old nodes stay backed. */
  lemma OldNodeOk(s: System, s': System, path: Path)
    requires Inv(s) && path in s.tree && path in s'.tree && s'.tree[path] == s.tree[path] && s.open <= s'.open
    requires forall p :: p in s.publishers ==> p in s'.publishers && SamePublisher(s.publishers[p], s'.publishers[p])
    ensures NodeOk(s', path)
  {
    hide PublisherOk;
    assert NodeOk(s, path);
    if s.tree[path].owner.Some? {
      var q, service, name :| Backed(s, path, q, service, name);
    }
    NodeStaysOk(s, s', path);
  }

  predicate SamePublisher(p: Publisher, q: Publisher)
  {
    p.services == q.services && p.host == q.host && p.session == q.session
  }

  lemma PublisherStaysOk(s: System, s': System, p: Publisher)
    requires PublisherOk(s, p) && s.everOpened <= s'.everOpened
    requires p.session in s'.open ==> p.session in s.open
    requires forall service :: SlashFree(service) && ServicePath(service) in s.tree ==> ServicePath(service) in s'.tree
    ensures PublisherOk(s', p)
  {
    forall i | 0 <= i < |p.todo|
      ensures TaskOk(s', p, i)
    {
      assert TaskOk(s, p, i) && SlashFree(p.todo[i].service);
    }
  }

  /** Finishing a task leaves the rest in order, as long as a finished service task left its node behind. */
  lemma DoneIsOk(s: System, s': System, p: Publisher)
    requires PublisherOk(s, p) && p.todo != [] && s.everOpened <= s'.everOpened
    requires p.session in s'.open ==> p.session in s.open && PathOf(p.todo[0]) in s'.tree
    requires forall service :: SlashFree(service) && ServicePath(service) in s.tree ==> ServicePath(service) in s'.tree
    ensures PublisherOk(s', Done(p))
  {
    var q := Done(p);
    forall i | 0 <= i < |q.todo|
      ensures TaskOk(s', q, i)
    {
      assert q.todo[i] == p.todo[i + 1];
      assert TaskOk(s, p, i + 1) && SlashFree(p.todo[i + 1].service);
      if q.todo[i].MethodTask? && q.session in s'.open && ServicePath(q.todo[i].service) !in s'.tree {
        var j :| 0 <= j < i + 1 && p.todo[j] == ServiceTask(q.todo[i].service);
        assert j > 0;
        assert q.todo[j - 1] == p.todo[j];
      }
    }
  }

  lemma CreatingIsOk(s: System, s': System, p: Publisher)
    requires PublisherOk(s, p) && p.todo != []
    requires s'.tree == s.tree && s'.open == s.open && s'.everOpened == s.everOpened
    ensures PublisherOk(s', p.(creating := true))
  {
    forall i | 0 <= i < |p.todo|
      ensures TaskOk(s', p.(creating := true), i)
    {
      assert TaskOk(s, p, i);
    }
  }

  lemma StartKeeps(s: System, p: nat, services: Services, host: seq<Byte>, session: Session, walk: Walk)
    requires Inv(s) && Do(s, Start(p, services, host, session, walk)).Some?
    ensures Inv(Do(s, Start(p, services, host, session, walk)).value)
  {
    var s' := Do(s, Start(p, services, host, session, walk)).value;
    var me := s'.publishers[p];
    forall i | 0 <= i < |me.todo|
      ensures TaskOk(s', me, i)
    {
      TasksShape(walk.services, walk.methods, i);
    }
    assert PublisherOk(s', me);
    forall q | q in s'.publishers
      ensures PublisherOk(s', s'.publishers[q])
    {
      if q != p {
        PublisherStaysOk(s, s', s.publishers[q]);
      }
    }
    forall path | path in s'.tree
      ensures NodeOk(s', path)
    {
      OldNodeOk(s, s', path);
    }
  }

  lemma ExistsKeeps(s: System, p: nat)
    requires Inv(s) && Do(s, Exists(p)).Some?
    ensures Inv(Do(s, Exists(p)).value)
  {
    hide NodeOk, PublisherOk;
    var s', me := Do(s, Exists(p)).value, s.publishers[p];
    if s'.publishers[p].creating {
      CreatingIsOk(s, s', me);
    } else {
      DoneIsOk(s, s', me);
    }
    forall q | q in s'.publishers
      ensures PublisherOk(s', s'.publishers[q])
    {
      if q != p {
        PublisherStaysOk(s, s', s.publishers[q]);
      }
    }
    forall path | path in s'.tree
      ensures NodeOk(s', path)
    {
      OldNodeOk(s, s', path);
    }
  }

  lemma CreateKeeps(s: System, p: nat)
    requires Inv(s) && Do(s, Create(p)).Some?
    ensures Inv(Do(s, Create(p)).value)
  {
    var s', me := Do(s, Create(p)).value, s.publishers[p];
    hide PublisherOk, NodeOk;
    if me.session in s.open {
      ParentExists(s, p);
    }
    DoneIsOk(s, s', me);
    forall q | q in s'.publishers
      ensures PublisherOk(s', s'.publishers[q])
    {
      if q != p {
        PublisherStaysOk(s, s', s.publishers[q]);
      }
    }
    forall path | path in s'.tree
      ensures NodeOk(s', path)
    {
      if path in s.tree {
        OldNodeOk(s, s', path);
      } else {
        NewNodeOk(s, p, path);
      }
    }
  }

  lemma NewNodeOk(s: System, p: nat, path: Path)
    requires Inv(s) && Do(s, Create(p)).Some? && path !in s.tree && path in Do(s, Create(p)).value.tree
    ensures NodeOk(Do(s, Create(p)).value, path)
  {
    var s', me := Do(s, Create(p)).value, s.publishers[p];
    var task := me.todo[0];
    assert PublisherOk(s, me) && TaskOk(s, me, 0);
    hide Inv, PublisherOk;
    if task.ServiceTask? {
      assert path == ServicePath(task.service) && SlashFree(task.service);
    } else {
      assert Backed(s', path, p, task.service, task.name);
    }
  }

  /** zoo_create never fails for want of a parent node. */
  lemma ParentExists(s: System, p: nat)
    requires Inv(s) && p in s.publishers && s.publishers[p].todo != [] && s.publishers[p].session in s.open
    ensures s.publishers[p].todo[0].MethodTask? ==> ServicePath(s.publishers[p].todo[0].service) in s.tree
    ensures var me := s.publishers[p];
            ZooCreate(s.tree, me.todo[0], me).None? <==> PathOf(me.todo[0]) in s.tree
  {
    assert TaskOk(s, s.publishers[p], 0);
  }

  lemma CloseKeeps(s: System, session: Session)
    requires Inv(s) && Do(s, Close(session)).Some?
    ensures Inv(Do(s, Close(session)).value)
  {
    var s' := Do(s, Close(session)).value;
    forall service | SlashFree(service) && ServicePath(service) in s.tree
      ensures ServicePath(service) in s'.tree
    {
      if s.tree[ServicePath(service)].owner.Some? {
        var q, svc, name :| Backed(s, ServicePath(service), q, svc, name);
        PathsAreDistinct(svc, name, service, []);
      }
    }
    forall q | q in s'.publishers
      ensures PublisherOk(s', s'.publishers[q])
    {
      PublisherStaysOk(s, s', s.publishers[q]);
    }
    forall path | path in s'.tree
      ensures NodeOk(s', path)
    {
      if s.tree[path].owner.Some? {
        var q, service, name :| Backed(s, path, q, service, name);
      }
      NodeStaysOk(s, s', path);
    }
  }

  lemma ClientKeeps(s: System, step: Step)
    requires Inv(s) && (step.LookUp? || step.Get?) && Do(s, step).Some?
    ensures Inv(Do(s, step).value)
  {
    var s' := Do(s, step).value;
    forall q | q in s'.publishers
      ensures PublisherOk(s', s'.publishers[q])
    {
      PublisherStaysOk(s, s', s.publishers[q]);
    }
    forall path | path in s'.tree
      ensures NodeOk(s', path)
    {
      OldNodeOk(s, s', path);
    }
  }

  lemma InvStep(s: System, step: Step)
    requires Inv(s) && Do(s, step).Some?
    ensures Inv(Do(s, step).value)
  {
    hide Inv, Do;
    match step
    case Start(p, services, host, session, walk) => StartKeeps(s, p, services, host, session, walk);
    case Exists(p) => ExistsKeeps(s, p);
    case Create(p) => CreateKeeps(s, p);
    case Close(session) => CloseKeeps(s, session);
    case LookUp(_, _, _) => ClientKeeps(s, step);
    case Get(_) => ClientKeeps(s, step);
  }

  lemma {:induction false} RunKeeps(s: System, steps: seq<Step>)
    requires Inv(s) && Run(s, steps).Some?
    ensures Inv(Run(s, steps).value)
    decreases steps
  {
    hide Inv, Do;
    if steps != [] {
      InvStep(s, steps[0]);
      RunKeeps(Do(s, steps[0]).value, steps[1..]);
    }
  }

  // ---------- what every run keeps ----------

  lemma EmptyInv()
    ensures Inv(Empty())
  {
  }

  /** In every reachable state, the host stored for S.M was published by a provider that serves S.M, under the
      session that provider still has open. */
  lemma PublishedHostsAreLive(steps: seq<Step>, service: seq<Byte>, name: seq<Byte>)
    requires Run(Empty(), steps).Some? && SlashFree(service) && SlashFree(name)
    requires MethodPath(service, name) in Run(Empty(), steps).value.tree
    ensures var s := Run(Empty(), steps).value;
            exists p :: Backed(s, MethodPath(service, name), p, service, name)
  {
    EmptyInv();
    RunKeeps(Empty(), steps);
    var s, path := Run(Empty(), steps).value, MethodPath(service, name);
    assert NodeOk(s, path);
    if s.tree[path].owner.None? {
      var other :| path == ServicePath(other) && SlashFree(other);
      PathsAreDistinct(service, name, other, []);
    } else {
      var p, service', name' :| Backed(s, path, p, service', name');
      PathsAreDistinct(service, name, service', name');
      assert Backed(s, path, p, service, name);
    }
  }

  /** An entry as it was, or its publisher's session gone for good. */
  ghost predicate Unmoved(s: System, path: Path, node: Node)
  {
    && node.owner.Some? && node.owner.value in s.everOpened
    && (node.owner.value in s.open ==> path in s.tree && s.tree[path] == node)
  }

  lemma UnmovedStep(s: System, step: Step, path: Path, node: Node)
    requires Unmoved(s, path, node) && Do(s, step).Some?
    ensures Unmoved(Do(s, step).value, path, node)
  {
  }

  lemma {:induction false} UnmovedRun(s: System, steps: seq<Step>, path: Path, node: Node)
    requires Unmoved(s, path, node) && Run(s, steps).Some?
    ensures Unmoved(Run(s, steps).value, path, node)
    decreases steps
  {
    hide Do, Unmoved;
    if steps != [] {
      UnmovedStep(s, steps[0], path, node);
      UnmovedRun(Do(s, steps[0]).value, steps[1..], path, node);
    }
  }

  /** Once a method is registered, no interleaving of other providers' check-then-create changes or removes
      its entry before the session that wrote it closes. */
  lemma EntriesAreStable(before: seq<Step>, after: seq<Step>, service: seq<Byte>, name: seq<Byte>)
    requires SlashFree(service) && SlashFree(name)
    requires Run(Empty(), before).Some? && MethodPath(service, name) in Run(Empty(), before).value.tree
    requires Run(Run(Empty(), before).value, after).Some?
    ensures var s, path := Run(Empty(), before).value, MethodPath(service, name);
            var s' := Run(s, after).value;
            && s.tree[path].owner.Some?
            && (s.tree[path].owner.value in s'.open ==> path in s'.tree && s'.tree[path] == s.tree[path])
  {
    PublishedHostsAreLive(before, service, name);
    EmptyInv();
    RunKeeps(Empty(), before);
    var s, path := Run(Empty(), before).value, MethodPath(service, name);
    UnmovedRun(s, after, path, s.tree[path]);
  }

  /** Whichever provider wins the race, when a provider with an open session is done with a createNode call
      the node is there. */
  lemma FinishedTaskHasNode(steps: seq<Step>, step: Step, p: nat)
    requires Run(Empty(), steps).Some? && Do(Run(Empty(), steps).value, step).Some?
    requires step == Exists(p) || step == Create(p)
    ensures var s := Run(Empty(), steps).value;
            var s', me := Do(s, step).value, s.publishers[p];
            me.session in s.open && s'.publishers[p] == Done(me) ==> PathOf(me.todo[0]) in s'.tree
  {
    EmptyInv();
    RunKeeps(Empty(), steps);
    var s := Run(Empty(), steps).value;
    if step.Create? && s.publishers[p].session in s.open {
      ParentExists(s, p);
    }
  }

  // ---------- what a lookup returns ----------

  lemma {:induction false} UpToNulIsPrefix(data: seq<Byte>)
    ensures UpToNul(data) <= data && 0 !in UpToNul(data)
    ensures UpToNul(data) == data <==> 0 !in data
  {
    if data != [] && data[0] != 0 {
      UpToNulIsPrefix(data[1..]);
      assert data == [data[0]] + data[1..];
    }
  }

  /** A host that fits the buffer is read back unchanged exactly when it has no NUL. */
  lemma HostSurvives(host: seq<Byte>)
    requires |host| < 128
    ensures ReadBack(host) == host <==> 0 !in host
  {
    UpToNulIsPrefix(host);
  }
}
