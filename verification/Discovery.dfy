/** What a client gets from the registry, and where the calls it makes with it arrive. */
module Discovery {
  import opened Wrappers
  import opened Bytes
  import opened Framing
  import opened Provider
  import opened Registry
  import opened Registration

  /** A successful zoo_get: the entry at that moment is that of an open provider serving the method, and the client
      holds the host that provider published, as far as the buffer keeps it. */
  lemma LookupIsCurrent(before: seq<Step>, c: nat, service: seq<Byte>, name: seq<Byte>) returns (p: nat)
    requires Run(Empty(), before).Some? && Do(Run(Empty(), before).value, Get(c)).Some?
    requires SlashFree(service) && SlashFree(name)
    requires var l := Do(Run(Empty(), before).value, Get(c)).value.lookups[c];
             l.Found? && l.path == MethodPath(service, name)
    ensures var s, path := Run(Empty(), before).value, MethodPath(service, name);
            && path in s.tree && Backed(s, path, p, service, name)
            && Do(s, Get(c)).value.lookups[c].host == ReadBack(s.publishers[p].host)
  {
    PublishedHostsAreLive(before, service, name);
    var s := Run(Empty(), before).value;
    p :| Backed(s, MethodPath(service, name), p, service, name);
  }

  /** A step that is not of client c. */
  predicate NotOf(step: Step, c: nat)
  {
    (step.LookUp? || step.Get?) ==> step.c != c
  }

  lemma {:induction false} LookupWaits(s: System, steps: seq<Step>, c: nat)
    requires c in s.lookups && Run(s, steps).Some? && forall i :: 0 <= i < |steps| ==> NotOf(steps[i], c)
    ensures c in Run(s, steps).value.lookups && Run(s, steps).value.lookups[c] == s.lookups[c]
    decreases steps
  {
    if steps != [] {
      assert NotOf(steps[0], c);
      LookupWaits(Do(s, steps[0]).value, steps[1..], c);
    }
  }

  /** What getNodeData comes to, whatever others do between its two requests: it goes on to zoo_get exactly when
      zoo_exists finds the path, and gets what is stored there at the second moment, or nothing. */
  lemma LookupGetsWhatIsThere(s: System, c: nat, service: seq<Byte>, name: seq<Byte>, between: seq<Step>)
    requires Run(Do(s, LookUp(c, service, name)).value, between).Some?
    requires forall i :: 0 <= i < |between| ==> NotOf(between[i], c)
    ensures var path, s2 := MethodPath(service, name), Run(Do(s, LookUp(c, service, name)).value, between).value;
            && (path in s.tree <==> Do(s2, Get(c)).Some?)
            && (path in s.tree ==>
                  Do(s2, Get(c)).value.lookups[c] ==
                  if path in s2.tree && ReadBack(s2.tree[path].data) != []
                  then Found(path, ReadBack(s2.tree[path].data)) else Missing)
  {
    AfterExists(s, c, service, name);
    var s1 := Do(s, LookUp(c, service, name)).value;
    LookupWaits(s1, between, c);
    AfterGet(Run(s1, between).value, c);
    hide *;
  }

  lemma AfterExists(s: System, c: nat, service: seq<Byte>, name: seq<Byte>)
    ensures var path, s1 := MethodPath(service, name), Do(s, LookUp(c, service, name));
            && s1.Some? && c in s1.value.lookups
            && s1.value.lookups[c] == if path in s.tree then Looking(path) else Missing
  {
    hide MethodPath;
  }

  lemma AfterGet(s: System, c: nat)
    requires c in s.lookups
    ensures Do(s, Get(c)).Some? <==> s.lookups[c].Looking?
    ensures s.lookups[c].Looking? ==>
              var path := s.lookups[c].path;
              Do(s, Get(c)).value.lookups[c] ==
              if path in s.tree && ReadBack(s.tree[path].data) != []
              then Found(path, ReadBack(s.tree[path].data)) else Missing
  {
    hide ReadBack;
  }

  lemma {:induction false} PublishersStay(s: System, steps: seq<Step>, p: nat)
    requires p in s.publishers && Run(s, steps).Some?
    ensures p in Run(s, steps).value.publishers && SamePublisher(s.publishers[p], Run(s, steps).value.publishers[p])
    decreases steps
  {
    hide Do;
    if steps != [] {
      TodoShrinks(s, steps[0], p);
      PublishersStay(Do(s, steps[0]).value, steps[1..], p);
    }
  }

  /** An open provider whose host is the one the client holds. */
  ghost predicate ListensAt(s: System, q: nat, host: seq<Byte>)
  {
    q in s.publishers && s.publishers[q].session in s.open && ReadBack(s.publishers[q].host) == host
  }

  /** No two providers with open sessions have published the same host. */
  ghost predicate DistinctHosts(s: System)
  {
    forall p, q, host :: ListensAt(s, p, host) && ListensAt(s, q, host) ==> p == q
  }

  /** What a provider does with one framed call: the method is invoked with the arguments sent, exactly when the
      provider serves it; otherwise it is refused under the names it was sent with. */
  lemma HandledIffServed(p: Publisher, call: Call)
    requires Utf8Names(call) && Sendable(call) && |FrameOf(call)| < 0x1_0000_0000
    ensures Serves(p, call.service, call.name) <==>
            HandleAll(p.services, Deliver(FrameOf(call)).dispatched) == [Invoked(call.service, call.name, call.args)]
    ensures call.service !in p.services <==>
            HandleAll(p.services, Deliver(FrameOf(call)).dispatched) == [NoService(call.service)]
    ensures call.service in p.services && call.name !in p.services[call.service] <==>
            HandleAll(p.services, Deliver(FrameOf(call)).dispatched) == [NoMethod(call.service, call.name)]
  {
    hide Deliver, Sendable, FrameOf, Utf8Names;
    OneFrameIsOneDispatch(call);
    assert HandleAll(p.services, [DispatchOf(call)]) == [Handle(p.services, DispatchOf(call))];
  }

  /** A client that looks S.M up finds the entry of a provider whose session is open at that moment. However long it
      waits with its call, as long as that session stays open and no two open providers publish one host, the
      provider at the host the client holds is that one, and it resolves the framed call. */
  lemma CallsReachTheirMethod(before: seq<Step>, c: nat, after: seq<Step>, q: nat, call: Call)
    requires Run(Empty(), before).Some? && Do(Run(Empty(), before).value, Get(c)).Some?
    requires SlashFree(call.service) && SlashFree(call.name)
    requires Utf8Names(call) && Sendable(call) && |FrameOf(call)| < 0x1_0000_0000
    requires var s1 := Do(Run(Empty(), before).value, Get(c)).value;
             && s1.lookups[c].Found? && s1.lookups[c].path == MethodPath(call.service, call.name)
             && Run(s1, after).Some?
    ensures var s, path := Run(Empty(), before).value, MethodPath(call.service, call.name);
            var host := Do(s, Get(c)).value.lookups[c].host;
            var s2 := Run(Do(s, Get(c)).value, after).value;
            && path in s.tree && s.tree[path].owner.Some? && s.tree[path].owner.value in s.open
            && (s.tree[path].owner.value in s2.open && DistinctHosts(s2) && ListensAt(s2, q, host) ==>
                  && s2.publishers[q].session == s.tree[path].owner.value
                  && HandleAll(s2.publishers[q].services, Deliver(FrameOf(call)).dispatched)
                     == [Invoked(call.service, call.name, call.args)])
  {
    var p := LookupIsCurrent(before, c, call.service, call.name);
    var s := Run(Empty(), before).value;
    PublishersStay(Do(s, Get(c)).value, after, p);
    var s2 := Run(Do(s, Get(c)).value, after).value;
    hide Run, Deliver, Sendable, FrameOf, Utf8Names;
    var host := Do(s, Get(c)).value.lookups[c].host;
    assert s.publishers[p].session in s2.open ==> ListensAt(s2, p, host);
    if ListensAt(s2, q, host) {
      HandledIffServed(s2.publishers[q], call);
    }
  }

  // ---------- why both conditions are needed ----------

  /** After the race of two providers of S.M, a client holds the host of the winner, and the loser is gone. */
  function Held(host: seq<Byte>): System
    requires ReadBack(host) != []
  {
    Raced(host, []).(open := {0}, lookups := map[0 := Found(MethodPath(SERVICE, METHOD), ReadBack(host))])
  }

  lemma HeldIsReached(host: seq<Byte>)
    requires ReadBack(host) != []
    ensures Reachable(Held(host))
  {
    hide ReadBack, Reachable;
    var path, s0 := MethodPath(SERVICE, METHOD), Raced(host, []);
    RaceIsReached(host, []);
    var s1 := s0.(open := {0});
    assert s0.open - {1} == s1.open;
    assert forall p :: p in s0.tree ==> s0.tree[p].owner != Some(1);
    assert Do(s0, Close(1)).value.tree == s0.tree;
    Then(s0, Close(1), s1);
    var s2 := s1.(lookups := map[0 := Looking(path)]);
    assert s1.lookups[0 := Looking(path)] == s2.lookups;
    Then(s1, LookUp(0, SERVICE, METHOD), s2);
    assert s2.lookups[0 := Found(path, ReadBack(host))] == Held(host).lookups;
    Then(s2, Get(0), Held(host));
  }

  /** A provider without services, started at the host that the client holds. */
  function Newcomer(host: seq<Byte>): Step
  {
    Start(2, map[], host, 2, Walk([], map[]))
  }

  lemma NewcomerArrives(s: System, host: seq<Byte>, args: seq<Byte>) returns (s': System)
    requires ReadBack(host) != [] && Reachable(s) && 2 !in s.publishers && 2 !in s.everOpened
    ensures Reachable(s') && s'.tree == s.tree && s'.lookups == s.lookups && s'.open == s.open + {2}
    ensures s'.publishers == s.publishers[2 := Publisher(map[], host, 2, [], false)]
    ensures ListensAt(s', 2, ReadBack(host))
    ensures Handle(s'.publishers[2].services, DispatchOf(Call(SERVICE, METHOD, args))) == NoService(SERVICE)
  {
    hide ReadBack, Reachable;
    s' := Do(s, Newcomer(host)).value;
    Then(s, Newcomer(host), s');
  }

  /** When the session is closed: hosts are distinct, but the provider that listens at the host the client holds is
      another one, which does not know the service. */
  lemma ClosedSessionMisleads(host: seq<Byte>, args: seq<Byte>) returns (s: System)
    requires ReadBack(host) != []
    ensures Reachable(s) && 0 in s.lookups && s.lookups[0] == Found(MethodPath(SERVICE, METHOD), ReadBack(host))
    ensures DistinctHosts(s) && ListensAt(s, 2, ReadBack(host))
    ensures Handle(s.publishers[2].services, DispatchOf(Call(SERVICE, METHOD, args))) == NoService(SERVICE)
  {
    hide ReadBack, Reachable, Handle;
    HeldIsReached(host);
    var closed := Do(Held(host), Close(0)).value;
    Then(Held(host), Close(0), closed);
    hide Do, MethodPath, ServicePath;
    s := NewcomerArrives(closed, host, args);
    assert s.open == {2};
  }

  /** When two open providers share a host: the session is still open, and the same happens. */
  lemma SharedHostMisleads(host: seq<Byte>, args: seq<Byte>) returns (s: System)
    requires ReadBack(host) != []
    ensures Reachable(s) && 0 in s.lookups && s.lookups[0] == Found(MethodPath(SERVICE, METHOD), ReadBack(host))
    ensures MethodPath(SERVICE, METHOD) in s.tree && s.tree[MethodPath(SERVICE, METHOD)] == Node(host, Some(0))
    ensures 0 in s.open && ListensAt(s, 2, ReadBack(host))
    ensures Handle(s.publishers[2].services, DispatchOf(Call(SERVICE, METHOD, args))) == NoService(SERVICE)
  {
    hide ReadBack, Reachable, Handle, ListensAt;
    HeldIsReached(host);
    s := NewcomerArrives(Held(host), host, args);
  }
}
