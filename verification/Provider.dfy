/** Provide: the table of published services, and the receive loop that dispatches into it. */
module Provider {
  import opened Bytes
  import opened Buffers
  import opened RpcHeader
  import opened Framing

  /** _servicesMap: service names and the names of their methods. */
  type Services = map<seq<Byte>, set<seq<Byte>>>

  datatype Handled =
    | NoService(service: seq<Byte>)
    | NoMethod(service: seq<Byte>, name: seq<Byte>)
    | Invoked(service: seq<Byte>, name: seq<Byte>, args: seq<Byte>)

  /** handleRpcRequest up to parsing the arguments. */
  function Handle(services: Services, d: Dispatch): Handled
  {
    if d.head.service !in services then NoService(d.head.service)
    else if d.head.name !in services[d.head.service] then NoMethod(d.head.service, d.head.name)
    else Invoked(d.head.service, d.head.name, d.args)
  }

  function HandleAll(services: Services, ds: seq<Dispatch>): (r: seq<Handled>)
    ensures |r| == |ds|
  {
    seq(|ds|, i requires 0 <= i < |ds| => Handle(services, ds[i]))
  }

  class Provide {
    var services: Services
    ghost var handled: seq<Handled>

    constructor ()
      ensures services == map[] && handled == []
    {
      services, handled := map[], [];
    }

    /** A service published twice keeps its first entry: both maps are filled with insert. */
    method NotifyService(name: seq<Byte>, methods: seq<seq<Byte>>)
      modifies this`services
      ensures services == if name in old(services) then old(services) else old(services)[name := (set m | m in methods)]
    {
      var names: set<seq<Byte>> := {};
      for i := 0 to |methods|
        invariant names == set m | m in methods[..i]
      {
        names := names + {methods[i]};
      }
      assert methods[..|methods|] == methods;
      if name !in services {
        services := services[name := names];
      }
    }

    method OnMessage(buffer: Buffer) returns (end: End)
      requires buffer.Valid()
      modifies this`handled, buffer`readerIndex, buffer`writerIndex
      ensures buffer.Valid() && buffer.Contents() == []
      ensures var delivery := Deliver(old(buffer.Contents()));
              end == delivery.end && handled == old(handled) + HandleAll(services, delivery.dispatched)
    {
      hide Deliver, HandleAll;
      var data := buffer.RetrieveAllAsString();
      end := ServeData(data);
    }

    /** The loop of onMessage over everything that had arrived. `seen` is not part of the code: where an offset
        comes back the code runs for ever, and the outcome Forever stands for that. */
    method ServeData(data: seq<Byte>) returns (end: End)
      modifies this`handled
      ensures var delivery := Deliver(data);
              end == delivery.end && handled == old(handled) + HandleAll(services, delivery.dispatched)
    {
      ghost var goal := Deliver(data);
      assert goal == DeliverFrom(data, 0, {});
      hide TurnAt, HandleAll, Handle, DeliverFrom, Deliver;
      var len: nat := 0;
      var seen: set<nat> := {};
      while len < |data|
        invariant goal.end == DeliverFrom(data, len, seen).end
        invariant handled + HandleAll(services, DeliverFrom(data, len, seen).dispatched)
                  == old(handled) + HandleAll(services, goal.dispatched)
        decreases Below(|data|) - seen
      {
        DeliverTurn(data, len, seen);
        HandleNone(services, handled);
        if len in seen {
          return Forever;
        }
        var turn := TurnAt(data, len);
        if turn.BadHeader? {
          return Malformed;
        } else if turn.OutOfRange? {
          return Threw;
        }
        var d := Dispatch(turn.head, turn.args);
        HandleOneMore(services, handled, d, DeliverFrom(data, turn.next, seen + {len}).dispatched);
        handled := handled + [Handle(services, d)];
        assert len in Below(|data|);
        seen := seen + {len};
        len := turn.next;
      }
      DeliverTurn(data, len, seen);
      HandleNone(services, handled);
      end := Drained;
    }
  }

  lemma HandleNone(services: Services, before: seq<Handled>)
    ensures before + HandleAll(services, []) == before
  {
  }

  lemma HandleOneMore(services: Services, before: seq<Handled>, d: Dispatch, rest: seq<Dispatch>)
    ensures before + HandleAll(services, [d] + rest) == before + [Handle(services, d)] + HandleAll(services, rest)
  {
    assert HandleAll(services, [d] + rest) == [Handle(services, d)] + HandleAll(services, rest);
  }

  /** Frames sent by CallMethod, received in one delivery: each is looked up under the names it was sent with. */
  method ServeFrames(p: Provide, buffer: Buffer, calls: seq<Call>)
    requires buffer.Valid() && buffer.Contents() == FramesOf(calls)
    requires AllSendable(calls) && |FramesOf(calls)| < 0x1_0000_0000 && UpToBadName(calls) == calls
    modifies p`handled, buffer`readerIndex, buffer`writerIndex
    ensures |p.handled| == |old(p.handled)| + |calls|
    ensures forall i :: 0 <= i < |calls| ==>
              p.handled[|old(p.handled)| + i] == Handle(p.services, DispatchOf(calls[i]))
  {
    hide Deliver, FramesOf, UpToBadName, AllSendable, Handle;
    FramesAreDispatched(calls);
    var end := p.OnMessage(buffer);
  }
}
