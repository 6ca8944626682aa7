/** RPC framing: header_size(4) ++ RpcHeader ++ args, built by KitRpcChannel::CallMethod and taken apart by the
    loop of Provide::onMessage. Both ends store the size prefix as their little-endian memory image. */
module Framing {
  import opened Wrappers
  import opened Bytes
  import opened Utf8
  import opened Wire
  import opened RpcHeader

  datatype Call = Call(service: seq<Byte>, name: seq<Byte>, args: seq<Byte>)

  function HeaderBytes(c: Call): seq<Byte>
  {
    EncodeHeader(c.service, c.name, |c.args|)
  }

  /** Calls whose header and arguments protobuf agrees to serialize. */
  predicate Sendable(c: Call)
  {
    |HeaderBytes(c)| < MAX_LENGTH && |c.args| < MAX_LENGTH
  }

  function FrameOf(c: Call): seq<Byte>
  {
    ToLittle(|HeaderBytes(c)|, 4) + HeaderBytes(c) + c.args
  }

  function FramesOf(calls: seq<Call>): seq<Byte>
  {
    if calls == [] then [] else FrameOf(calls[0]) + FramesOf(calls[1..])
  }

  // ---------- the sending end ----------

  /** std::string::insert. */
  function Insert(s: seq<Byte>, pos: nat, bytes: seq<Byte>): seq<Byte>
    requires pos <= |s|
  {
    s[..pos] + bytes + s[pos..]
  }

  /** The part of CallMethod that builds the request: three inserts at a running 32-bit offset, of which the
      first `len` bytes are sent. Serializing the request or the header may fail. */
  method BuildRequest(service: seq<Byte>, name: seq<Byte>, args: Option<seq<Byte>>) returns (sent: Option<seq<Byte>>)
    requires args.Some? ==> |args.value| < MAX_LENGTH
    ensures sent.Some? <==> args.Some? && |EncodeHeader(service, name, |args.value|)| < MAX_LENGTH
    ensures sent.Some? ==>
              var frame := FrameOf(Call(service, name, args.value)); sent.value == frame[..|frame| % 0x1_0000_0000]
  {
    hide EncodeHeader, ToLittle;
    if args.None? { return None; }
    var argsSize := |args.value| % TWO_32;
    var head := EncodeHeader(service, name, argsSize);
    if |head| >= MAX_LENGTH { return None; }
    var headerSize := |head| % TWO_32;
    var data, len := [], 0;
    data := Insert(data, len, ToLittle(headerSize, 4));
    len := (len + 4) % TWO_32;
    data := Insert(data, len, head);
    len := (len + headerSize) % TWO_32;
    data := Insert(data, len, args.value);
    assert data == FrameOf(Call(service, name, args.value));
    len := (len + argsSize) % TWO_32;
    return Some(data[..len]);
  }

  /** The call S.M with the argument 9: the length of the header in four bytes, least significant first, the header,
      and the arguments. */
  lemma CallOnTheWire()
    ensures FrameOf(Call([83], [77], [9])) == [8, 0, 0, 0, 10, 1, 83, 18, 1, 77, 24, 1, 9]
  {
    EightInFourBytes();
    hide EncodeHeader, ToLittle;
    ShortHeader(83, 77, 1);
  }

  lemma EightInFourBytes()
    ensures ToLittle(8, 4) == [8, 0, 0, 0]
  {
    assert ToLittle(0, 1) == [0] && ToLittle(0, 2) == [0, 0] && ToLittle(0, 3) == [0, 0, 0];
  }

  // ---------- the receiving end ----------

  /** What one turn of the onMessage loop comes to. */
  datatype Turn =
    | Request(head: Header, args: seq<Byte>, next: nat)   // dispatch, go on at offset `next`
    | BadHeader                                           // ParseFromString failed: return
    | OutOfRange                                          // data.copy beyond the end: std::out_of_range

  /** `n` zero bytes with whatever data.copy(dst, n, pos) finds copied over the front of them. */
  function Padded(data: seq<Byte>, n: nat, pos: nat): (r: seq<Byte>)
    requires pos <= |data|
    ensures |r| == n
  {
    if pos + n <= |data| then data[pos..pos + n] else data[pos..] + seq(n - (|data| - pos), _ => 0)
  }

  function TurnAt(data: seq<Byte>, len: nat): (t: Turn)
    requires len < |data|
  {
    var headerSize := FromLittle(Padded(data, 4, len));
    var len1 := (len + 4) % TWO_32;
    if len1 > |data| then OutOfRange
    else
      var len2 := (len1 + headerSize) % TWO_32;
      match ParseHeader(Padded(data, headerSize, len1))
      case None => BadHeader
      case Some(head) =>
        if head.argsSize == 0 then Request(head, [], len2)
        else if len2 > |data| then OutOfRange
        else Request(head, Padded(data, head.argsSize, len2), (len2 + head.argsSize) % TWO_32)
  }

  /** How a call of onMessage ends. `Forever`: it does not, because the 32-bit offset came round to a place where
      the loop had been before. */
  datatype End = Drained | Malformed | Threw | Forever

  datatype Dispatch = Dispatch(head: Header, args: seq<Byte>)

  /** What is dispatched, for an endless loop up to the first repeated offset. */
  datatype Delivery = Delivery(dispatched: seq<Dispatch>, end: End)

  function Deliver(data: seq<Byte>): Delivery
  {
    DeliverFrom(data, 0, {})
  }

  function Below(n: nat): (s: set<nat>)
    ensures forall i: nat :: i in s <==> i < n
  {
    if n == 0 then {} else Below(n - 1) + {n - 1}
  }

  /** The loop from offset `len` on; turns have already begun at the offsets in `seen`. */
  function DeliverFrom(data: seq<Byte>, len: nat, seen: set<nat>): Delivery
    decreases Below(|data|) - seen
  {
    if len >= |data| then Delivery([], Drained)
    else if len in seen then Delivery([], Forever)
    else
      match TurnAt(data, len)
      case BadHeader => Delivery([], Malformed)
      case OutOfRange => Delivery([], Threw)
      case Request(head, args, next) =>
        assert len in Below(|data|);
        var rest := DeliverFrom(data, next, seen + {len});
        rest.(dispatched := [Dispatch(head, args)] + rest.dispatched)
  }

  lemma DeliverTurn(data: seq<Byte>, len: nat, seen: set<nat>)
    ensures len >= |data| ==> DeliverFrom(data, len, seen) == Delivery([], Drained)
    ensures len < |data| && len in seen ==> DeliverFrom(data, len, seen) == Delivery([], Forever)
    ensures len < |data| && len !in seen ==>
            var r, turn := DeliverFrom(data, len, seen), TurnAt(data, len);
            && (turn.BadHeader? ==> r == Delivery([], Malformed))
            && (turn.OutOfRange? ==> r == Delivery([], Threw))
            && (turn.Request? ==>
                  var rest := DeliverFrom(data, turn.next, seen + {len});
                  r == Delivery([Dispatch(turn.head, turn.args)] + rest.dispatched, rest.end))
  {
    hide TurnAt;
  }

  // ---------- whether the loop ends ----------

  /** The offset after `n` turns, as long as the loop is still running. */
  function OffsetAfter(data: seq<Byte>, n: nat): Option<nat>
  {
    if n == 0 then Some(0)
    else
      match OffsetAfter(data, n - 1)
      case None => None
      case Some(len) =>
        if len < |data| && TurnAt(data, len).Request? then Some(TurnAt(data, len).next) else None
  }

  ghost predicate Revisit(data: seq<Byte>, i: nat, j: nat)
  {
    i < j && OffsetAfter(data, i).Some? && OffsetAfter(data, i) == OffsetAfter(data, j)
  }

  lemma {:induction false} StillRunning(data: seq<Byte>, n: nat, m: nat)
    ensures n <= m && OffsetAfter(data, m).Some? ==> OffsetAfter(data, n).Some?
  {
    hide TurnAt;
    if n < m {
      StillRunning(data, n, m - 1);
    }
  }

  /** The loop keeps no other state than its offset. */
  lemma {:induction false} Periodic(data: seq<Byte>, i: nat, j: nat, n: nat)
    ensures Revisit(data, i, j) ==> OffsetAfter(data, i + n) == OffsetAfter(data, j + n)
  {
    hide TurnAt;
    if n > 0 {
      Periodic(data, i, j, n - 1);
    }
  }

  lemma {:induction false} NeverEnds(data: seq<Byte>, i: nat, j: nat, n: nat)
    ensures Revisit(data, i, j) ==> OffsetAfter(data, n).Some?
    decreases n
  {
    hide TurnAt;
    if n <= j {
      StillRunning(data, n, j);
    } else if i < j {
      Periodic(data, i, j, n - j);
      NeverEnds(data, i, j, n - (j - i));
    }
  }

  ghost predicate Visited(data: seq<Byte>, k: nat, x: nat)
  {
    exists i: nat :: i < k && OffsetAfter(data, i) == Some(x)
  }

  lemma {:induction false} FollowLoop(data: seq<Byte>, k: nat, len: nat, seen: set<nat>)
    ensures var d := DeliverFrom(data, len, seen);
            OffsetAfter(data, k) == Some(len) && (forall x :: x in seen ==> Visited(data, k, x)) ==>
              if d.end.Forever? then exists i, j :: Revisit(data, i, j)
              else OffsetAfter(data, k + |d.dispatched| + 1).None?
    decreases Below(|data|) - seen
  {
    hide TurnAt;
    if len < |data| && OffsetAfter(data, k) == Some(len) && forall x :: x in seen ==> Visited(data, k, x) {
      if len in seen {
        var i: nat :| i < k && OffsetAfter(data, i) == Some(len);
        assert Revisit(data, i, k);
      } else if TurnAt(data, len).Request? {
        assert len in Below(|data|);
        forall x | x in seen + {len}
          ensures Visited(data, k + 1, x)
        {
          if x == len {
            assert OffsetAfter(data, k) == Some(x);
          } else {
            assert Visited(data, k, x);
          }
        }
        FollowLoop(data, k + 1, TurnAt(data, len).next, seen + {len});
      }
    }
  }

  /** The call never returns exactly when the loop is running after any number of turns, and that is exactly when
      it comes to the same offset twice. */
  lemma LoopsForeverIff(data: seq<Byte>)
    ensures Deliver(data).end == Forever <==> forall n: nat :: OffsetAfter(data, n).Some?
    ensures Deliver(data).end == Forever <==> exists i, j :: Revisit(data, i, j)
  {
    hide DeliverFrom, OffsetAfter, Revisit;
    assert OffsetAfter(data, 0) == Some(0) by { FirstOffset(data); }
    FollowLoop(data, 0, 0, {});
    if i, j :| Revisit(data, i, j) {
      forall n: nat
        ensures OffsetAfter(data, n).Some?
      {
        NeverEnds(data, i, j, n);
      }
    }
  }

  lemma FirstOffset(data: seq<Byte>)
    ensures OffsetAfter(data, 0) == Some(0)
  {
  }

  /** The sizes claimed by the frame at `len` reach past the 32-bit offsets. */
  predicate HugeClaim(data: seq<Byte>, len: nat)
  {
    && len < |data| && TurnAt(data, len).Request?
    && len + 4 + FromLittle(Padded(data, 4, len)) + |TurnAt(data, len).args| >= TWO_32
  }

  lemma WrapNeedsHugeClaim(data: seq<Byte>, len: nat)
    requires len < |data| < TWO_32 && TurnAt(data, len).Request? && TurnAt(data, len).next <= len
    ensures HugeClaim(data, len)
  {
    hide ParseHeader, FromLittle;
  }

  lemma {:induction false} OffsetsGrow(data: seq<Byte>, n: nat)
    requires |data| < TWO_32 && forall len :: !HugeClaim(data, len)
    ensures OffsetAfter(data, n).Some? ==> OffsetAfter(data, n).value >= n
  {
    hide TurnAt, HugeClaim;
    if n > 0 && OffsetAfter(data, n).Some? {
      OffsetsGrow(data, n - 1);
      var len := OffsetAfter(data, n - 1).value;
      if TurnAt(data, len).next <= len {
        WrapNeedsHugeClaim(data, len);
      }
    }
  }

  /** Data without a frame whose claimed sizes reach 4 GiB is always finished. */
  lemma EndlessNeedsHugeClaim(data: seq<Byte>)
    requires |data| < TWO_32 && Deliver(data).end == Forever
    ensures exists len :: HugeClaim(data, len)
  {
    hide Deliver, TurnAt, HugeClaim;
    LoopsForeverIff(data);
    if forall len :: !HugeClaim(data, len) {
      assert OffsetAfter(data, |data| + 1).Some?;
      OffsetsGrow(data, |data|);
      assert false;
    }
  }

  /** Ten bytes that keep onMessage busy for ever: an empty request claiming 2^32 - 10 bytes of arguments. */
  lemma EndlessInput()
    ensures var data := ToLittle(6, 4) + EncodeHeader([], [], 0xFFFF_FFF6);
            |data| == 10 && TurnAt(data, 0).Request? && TurnAt(data, 0).next == 0 && Deliver(data).end == Forever
  {
    hide ValidUtf8, EncodeHeader, ParseHeader, ToLittle, FromLittle, Range, Deliver;
    var n: nat := 0xFFFF_FFF6;
    var prefix, head := ToLittle(6, 4), EncodeHeader([], [], n);
    var data := prefix + head;
    SizeOnlyHeader(n);
    HeaderRoundTrip([], [], n);
    EmptyIsValid();
    Range4();
    LittleRoundTrip(6, 4);
    assert Padded(data, 4, 0) == prefix && Padded(data, 6, 4) == head;
    assert TurnAt(data, 0).Request? && TurnAt(data, 0).next == 0;
    hide TurnAt, Padded;
    assert OffsetAfter(data, 0) == Some(0);
    assert OffsetAfter(data, 1) == Some(0);
    assert Revisit(data, 0, 1);
    LoopsForeverIff(data);
  }

  // ---------- what a frame decodes to ----------

  predicate Utf8Names(c: Call)
  {
    ValidUtf8(c.service) && ValidUtf8(c.name)
  }

  function DispatchOf(c: Call): Dispatch
  {
    Dispatch(Header(c.service, c.name, |c.args|, []), c.args)
  }

  lemma Range4()
    ensures Range(4) == TWO_32
  {
    assert Range(1) == 256;
    assert Range(2) == 0x1_0000;
    assert Range(3) == 0x100_0000;
  }

  lemma TurnOnFrame(before: seq<Byte>, c: Call, after: seq<Byte>)
    requires Sendable(c) && |before + FrameOf(c) + after| < TWO_32
    ensures TurnAt(before + FrameOf(c) + after, |before|) ==
            if Utf8Names(c) then Request(DispatchOf(c).head, c.args, |before + FrameOf(c)|) else BadHeader
  {
    hide ValidUtf8, EncodeHeader, ParseHeader, ToLittle, FromLittle, Range;
    var p, prefix, head := |before|, ToLittle(|HeaderBytes(c)|, 4), HeaderBytes(c);
    Range4();
    LittleRoundTrip(|head|, 4);
    HeaderRoundTrip(c.service, c.name, |c.args|);
    var data := before + FrameOf(c) + after;
    FrameParts(before, prefix, head, c.args, after);
    TurnFromParts(data, p, head, c.args);
  }

  lemma TurnFromParts(data: seq<Byte>, p: nat, head: seq<Byte>, args: seq<Byte>)
    requires p + 4 + |head| + |args| <= |data| < TWO_32
    requires FromLittle(data[p..p + 4]) == |head| && data[p + 4..p + 4 + |head|] == head
    requires data[p + 4 + |head|..p + 4 + |head| + |args|] == args
    requires ParseHeader(head).Some? ==> ParseHeader(head).value.argsSize == |args|
    ensures TurnAt(data, p) ==
            if ParseHeader(head).None? then BadHeader
            else Request(ParseHeader(head).value, args, p + 4 + |head| + |args|)
  {
    hide ParseHeader, FromLittle, TurnAt;
    TurnFromPadded(data, p, head, args);
  }

  lemma TurnFromPadded(data: seq<Byte>, p: nat, head: seq<Byte>, args: seq<Byte>)
    requires p + 4 + |head| <= |data| && p + 4 + |head| + |args| < TWO_32
    requires FromLittle(Padded(data, 4, p)) == |head| && Padded(data, |head|, p + 4) == head
    requires Padded(data, |args|, p + 4 + |head|) == args
    requires ParseHeader(head).Some? ==> ParseHeader(head).value.argsSize == |args|
    ensures TurnAt(data, p) ==
            if ParseHeader(head).None? then BadHeader
            else Request(ParseHeader(head).value, args, p + 4 + |head| + |args|)
  {
    hide ParseHeader, FromLittle, Padded;
  }

  lemma FrameParts(before: seq<Byte>, prefix: seq<Byte>, head: seq<Byte>, args: seq<Byte>, after: seq<Byte>)
    ensures var data, p := before + (prefix + head + args) + after, |before|;
            && data[p..p + |prefix|] == prefix
            && data[p + |prefix|..p + |prefix| + |head|] == head
            && data[p + |prefix| + |head|..p + |prefix| + |head| + |args|] == args
  {
  }

  /** The calls before the first one with a name that is not UTF-8. */
  function UpToBadName(calls: seq<Call>): seq<Call>
  {
    if calls == [] || !Utf8Names(calls[0]) then [] else [calls[0]] + UpToBadName(calls[1..])
  }

  function DispatchesOf(calls: seq<Call>): seq<Dispatch>
  {
    seq(|calls|, i requires 0 <= i < |calls| => DispatchOf(calls[i]))
  }

  predicate AllSendable(calls: seq<Call>)
  {
    forall i :: 0 <= i < |calls| ==> Sendable(calls[i])
  }

  lemma FrameIsNotEmpty(c: Call)
    ensures |FrameOf(c)| > 0
  {
  }

  lemma {:induction false} DeliverFrames(before: seq<Byte>, calls: seq<Call>, seen: set<nat>)
    requires AllSendable(calls) && |before + FramesOf(calls)| < TWO_32 && forall x :: x in seen ==> x < |before|
    ensures DeliverFrom(before + FramesOf(calls), |before|, seen) ==
            Delivery(DispatchesOf(UpToBadName(calls)), if UpToBadName(calls) == calls then Drained else Malformed)
    decreases calls
  {
    hide TurnAt, FrameOf, Utf8Names, Sendable;
    var data := before + FramesOf(calls);
    if calls == [] {
      assert data == before;
    } else {
      var c, rest := calls[0], FramesOf(calls[1..]);
      assert data == before + FrameOf(c) + rest;
      FrameIsNotEmpty(c);
      TurnOnFrame(before, c, rest);
      if Utf8Names(c) {
        DeliverFrames(before + FrameOf(c), calls[1..], seen + {|before|});
        assert calls == [c] + calls[1..];
        var tail := UpToBadName(calls[1..]);
        assert DispatchesOf([c] + tail) == [DispatchOf(c)] + DispatchesOf(tail);
      }
    }
  }

  /** onMessage on a concatenation of frames dispatches exactly the calls that were framed, in order and with
      their arguments, up to the first whose names are not UTF-8; it always comes to an end. */
  lemma FramesAreDispatched(calls: seq<Call>)
    requires AllSendable(calls) && |FramesOf(calls)| < TWO_32
    ensures Deliver(FramesOf(calls)) ==
            Delivery(DispatchesOf(UpToBadName(calls)), if UpToBadName(calls) == calls then Drained else Malformed)
  {
    DeliverFrames([], calls, {});
    assert [] + FramesOf(calls) == FramesOf(calls);
  }

  lemma {:induction false} AllNamesGood(calls: seq<Call>)
    requires forall c :: c in calls ==> Utf8Names(c)
    ensures UpToBadName(calls) == calls
  {
    if calls != [] {
      AllNamesGood(calls[1..]);
    }
  }

  lemma {:induction false} NeverDrained(data: seq<Byte>, len: nat, seen: set<nat>)
    requires |data| >= TWO_32 && len < TWO_32
    ensures DeliverFrom(data, len, seen).end != Drained
    decreases Below(|data|) - seen
  {
    if len !in seen && TurnAt(data, len).Request? {
      assert len in Below(|data|);
      NextIsShort(data, len);
      hide TurnAt;
      NeverDrained(data, TurnAt(data, len).next, seen + {len});
    }
  }

  lemma NextIsShort(data: seq<Byte>, len: nat)
    requires len < |data| && TurnAt(data, len).Request?
    ensures TurnAt(data, len).next < TWO_32
  {
    hide ParseHeader, FromLittle, Padded;
  }

  predicate AllUtf8(calls: seq<Call>)
  {
    forall i :: 0 <= i < |calls| ==> Utf8Names(calls[i])
  }

  /** A stream of calls with UTF-8 names is drained if and only if it is shorter than 4 GiB: the offset cannot get
      past the end of a longer one. */
  lemma FramesAreDrainedIff(calls: seq<Call>)
    requires AllSendable(calls) && AllUtf8(calls)
    ensures Deliver(FramesOf(calls)).end == Drained <==> |FramesOf(calls)| < TWO_32
  {
    hide FramesOf, AllSendable, Utf8Names;
    if |FramesOf(calls)| < TWO_32 {
      FramesAreDispatched(calls);
      assert forall c :: c in calls ==> Utf8Names(c);
      AllNamesGood(calls);
    } else {
      NeverDrained(FramesOf(calls), 0, {});
    }
  }

  /** The call \xFF.B, as another peer may send it: its name is not UTF-8, and the loop gives up on it. */
  lemma BadNameStopsTheLoop()
    ensures Deliver(FrameOf(Call([255], [66], []))) == Delivery([], Malformed)
  {
    var c := Call([255], [66], []);
    ShortHeader(255, 66, 0);
    assert !ValidUtf8([255]);
    hide ValidUtf8, EncodeHeader, ToLittle, Deliver;
    assert [c][1..] == [];
    assert FramesOf([c]) == FrameOf(c) + FramesOf([]) == FrameOf(c);
    assert UpToBadName([c]) == [] != [c];
    FramesAreDispatched([c]);
  }

  lemma OneFrameIsOneDispatch(call: Call)
    requires Utf8Names(call) && Sendable(call) && |FrameOf(call)| < TWO_32
    ensures Deliver(FrameOf(call)) == Delivery([DispatchOf(call)], Drained)
  {
    hide Deliver, Sendable, FrameOf, Utf8Names;
    assert [call][1..] == [];
    assert FramesOf([call]) == FrameOf(call) + FramesOf([]) == FrameOf(call);
    assert UpToBadName([call]) == [call] + UpToBadName([]) == [call];
    FramesAreDispatched([call]);
    assert DispatchesOf([call]) == [DispatchOf(call)];
  }

  // ---------- several deliveries ----------

  function Flatten(batches: seq<seq<Call>>): seq<Call>
  {
    if batches == [] then [] else batches[0] + Flatten(batches[1..])
  }

  /** The dispatches of one onMessage call after another. */
  function DeliverAll(deliveries: seq<seq<Byte>>): seq<Dispatch>
  {
    if deliveries == [] then [] else Deliver(deliveries[0]).dispatched + DeliverAll(deliveries[1..])
  }

  function FrameBatches(batches: seq<seq<Call>>): (r: seq<seq<Byte>>)
    ensures |r| == |batches|
  {
    seq(|batches|, i requires 0 <= i < |batches| => FramesOf(batches[i]))
  }

  lemma FirstBatch(batches: seq<seq<Call>>)
    requires batches != []
    ensures FrameBatches(batches)[0] == FramesOf(batches[0]) && FrameBatches(batches)[1..] == FrameBatches(batches[1..])
  {
    hide FramesOf;
  }

  /** However a stream of frames is cut into deliveries at frame boundaries, the same calls are dispatched in
      the same order. */
  lemma {:induction false} CutsDoNotMatter(batches: seq<seq<Call>>)
    requires forall i :: 0 <= i < |batches| ==> AllSendable(batches[i]) && |FramesOf(batches[i])| < TWO_32
    requires forall i :: 0 <= i < |batches| ==> UpToBadName(batches[i]) == batches[i]
    ensures DeliverAll(FrameBatches(batches)) == DispatchesOf(Flatten(batches))
  {
    assert DispatchesOf([]) == [];
    hide Deliver, FramesOf, DispatchesOf, AllSendable, UpToBadName;
    if batches != [] {
      FramesAreDispatched(batches[0]);
      CutsDoNotMatter(batches[1..]);
      FirstBatch(batches);
      hide FrameBatches;
      DispatchesConcat(batches[0], Flatten(batches[1..]));
    }
  }

  lemma DispatchesConcat(a: seq<Call>, b: seq<Call>)
    ensures DispatchesOf(a + b) == DispatchesOf(a) + DispatchesOf(b)
  {
  }
}
