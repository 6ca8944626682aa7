/** Deliveries that are cut inside a frame. onMessage keeps no partial frame. */
module Cuts {
  import opened Wrappers
  import opened Bytes
  import opened Utf8
  import opened Wire
  import opened Messages
  import opened RpcHeader
  import opened HeaderCost
  import opened Framing

  // ---------- a delivery cut inside a frame ----------

  function Zeros(n: nat): (z: seq<Byte>)
    ensures |z| == n && forall i :: 0 <= i < n ==> z[i] == 0
  {
    seq(n, _ => 0)
  }

  /** At `pos` the data, continued by zeros, reads `bs`. */
  predicate Reads(data: seq<Byte>, pos: nat, bs: seq<Byte>)
    requires pos <= |data|
  {
    (data + Zeros(|bs|))[pos..pos + |bs|] == bs
  }

  lemma PaddedReads(data: seq<Byte>, pos: nat, n: nat)
    requires pos <= |data|
    ensures Reads(data, pos, Padded(data, n, pos))
    ensures forall bs :: |bs| == n && Reads(data, pos, bs) ==> bs == Padded(data, n, pos)
  {
    assert (data + Zeros(n))[pos..pos + n] == Padded(data, n, pos);
  }

  lemma ReadsTwo(data: seq<Byte>, pos: nat, a: seq<Byte>, b: seq<Byte>)
    requires pos + |a| <= |data|
    ensures Reads(data, pos, a + b) <==> Reads(data, pos, a) && Reads(data, pos + |a|, b)
  {
    var long := (data + Zeros(|a + b|))[pos..pos + |a + b|];
    assert long[..|a|] == (data + Zeros(|a|))[pos..pos + |a|];
    assert long[|a|..] == (data + Zeros(|b|))[pos + |a|..pos + |a| + |b|];
    assert (a + b)[..|a|] == a && (a + b)[|a|..] == b;
  }

  /** A size, a header of that size that can be parsed, and as many argument bytes as it says. */
  ghost predicate IsFrame(prefix: seq<Byte>, hb: seq<Byte>, head: Header, args: seq<Byte>)
  {
    |prefix| == 4 && |hb| == FromLittle(prefix) && ParseHeader(hb) == Some(head) && |args| == head.argsSize
  }

  /** A frame is read at `len` of the data. */
  ghost predicate ReadsFrame(data: seq<Byte>, len: nat, prefix: seq<Byte>, hb: seq<Byte>, head: Header, args: seq<Byte>)
  {
    && IsFrame(prefix, hb, head, args)
    && len + 4 <= |data| && Reads(data, len, prefix + hb)
    && (args == [] || (len + 4 + |hb| <= |data| && Reads(data, len, prefix + hb + args)))
  }

  lemma TurnWithoutWrap(data: seq<Byte>, len: nat, prefix: seq<Byte>, hb: seq<Byte>)
    requires len < |data| && len + 4 + |hb| < 0x1_0000_0000
    requires prefix == Padded(data, 4, len) && |hb| == FromLittle(prefix)
    requires len + 4 <= |data| ==> hb == Padded(data, |hb|, len + 4)
    ensures len + 4 > |data| ==> TurnAt(data, len) == OutOfRange
    ensures len + 4 <= |data| ==>
              TurnAt(data, len) ==
              match ParseHeader(hb)
              case None => BadHeader
              case Some(head) =>
                var start := len + 4 + |hb|;
                if head.argsSize == 0 then Request(head, [], start)
                else if start > |data| then OutOfRange
                else Request(head, Padded(data, head.argsSize, start), (start + head.argsSize) % TWO_32)
  {
    hide ParseHeader, FromLittle, Padded;
  }

  lemma SmallClaim(data: seq<Byte>, len: nat)
    requires len < |data| && !HugeClaim(data, len) && TurnAt(data, len).Request?
    ensures len + 4 + FromLittle(Padded(data, 4, len)) + |TurnAt(data, len).args| < 0x1_0000_0000
  {
  }

  lemma TurnIsRead(data: seq<Byte>, len: nat, head: Header, args: seq<Byte>, next: nat)
    requires len < |data| && !HugeClaim(data, len) && TurnAt(data, len) == Request(head, args, next)
    ensures exists prefix, hb ::
              ReadsFrame(data, len, prefix, hb, head, args) && next == len + 4 + |hb| + |args| < 0x1_0000_0000
  {
    hide TurnAt, HugeClaim, Reads, Padded, FromLittle, ParseHeader;
    SmallClaim(data, len);
    var prefix := Padded(data, 4, len);
    var hb := if len + 4 <= |data| then Padded(data, FromLittle(prefix), len + 4) else Zeros(FromLittle(prefix));
    TurnWithoutWrap(data, len, prefix, hb);
    ReadInParts(data, len, prefix, hb, args);
    assert ReadsFrame(data, len, prefix, hb, head, args);
  }

  lemma ReadIsTurn(data: seq<Byte>, len: nat, prefix: seq<Byte>, hb: seq<Byte>, head: Header, args: seq<Byte>)
    requires ReadsFrame(data, len, prefix, hb, head, args) && len < |data|
    requires len + 4 + |hb| + |args| < 0x1_0000_0000
    ensures TurnAt(data, len) == Request(head, args, len + 4 + |hb| + |args|)
  {
    hide TurnAt, Padded, FromLittle, ParseHeader, Reads;
    PartsRead(data, len, prefix, hb, args);
    TurnWithoutWrap(data, len, prefix, hb);
  }

  lemma PartsRead(data: seq<Byte>, len: nat, prefix: seq<Byte>, hb: seq<Byte>, args: seq<Byte>)
    requires |prefix| == 4 && len + 4 <= |data| && Reads(data, len, prefix + hb)
    requires args == [] || (len + 4 + |hb| <= |data| && Reads(data, len, prefix + hb + args))
    ensures prefix == Padded(data, 4, len) && hb == Padded(data, |hb|, len + 4)
    ensures args != [] ==> args == Padded(data, |args|, len + 4 + |hb|)
  {
    hide Reads, Padded;
    ReadsTwo(data, len, prefix, hb);
    PaddedReads(data, len, 4);
    PaddedReads(data, len + 4, |hb|);
    if args != [] {
      ReadsTwo(data, len, prefix + hb, args);
      PaddedReads(data, len + 4 + |hb|, |args|);
    }
  }

  lemma ReadInParts(data: seq<Byte>, len: nat, prefix: seq<Byte>, hb: seq<Byte>, args: seq<Byte>)
    requires |prefix| == 4 && len + 4 <= |data|
    requires prefix == Padded(data, 4, len) && hb == Padded(data, |hb|, len + 4)
    requires args != [] ==> len + 4 + |hb| <= |data| && args == Padded(data, |args|, len + 4 + |hb|)
    ensures Reads(data, len, prefix + hb)
    ensures args == [] || Reads(data, len, prefix + hb + args)
  {
    hide Reads, Padded;
    ReadsTwo(data, len, prefix, hb);
    PaddedReads(data, len, 4);
    PaddedReads(data, len + 4, |hb|);
    if args != [] {
      ReadsTwo(data, len, prefix + hb, args);
      PaddedReads(data, len + 4 + |hb|, |args|);
    }
  }

  /** What a turn dispatches and where it goes on, for every data: what a frame says that is read there with zeros
      for the bytes that are missing, where the header, and the arguments if it announces any, have to begin no later
      than where the data ends. */
  lemma TurnDispatchesIff(data: seq<Byte>, len: nat, head: Header, args: seq<Byte>, next: nat)
    requires len < |data| && !HugeClaim(data, len)
    ensures TurnAt(data, len) == Request(head, args, next) <==>
            exists prefix, hb ::
              ReadsFrame(data, len, prefix, hb, head, args) && next == len + 4 + |hb| + |args| < 0x1_0000_0000
  {
    hide TurnAt, HugeClaim, ReadsFrame;
    if TurnAt(data, len) == Request(head, args, next) {
      TurnIsRead(data, len, head, args, next);
    }
    if prefix, hb :| ReadsFrame(data, len, prefix, hb, head, args)
                     && next == len + 4 + |hb| + |args| < 0x1_0000_0000 {
      ReadIsTurn(data, len, prefix, hb, head, args);
    }
  }

  /** When copy throws: the size itself, or announced arguments, would begin behind the end of the data; otherwise
      a turn that dispatches nothing is one whose header cannot be parsed. */
  lemma TurnThrowsIff(data: seq<Byte>, len: nat)
    requires len < |data| && len + 4 + FromLittle(Padded(data, 4, len)) < 0x1_0000_0000
    ensures TurnAt(data, len) == OutOfRange <==>
            len + 4 > |data| ||
            exists prefix, hb ::
              && |prefix| == 4 && |hb| == FromLittle(prefix) && Reads(data, len, prefix + hb)
              && ParseHeader(hb).Some? && ParseHeader(hb).value.argsSize > 0 && len + 4 + |hb| > |data|
  {
    hide TurnAt, ParseHeader, FromLittle, Reads, Padded;
    var prefix := Padded(data, 4, len);
    var hb := if len + 4 <= |data| then Padded(data, FromLittle(prefix), len + 4) else Zeros(FromLittle(prefix));
    TurnWithoutWrap(data, len, prefix, hb);
    if len + 4 <= |data| {
      ReadInParts(data, len, prefix, hb, []);
      forall p, h | |p| == 4 && |h| == FromLittle(p) && Reads(data, len, p + h)
        ensures p == prefix && h == hb
      {
        PartsRead(data, len, p, h, []);
      }
    }
  }

  /** onMessage keeps no partial frame: when the last `missing` bytes of the arguments have not arrived yet, it
      dispatches the call at once with zeros in their place. */
  lemma CutArgumentsBecomeZeros(c: Call, missing: nat)
    requires Sendable(c) && Utf8Names(c) && |FrameOf(c)| < TWO_32 && 0 < missing <= |c.args|
    ensures Deliver(FrameOf(c)[..|FrameOf(c)| - missing]) ==
            Delivery([Dispatch(DispatchOf(c).head, c.args[..|c.args| - missing] + Zeros(missing))], Drained)
  {
    hide ValidUtf8, EncodeHeader, ParseHeader, ToLittle, FromLittle, Range;
    var head, prefix := HeaderBytes(c), ToLittle(|HeaderBytes(c)|, 4);
    var data := FrameOf(c)[..|FrameOf(c)| - missing];
    Range4();
    LittleRoundTrip(|head|, 4);
    HeaderRoundTrip(c.service, c.name, |c.args|);
    assert data == prefix + head + c.args[..|c.args| - missing];
    assert Padded(data, 4, 0) == prefix;
    assert Padded(data, |head|, 4) == head;
    assert Padded(data, |c.args|, 4 + |head|) == c.args[..|c.args| - missing] + Zeros(missing);
    TurnFromPadded(data, 0, head, c.args[..|c.args| - missing] + Zeros(missing));
    hide TurnAt, Padded;
    assert DeliverFrom(data, |FrameOf(c)|, {} + {0}) == Delivery([], Drained);
  }

  /** Such a call is dispatched as it was sent exactly when the missing bytes are all zero. Even then the delivery of
      those bytes does harm: see NoCutOfAFrameIsHarmless. */
  lemma CutCallLooksWholeIff(c: Call, missing: nat)
    requires Sendable(c) && Utf8Names(c) && |FrameOf(c)| < TWO_32 && 0 < missing <= |c.args|
    ensures Deliver(FrameOf(c)[..|FrameOf(c)| - missing]).dispatched == [DispatchOf(c)]
            <==> forall i :: |c.args| - missing <= i < |c.args| ==> c.args[i] == 0
  {
    hide Deliver, FrameOf, Sendable, Utf8Names;
    CutArgumentsBecomeZeros(c, missing);
    var got := c.args[..|c.args| - missing] + Zeros(missing);
    assert forall i :: |c.args| - missing <= i < |c.args| ==> got[i] == 0;
    if forall i :: |c.args| - missing <= i < |c.args| ==> c.args[i] == 0 {
      assert got == c.args;
    }
  }

  /** The call A.B with the arguments 7 0, cut before its last byte: the first delivery dispatches it whole, and the
      second throws. */
  lemma CutCallThrows()
    ensures var frame := FrameOf(Call([65], [66], [7, 0]));
            && Deliver(frame[..|frame| - 1]) == Delivery([DispatchOf(Call([65], [66], [7, 0]))], Drained)
            && Deliver(frame[|frame| - 1..]) == Delivery([], Threw)
  {
    var c := Call([65], [66], [7, 0]);
    var frame := FrameOf(c);
    ShortHeader(65, 66, 2);
    assert ValidUtf8([65]) && ValidUtf8([66]);
    hide ValidUtf8, EncodeHeader, ToLittle, ParseHeader, FromLittle;
    CutArgumentsBecomeZeros(c, 1);
    assert [7, 0][..1] + Zeros(1) == [7, 0];
    assert frame[|frame| - 1..] == [0];
    assert TurnAt([0], 0) == OutOfRange;
  }

  // ---------- cuts anywhere ----------

  function Join(pieces: seq<seq<Byte>>): seq<Byte>
  {
    if pieces == [] then [] else pieces[0] + Join(pieces[1..])
  }

  /** How many calls have arrived whole with the first `n` bytes of their frames. */
  function Arrived(calls: seq<Call>, n: nat): (k: nat)
    ensures k <= |calls|
  {
    if calls == [] || n < |FrameOf(calls[0])| then 0 else 1 + Arrived(calls[1..], n - |FrameOf(calls[0])|)
  }

  /** Whether the first `n` bytes are a number of whole frames. */
  predicate AtBoundary(calls: seq<Call>, n: nat)
  {
    n == 0 || (calls != [] && n >= |FrameOf(calls[0])| && AtBoundary(calls[1..], n - |FrameOf(calls[0])|))
  }

  /** Every piece ends at a frame boundary; `n` bytes came before. */
  predicate CutAtBoundaries(pieces: seq<seq<Byte>>, calls: seq<Call>, n: nat)
  {
    pieces == [] || (AtBoundary(calls, n + |pieces[0]|) && CutAtBoundaries(pieces[1..], calls, n + |pieces[0]|))
  }

  /** Every delivery is drained and dispatches exactly the calls that it completes; `n` bytes came before. */
  predicate OnTime(pieces: seq<seq<Byte>>, calls: seq<Call>, n: nat)
  {
    pieces == [] ||
    (&& Arrived(calls, n) <= Arrived(calls, n + |pieces[0]|)
     && Deliver(pieces[0]) ==
          Delivery(DispatchesOf(calls[Arrived(calls, n)..Arrived(calls, n + |pieces[0]|)]), Drained)
     && OnTime(pieces[1..], calls, n + |pieces[0]|))
  }

  /** A turn that begins does something: no delivery passes over bytes in silence. */
  lemma SomethingHappens(data: seq<Byte>)
    ensures Deliver(data) == Delivery([], Drained) <==> data == []
  {
    hide TurnAt;
  }

  lemma {:induction false} DeliverPrefix(before: seq<Byte>, calls: seq<Call>, k: nat, seen: set<nat>)
    requires AllSendable(calls) && AllUtf8(calls) && k <= |FramesOf(calls)| && |before| + k < TWO_32
    requires forall x :: x in seen ==> x < |before|
    ensures AtBoundary(calls, k) <==>
            DeliverFrom(before + FramesOf(calls)[..k], |before|, seen) ==
            Delivery(DispatchesOf(calls[..Arrived(calls, k)]), Drained)
    decreases calls
  {
    hide TurnAt, FrameOf, Utf8Names, Sendable;
    var data := before + FramesOf(calls)[..k];
    if k == 0 {
      assert data == before;
      NothingArrived(calls);
    } else {
      var c := calls[0];
      FrameIsNotEmpty(c);
      if k >= |FrameOf(c)| {
        var rest := FramesOf(calls[1..])[..k - |FrameOf(c)|];
        assert data == before + FrameOf(c) + rest;
        TurnOnFrame(before, c, rest);
        DeliverPrefix(before + FrameOf(c), calls[1..], k - |FrameOf(c)|, seen + {|before|});
        var some := calls[1..][..Arrived(calls[1..], k - |FrameOf(c)|)];
        assert calls[..Arrived(calls, k)] == [c] + some;
        assert DispatchesOf([c] + some) == [DispatchOf(c)] + DispatchesOf(some);
        var tail := DeliverFrom(data, |before + FrameOf(c)|, seen + {|before|});
        assert ([DispatchOf(c)] + tail.dispatched)[1..] == tail.dispatched;
        assert ([DispatchOf(c)] + DispatchesOf(some))[1..] == DispatchesOf(some);
      } else {
        assert |data| > |before| && Arrived(calls, k) == 0;
        NothingArrived(calls);
      }
    }
  }

  lemma NothingArrived(calls: seq<Call>)
    ensures Arrived(calls, 0) == 0 && AtBoundary(calls, 0) && DispatchesOf(calls[..0]) == []
  {
  }

  /** From a boundary on, counting begins afresh. */
  lemma {:induction false} FromBoundary(calls: seq<Call>, n: nat, more: nat)
    requires AtBoundary(calls, n)
    ensures Arrived(calls, n + more) == Arrived(calls, n) + Arrived(calls[Arrived(calls, n)..], more)
    ensures AtBoundary(calls, n + more) <==> AtBoundary(calls[Arrived(calls, n)..], more)
    decreases calls
  {
    hide FrameOf;
    if n == 0 {
      NothingArrived(calls);
      assert calls[0..] == calls;
    } else {
      var k := |FrameOf(calls[0])|;
      FrameIsNotEmpty(calls[0]);
      FromBoundary(calls[1..], n - k, more);
      assert calls[Arrived(calls, n)..] == calls[1..][Arrived(calls[1..], n - k)..];
    }
  }

  lemma {:induction false} FramesFromBoundary(calls: seq<Call>, n: nat)
    requires AtBoundary(calls, n)
    ensures n <= |FramesOf(calls)| && FramesOf(calls)[n..] == FramesOf(calls[Arrived(calls, n)..])
    decreases calls
  {
    hide FrameOf;
    if n == 0 {
      NothingArrived(calls);
      assert calls[0..] == calls && FramesOf(calls)[0..] == FramesOf(calls);
    } else {
      var k := |FrameOf(calls[0])|;
      FrameIsNotEmpty(calls[0]);
      FramesFromBoundary(calls[1..], n - k);
      assert calls[Arrived(calls, n)..] == calls[1..][Arrived(calls[1..], n - k)..];
      DropAll(FrameOf(calls[0]), FramesOf(calls[1..]), n);
    }
  }

  lemma DropAll(a: seq<Byte>, b: seq<Byte>, n: nat)
    requires |a| <= n <= |a| + |b|
    ensures (a + b)[n..] == b[n - |a|..]
  {
  }

  lemma {:induction false} OnTimeFrom(pieces: seq<seq<Byte>>, calls: seq<Call>, n: nat)
    requires AllSendable(calls) && AllUtf8(calls) && |FramesOf(calls)| < TWO_32
    requires AtBoundary(calls, n) && n <= |FramesOf(calls)| && FramesOf(calls)[n..] == Join(pieces)
    ensures OnTime(pieces, calls, n) <==> CutAtBoundaries(pieces, calls, n)
    decreases pieces
  {
    hide FrameOf, Deliver, FramesOf, Arrived, AtBoundary, Utf8Names, Sendable, DispatchesOf;
    if pieces != [] {
      var k, o := |pieces[0]|, Arrived(calls, n);
      FromBoundary(calls, n, k);
      FramesFromBoundary(calls, n);
      OneDelivery(calls[o..], pieces[0], Join(pieces[1..]));
      assert calls[o..Arrived(calls, n + k)] == calls[o..][..Arrived(calls[o..], k)];
      if AtBoundary(calls, n + k) {
        assert FramesOf(calls)[n + k..] == FramesOf(calls)[n..][k..] == Join(pieces[1..]);
        OnTimeFrom(pieces[1..], calls, n + k);
      }
    }
  }

  lemma OneDelivery(calls: seq<Call>, piece: seq<Byte>, rest: seq<Byte>)
    requires AllSendable(calls) && AllUtf8(calls) && |FramesOf(calls)| < TWO_32 && FramesOf(calls) == piece + rest
    ensures Deliver(piece) == Delivery(DispatchesOf(calls[..Arrived(calls, |piece|)]), Drained)
            <==> AtBoundary(calls, |piece|)
  {
    hide FramesOf, Arrived, AtBoundary, Utf8Names, Sendable, DispatchesOf, DeliverFrom;
    DeliverPrefix([], calls, |piece|, {});
    assert [] + FramesOf(calls)[..|piece|] == piece;
  }

  /** A stream of frames, however it is cut into deliveries, is served on time, each delivery drained and
      dispatching exactly the calls it completes, if and only if every cut is at a frame boundary. */
  lemma OnTimeIffCutAtBoundaries(pieces: seq<seq<Byte>>, calls: seq<Call>)
    requires AllSendable(calls) && AllUtf8(calls) && |FramesOf(calls)| < TWO_32 && Join(pieces) == FramesOf(calls)
    ensures OnTime(pieces, calls, 0) <==> CutAtBoundaries(pieces, calls, 0)
  {
    hide OnTime, CutAtBoundaries, FramesOf;
    assert FramesOf(calls)[0..] == FramesOf(calls);
    OnTimeFrom(pieces, calls, 0);
  }

  lemma {:induction false} EveryPieceDispatches(pieces: seq<seq<Byte>>)
    requires forall i :: 0 <= i < |pieces| ==> pieces[i] != [] && Deliver(pieces[i]).end == Drained
    ensures |DeliverAll(pieces)| >= |pieces|
  {
    hide Deliver;
    if pieces != [] {
      SomethingHappens(pieces[0]);
      EveryPieceDispatches(pieces[1..]);
    }
  }

  /** One frame, delivered in pieces: the pieces are all drained and dispatch together just the call, sooner or
      later, if and only if there is only one piece. Cuts in the prefix and the header are no better. */
  lemma NoCutOfAFrameIsHarmless(c: Call, pieces: seq<seq<Byte>>)
    requires Sendable(c) && Utf8Names(c) && |FrameOf(c)| < TWO_32
    requires Join(pieces) == FrameOf(c) && forall i :: 0 <= i < |pieces| ==> pieces[i] != []
    ensures |pieces| == 1 <==>
            (forall i :: 0 <= i < |pieces| ==> Deliver(pieces[i]).end == Drained)
            && DeliverAll(pieces) == [DispatchOf(c)]
  {
    hide Deliver, Sendable, FrameOf, Utf8Names;
    FrameIsNotEmpty(c);
    if forall i :: 0 <= i < |pieces| ==> Deliver(pieces[i]).end == Drained {
      EveryPieceDispatches(pieces);
    }
    if |pieces| == 1 {
      assert Join(pieces) == pieces[0] + Join(pieces[1..]) == pieces[0];
      OneFrameIsOneDispatch(c);
      assert DeliverAll(pieces) == Deliver(pieces[0]).dispatched + DeliverAll(pieces[1..]);
    }
  }

  // ---------- whether a cut can be made good later ----------

  const SHORT_HEADER: nat := 0x8000

  lemma SplitBytes(a: seq<Byte>, b: seq<Byte>, k: nat)
    requires k <= |a| + |b|
    ensures k <= |a| ==> (a + b)[..k] == a[..k] && (a + b)[k..] == a[k..] + b
    ensures k >= |a| ==> (a + b)[..k] == a + b[..k - |a|] && (a + b)[k..] == b[k - |a|..]
  {
  }

  /** Zeros for the end of a header leave it as it is only when that end is zero. */
  lemma PaddedHeader(c: Call, k: nat)
    requires k <= |HeaderBytes(c)| && |HeaderBytes(c)| < MAX_LENGTH && Utf8Names(c) && |c.args| < TWO_32
    requires ParseHeader(HeaderBytes(c)[..k] + Zeros(|HeaderBytes(c)| - k)) == Some(DispatchOf(c).head)
    ensures forall i :: k <= i < |HeaderBytes(c)| ==> HeaderBytes(c)[i] == 0
  {
    hide ParseHeader, EncodeHeader, Nonzero, ValidUtf8;
    var head, zeros := HeaderBytes(c), Zeros(|HeaderBytes(c)| - k);
    WrittenHeaderIsCheapest(c.service, c.name, |c.args|, head[..k] + zeros);
    NonzeroConcat(head[..k], zeros);
    NonzeroOfZeros(zeros);
    NonzeroConcat(head[..k], head[k..]);
    assert head[..k] + head[k..] == head;
    NonzeroOfZeros(head[k..]);
    assert forall i :: k <= i < |head| ==> head[i] == head[k..][i - k];
  }

  /** A turn whose header has not arrived whole. */
  lemma ShortTurn(data: seq<Byte>, p: nat, size: nat, padded: seq<Byte>)
    requires p + 4 <= |data| < p + 4 + size < TWO_32
    requires FromLittle(Padded(data, 4, p)) == size && Padded(data, size, p + 4) == padded
    ensures var turn := TurnAt(data, p);
            turn.Request? ==>
              && ParseHeader(padded) == Some(turn.head) && turn.head.argsSize == 0
              && turn.args == [] && turn.next == p + 4 + size
  {
    hide ParseHeader, FromLittle, Padded;
  }

  lemma TurnNeedsPrefix(data: seq<Byte>, p: nat)
    requires p < |data| < p + 4 && p + 4 < TWO_32
    ensures TurnAt(data, p) == OutOfRange
  {
    hide ParseHeader, FromLittle, Padded;
  }

  /** A turn at a frame of which only the first k bytes have arrived: if it dispatches the call at all, then the rest
      of the frame is zero, and the data ends there. */
  lemma PartialTurn(before: seq<Byte>, c: Call, k: nat)
    requires Sendable(c) && Utf8Names(c) && 0 < k < |FrameOf(c)| && |before| + |FrameOf(c)| < TWO_32
    ensures var turn := TurnAt(before + FrameOf(c)[..k], |before|);
            turn.Request? && Dispatch(turn.head, turn.args) == DispatchOf(c) ==>
              k >= 4 && FrameOf(c)[k..] == Zeros(|FrameOf(c)| - k) && turn.next >= |before| + k
  {
    hide ValidUtf8, EncodeHeader, ParseHeader, ToLittle, FromLittle, Range, TurnAt;
    if k < 4 {
      TurnNeedsPrefix(before + FrameOf(c)[..k], |before|);
    } else if k < 4 + |HeaderBytes(c)| {
      CutInHeader(before, c, k);
    } else {
      CutInArguments(before, c, k);
    }
  }

  lemma CutInHeader(before: seq<Byte>, c: Call, k: nat)
    requires Sendable(c) && Utf8Names(c) && 4 <= k < 4 + |HeaderBytes(c)| && |before| + |FrameOf(c)| < TWO_32
    ensures var turn := TurnAt(before + FrameOf(c)[..k], |before|);
            turn.Request? && Dispatch(turn.head, turn.args) == DispatchOf(c) ==>
              k >= 4 && FrameOf(c)[k..] == Zeros(|FrameOf(c)| - k) && turn.next >= |before| + k
  {
    hide ValidUtf8, EncodeHeader, ParseHeader, ToLittle, FromLittle, TurnAt, Range;
    var p, head, prefix := |before|, HeaderBytes(c), ToLittle(|HeaderBytes(c)|, 4);
    var data := before + FrameOf(c)[..k];
    var turn := TurnAt(data, p);
    Range4();
    LittleRoundTrip(|head|, 4);
    assert Padded(data, 4, p) == prefix;
    assert Padded(data, |head|, p + 4) == head[..k - 4] + Zeros(|head| - (k - 4));
    ShortTurn(data, p, |head|, head[..k - 4] + Zeros(|head| - (k - 4)));
    if turn.Request? && Dispatch(turn.head, turn.args) == DispatchOf(c) {
      PaddedHeader(c, k - 4);
      assert FrameOf(c)[k..] == head[k - 4..] == Zeros(|head| - (k - 4));
    }
  }

  /** The parts of a call whose last argument bytes are missing, as copy finds them. */
  lemma CutFrame(before: seq<Byte>, prefix: seq<Byte>, head: seq<Byte>, args: seq<Byte>, n: nat)
    requires n <= |args|
    ensures var data, p := before + (prefix + head + args)[..|prefix| + |head| + n], |before|;
            && Padded(data, |prefix|, p) == prefix
            && Padded(data, |head|, p + |prefix|) == head
            && Padded(data, |args|, p + |prefix| + |head|) == args[..n] + Zeros(|args| - n)
  {
    assert (prefix + head + args)[..|prefix| + |head| + n] == prefix + head + args[..n];
    assert before + (prefix + head + args[..n]) == (before + prefix + head) + args[..n] + [];
    assert before + (prefix + head + args[..n]) == before + prefix + (head + args[..n]);
    assert before + (prefix + head + args[..n]) == (before + prefix) + head + args[..n];
  }

  lemma CutInArguments(before: seq<Byte>, c: Call, k: nat)
    requires Sendable(c) && Utf8Names(c) && 4 + |HeaderBytes(c)| <= k < |FrameOf(c)|
    requires |before| + |FrameOf(c)| < TWO_32
    ensures var turn := TurnAt(before + FrameOf(c)[..k], |before|);
            turn.Request? && Dispatch(turn.head, turn.args) == DispatchOf(c) ==>
              k >= 4 && FrameOf(c)[k..] == Zeros(|FrameOf(c)| - k) && turn.next >= |before| + k
  {
    hide ValidUtf8, EncodeHeader, ParseHeader, ToLittle, FromLittle, TurnAt, Range;
    var p, head, prefix := |before|, HeaderBytes(c), ToLittle(|HeaderBytes(c)|, 4);
    var frame, data := FrameOf(c), before + FrameOf(c)[..k];
    var missing := |frame| - k;
    var args := c.args[..|c.args| - missing] + Zeros(missing);
    Range4();
    LittleRoundTrip(|head|, 4);
    HeaderRoundTrip(c.service, c.name, |c.args|);
    CutFrame(before, prefix, head, c.args, |c.args| - missing);
    TurnFromPadded(data, p, head, args);
    if args == c.args {
      assert frame[k..] == args[|c.args| - missing..] == Zeros(missing);
    }
  }

  /** Every piece is drained. */
  predicate AllDrained(pieces: seq<seq<Byte>>)
  {
    forall i :: 0 <= i < |pieces| ==> Deliver(pieces[i]).end == Drained
  }

  lemma FirstPiece(pieces: seq<seq<Byte>>)
    requires pieces != []
    ensures AllDrained(pieces) <==> Deliver(pieces[0]).end == Drained && AllDrained(pieces[1..])
    ensures DeliverAll(pieces) == Deliver(pieces[0]).dispatched + DeliverAll(pieces[1..])
    ensures Join(pieces) == pieces[0] + Join(pieces[1..])
    ensures Deliver(pieces[0]) == DeliverFrom([] + pieces[0], 0, {})
  {
    hide DeliverFrom;
    assert [] + pieces[0] == pieces[0];
  }

  /** What is left when `d` is what has arrived and not been looked at, and `pieces` are still to come: everything is
      drained, and dispatches together exactly these calls. */
  predicate Recovers(before: seq<Byte>, d: seq<Byte>, seen: set<nat>, pieces: seq<seq<Byte>>, calls: seq<Call>)
  {
    var now := DeliverFrom(before + d, |before|, seen);
    now.end == Drained && AllDrained(pieces) && now.dispatched + DeliverAll(pieces) == DispatchesOf(calls)
  }

  predicate ShortHeaders(calls: seq<Call>)
  {
    forall i :: 0 <= i < |calls| ==> |HeaderBytes(calls[i])| < SHORT_HEADER
  }

  lemma NothingLeft(before: seq<Byte>, seen: set<nat>, pieces: seq<seq<Byte>>, calls: seq<Call>)
    ensures Recovers(before, [], seen, pieces, calls) <==>
            if pieces == [] then calls == [] else Recovers([], pieces[0], {}, pieces[1..], calls)
  {
    hide DispatchOf;
    assert before + [] == before;
    assert DeliverFrom(before, |before|, seen) == Delivery([], Drained);
    hide DeliverFrom, Deliver;
    if pieces != [] {
      FirstPiece(pieces);
      assert [] + DeliverAll(pieces) == DeliverAll(pieces);
    } else {
      assert |DispatchesOf(calls)| == |calls|;
    }
  }

  /** One turn: it has to dispatch the first call, and the rest has to recover. */
  lemma OneTurn(before: seq<Byte>, d: seq<Byte>, seen: set<nat>, pieces: seq<seq<Byte>>, calls: seq<Call>)
    requires d != [] && forall x :: x in seen ==> x < |before|
    ensures var turn := TurnAt(before + d, |before|);
            Recovers(before, d, seen, pieces, calls) ==>
              calls != [] && turn.Request? && Dispatch(turn.head, turn.args) == DispatchOf(calls[0])
    ensures var turn := TurnAt(before + d, |before|);
            calls != [] && turn.Request? && Dispatch(turn.head, turn.args) == DispatchOf(calls[0])
            && |before| < turn.next <= |before + d| ==>
              (Recovers(before, d, seen, pieces, calls) <==>
               Recovers(before + d[..turn.next - |before|], d[turn.next - |before|..], seen + {|before|},
                        pieces, calls[1..]))
    ensures var turn := TurnAt(before + d, |before|);
            calls != [] && turn.Request? && Dispatch(turn.head, turn.args) == DispatchOf(calls[0])
            && |before + d| <= turn.next ==>
              (Recovers(before, d, seen, pieces, calls) <==> Recovers([], [], {}, pieces, calls[1..]))
  {
    hide TurnAt, DispatchOf, AllDrained, DeliverAll;
    DeliverTurn(before + d, |before|, seen);
    DeliverTurn([], 0, {});
    hide DeliverFrom;
    var turn := TurnAt(before + d, |before|);
    var now := DeliverFrom(before + d, |before|, seen);
    if turn.Request? {
      var rest := DeliverFrom(before + d, turn.next, seen + {|before|});
      DeliverTurn(before + d, turn.next, seen + {|before|});
      ghost var nothing: seq<Byte> := [];
      assert nothing + nothing == nothing;
      var first := Dispatch(turn.head, turn.args);
      assert now.dispatched + DeliverAll(pieces) == [first] + (rest.dispatched + DeliverAll(pieces));
      if calls != [] {
        FirstDispatch(calls);
        assert ([first] + (rest.dispatched + DeliverAll(pieces)))[1..] == rest.dispatched + DeliverAll(pieces);
        assert ([DispatchOf(calls[0])] + DispatchesOf(calls[1..]))[1..] == DispatchesOf(calls[1..]);
        if |before| < turn.next <= |before + d| {
          var k := turn.next - |before|;
          assert before + d[..k] + d[k..] == before + d;
        }
      }
    }
  }

  lemma FirstDispatch(calls: seq<Call>)
    requires calls != []
    ensures DispatchesOf(calls) == [DispatchOf(calls[0])] + DispatchesOf(calls[1..])
  {
    assert calls == [calls[0]] + calls[1..];
  }

  lemma {:induction false} LittleIsZero(bs: seq<Byte>)
    ensures FromLittle(bs) == 0 <==> bs == Zeros(|bs|)
  {
    if bs != [] {
      LittleIsZero(bs[1..]);
      assert bs == [bs[0]] + bs[1..] && Zeros(|bs|) == [0] + Zeros(|bs| - 1);
      assert Zeros(|bs|)[1..] == Zeros(|bs| - 1);
    }
  }

  lemma ZeroTagFails(bs: seq<Byte>)
    requires bs != [] && bs[0] == 0
    ensures ParseHeader(bs) == None
  {
    assert ReadTag(bs) == Some((0, 1));
    assert DecodeField(bs, ROOT_DEPTH) == None;
    assert Parse(ApplyHeader, NO_HEADER, bs, ROOT_DEPTH) == None;
  }

  lemma EmptyHeaderParses()
    ensures ParseHeader([]) == Some(NO_HEADER)
  {
  }

  /** A prefix of zeros is dispatched as the empty call. */
  lemma ZeroPrefixTurn(data: seq<Byte>, p: nat)
    requires p + 4 <= |data| && p + 4 < TWO_32 && data[p..p + 4] == Zeros(4)
    ensures TurnAt(data, p) == Request(NO_HEADER, [], p + 4)
  {
    LittleIsZero(Zeros(4));
    EmptyHeaderParses();
    hide ParseHeader, FromLittle;
    assert Padded(data, 4, p) == Zeros(4) && Padded(data, 0, p + 4) == [];
  }

  lemma FirstPadded(data: seq<Byte>, n: nat, pos: nat)
    requires pos <= |data| && n > 0
    ensures Padded(data, n, pos)[0] == if pos < |data| then data[pos] else 0
    ensures pos + n <= |data| ==> Padded(data, n, pos) == data[pos..pos + n]
  {
  }

  /** Any other prefix with a zero behind it, arrived or not, is given up on. */
  lemma ZeroTagTurn(data: seq<Byte>, p: nat)
    requires p + 4 <= |data| && p + 4 < TWO_32 && data[p..p + 4] != Zeros(4)
    requires p + 4 < |data| ==> data[p + 4] == 0
    ensures TurnAt(data, p) == BadHeader
  {
    hide ParseHeader, FromLittle, Padded, Zeros;
    var size := FromLittle(data[p..p + 4]);
    LittleIsZero(data[p..p + 4]);
    FirstPadded(data, 4, p);
    FirstPadded(data, size, p + 4);
    ZeroTagFails(Padded(data, size, p + 4));
  }

  /** A header that begins with a tag of one byte and two zeros fails, or has something unknown in it. */
  lemma StrayTagFails(bs: seq<Byte>)
    requires |bs| >= 3 && 0 < bs[0] < 128 && bs[1] == bs[2] == 0
    ensures ParseHeader(bs).Some? ==> ParseHeader(bs).value.unknown != []
  {
    hide DecodeGroup, ValidUtf8;
    EmptyIsValid();
    assert ReadTag(bs) == Some((bs[0], 1));
    if DecodeField(bs, ROOT_DEPTH).Some? {
      var (f, n) := DecodeField(bs, ROOT_DEPTH).value;
      var r := ApplyHeader(NO_HEADER, f, ROOT_DEPTH);
      if r.Some? {
        StrayRecord(bs);
        UnknownOnlyGrows(r.value, bs[n..]);
        if n == 2 {
          assert ReadTag(bs[2..]) == Some((0, 1));
          assert DecodeField(bs[2..], ROOT_DEPTH) == None;
        }
      }
    }
  }

  lemma StrayRecord(bs: seq<Byte>)
    requires |bs| >= 3 && 0 < bs[0] < 128 && bs[1] == bs[2] == 0 && DecodeField(bs, ROOT_DEPTH).Some?
    ensures var (f, n) := DecodeField(bs, ROOT_DEPTH).value;
            n == 2 || !(f.Len? || f.Varint?)
  {
    hide DecodeGroup;
    assert ReadTag(bs) == Some((bs[0], 1));
    var rest := bs[1..];
    assert DecodeVarint(rest, 5) == Some((0, 1)) && DecodeVarint(rest, 10) == Some((0, 1));
  }

  lemma PaddedAt(data: seq<Byte>, n: nat, pos: nat, i: nat)
    requires pos <= |data| && i < n
    ensures Padded(data, n, pos)[i] == if pos + i < |data| then data[pos + i] else 0
  {
  }

  lemma RequestHasHeader(data: seq<Byte>, p: nat)
    requires p + 4 <= |data| && p + 4 < TWO_32 && TurnAt(data, p).Request?
    ensures ParseHeader(Padded(data, FromLittle(Padded(data, 4, p)), p + 4)) == Some(TurnAt(data, p).head)
  {
    hide ParseHeader, FromLittle, Padded;
  }

  /** Three zeros, a length of at least 16 MiB, and a stray tag. */
  lemma StrayTagTurn(data: seq<Byte>, p: nat)
    requires p + 4 <= |data| && p + 4 < TWO_32 && data[p] == data[p + 1] == data[p + 2] == 0 && data[p + 3] != 0
    requires p + 4 < |data| ==> 0 < data[p + 4] < 128
    requires p + 5 < |data| ==> data[p + 5] == 0
    requires p + 6 < |data| ==> data[p + 6] == 0
    ensures TurnAt(data, p).Request? ==> TurnAt(data, p).head.unknown != []
  {
    HighByte(data[p..p + 4]);
    hide ParseHeader, FromLittle, TurnAt;
    assert Padded(data, 4, p) == data[p..p + 4];
    var size := FromLittle(data[p..p + 4]);
    PaddedAt(data, size, p + 4, 0);
    PaddedAt(data, size, p + 4, 1);
    PaddedAt(data, size, p + 4, 2);
    var padded := Padded(data, size, p + 4);
    hide Padded;
    if TurnAt(data, p).Request? {
      RequestHasHeader(data, p);
      if padded[0] == 0 {
        ZeroTagFails(padded);
      } else {
        StrayTagFails(padded);
      }
    }
  }

  lemma FourZeros(bs: seq<Byte>)
    ensures bs == Zeros(4) <==> |bs| == 4 && bs[0] == bs[1] == bs[2] == bs[3] == 0
  {
  }

  /** What the leftover zeros lead to when the next four bytes are not all zero. */
  lemma LeftoverTurn(before: seq<Byte>, d: seq<Byte>, tail: seq<Byte>)
    requires |d| >= 4 && |before| + 4 < TWO_32 && |d + tail| > 4 && (d + tail)[..4] != Zeros(4)
    requires var stream := d + tail;
             stream[4] == 0 ||
             (|stream| > 6 && stream[..3] == Zeros(3) && stream[4] < 128 && stream[5] == stream[6] == 0)
    ensures var turn := TurnAt(before + d, |before|);
            turn.Request? ==> turn.head.unknown != []
  {
    hide TurnAt;
    var stream, data, p := d + tail, before + d, |before|;
    assert forall i :: 0 <= i < |d| ==> data[p + i] == stream[i];
    assert data[p..p + 4] == stream[..4];
    if stream[4] == 0 {
      ZeroTagTurn(data, p);
    } else {
      assert stream[0] == stream[..3][0] && stream[1] == stream[..3][1] && stream[2] == stream[..3][2];
      FourZeros(stream[..4]);
      StrayTagTurn(data, p);
    }
  }

  lemma HighByte(prefix: seq<Byte>)
    requires |prefix| == 4 && prefix[3] != 0
    ensures FromLittle(prefix) >= 0x100_0000
  {
    assert prefix[1..][1..][1..] == [prefix[3]];
    assert FromLittle(prefix[1..][1..][1..]) >= 1;
    assert FromLittle(prefix[1..][1..]) >= 256;
    assert FromLittle(prefix[1..]) >= 65536;
  }

  /** The empty call is the one whose frame is four zeros. */
  lemma EmptyFrame(c: Call)
    ensures HeaderBytes(c) == [] <==> c == Call([], [], [])
    ensures c == Call([], [], []) <==> DispatchOf(c) == Dispatch(NO_HEADER, [])
    ensures c == Call([], [], []) ==> FrameOf(c) == Zeros(4)
  {
    var fs := HeaderFields(c.service, c.name, |c.args|);
    EncodeNothing();
    if fs != [] {
      assert EncodeFields(fs) == EncodeField(fs[0]) + EncodeFields(fs[1..]);
    }
    assert ToLittle(0, 4) == [0, 0, 0, 0];
  }

  /** The length of a short header has its two upper bytes zero, and no tag of two bytes in the next one. */
  lemma ShortPrefix(c: Call)
    requires |HeaderBytes(c)| < SHORT_HEADER
    ensures FrameOf(c)[..4] == [|HeaderBytes(c)| % 256, |HeaderBytes(c)| / 256, 0, 0] && |HeaderBytes(c)| / 256 < 128
  {
    hide EncodeHeader;
    var n: nat := |HeaderBytes(c)|;
    assert ToLittle(0, 1) == [0] && ToLittle(0, 2) == [0, 0];
    assert n / 256 % 256 == n / 256 && n / 256 / 256 == 0;
    assert ToLittle(n, 4) == [n % 256] + ToLittle(n / 256, 3);
    assert ToLittle(n / 256, 3) == [n / 256] + ToLittle(0, 2);
  }

  /** What comes behind zeros left over in front of a frame: four zeros; or a length with a zero behind it; or, with
      three left over, a length in the last of the four bytes, and a tag with two zeros behind it. */
  lemma ZerosInFront(m: nat, c: Call, rest: seq<Byte>)
    requires m > 0 && |HeaderBytes(c)| < SHORT_HEADER
    ensures var stream := Zeros(m) + (FrameOf(c) + rest);
            && |stream| > 4
            && (HeaderBytes(c) == [] ==> stream[..4] == Zeros(4))
            && (stream[..4] == Zeros(4) || stream[4] == 0 ||
                (|stream| > 6 && stream[..3] == Zeros(3) && stream[4] < 128 && stream[5] == stream[6] == 0))
  {
    hide EncodeHeader, FrameOf;
    var stream, frame := Zeros(m) + (FrameOf(c) + rest), FrameOf(c);
    assert |frame| >= 4 by { FrameHasPrefix(c); }
    ShortPrefix(c);
    assert frame[1] == frame[..4][1] && frame[2] == frame[..4][2] && frame[3] == frame[..4][3];
    assert forall i :: 0 <= i < m ==> stream[i] == 0;
    assert forall i :: m <= i < m + 4 ==> stream[i] == frame[i - m];
    if HeaderBytes(c) == [] {
      assert frame[0] == frame[..4][0] == 0 && frame[1] == 0;
    }
  }

  lemma FrameHasPrefix(c: Call)
    ensures |FrameOf(c)| >= 4
  {
    hide EncodeHeader, ToLittle;
  }

  lemma NothingUnknown(c: Call)
    ensures DispatchOf(c).head.unknown == []
  {
  }

  /** Zeros that were taken for granted too early are never made good: either they are dispatched as empty calls,
      which are too many in the end, or they shift a length so that a header begins with a zero. */
  lemma {:induction false} ZerosNeverRecover(before: seq<Byte>, d: seq<Byte>, seen: set<nat>, pieces: seq<seq<Byte>>,
                                             calls: seq<Call>, m: nat)
    requires m > 0 && ShortHeaders(calls) && d + Join(pieces) == Zeros(m) + FramesOf(calls)
    requires |before| + m + |FramesOf(calls)| + 4 < TWO_32 && forall x :: x in seen ==> x < |before|
    ensures !Recovers(before, d, seen, pieces, calls)
    decreases |pieces|, |d|
  {
    hide Recovers, FrameOf, TurnAt, EncodeHeader, DispatchOf;
    if d == [] {
      NothingLeft(before, seen, pieces, calls);
      assert pieces != [];
      FirstPiece(pieces);
      assert d + Join(pieces) == Join(pieces);
      ZerosNeverRecover([], pieces[0], {}, pieces[1..], calls, m);
    } else {
      OneTurn(before, d, seen, pieces, calls);
      if |d| < 4 {
        TurnNeedsPrefix(before + d, |before|);
      } else if calls != [] {
        ZerosThenFrame(before, d, seen, pieces, calls, m);
      }
    }
  }

  lemma {:induction false} ZerosThenFrame(before: seq<Byte>, d: seq<Byte>, seen: set<nat>, pieces: seq<seq<Byte>>,
                                          calls: seq<Call>, m: nat)
    requires calls != [] && |d| >= 4
    requires m > 0 && ShortHeaders(calls) && d + Join(pieces) == Zeros(m) + FramesOf(calls)
    requires |before| + m + |FramesOf(calls)| + 4 < TWO_32 && forall x :: x in seen ==> x < |before|
    ensures !Recovers(before, d, seen, pieces, calls)
    decreases |pieces|, |d|, 0
  {
    hide Recovers, FrameOf, TurnAt, EncodeHeader, DispatchOf;
    var c, rest, p := calls[0], FramesOf(calls[1..]), |before|;
    hide FramesOf, Join, ShortHeaders, HeaderBytes;
    OneTurn(before, d, seen, pieces, calls);
    ZerosInFront(m, c, rest);
    if (d + Join(pieces))[..4] != Zeros(4) {
      NothingUnknown(c);
      LeftoverTurn(before, d, Join(pieces));
    } else {
      FrontOf(before, d, Join(pieces));
      ZeroPrefixTurn(before + d, p);
      EmptyFrame(c);
      if c == Call([], [], []) {
        EmptyTaken(d, Join(pieces), m, rest);
        assert ShortHeaders(calls[1..]) by { TailIsShort(calls); }
        ZerosNeverRecover(before + d[..4], d[4..], seen + {p}, pieces, calls[1..], m);
      }
    }
  }

  lemma TailIsShort(calls: seq<Call>)
    requires calls != [] && ShortHeaders(calls)
    ensures ShortHeaders(calls[1..])
  {
    hide HeaderBytes;
  }

  lemma FrontOf(before: seq<Byte>, d: seq<Byte>, tail: seq<Byte>)
    requires |d| >= 4
    ensures (before + d)[|before|..|before| + 4] == (d + tail)[..4]
  {
  }

  lemma EmptyTaken(d: seq<Byte>, tail: seq<Byte>, m: nat, rest: seq<Byte>)
    requires |d| >= 4 && d + tail == Zeros(m) + (Zeros(4) + rest)
    ensures d[4..] + tail == Zeros(m) + rest
  {
    assert Zeros(m) + (Zeros(4) + rest) == Zeros(4) + (Zeros(m) + rest);
    SplitBytes(d, tail, 4);
    SplitBytes(Zeros(4), Zeros(m) + rest, 4);
  }

  /** Moving the count of bytes on by one whole frame. */
  lemma {:induction false} CutsMoveOn(pieces: seq<seq<Byte>>, calls: seq<Call>, n: nat)
    requires calls != []
    ensures CutAtBoundaries(pieces, calls, n + |FrameOf(calls[0])|) <==> CutAtBoundaries(pieces, calls[1..], n)
    decreases pieces
  {
    hide FrameOf;
    FrameIsNotEmpty(calls[0]);
    if pieces != [] {
      CutsMoveOn(pieces[1..], calls, n + |pieces[0]|);
    }
  }

  lemma {:induction false} RecoversIff(before: seq<Byte>, d: seq<Byte>, seen: set<nat>, pieces: seq<seq<Byte>>,
                                       calls: seq<Call>)
    requires AllSendable(calls) && AllUtf8(calls) && ShortHeaders(calls) && d + Join(pieces) == FramesOf(calls)
    requires |before| + |FramesOf(calls)| < TWO_32 && forall x :: x in seen ==> x < |before|
    ensures Recovers(before, d, seen, pieces, calls) <==>
            AtBoundary(calls, |d|) && CutAtBoundaries(pieces, calls, |d|)
    decreases |pieces|, |d|
  {
    hide Recovers, FrameOf, TurnAt, DispatchOf, Sendable, Utf8Names, HeaderBytes;
    if d == [] {
      NothingLeft(before, seen, pieces, calls);
      if pieces != [] {
        FirstPiece(pieces);
        assert d + Join(pieces) == Join(pieces);
        RecoversIff([], pieces[0], {}, pieces[1..], calls);
      } else {
        NoFrames(calls);
      }
    } else {
      assert calls != [];
      if |d| >= |FrameOf(calls[0])| {
        WholeFrame(before, d, seen, pieces, calls);
      } else {
        PartFrame(before, d, seen, pieces, calls);
      }
    }
  }

  lemma NoFrames(calls: seq<Call>)
    ensures FramesOf(calls) == [] <==> calls == []
  {
    if calls != [] {
      FrameIsNotEmpty(calls[0]);
    }
  }

  lemma {:induction false} WholeFrame(before: seq<Byte>, d: seq<Byte>, seen: set<nat>, pieces: seq<seq<Byte>>,
                                      calls: seq<Call>)
    requires AllSendable(calls) && AllUtf8(calls) && ShortHeaders(calls) && d + Join(pieces) == FramesOf(calls)
    requires |before| + |FramesOf(calls)| < TWO_32 && forall x :: x in seen ==> x < |before|
    requires calls != [] && |d| >= |FrameOf(calls[0])|
    ensures Recovers(before, d, seen, pieces, calls) <==>
            AtBoundary(calls, |d|) && CutAtBoundaries(pieces, calls, |d|)
    decreases |pieces|, |d|, 0
  {
    hide Recovers, FrameOf, TurnAt, DispatchOf, Sendable, Utf8Names, HeaderBytes;
    var c, k := calls[0], |FrameOf(calls[0])|;
    FrameIsNotEmpty(c);
    assert d[..k] == (d + Join(pieces))[..k] == FrameOf(c);
    assert before + d == before + FrameOf(c) + d[k..];
    TurnOnFrame(before, c, d[k..]);
    OneTurn(before, d, seen, pieces, calls);
    CallIsItsDispatch(c);
    SplitBytes(d, Join(pieces), k);
    assert (FrameOf(c) + FramesOf(calls[1..]))[k..] == FramesOf(calls[1..]);
    RecoversIff(before + d[..k], d[k..], seen + {|before|}, pieces, calls[1..]);
    CutsMoveOn(pieces, calls, |d| - k);
  }

  lemma CallIsItsDispatch(c: Call)
    ensures Dispatch(DispatchOf(c).head, c.args) == DispatchOf(c)
  {
  }

  lemma PartArrived(d: seq<Byte>, tail: seq<Byte>, frame: seq<Byte>, rest: seq<Byte>)
    requires d + tail == frame + rest && |d| <= |frame|
    ensures d == frame[..|d|] && tail == frame[|d|..] + rest
  {
    SplitBytes(d, tail, |d|);
    SplitBytes(frame, rest, |d|);
    assert d[..|d|] == d && d[|d|..] + tail == tail;
  }

  lemma PartFrame(before: seq<Byte>, d: seq<Byte>, seen: set<nat>, pieces: seq<seq<Byte>>, calls: seq<Call>)
    requires AllSendable(calls) && AllUtf8(calls) && ShortHeaders(calls) && d + Join(pieces) == FramesOf(calls)
    requires |before| + |FramesOf(calls)| < TWO_32 && forall x :: x in seen ==> x < |before|
    requires calls != [] && 0 < |d| < |FrameOf(calls[0])|
    ensures !Recovers(before, d, seen, pieces, calls)
  {
    hide Recovers, FrameOf, TurnAt, DispatchOf, Sendable, Utf8Names, HeaderBytes;
    var c, k := calls[0], |d|;
    PartArrived(d, Join(pieces), FrameOf(c), FramesOf(calls[1..]));
    hide FramesOf, Join, AllSendable, AllUtf8, ShortHeaders;
    PartialTurn(before, c, k);
    OneTurn(before, d, seen, pieces, calls);
    var turn := TurnAt(before + d, |before|);
    if turn.Request? && Dispatch(turn.head, turn.args) == DispatchOf(c) {
      assert [] + Join(pieces) == Join(pieces);
      TailIsShort(calls);
      ZerosNeverRecover([], [], {}, pieces, calls[1..], |FrameOf(c)| - k);
    }
  }

  /** A stream of calls with headers shorter than 32 KiB, cut into any number of deliveries anywhere: all of them
      are drained and dispatch together, sooner or later, exactly the calls of the stream, if and only if every cut is
      at a frame boundary. */
  lemma CutsAreHarmlessIff(pieces: seq<seq<Byte>>, calls: seq<Call>)
    requires AllSendable(calls) && AllUtf8(calls) && ShortHeaders(calls)
    requires Join(pieces) == FramesOf(calls) && |FramesOf(calls)| < TWO_32
    ensures AllDrained(pieces) && DeliverAll(pieces) == DispatchesOf(calls) <==> CutAtBoundaries(pieces, calls, 0)
  {
    hide AllSendable, AllUtf8, ShortHeaders, FramesOf, AllDrained, DispatchesOf, CutAtBoundaries;
    assert [] + Join(pieces) == Join(pieces);
    RecoversIff([], [], {}, pieces, calls);
    RecoversAtStart(pieces, calls);
    NothingArrived(calls);
  }

  lemma RecoversAtStart(pieces: seq<seq<Byte>>, calls: seq<Call>)
    ensures Recovers([], [], {}, pieces, calls) <==> AllDrained(pieces) && DeliverAll(pieces) == DispatchesOf(calls)
  {
    hide AllDrained, DeliverAll, DispatchesOf, Deliver;
    ghost var nothing: seq<Byte> := [];
    assert nothing + nothing == nothing;
    assert [] + DeliverAll(pieces) == DeliverAll(pieces);
  }
}
