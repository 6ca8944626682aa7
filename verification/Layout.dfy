/** The bytes the generated serializers write, tag by tag. */
module Layout {
  import opened Wrappers
  import opened Bytes
  import opened Wire
  import opened Messages
  import opened Codec
  import opened Objects
  import RpcHeader

  /** A tag of one byte, a length and that many bytes. */
  function Delimited(tag: Byte, bs: seq<Byte>): seq<Byte>
  {
    [tag] + EncodeVarint(|bs|) + bs
  }

  function StringBytes(tag: Byte, s: seq<Byte>): seq<Byte>
  {
    if s == [] then [] else Delimited(tag, s)
  }

  /** A tag of one byte and a number as a 64-bit varint. */
  function Int(tag: Byte, x: int): seq<Byte>
    requires Int32(x)
  {
    [tag] + EncodeVarint(if x < 0 then x + 0x1_0000_0000_0000_0000 else x)
  }

  function IntBytes(tag: Byte, x: int): seq<Byte>
    requires Int32(x)
  {
    if x == 0 then [] else Int(tag, x)
  }

  function ErrorBytes(m: ErrorValue): seq<Byte>
    requires Int32(m.code)
  {
    IntBytes(8, m.code) + StringBytes(18, m.reason) + EncodeFields(m.unknown)
  }

  function ResultBytes(m: ResultValue): seq<Byte>
    requires Int32(m.id)
  {
    IntBytes(8, m.id) + EncodeFields(m.unknown)
  }

  function QunzuBytes(qunzu: map<int, seq<Byte>>, order: seq<int>): seq<Byte>
    requires forall k :: k in order ==> k in qunzu && Int32(k)
  {
    if order == [] then []
    else Delimited(34, Int(8, order[0]) + Delimited(18, qunzu[order[0]])) + QunzuBytes(qunzu, order[1..])
  }

  function ResBytes(res: seq<ResultValue>): seq<Byte>
    requires forall r :: r in res ==> Int32(r.id)
  {
    if res == [] then [] else Delimited(42, ResultBytes(res[0])) + ResBytes(res[1..])
  }

  lemma SmallTags()
    ensures EncodeTag(1, 0) == [8] && EncodeTag(1, 2) == [10] && EncodeTag(2, 2) == [18] && EncodeTag(3, 0) == [24]
    ensures EncodeTag(4, 2) == [34] && EncodeTag(5, 2) == [42]
  {
  }

  lemma DelimitedLayout(num: nat, bs: seq<Byte>)
    requires 0 < num < 16
    ensures EncodeField(Len(num, bs)) == Delimited(num * 8 + 2, bs)
    ensures EncodeFields(BytesField(num, bs)) == StringBytes(num * 8 + 2, bs)
  {
    EncodeNothing();
    EncodeOne(Len(num, bs));
    assert EncodeTag(num, 2) == [num * 8 + 2];
  }

  lemma IntLayout(x: int)
    requires Int32(x)
    ensures EncodeField(Varint(1, SignExtend(x))) == Int(8, x)
    ensures EncodeFields(IntField(1, x)) == IntBytes(8, x)
  {
    EncodeNothing();
    SmallTags();
    EncodeOne(Varint(1, SignExtend(x)));
  }

  lemma ErrorLayout(m: ErrorValue)
    requires Int32(m.code)
    ensures EncodeError(m) == ErrorBytes(m)
  {
    hide EncodeFields, IntBytes, StringBytes;
    ErrorPieces(m);
    IntLayout(m.code);
    DelimitedLayout(2, m.reason);
  }

  lemma ResultLayout(m: ResultValue)
    requires Int32(m.id)
    ensures EncodeResult(m) == ResultBytes(m)
  {
    hide EncodeFields, IntBytes;
    EncodeFieldsConcat(IntField(1, m.id), m.unknown);
    IntLayout(m.id);
  }

  lemma EntryLayout(key: int, value: seq<Byte>)
    requires Int32(key)
    ensures EncodeField(EntryField(key, value)) == Delimited(34, Int(8, key) + Delimited(18, value))
  {
    hide EncodeFields, EncodeField, Delimited, Int;
    var fs := EntryFields(key, value);
    assert fs == [fs[0]] + [fs[1]];
    EncodeFieldsConcat([fs[0]], [fs[1]]);
    EncodeOne(fs[0]);
    EncodeOne(fs[1]);
    IntLayout(key);
    DelimitedLayout(2, value);
    DelimitedLayout(4, EncodeFields(fs));
  }

  lemma {:induction false} QunzuLayout(qunzu: map<int, seq<Byte>>, order: seq<int>)
    requires forall k :: k in order ==> k in qunzu && Int32(k)
    ensures EncodeFields(QunzuPart(qunzu, order)) == QunzuBytes(qunzu, order)
    decreases order
  {
    EncodeNothing();
    if order != [] {
      var first, rest := EntryField(order[0], qunzu[order[0]]), QunzuPart(qunzu, order[1..]);
      hide EncodeFields, EncodeField, Delimited, Int, EntryField;
      EntryLayout(order[0], qunzu[order[0]]);
      QunzuLayout(qunzu, order[1..]);
      EncodeFieldsConcat([first], rest);
      EncodeOne(first);
    }
  }

  lemma {:induction false} ResLayout(res: seq<ResultValue>)
    requires forall r :: r in res ==> Int32(r.id)
    ensures EncodeFields(ResPart(res)) == ResBytes(res)
    decreases res
  {
    EncodeNothing();
    if res != [] {
      var first, rest := Len(5, EncodeResult(res[0])), ResPart(res[1..]);
      assert ResPart(res) == [first] + rest;
      hide EncodeFields, EncodeField, Delimited, EncodeResult, ResultBytes, ResPart;
      ResultLayout(res[0]);
      ResLayout(res[1..]);
      EncodeFieldsConcat([first], rest);
      EncodeOne(first);
      DelimitedLayout(5, EncodeResult(res[0]));
    }
  }

  lemma PartsAreInRange(m: ResponseValue, order: seq<int>)
    requires Writable(m) && IsOrder(order, m.qunzu.Keys)
    ensures forall k :: k in order ==> k in m.qunzu && Int32(k)
    ensures m.err.Some? ==> Int32(m.err.value.code)
    ensures forall r :: r in m.res ==> Int32(r.id)
  {
  }

  /** Everything a Response is written as, field by field, when the map is visited in `order`. */
  lemma ResponseLayout(m: ResponseValue, order: seq<int>)
    requires Writable(m) && IsOrder(order, m.qunzu.Keys)
    ensures EncodeResponse(m, order) ==
            (if m.err.Some? then Delimited(10, ErrorBytes(m.err.value)) else [])
            + StringBytes(18, m.pwd)
            + (if m.isOnline then [24, 1] else [])
            + QunzuBytes(m.qunzu, order)
            + ResBytes(m.res)
            + EncodeFields(m.unknown)
  {
    hide *;
    PartsAreInRange(m, order);
    ResponsePieces(m, order);
    OnlineLayout(m.isOnline);
    ErrLayout(m.err);
    DelimitedLayout(2, m.pwd);
    QunzuLayout(m.qunzu, order);
    ResLayout(m.res);
  }

  lemma OnlineLayout(isOnline: bool)
    ensures EncodeFields(OnlinePart(isOnline)) == if isOnline then [24, 1] else []
  {
    EncodeNothing();
    SmallTags();
    EncodeOne(Varint(3, 1));
  }

  lemma ErrLayout(err: Option<ErrorValue>)
    requires err.Some? ==> Int32(err.value.code)
    ensures EncodeFields(ErrPart(err)) == if err.Some? then Delimited(10, ErrorBytes(err.value)) else []
  {
    EncodeNothing();
    if err.Some? {
      var payload := EncodeError(err.value);
      assert ErrPart(err) == [Len(1, payload)];
      hide EncodeFields, EncodeField, Delimited, EncodeError, ErrorBytes, ErrPart;
      ErrorLayout(err.value);
      EncodeOne(Len(1, payload));
      DelimitedLayout(1, payload);
    }
  }

  lemma HeaderLayout(service: seq<Byte>, name: seq<Byte>, argsSize: nat)
    ensures RpcHeader.EncodeHeader(service, name, argsSize) ==
            StringBytes(10, service) + StringBytes(18, name)
            + if argsSize == 0 then [] else [24] + EncodeVarint(argsSize)
  {
    var a, b, c := BytesField(1, service), BytesField(2, name), RpcHeader.SizeField(argsSize);
    SmallTags();
    EncodeNothing();
    EncodeOne(Varint(3, argsSize));
    assert EncodeFields(c) == if argsSize == 0 then [] else [24] + EncodeVarint(argsSize);
    hide EncodeFields, StringBytes, BytesField, RpcHeader.SizeField;
    EncodeFieldsConcat(a, b + c);
    EncodeFieldsConcat(b, c);
    DelimitedLayout(1, service);
    DelimitedLayout(2, name);
  }

  lemma OneMoreByte(n: nat)
    requires n > 0
    ensures EncodeVarint(128 * n + 127) == [255] + EncodeVarint(n)
  {
    assert (128 * n + 127) % 128 == 127 && (128 * n + 127) / 128 == n;
  }

  lemma VarintOfOne()
    ensures EncodeVarint(1) == [1]
  {
  }

  /** The id -1 is written in eleven bytes. */
  lemma MinusOne()
    ensures EncodeResult(ResultValue(-1, [])) == [8, 255, 255, 255, 255, 255, 255, 255, 255, 255, 1]
  {
    EncodeNothing();
    hide EncodeVarint, EncodeFields, EncodeResult;
    ResultLayout(ResultValue(-1, []));
    VarintOfOne();
    OneMoreByte(1);
    OneMoreByte(0xFF);
    OneMoreByte(0x7FFF);
    OneMoreByte(0x3F_FFFF);
    OneMoreByte(0x1FFF_FFFF);
    OneMoreByte(0xF_FFFF_FFFF);
    OneMoreByte(0x7FF_FFFF_FFFF);
    OneMoreByte(0x3_FFFF_FFFF_FFFF);
    OneMoreByte(0x1FF_FFFF_FFFF_FFFF);
  }
}
