/** The protobuf wire format: base-128 varints, tags and the five record types
    (Protocol Buffers Encoding, sections "Base 128 Varints" and "Message Structure").
    The generated code calls these through ReadTag, ReadVarint32/64, ReadSize and UnknownFieldParse. */
module Wire {
  import opened Wrappers
  import opened Bytes

  const TWO_32: nat := 0x1_0000_0000
  const TWO_64: nat := 0x1_0000_0000_0000_0000
  /** Length prefixes are below 2 GiB; larger ones make ReadSize fail. */
  const MAX_LENGTH: nat := 0x8000_0000

  // ---------- varints ----------

  function EncodeVarint(n: nat): (bs: seq<Byte>)
    ensures |bs| > 0
  {
    if n < 128 then [n] else [n % 128 + 128] + EncodeVarint(n / 128)
  }

  /** Reads a varint of at most `max` bytes: its unbounded value and the number of bytes read. */
  function DecodeVarint(bs: seq<Byte>, max: nat): (r: Option<(nat, nat)>)
    ensures r.Some? ==> 1 <= r.value.1 <= |bs|
  {
    if max == 0 || bs == [] then None
    else if bs[0] < 128 then Some((bs[0], 1))
    else
      match DecodeVarint(bs[1..], max - 1)
      case None => None
      case Some((v, n)) => Some((bs[0] - 128 + 128 * v, n + 1))
  }

  function Pow128(k: nat): (r: nat)
    ensures r > 0
  {
    if k == 0 then 1 else 128 * Pow128(k - 1)
  }

  lemma {:induction false} VarintRoundTrip(n: nat, max: nat, rest: seq<Byte>)
    requires 0 < max && n < Pow128(max)
    ensures DecodeVarint(EncodeVarint(n) + rest, max) == Some((n, |EncodeVarint(n)|))
  {
    if n >= 128 {
      var bs := EncodeVarint(n) + rest;
      VarintRoundTrip(n / 128, max - 1, rest);
      assert bs[0] == n % 128 + 128 && bs[1..] == EncodeVarint(n / 128) + rest;
    }
  }

  /** CodedOutputStream::VarintSize32/64 as thresholds. */
  function VarintSize(n: nat): (size: nat)
    requires n < TWO_64
  {
    if n < 0x80 then 1
    else if n < 0x4000 then 2
    else if n < 0x20_0000 then 3
    else if n < 0x1000_0000 then 4
    else if n < 0x8_0000_0000 then 5
    else if n < 0x400_0000_0000 then 6
    else if n < 0x2_0000_0000_0000 then 7
    else if n < 0x100_0000_0000_0000 then 8
    else if n < 0x8000_0000_0000_0000 then 9
    else 10
  }

  lemma {:induction false} VarintSizeIsLength(n: nat)
    requires n < TWO_64
    ensures |EncodeVarint(n)| == VarintSize(n)
  {
    if n >= 128 {
      VarintSizeIsLength(n / 128);
    }
  }

  lemma PowersOf128()
    ensures Pow128(5) == 0x8_0000_0000
    ensures Pow128(10) == 64 * TWO_64
  {
    assert Pow128(1) == 128;
    assert Pow128(2) == 0x4000;
    assert Pow128(3) == 0x20_0000;
    assert Pow128(4) == 0x1000_0000;
    assert Pow128(5) == 0x8_0000_0000;
    assert Pow128(6) == 0x400_0000_0000;
    assert Pow128(7) == 0x2_0000_0000_0000;
    assert Pow128(8) == 0x100_0000_0000_0000;
    assert Pow128(9) == 0x8000_0000_0000_0000;
  }

  // ---------- the readers used by the generated code ----------

  /** ReadTag: at most five bytes, kept in 32 bits. */
  function ReadTag(bs: seq<Byte>): (r: Option<(nat, nat)>)
    ensures r.Some? ==> r.value.0 < TWO_32 && 1 <= r.value.1 <= |bs|
  {
    match DecodeVarint(bs, 5)
    case None => None
    case Some((v, n)) => Some((v % TWO_32, n))
  }

  /** ReadVarint64: at most ten bytes, kept in 64 bits. */
  function ReadVarint64(bs: seq<Byte>): (r: Option<(nat, nat)>)
    ensures r.Some? ==> r.value.0 < TWO_64 && 1 <= r.value.1 <= |bs|
  {
    match DecodeVarint(bs, 10)
    case None => None
    case Some((v, n)) => Some((v % TWO_64, n))
  }

  /** A length prefix followed by that many bytes: the payload and the number of bytes read. */
  function ReadDelimited(bs: seq<Byte>): (r: Option<(seq<Byte>, nat)>)
    ensures r.Some? ==> |r.value.0| < MAX_LENGTH && 1 <= r.value.1 <= |bs|
    ensures r.Some? ==> |r.value.0| < r.value.1 && r.value.0 == bs[r.value.1 - |r.value.0|..r.value.1]
  {
    match DecodeVarint(bs, 5)
    case None => None
    case Some((size, n)) =>
      if size < MAX_LENGTH && n + size <= |bs| then Some((bs[n..n + size], n + size)) else None
  }

  /** The first byte without its top bit set is the n-th. */
  predicate EndsAt(bs: seq<Byte>, n: nat)
  {
    0 < n <= |bs| && bs[n - 1] < 128 && forall i :: 0 <= i < n - 1 ==> bs[i] >= 128
  }

  /** The value of groups of seven bits, least significant first. */
  function Groups(bs: seq<Byte>): nat
  {
    if bs == [] then 0 else Groups(bs[1..]) * 128 + bs[0] % 128
  }

  lemma {:induction false} VarintIff(bs: seq<Byte>, max: nat, n: nat)
    ensures DecodeVarint(bs, max).Some? && DecodeVarint(bs, max).value.1 == n <==> n <= max && EndsAt(bs, n)
    ensures n <= max && EndsAt(bs, n) ==> DecodeVarint(bs, max).value.0 == Groups(bs[..n])
    decreases max
  {
    if max > 0 && bs != [] && bs[0] >= 128 && n > 0 {
      VarintIff(bs[1..], max - 1, n - 1);
      assert EndsAt(bs, n) <==> n > 1 && EndsAt(bs[1..], n - 1) by {
        if n > 1 && EndsAt(bs[1..], n - 1) {
          assert forall i :: 0 < i < n - 1 ==> bs[i] == bs[1..][i - 1];
        }
      }
      if EndsAt(bs, n) {
        assert bs[..n][1..] == bs[1..][..n - 1];
      }
    } else if n == 1 && bs != [] {
      assert Groups(bs[..1]) == Groups(bs[..1][1..]) * 128 + bs[0] % 128;
    }
  }

  /** The three readers, for every input: a tag takes at most five bytes and 32 bits, a number ten bytes and 64 bits,
      and a length is below 2 GiB and has all its bytes behind it. */
  lemma ReadersIff(bs: seq<Byte>, n: nat)
    ensures ReadTag(bs).Some? && ReadTag(bs).value.1 == n <==> n <= 5 && EndsAt(bs, n)
    ensures n <= 5 && EndsAt(bs, n) ==> ReadTag(bs).value.0 == Groups(bs[..n]) % 0x1_0000_0000
    ensures ReadVarint64(bs).Some? && ReadVarint64(bs).value.1 == n <==> n <= 10 && EndsAt(bs, n)
    ensures n <= 10 && EndsAt(bs, n) ==> ReadVarint64(bs).value.0 == Groups(bs[..n]) % 0x1_0000_0000_0000_0000
    ensures EndsAt(bs, n) ==>
              var size := Groups(bs[..n]);
              ReadDelimited(bs) ==
              if n <= 5 && size < 0x8000_0000 && n + size <= |bs| then Some((bs[n..n + size], n + size)) else None
  {
    hide Groups, EndsAt, DecodeVarint;
    VarintIff(bs, 5, n);
    VarintIff(bs, 10, n);
    if EndsAt(bs, n) && DecodeVarint(bs, 5).Some? {
      VarintIff(bs, 5, DecodeVarint(bs, 5).value.1);
      OneEnd(bs, n, DecodeVarint(bs, 5).value.1);
    }
  }

  lemma OneEnd(bs: seq<Byte>, n: nat, m: nat)
    requires EndsAt(bs, n) && EndsAt(bs, m)
    ensures n == m
  {
  }

  // ---------- records ----------

  datatype Field =
    | Varint(num: nat, value: nat)
    | Fixed64(num: nat, bits: seq<Byte>)
    | Len(num: nat, payload: seq<Byte>)
    | Group(num: nat, body: seq<Field>)
    | Fixed32(num: nat, bits: seq<Byte>)

  function EncodeTag(num: nat, wireType: nat): seq<Byte>
  {
    EncodeVarint(num * 8 + wireType)
  }

  function EncodeDelimited(payload: seq<Byte>): seq<Byte>
  {
    EncodeVarint(|payload|) + payload
  }

  function EncodeField(f: Field): (bs: seq<Byte>)
    ensures |bs| > 0
  {
    match f
    case Varint(num, value) => EncodeTag(num, 0) + EncodeVarint(value)
    case Fixed64(num, bits) => EncodeTag(num, 1) + bits
    case Len(num, payload) => EncodeTag(num, 2) + EncodeDelimited(payload)
    case Group(num, body) => EncodeTag(num, 3) + EncodeFields(body) + EncodeTag(num, 4)
    case Fixed32(num, bits) => EncodeTag(num, 5) + bits
  }

  function EncodeFields(fs: seq<Field>): seq<Byte>
  {
    if fs == [] then [] else EncodeField(fs[0]) + EncodeFields(fs[1..])
  }

  lemma EncodeNothing()
    ensures EncodeFields([]) == []
  {
  }

  lemma {:induction false} EncodeFieldsConcat(a: seq<Field>, b: seq<Field>)
    ensures EncodeFields(a + b) == EncodeFields(a) + EncodeFields(b)
  {
    hide EncodeField;
    if a == [] {
      assert a + b == b;
    } else {
      EncodeFieldsConcat(a[1..], b);
      assert (a + b)[1..] == a[1..] + b;
    }
  }

  /** One record at the front of `bs` and its length in bytes. */
  function DecodeField(bs: seq<Byte>, depth: nat): (r: Option<(Field, nat)>)
    ensures r.Some? ==> 1 <= r.value.1 <= |bs|
    decreases |bs|, 0
  {
    match ReadTag(bs)
    case None => None
    case Some((tag, n)) =>
      match DecodePayload(tag / 8, tag % 8, bs[n..], depth)
      case None => None
      case Some((f, k)) => Some((f, n + k))
  }

  /** What follows a tag. A zero field number, an end-group tag, an unknown wire type, truncated data and
      groups nested deeper than `depth` all fail. */
  function DecodePayload(num: nat, wireType: nat, bs: seq<Byte>, depth: nat): (r: Option<(Field, nat)>)
    ensures r.Some? ==> r.value.1 <= |bs|
    decreases |bs|, 2
  {
    if num == 0 then None
    else if wireType == 0 then
      match ReadVarint64(bs)
      case None => None
      case Some((v, k)) => Some((Varint(num, v), k))
    else if wireType == 1 then
      if |bs| < 8 then None else Some((Fixed64(num, bs[..8]), 8))
    else if wireType == 2 then
      match ReadDelimited(bs)
      case None => None
      case Some((p, k)) => Some((Len(num, p), k))
    else if wireType == 3 then
      if depth == 0 then None else
      match DecodeGroup(bs, num, depth - 1)
      case None => None
      case Some((body, k)) => Some((Group(num, body), k))
    else if wireType == 5 then
      if |bs| < 4 then None else Some((Fixed32(num, bs[..4]), 4))
    else None
  }

  /** The records of a group up to and including its end tag, which must carry the group's number. */
  function DecodeGroup(bs: seq<Byte>, num: nat, depth: nat): (r: Option<(seq<Field>, nat)>)
    ensures r.Some? ==> 1 <= r.value.1 <= |bs|
    decreases |bs|, 1
  {
    match ReadTag(bs)
    case None => None
    case Some((tag, n)) =>
      if tag % 8 == 4 then (if tag / 8 == num then Some(([], n)) else None)
      else
        match DecodeField(bs, depth)
        case None => None
        case Some((f, k)) =>
          match DecodeGroup(bs[k..], num, depth)
          case None => None
          case Some((body, j)) => Some(([f] + body, k + j))
  }

  /** Records that fit the wire format, with groups nested at most `depth` deep. */
  predicate WellFormed(f: Field, depth: nat)
    decreases f, 0
  {
    && 1 <= f.num < TWO_32 / 8
    && match f
       case Varint(_, value) => value < TWO_64
       case Fixed64(_, bits) => |bits| == 8
       case Len(_, payload) => |payload| < MAX_LENGTH
       case Group(_, body) => depth > 0 && AllWellFormed(body, depth - 1)
       case Fixed32(_, bits) => |bits| == 4
  }

  predicate AllWellFormed(fs: seq<Field>, depth: nat)
    decreases fs, 1
  {
    forall i :: 0 <= i < |fs| ==> WellFormed(fs[i], depth)
  }

  lemma TagRoundTrip(num: nat, wireType: nat, rest: seq<Byte>)
    requires num < TWO_32 / 8 && wireType < 8
    ensures var bs := EncodeTag(num, wireType) + rest;
            && ReadTag(bs) == Some((num * 8 + wireType, |EncodeTag(num, wireType)|))
            && bs[|EncodeTag(num, wireType)|..] == rest
  {
    PowersOf128();
    VarintRoundTrip(num * 8 + wireType, 5, rest);
  }

  lemma DelimitedRoundTrip(payload: seq<Byte>, rest: seq<Byte>)
    requires |payload| < MAX_LENGTH
    ensures ReadDelimited(EncodeDelimited(payload) + rest) == Some((payload, |EncodeDelimited(payload)|))
  {
    PowersOf128();
    VarintRoundTrip(|payload|, 5, payload + rest);
    assert EncodeDelimited(payload) + rest == EncodeVarint(|payload|) + (payload + rest);
  }

  function WireType(f: Field): nat
  {
    match f
    case Varint(_, _) => 0
    case Fixed64(_, _) => 1
    case Len(_, _) => 2
    case Group(_, _) => 3
    case Fixed32(_, _) => 5
  }

  function EncodePayload(f: Field): seq<Byte>
  {
    match f
    case Varint(_, value) => EncodeVarint(value)
    case Fixed64(_, bits) => bits
    case Len(_, payload) => EncodeDelimited(payload)
    case Group(num, body) => EncodeFields(body) + EncodeTag(num, 4)
    case Fixed32(_, bits) => bits
  }

  lemma SplitField(f: Field, rest: seq<Byte>)
    ensures EncodeField(f) == EncodeTag(f.num, WireType(f)) + EncodePayload(f)
    ensures EncodeField(f) + rest == EncodeTag(f.num, WireType(f)) + (EncodePayload(f) + rest)
  {
  }

  /** Whatever follows it, an encoded record is read back whole. */
  lemma {:induction false} FieldRoundTrip(f: Field, depth: nat, rest: seq<Byte>)
    requires WellFormed(f, depth)
    ensures DecodeField(EncodeField(f) + rest, depth) == Some((f, |EncodeField(f)|))
    decreases f, 1
  {
    hide EncodeField, EncodePayload, EncodeTag, DecodePayload, ReadTag, AllWellFormed;
    SplitField(f, rest);
    TagRoundTrip(f.num, WireType(f), EncodePayload(f) + rest);
    PayloadRoundTrip(f, depth, rest);
  }

  lemma {:induction false} PayloadRoundTrip(f: Field, depth: nat, rest: seq<Byte>)
    requires WellFormed(f, depth)
    ensures DecodePayload(f.num, WireType(f), EncodePayload(f) + rest, depth) == Some((f, |EncodePayload(f)|))
    decreases f, 0
  {
    match f
    case Varint(_, value) =>
      PowersOf128();
      VarintRoundTrip(value, 10, rest);
    case Len(_, payload) =>
      DelimitedRoundTrip(payload, rest);
    case Group(num, body) =>
      GroupRoundTrip(body, num, depth - 1, rest);
    case Fixed64(_, bits) =>
    case Fixed32(_, bits) =>
  }

  lemma {:induction false} GroupRoundTrip(body: seq<Field>, num: nat, depth: nat, rest: seq<Byte>)
    requires num < TWO_32 / 8 && AllWellFormed(body, depth)
    ensures DecodeGroup(EncodeFields(body) + EncodeTag(num, 4) + rest, num, depth)
            == Some((body, |EncodeFields(body) + EncodeTag(num, 4)|))
    decreases body, 2
  {
    hide DecodePayload, DecodeField, EncodeField, EncodeTag;
    var tag := EncodeTag(num, 4);
    if body == [] {
      assert EncodeFields(body) + tag + rest == tag + rest;
      assert EncodeFields(body) + tag == tag;
      TagRoundTrip(num, 4, rest);
    } else {
      var head, last := EncodeField(body[0]), EncodeFields(body[1..]) + tag;
      assert EncodeFields(body) + tag == head + last;
      assert EncodeFields(body) + tag + rest == head + (last + rest);
      hide EncodeFields, DecodeGroup, ReadTag;
      GroupRoundTrip(body[1..], num, depth, rest);
      GroupTurn(body[0], head, last + rest, body[1..], |last|, num, depth);
      assert [body[0]] + body[1..] == body;
    }
  }

  lemma {:induction false} GroupTurn(f: Field, head: seq<Byte>, tail: seq<Byte>, body: seq<Field>, j: nat, num: nat,
                                     depth: nat)
    requires WellFormed(f, depth) && head == EncodeField(f)
    requires DecodeGroup(tail, num, depth) == Some((body, j))
    ensures DecodeGroup(head + tail, num, depth) == Some(([f] + body, |head| + j))
    decreases f, 3
  {
    hide EncodeField, DecodeField, DecodePayload, ReadTag, AllWellFormed, DecodeGroup;
    var bs := head + tail;
    FieldRoundTrip(f, depth, tail);
    FieldTag(f, tail);
    assert bs[|head|..] == tail;
    GroupStep(bs, f, |head|, body, j, num, depth);
  }

  /** One turn of the group loop over a record that is not the end tag. */
  lemma GroupStep(bs: seq<Byte>, f: Field, k: nat, body: seq<Field>, j: nat, num: nat, depth: nat)
    requires ReadTag(bs).Some? && ReadTag(bs).value.0 % 8 != 4
    requires DecodeField(bs, depth) == Some((f, k))
    requires DecodeGroup(bs[k..], num, depth) == Some((body, j))
    ensures DecodeGroup(bs, num, depth) == Some(([f] + body, k + j))
  {
  }

  /** An encoded record never starts with an end-group tag. */
  lemma FieldTag(f: Field, rest: seq<Byte>)
    requires f.num < TWO_32 / 8
    ensures ReadTag(EncodeField(f) + rest) == Some((f.num * 8 + WireType(f), |EncodeTag(f.num, WireType(f))|))
  {
    SplitField(f, rest);
    TagRoundTrip(f.num, WireType(f), EncodePayload(f) + rest);
  }

  /** Everything the decoder returns is well formed, so it can be written again. */
  lemma {:induction false} DecodedIsWellFormed(bs: seq<Byte>, depth: nat)
    ensures var r := DecodeField(bs, depth); r.Some? ==> WellFormed(r.value.0, depth)
    decreases |bs|, 0
  {
    var t := ReadTag(bs);
    if t.Some? && t.value.0 % 8 == 3 && depth > 0 {
      GroupIsWellFormed(bs[t.value.1..], t.value.0 / 8, depth - 1);
    }
  }

  lemma {:induction false} GroupIsWellFormed(bs: seq<Byte>, num: nat, depth: nat)
    ensures var r := DecodeGroup(bs, num, depth); r.Some? ==> AllWellFormed(r.value.0, depth)
    decreases |bs|, 1
  {
    var t := ReadTag(bs);
    if t.Some? && t.value.0 % 8 != 4 {
      DecodedIsWellFormed(bs, depth);
      var f := DecodeField(bs, depth);
      if f.Some? {
        GroupIsWellFormed(bs[f.value.1..], num, depth);
      }
    }
  }

  // ---------- how deep groups may be nested ----------

  lemma {:induction false} DeeperIsEnough(bs: seq<Byte>, depth: nat, more: nat)
    requires depth <= more && DecodeField(bs, depth).Some?
    ensures DecodeField(bs, more) == DecodeField(bs, depth)
    decreases |bs|, 0
  {
    hide DecodeGroup;
    var (tag, n) := ReadTag(bs).value;
    if tag % 8 == 3 {
      DeeperGroup(bs[n..], tag / 8, depth - 1, more - 1);
    }
  }

  lemma {:induction false} DeeperGroup(bs: seq<Byte>, num: nat, depth: nat, more: nat)
    requires depth <= more && DecodeGroup(bs, num, depth).Some?
    ensures DecodeGroup(bs, num, more) == DecodeGroup(bs, num, depth)
    decreases |bs|, 1
  {
    hide DecodeField;
    if ReadTag(bs).value.0 % 8 != 4 {
      DeeperIsEnough(bs, depth, more);
      DeeperGroup(bs[DecodeField(bs, depth).value.1..], num, depth, more);
    }
  }

  /** A number inside n groups. */
  function Nested(n: nat): Field
  {
    if n == 0 then Varint(1, 0) else Group(1, [Nested(n - 1)])
  }

  lemma {:induction false} NestedIsWellFormed(n: nat, depth: nat)
    ensures WellFormed(Nested(n), depth) <==> n <= depth
  {
    if n > 0 && depth > 0 {
      NestedIsWellFormed(n - 1, depth - 1);
      assert [Nested(n - 1)][0] == Nested(n - 1);
    }
  }

  /** Groups are read as deep as the budget allows, and no deeper. */
  lemma NestingIsLimited(n: nat, depth: nat)
    ensures DecodeField(EncodeField(Nested(n)), depth).Some? <==> n <= depth
  {
    hide DecodeField, EncodeField, WellFormed;
    var bs := EncodeField(Nested(n));
    assert bs + [] == bs;
    NestedIsWellFormed(n, n);
    NestedIsWellFormed(n, depth);
    FieldRoundTrip(Nested(n), n, []);
    if n <= depth {
      FieldRoundTrip(Nested(n), depth, []);
    } else if DecodeField(bs, depth).Some? {
      DeeperIsEnough(bs, depth, n);
      DecodedIsWellFormed(bs, depth);
    }
  }

  // ---------- message parsing as a fold over records ----------

  /** The parse loop shared by all generated messages: decode a record, apply it, go on until the limit. */
  function Parse<M>(apply: (M, Field, nat) -> Option<M>, m: M, bs: seq<Byte>, depth: nat): (r: Option<M>)
    decreases |bs|
  {
    if bs == [] then Some(m)
    else
      match DecodeField(bs, depth)
      case None => None
      case Some((f, n)) =>
        match apply(m, f, depth)
        case None => None
        case Some(m') => Parse(apply, m', bs[n..], depth)
  }

  function ApplyAll<M>(apply: (M, Field, nat) -> Option<M>, m: M, fs: seq<Field>, depth: nat): (r: Option<M>)
  {
    if fs == [] then Some(m)
    else
      match apply(m, fs[0], depth)
      case None => None
      case Some(m') => ApplyAll(apply, m', fs[1..], depth)
  }

  lemma {:induction false} ApplyAllConcat<M>(apply: (M, Field, nat) -> Option<M>, m: M, a: seq<Field>, b: seq<Field>,
                                             depth: nat)
    ensures ApplyAll(apply, m, a + b, depth) ==
            match ApplyAll(apply, m, a, depth) { case None => None case Some(m') => ApplyAll(apply, m', b, depth) }
  {
    if a == [] {
      assert a + b == b;
    } else {
      assert (a + b)[1..] == a[1..] + b;
      match apply(m, a[0], depth)
      case None =>
      case Some(m') => ApplyAllConcat(apply, m', a[1..], b, depth);
    }
  }

  /** Parsing encoded records followed by anything applies the records, then parses the rest. */
  lemma {:induction false} ParseEncoded<M>(apply: (M, Field, nat) -> Option<M>, m: M, fs: seq<Field>, rest: seq<Byte>,
                                           depth: nat)
    requires AllWellFormed(fs, depth)
    ensures Parse(apply, m, EncodeFields(fs) + rest, depth) ==
            match ApplyAll(apply, m, fs, depth) { case None => None case Some(m') => Parse(apply, m', rest, depth) }
  {
    if fs == [] {
      assert EncodeFields(fs) + rest == rest;
    } else {
      var tail := EncodeFields(fs[1..]) + rest;
      assert EncodeFields(fs) + rest == EncodeField(fs[0]) + tail;
      FieldRoundTrip(fs[0], depth, tail);
      assert (EncodeField(fs[0]) + tail)[|EncodeField(fs[0])|..] == tail;
      match apply(m, fs[0], depth)
      case None =>
      case Some(m') => ParseEncoded(apply, m', fs[1..], rest, depth);
    }
  }
}
