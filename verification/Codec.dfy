/** The laws of the generated codec: round trip, merging by concatenation, normal forms and sizes. */
module Codec {
  import opened Wrappers
  import opened Bytes
  import opened Utf8
  import opened Wire
  import opened Messages

  /** ParseFromString on a cleared Response. */
  function ParseResponse(bs: seq<Byte>): Option<ResponseValue>
  {
    Parse(ApplyResponse, NO_RESPONSE, bs, ROOT_DEPTH)
  }

  // ---------- what was serialized is well formed ----------

  lemma {:induction false} QunzuPartShape(qunzu: map<int, seq<Byte>>, order: seq<int>)
    requires forall k :: k in order ==> k in qunzu && Int32(k)
    ensures forall i :: 0 <= i < |order| ==> QunzuPart(qunzu, order)[i] == EntryField(order[i], qunzu[order[i]])
  {
    if order != [] {
      QunzuPartShape(qunzu, order[1..]);
    }
  }

  lemma {:induction false} ResPartShape(res: seq<ResultValue>)
    requires forall r :: r in res ==> Int32(r.id)
    ensures forall i :: 0 <= i < |res| ==> ResPart(res)[i] == Len(5, EncodeFields(ResultFields(res[i])))
  {
    if res != [] {
      ResPartShape(res[1..]);
    }
  }

  /** Apart from the unknown ones, the records written are the five fields of the message. */
  lemma WrittenRecords(m: ResponseValue, order: seq<int>, f: Field)
    requires Writable(m) && IsOrder(order, m.qunzu.Keys) && f in ResponseFields(m, order)
    ensures f in m.unknown || f == Varint(3, 1) || (f.Len? && 1 <= f.num <= 5)
  {
    hide DecodeField, DecodePayload, EncodeFields, EncodeField;
    QunzuPartShape(m.qunzu, order);
    ResPartShape(m.res);
    assert f in ErrPart(m.err) || f in BytesField(2, m.pwd) || f in OnlinePart(m.isOnline)
           || f in QunzuPart(m.qunzu, order) || f in ResPart(m.res) || f in m.unknown;
  }

  lemma ResponseFieldsWellFormed(m: ResponseValue, order: seq<int>, depth: nat)
    requires ValidResponse(m, depth) && IsOrder(order, m.qunzu.Keys)
    requires |EncodeResponse(m, order)| < MAX_LENGTH
    ensures AllWellFormed(ResponseFields(m, order), depth)
  {
    hide DecodeField, DecodePayload, EncodeFields, EncodeField, ResponseFields;
    var fs := ResponseFields(m, order);
    forall i | 0 <= i < |fs|
      ensures WellFormed(fs[i], depth)
    {
      WrittenRecords(m, order, fs[i]);
      if fs[i] !in m.unknown && fs[i].Len? {
        PayloadIsShorter(fs, fs[i]);
      }
    }
  }

  // ---------- decoding does not look past what it needs ----------

  lemma {:induction false} VarintPrefix(a: seq<Byte>, b: seq<Byte>, max: nat)
    requires DecodeVarint(a, max).Some?
    ensures DecodeVarint(a + b, max) == DecodeVarint(a, max)
  {
    assert (a + b)[0] == a[0];
    if a[0] >= 128 {
      assert (a + b)[1..] == a[1..] + b;
      VarintPrefix(a[1..], b, max - 1);
    }
  }

  lemma DelimitedPrefix(a: seq<Byte>, b: seq<Byte>)
    requires ReadDelimited(a).Some?
    ensures ReadDelimited(a + b) == ReadDelimited(a)
  {
    VarintPrefix(a, b, 5);
    var (size, n) := DecodeVarint(a, 5).value;
    assert (a + b)[n..n + size] == a[n..n + size];
  }

  lemma {:induction false} FieldPrefix(a: seq<Byte>, b: seq<Byte>, depth: nat)
    requires DecodeField(a, depth).Some?
    ensures DecodeField(a + b, depth) == DecodeField(a, depth)
    decreases |a|, 1
  {
    VarintPrefix(a, b, 5);
    var (tag, n) := ReadTag(a).value;
    assert (a + b)[n..] == a[n..] + b;
    PayloadPrefix(tag / 8, tag % 8, a[n..], b, depth);
  }

  lemma {:induction false} PayloadPrefix(num: nat, wireType: nat, a: seq<Byte>, b: seq<Byte>, depth: nat)
    requires DecodePayload(num, wireType, a, depth).Some?
    ensures DecodePayload(num, wireType, a + b, depth) == DecodePayload(num, wireType, a, depth)
    decreases |a|, 3
  {
    hide DecodeGroup, DecodeField;
    if wireType == 0 {
      VarintPrefix(a, b, 10);
    } else if wireType == 1 {
      assert (a + b)[..8] == a[..8];
    } else if wireType == 2 {
      DelimitedPrefix(a, b);
    } else if wireType == 3 {
      GroupPrefix(a, b, num, depth - 1);
    } else {
      assert (a + b)[..4] == a[..4];
    }
  }

  lemma {:induction false} GroupPrefix(a: seq<Byte>, b: seq<Byte>, num: nat, depth: nat)
    requires DecodeGroup(a, num, depth).Some?
    ensures DecodeGroup(a + b, num, depth) == DecodeGroup(a, num, depth)
    decreases |a|, 2
  {
    hide DecodePayload, DecodeField;
    VarintPrefix(a, b, 5);
    if ReadTag(a).value.0 % 8 != 4 {
      FieldPrefix(a, b, depth);
      var k := DecodeField(a, depth).value.1;
      assert (a + b)[k..] == a[k..] + b;
      GroupPrefix(a[k..], b, num, depth);
    }
  }

  /** Parsing a concatenation goes on from the message its first part produced. */
  lemma {:induction false} ParseConcat<M>(apply: (M, Field, nat) -> Option<M>, m: M, a: seq<Byte>, b: seq<Byte>,
                                          depth: nat)
    requires Parse(apply, m, a, depth).Some?
    ensures Parse(apply, m, a + b, depth) == Parse(apply, Parse(apply, m, a, depth).value, b, depth)
    decreases |a|
  {
    hide DecodePayload, DecodeField;
    if a == [] {
      assert a + b == b;
    } else {
      FieldPrefix(a, b, depth);
      var (f, n) := DecodeField(a, depth).value;
      assert (a + b)[n..] == a[n..] + b;
      ParseConcat(apply, apply(m, f, depth).value, a[n..], b, depth);
    }
  }

  // ---------- round trip and merging ----------

  /** Appending a serialized Response to any bytes that parse merges it into what they mean; the only way
      this can fail is a string that is not UTF-8. */
  lemma AppendedBytesMerge(bs: seq<Byte>, from: ResponseValue, order: seq<int>)
    requires ParseResponse(bs).Some?
    requires ValidResponse(from, ROOT_DEPTH) && IsOrder(order, from.qunzu.Keys)
    requires |EncodeResponse(from, order)| < MAX_LENGTH
    ensures ParseResponse(bs + EncodeResponse(from, order))
            == if Utf8Response(from) then Some(MergeResponse(ParseResponse(bs).value, from)) else None
  {
    hide DecodeField, DecodePayload, EncodeFields;
    var to := ParseResponse(bs).value;
    ParseConcat(ApplyResponse, NO_RESPONSE, bs, EncodeResponse(from, order), ROOT_DEPTH);
    ResponseFieldsWellFormed(from, order, ROOT_DEPTH);
    ParseWhole(ApplyResponse, to, ResponseFields(from, order), ROOT_DEPTH);
    ApplyResponseFields(to, from, order, ROOT_DEPTH);
  }

  /** A Response comes back unchanged exactly when all its strings are UTF-8. */
  lemma RoundTrip(m: ResponseValue, order: seq<int>)
    requires ValidResponse(m, ROOT_DEPTH) && IsOrder(order, m.qunzu.Keys)
    requires |EncodeResponse(m, order)| < MAX_LENGTH
    ensures ParseResponse(EncodeResponse(m, order)) == if Utf8Response(m) then Some(m) else None
  {
    hide DecodeField, DecodePayload, EncodeFields;
    AppendedBytesMerge([], m, order);
    assert [] + EncodeResponse(m, order) == EncodeResponse(m, order);
    MergeIntoEmpty(m);
  }

  lemma MergeIntoEmpty(m: ResponseValue)
    ensures MergeResponse(NO_RESPONSE, m) == m
  {
    assert NO_RESPONSE.qunzu + m.qunzu == m.qunzu;
    assert NO_RESPONSE.res + m.res == m.res;
    assert NO_RESPONSE.unknown + m.unknown == m.unknown;
    if m.err.Some? {
      assert MergeError(NO_ERROR, m.err.value) == m.err.value;
    }
  }

  /** The concatenation of two serialized Responses means their merge. */
  lemma ConcatenationMerges(x: ResponseValue, xs: seq<int>, y: ResponseValue, ys: seq<int>)
    requires ValidResponse(x, ROOT_DEPTH) && IsOrder(xs, x.qunzu.Keys) && |EncodeResponse(x, xs)| < MAX_LENGTH
    requires ValidResponse(y, ROOT_DEPTH) && IsOrder(ys, y.qunzu.Keys) && |EncodeResponse(y, ys)| < MAX_LENGTH
    requires Utf8Response(x)
    ensures ParseResponse(EncodeResponse(x, xs) + EncodeResponse(y, ys))
            == if Utf8Response(y) then Some(MergeResponse(x, y)) else None
  {
    hide DecodeField, DecodePayload, EncodeFields;
    RoundTrip(x, xs);
    AppendedBytesMerge(EncodeResponse(x, xs), y, ys);
  }

  // ---------- every message the parser returns can be written again ----------

  lemma {:induction false} ParsedErrorIsValid(m: ErrorValue, bs: seq<Byte>, depth: nat)
    requires ValidError(m, depth) && ValidUtf8(m.reason)
    ensures var r := Parse(ApplyError, m, bs, depth);
            r.Some? ==> ValidError(r.value, depth) && ValidUtf8(r.value.reason)
    decreases |bs|
  {
    hide DecodePayload, DecodeField, ValidUtf8;
    if bs != [] && DecodeField(bs, depth).Some? {
      DecodedIsWellFormed(bs, depth);
      var (f, n) := DecodeField(bs, depth).value;
      if ApplyError(m, f, depth).Some? {
        ParsedErrorIsValid(ApplyError(m, f, depth).value, bs[n..], depth);
      }
    }
  }

  lemma {:induction false} ParsedResultIsValid(m: ResultValue, bs: seq<Byte>, depth: nat)
    requires ValidResult(m, depth)
    ensures var r := Parse(ApplyResult, m, bs, depth); r.Some? ==> ValidResult(r.value, depth)
    decreases |bs|
  {
    hide DecodePayload, DecodeField;
    if bs != [] && DecodeField(bs, depth).Some? {
      DecodedIsWellFormed(bs, depth);
      var (f, n) := DecodeField(bs, depth).value;
      ParsedResultIsValid(ApplyResult(m, f, depth).value, bs[n..], depth);
    }
  }

  ghost predicate ValidEntry(e: EntryValue)
  {
    Int32(e.key) && |e.value| < MAX_LENGTH && ValidUtf8(e.value)
  }

  lemma {:induction false} ParsedEntryIsValid(m: EntryValue, bs: seq<Byte>, depth: nat)
    requires ValidEntry(m)
    ensures var r := Parse(ApplyEntry, m, bs, depth); r.Some? ==> ValidEntry(r.value)
    decreases |bs|
  {
    hide DecodePayload, DecodeField, ValidUtf8;
    if bs != [] && DecodeField(bs, depth).Some? {
      DecodedIsWellFormed(bs, depth);
      var (f, n) := DecodeField(bs, depth).value;
      if ApplyEntry(m, f, depth).Some? {
        ParsedEntryIsValid(ApplyEntry(m, f, depth).value, bs[n..], depth);
      }
    }
  }

  lemma AppliedErrIsValid(m: ResponseValue, p: seq<Byte>, depth: nat)
    requires ValidResponse(m, depth) && Utf8Response(m)
    ensures var r := ApplyErr(m, p, depth); r.Some? ==> ValidResponse(r.value, depth) && Utf8Response(r.value)
  {
    EmptyIsValid();
    assert ValidError(NO_ERROR, depth - 1);
    hide ValidUtf8, Parse, ValidError;
    ParsedErrorIsValid(ErrOrEmpty(m.err), p, depth - 1);
  }

  lemma AppliedQunzuIsValid(m: ResponseValue, p: seq<Byte>, depth: nat)
    requires ValidResponse(m, depth) && Utf8Response(m)
    ensures var r := ApplyQunzu(m, p, depth); r.Some? ==> ValidResponse(r.value, depth) && Utf8Response(r.value)
  {
    EmptyIsValid();
    hide ValidUtf8, Parse, ValidError;
    ParsedEntryIsValid(NO_ENTRY, p, depth - 1);
  }

  lemma AppliedResIsValid(m: ResponseValue, p: seq<Byte>, depth: nat)
    requires ValidResponse(m, depth) && Utf8Response(m)
    ensures var r := ApplyRes(m, p, depth); r.Some? ==> ValidResponse(r.value, depth) && Utf8Response(r.value)
  {
    hide ValidUtf8, Parse, ValidError;
    ParsedResultIsValid(NO_RESULT, p, depth - 1);
  }

  lemma AppliedResponseIsValid(m: ResponseValue, f: Field, depth: nat)
    requires ValidResponse(m, depth) && Utf8Response(m) && WellFormed(f, depth)
    ensures var r := ApplyResponse(m, f, depth); r.Some? ==> ValidResponse(r.value, depth) && Utf8Response(r.value)
  {
    hide ValidUtf8, ValidError, ApplyErr, ApplyQunzu, ApplyRes;
    match f
    case Len(1, p) => AppliedErrIsValid(m, p, depth);
    case Len(4, p) => AppliedQunzuIsValid(m, p, depth);
    case Len(5, p) => AppliedResIsValid(m, p, depth);
    case _ =>
  }

  lemma {:induction false} ParsedResponseIsValid(m: ResponseValue, bs: seq<Byte>, depth: nat)
    requires ValidResponse(m, depth) && Utf8Response(m)
    ensures var r := Parse(ApplyResponse, m, bs, depth);
            r.Some? ==> ValidResponse(r.value, depth) && Utf8Response(r.value)
    decreases |bs|
  {
    hide DecodePayload, DecodeField, ApplyResponse, ValidResponse, Utf8Response;
    if bs != [] && DecodeField(bs, depth).Some? {
      DecodedIsWellFormed(bs, depth);
      var (f, n) := DecodeField(bs, depth).value;
      AppliedResponseIsValid(m, f, depth);
      if ApplyResponse(m, f, depth).Some? {
        ParsedResponseIsValid(ApplyResponse(m, f, depth).value, bs[n..], depth);
      }
    }
  }

  /** For every input: what the parser understood survives being written and parsed again, even though the
      bytes may differ (repeated scalars, long varints, reordered records, duplicate map keys). */
  lemma ReserializedInputIsEquivalent(bs: seq<Byte>, order: seq<int>)
    requires ParseResponse(bs).Some?
    requires IsOrder(order, ParseResponse(bs).value.qunzu.Keys)
    ensures var m := ParseResponse(bs).value;
            && Writable(m)
            && (|EncodeResponse(m, order)| < MAX_LENGTH ==> ParseResponse(EncodeResponse(m, order)) == Some(m))
  {
    hide DecodePayload, DecodeField, EncodeFields, ApplyResponse;
    ParsedResponseIsValid(NO_RESPONSE, bs, ROOT_DEPTH);
    var m := ParseResponse(bs).value;
    if |EncodeResponse(m, order)| < MAX_LENGTH {
      RoundTrip(m, order);
    }
  }

  // ---------- sizes ----------

  /** Taking the entry at `i` out of the visiting order takes its bytes out of the total. */
  lemma {:induction false} EntriesWithout(qunzu: map<int, seq<Byte>>, order: seq<int>, i: nat)
    requires i < |order| && forall k :: k in order ==> k in qunzu && Int32(k)
    ensures |EncodeFields(QunzuPart(qunzu, order))| ==
            |EncodeField(EntryField(order[i], qunzu[order[i]]))|
            + |EncodeFields(QunzuPart(qunzu, order[..i] + order[i + 1..]))|
    decreases order
  {
    hide EncodeField;
    var others := order[..i] + order[i + 1..];
    if i == 0 {
      assert others == order[1..];
    } else {
      EntriesWithout(qunzu, order[1..], i - 1);
      assert others[0] == order[0] && others[1..] == order[1..][..i - 1] + order[1..][i..];
    }
  }

  /** The serialized length does not depend on the order in which the map is visited. */
  lemma {:induction false} EntriesLengthIsOrderFree(qunzu: map<int, seq<Byte>>, a: seq<int>, b: seq<int>)
    requires forall k :: k in a ==> k in qunzu && Int32(k)
    requires (forall k :: k in a <==> k in b) && NoDuplicates(a) && NoDuplicates(b)
    ensures |EncodeFields(QunzuPart(qunzu, a))| == |EncodeFields(QunzuPart(qunzu, b))|
    decreases a
  {
    hide EncodeField;
    assert b == [] || b[0] in b;
    if a != [] {
      assert a[0] in a;
      var i :| 0 <= i < |b| && b[i] == a[0];
      var b' := b[..i] + b[i + 1..];
      EntriesWithout(qunzu, b, i);
      SameKeysWithout(a, b, i);
      EntriesLengthIsOrderFree(qunzu, a[1..], b');
    }
  }

  lemma SameKeysWithout(a: seq<int>, b: seq<int>, i: nat)
    requires a != [] && i < |b| && b[i] == a[0]
    requires (forall k :: k in a <==> k in b) && NoDuplicates(a) && NoDuplicates(b)
    ensures var b' := b[..i] + b[i + 1..]; NoDuplicates(b') && forall k :: k in a[1..] <==> k in b'
  {
    var b' := b[..i] + b[i + 1..];
    forall k
      ensures k in a[1..] <==> k in b'
    {
      if k in a[1..] {
        assert k in b && k != b[i];
      }
      if k in b' {
        assert k in a && k != a[0];
      }
    }
  }

  lemma LengthIsOrderFree(m: ResponseValue, a: seq<int>, b: seq<int>)
    requires Writable(m) && IsOrder(a, m.qunzu.Keys) && IsOrder(b, m.qunzu.Keys)
    ensures |EncodeResponse(m, a)| == |EncodeResponse(m, b)|
  {
    hide EncodeFields;
    ResponsePieces(m, a);
    ResponsePieces(m, b);
    assert forall k :: k in a <==> k in b;
    EntriesLengthIsOrderFree(m.qunzu, a, b);
  }

  lemma ResponsePieces(m: ResponseValue, order: seq<int>)
    requires Writable(m) && forall k :: k in order ==> k in m.qunzu
    ensures EncodeResponse(m, order) ==
            EncodeFields(ErrPart(m.err)) + EncodeFields(BytesField(2, m.pwd)) + EncodeFields(OnlinePart(m.isOnline))
            + EncodeFields(QunzuPart(m.qunzu, order)) + EncodeFields(ResPart(m.res)) + EncodeFields(m.unknown)
  {
    hide EncodeFields;
    var a, b, c := ErrPart(m.err), BytesField(2, m.pwd), OnlinePart(m.isOnline);
    var d, e := QunzuPart(m.qunzu, order), ResPart(m.res);
    EncodeFieldsConcat(a, b + (c + (d + (e + m.unknown))));
    EncodeFieldsConcat(b, c + (d + (e + m.unknown)));
    EncodeFieldsConcat(c, d + (e + m.unknown));
    EncodeFieldsConcat(d, e + m.unknown);
    EncodeFieldsConcat(e, m.unknown);
  }

  lemma NoMember(keys: set<int>)
    requires forall k :: k !in keys
    ensures keys == {}
  {
    assert forall k | k in keys :: false;
  }

  lemma HasMember(keys: set<int>)
    requires keys != {}
    ensures exists k :: k in keys
  {
    if forall k :: k !in keys {
      NoMember(keys);
    }
  }

  ghost function AnyOrder(keys: set<int>): (order: seq<int>)
    ensures IsOrder(order, keys)
  {
    if keys == {} then [] else
    assert exists k :: k in keys by { HasMember(keys); }
    var k :| k in keys;
    AnyOrder(keys - {k}) + [k]
  }

  /** `bs` is what serializing `m` may produce: the map can be visited in any order. */
  ghost predicate IsSerialization(m: ResponseValue, bs: seq<Byte>)
    requires Writable(m)
  {
    exists order :: IsOrder(order, m.qunzu.Keys) && bs == EncodeResponse(m, order)
  }

  /** Every serialization is as long as Size says. */
  lemma SerializationLength(m: ResponseValue, bs: seq<Byte>)
    requires Writable(m) && IsSerialization(m, bs)
    ensures |bs| == Size(m)
  {
    hide EncodeResponse;
    var order :| IsOrder(order, m.qunzu.Keys) && bs == EncodeResponse(m, order);
    LengthIsOrderFree(m, order, AnyOrder(m.qunzu.Keys));
  }

  /** Every serialization is read back, exactly when the strings are UTF-8. */
  lemma SerializationRoundTrip(m: ResponseValue, bs: seq<Byte>)
    requires ValidResponse(m, ROOT_DEPTH) && IsSerialization(m, bs) && |bs| < MAX_LENGTH
    ensures ParseResponse(bs) == if Utf8Response(m) then Some(m) else None
  {
    hide EncodeFields, EncodeResponse, Parse, ApplyResponse;
    var order :| IsOrder(order, m.qunzu.Keys) && bs == EncodeResponse(m, order);
    RoundTrip(m, order);
  }

  /** The length of a serialized Response. */
  ghost function Size(m: ResponseValue): nat
    requires Writable(m)
  {
    |EncodeResponse(m, AnyOrder(m.qunzu.Keys))|
  }
}
