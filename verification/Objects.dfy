/** The generated message classes: parse loops that advance a position and write fields, serializers that
    advance an output, size functions that accumulate and cache. Each method is tied to Messages. */
module Objects {
  import opened Wrappers
  import opened Bytes
  import opened Utf8
  import opened Wire
  import opened Messages

  // ---------- one turn of a parse loop ----------

  /** The rest of a parse once a record has been applied. */
  function Resume<M>(apply: (M, Field, nat) -> Option<M>, m: Option<M>, bs: seq<Byte>, depth: nat): Option<M>
  {
    if m.None? then None else Parse(apply, m.value, bs, depth)
  }

  lemma ParseTurn<M>(apply: (M, Field, nat) -> Option<M>, m: M, bs: seq<Byte>, depth: nat, tag: nat, n: nat)
    requires bs != [] && ReadTag(bs) == Some((tag, n))
    ensures var p := DecodePayload(tag / 8, tag % 8, bs[n..], depth);
            Parse(apply, m, bs, depth) ==
            if p.None? then None else Resume(apply, apply(m, p.value.0, depth), bs[n + p.value.1..], depth)
  {
    hide DecodePayload;
    var p := DecodePayload(tag / 8, tag % 8, bs[n..], depth);
    assert DecodeField(bs, depth) == if p.None? then None else Some((p.value.0, n + p.value.1));
  }

  lemma ParseNothing<M>(apply: (M, Field, nat) -> Option<M>, m: M, depth: nat)
    ensures Parse(apply, m, [], depth) == Some(m)
  {
  }

  lemma ParseBadTag<M>(apply: (M, Field, nat) -> Option<M>, m: M, bs: seq<Byte>, depth: nat)
    requires bs != [] && ReadTag(bs).None?
    ensures Parse(apply, m, bs, depth) == None
  {
  }

  lemma VarintTurn<M>(apply: (M, Field, nat) -> Option<M>, m: M, bs: seq<Byte>, depth: nat, num: nat, n: nat)
    requires bs != [] && num > 0 && ReadTag(bs) == Some((num * 8, n))
    ensures var v := ReadVarint64(bs[n..]);
            Parse(apply, m, bs, depth) ==
            if v.None? then None else Resume(apply, apply(m, Varint(num, v.value.0), depth), bs[n + v.value.1..], depth)
  {
    hide DecodeGroup, ReadVarint64, ReadTag, Parse;
    ParseTurn(apply, m, bs, depth, num * 8, n);
  }

  lemma DelimitedTurn<M>(apply: (M, Field, nat) -> Option<M>, m: M, bs: seq<Byte>, depth: nat, num: nat, n: nat)
    requires bs != [] && num > 0 && ReadTag(bs) == Some((num * 8 + 2, n))
    ensures var p := ReadDelimited(bs[n..]);
            Parse(apply, m, bs, depth) ==
            if p.None? then None else Resume(apply, apply(m, Len(num, p.value.0), depth), bs[n + p.value.1..], depth)
  {
    hide DecodeGroup, ReadDelimited, ReadTag, Parse;
    ParseTurn(apply, m, bs, depth, num * 8 + 2, n);
  }

  /** A zero tag or an end-group tag ends the message early, which the caller reports as a failure. */
  lemma EndTurn<M>(apply: (M, Field, nat) -> Option<M>, m: M, bs: seq<Byte>, depth: nat, tag: nat, n: nat)
    requires bs != [] && ReadTag(bs) == Some((tag, n)) && (tag == 0 || tag % 8 == 4)
    ensures Parse(apply, m, bs, depth) == None
  {
    hide DecodeGroup, ReadTag, Parse;
    ParseTurn(apply, m, bs, depth, tag, n);
  }

  lemma UnknownTurn<M>(apply: (M, Field, nat) -> Option<M>, m: M, bs: seq<Byte>, depth: nat, tag: nat, n: nat)
    requires bs != [] && ReadTag(bs) == Some((tag, n))
    ensures var u := DecodePayload(tag / 8, tag % 8, bs[n..], depth);
            && (u.Some? ==> u.value.0.num == tag / 8 && WireType(u.value.0) == tag % 8 && u.value.1 <= |bs| - n)
            && Parse(apply, m, bs, depth) ==
               if u.None? then None else Resume(apply, apply(m, u.value.0, depth), bs[n + u.value.1..], depth)
  {
    hide DecodeGroup, ReadDelimited, ReadVarint64, ReadTag, Parse;
    ParseTurn(apply, m, bs, depth, tag, n);
  }

  // ---------- one record of a serializer or a size function ----------

  lemma EncodeOne(f: Field)
    ensures EncodeFields([f]) == EncodeField(f)
  {
    hide EncodeField;
    assert EncodeFields([f]) == EncodeField(f) + EncodeFields([]);
  }

  /** WriteInt32ToArray, WriteEnumToArray: a tag and a sign-extended varint. */
  function WriteInt32(num: nat, x: int): (bs: seq<Byte>)
    requires Int32(x)
  {
    EncodeTag(num, 0) + EncodeVarint(SignExtend(x))
  }

  /** WriteStringMaybeAliased: a tag, a length and the bytes. */
  function WriteString(num: nat, s: seq<Byte>): (bs: seq<Byte>)
  {
    EncodeTag(num, 2) + EncodeDelimited(s)
  }

  /** LengthDelimitedSize: the length prefix is sized for the length cut down to 32 bits. */
  function DelimitedSize(length: nat): nat
  {
    VarintSize(length % TWO_32) + length
  }

  /** A computed size and the true one: equal, or both 4 GiB and more. */
  predicate SizeMatches(size: nat, exact: nat)
  {
    size == exact || (size >= TWO_32 && exact >= TWO_32)
  }

  lemma DelimitedMatches(num: nat, size: nat, exact: nat)
    requires 0 < num < 16 && SizeMatches(size, exact)
    ensures SizeMatches(1 + DelimitedSize(size), |EncodeTag(num, 2)| + |EncodeVarint(exact)| + exact)
  {
    hide VarintSize;
    if size < TWO_32 {
      VarintSizeIsLength(size);
    }
  }

  lemma WrittenInt32(num: nat, x: int)
    requires Int32(x) && 0 < num < 16
    ensures x != 0 ==> EncodeFields(IntField(num, x)) == WriteInt32(num, x)
    ensures x != 0 ==> |EncodeFields(IntField(num, x))| == 1 + VarintSize(SignExtend(x))
  {
    hide VarintSize;
    if x != 0 {
      EncodeOne(Varint(num, SignExtend(x)));
      VarintSizeIsLength(SignExtend(x));
    }
  }

  lemma WrittenString(num: nat, s: seq<Byte>)
    requires 0 < num < 16
    ensures EncodeField(Len(num, s)) == WriteString(num, s)
    ensures SizeMatches(1 + DelimitedSize(|s|), |EncodeField(Len(num, s))|)
    ensures EncodeFields([Len(num, s)]) == WriteString(num, s)
  {
    hide VarintSize;
    EncodeOne(Len(num, s));
    DelimitedMatches(num, |s|, |s|);
  }

  // ---------- Error ----------

  function EncodeError(m: ErrorValue): seq<Byte>
    requires Int32(m.code)
  {
    EncodeFields(ErrorFields(m))
  }

  lemma ErrorPieces(m: ErrorValue)
    requires Int32(m.code)
    ensures EncodeError(m) ==
            EncodeFields(IntField(1, m.code)) + EncodeFields(BytesField(2, m.reason)) + EncodeFields(m.unknown)
  {
    hide EncodeFields;
    EncodeFieldsConcat(IntField(1, m.code) + BytesField(2, m.reason), m.unknown);
    EncodeFieldsConcat(IntField(1, m.code), BytesField(2, m.reason));
  }

  class Error {
    var code: int
    var reason: seq<Byte>
    var unknown: seq<Field>
    var cachedSize: int

    ghost function Value(): ErrorValue
      reads this`code, this`reason, this`unknown
    {
      ErrorValue(code, reason, unknown)
    }

    constructor ()
      ensures Value() == NO_ERROR
    {
      code, reason, unknown, cachedSize := 0, [], [], 0;
    }

    method Clear()
      modifies this`code, this`reason, this`unknown
      ensures Value() == NO_ERROR
    {
      reason := [];
      code := 0;
      unknown := [];
    }

    method InternalParse(data: seq<Byte>, start: nat, limit: nat, depth: nat) returns (ok: bool)
      requires start <= limit <= |data|
      modifies this`code, this`reason, this`unknown
      ensures Parse(ApplyError, old(Value()), data[start..limit], depth) == if ok then Some(Value()) else None
    {
      hide DecodePayload, DecodeField, ReadTag, ReadVarint64, ReadDelimited, ValidUtf8, Parse;
      var pos := start;
      ghost var m := Value();
      ghost var goal := Parse(ApplyError, m, data[start..limit], depth);
      while pos < limit
        invariant start <= pos <= limit
        invariant m == Value() && Parse(ApplyError, m, data[pos..limit], depth) == goal
      {
        var rest := data[pos..limit];
        var t := ReadTag(rest);
        if t.None? {
          ParseBadTag(ApplyError, m, rest, depth);
          return false;
        }
        var (tag, n) := t.value;
        if tag / 8 == 1 && tag % 256 == 8 {
          VarintTurn(ApplyError, m, rest, depth, 1, n);
          var v := ReadVarint64(rest[n..]);
          if v.None? { return false; }
          code := ToInt32(v.value.0);
          pos := pos + n + v.value.1;
        } else if tag / 8 == 2 && tag % 256 == 18 {
          DelimitedTurn(ApplyError, m, rest, depth, 2, n);
          var s := ReadDelimited(rest[n..]);
          if s.None? || !ValidUtf8(s.value.0) { return false; }
          reason := s.value.0;
          pos := pos + n + s.value.1;
        } else if tag == 0 || tag % 8 == 4 {
          EndTurn(ApplyError, m, rest, depth, tag, n);
          return false;
        } else {
          UnknownTurn(ApplyError, m, rest, depth, tag, n);
          var u := DecodePayload(tag / 8, tag % 8, rest[n..], depth);
          if u.None? { return false; }
          unknown := unknown + [u.value.0];
          pos := pos + n + u.value.1;
        }
        assert rest[|rest| - (limit - pos)..] == data[pos..limit];
        m := Value();
      }
      assert data[pos..limit] == [];
      ParseNothing(ApplyError, m, depth);
      return true;
    }

    method InternalSerialize(target: seq<Byte>) returns (out: seq<Byte>)
      requires Int32(code)
      ensures out == target + EncodeError(Value())
    {
      hide EncodeFields, WriteInt32, WriteString;
      ErrorPieces(Value());
      EncodeNothing();
      out := target;
      if code != 0 {
        WrittenInt32(1, code);
        out := out + WriteInt32(1, code);
      }
      if reason != [] {
        WrittenString(2, reason);
        out := out + WriteString(2, reason);
      }
      if unknown != [] {
        out := out + EncodeFields(unknown);
      }
    }

    method ByteSizeLong() returns (size: nat)
      requires Int32(Value().code)
      modifies this`cachedSize
      ensures SizeMatches(size, |EncodeError(Value())|)
      ensures cachedSize == ToInt32(size)
    {
      hide EncodeFields, VarintSize, DelimitedSize;
      ErrorPieces(Value());
      EncodeNothing();
      size := 0;
      if reason != [] {
        WrittenString(2, reason);
        size := size + 1 + DelimitedSize(|reason|);
      }
      if code != 0 {
        WrittenInt32(1, code);
        size := size + 1 + VarintSize(SignExtend(code));
      }
      size := size + |EncodeFields(unknown)|;
      cachedSize := ToInt32(size);
    }

    method MergeFrom(from: Error)
      requires from != this
      modifies this`code, this`reason, this`unknown
      ensures Value() == MergeError(old(Value()), from.Value())
    {
      if from.reason != [] {
        reason := from.reason;
      }
      if from.code != 0 {
        code := from.code;
      }
      unknown := unknown + from.unknown;
    }
  }

  // ---------- Result ----------

  function EncodeResult(m: ResultValue): seq<Byte>
    requires Int32(m.id)
  {
    EncodeFields(ResultFields(m))
  }

  class Result {
    var id: int
    var unknown: seq<Field>
    var cachedSize: int

    ghost function Value(): ResultValue
      reads this`id, this`unknown
    {
      ResultValue(id, unknown)
    }

    constructor ()
      ensures Value() == NO_RESULT
    {
      id, unknown, cachedSize := 0, [], 0;
    }

    method InternalParse(data: seq<Byte>, start: nat, limit: nat, depth: nat) returns (ok: bool)
      requires start <= limit <= |data|
      modifies this`id, this`unknown
      ensures Parse(ApplyResult, old(Value()), data[start..limit], depth) == if ok then Some(Value()) else None
    {
      hide DecodePayload, DecodeField, ReadTag, ReadVarint64, Parse;
      var pos := start;
      ghost var m := Value();
      ghost var goal := Parse(ApplyResult, m, data[start..limit], depth);
      while pos < limit
        invariant start <= pos <= limit
        invariant m == Value() && Parse(ApplyResult, m, data[pos..limit], depth) == goal
      {
        var rest := data[pos..limit];
        var t := ReadTag(rest);
        if t.None? {
          ParseBadTag(ApplyResult, m, rest, depth);
          return false;
        }
        var (tag, n) := t.value;
        if tag / 8 == 1 && tag % 256 == 8 {
          VarintTurn(ApplyResult, m, rest, depth, 1, n);
          var v := ReadVarint64(rest[n..]);
          if v.None? { return false; }
          id := ToInt32(v.value.0);
          pos := pos + n + v.value.1;
        } else if tag == 0 || tag % 8 == 4 {
          EndTurn(ApplyResult, m, rest, depth, tag, n);
          return false;
        } else {
          UnknownTurn(ApplyResult, m, rest, depth, tag, n);
          var u := DecodePayload(tag / 8, tag % 8, rest[n..], depth);
          if u.None? { return false; }
          unknown := unknown + [u.value.0];
          pos := pos + n + u.value.1;
        }
        assert rest[|rest| - (limit - pos)..] == data[pos..limit];
        m := Value();
      }
      assert data[pos..limit] == [];
      ParseNothing(ApplyResult, m, depth);
      return true;
    }

    method InternalSerialize(target: seq<Byte>) returns (out: seq<Byte>)
      requires Int32(id)
      ensures out == target + EncodeResult(Value())
    {
      hide WriteInt32;
      EncodeFieldsConcat(IntField(1, id), unknown);
      out := target;
      if id != 0 {
        WrittenInt32(1, id);
        out := out + WriteInt32(1, id);
      }
      if unknown != [] {
        out := out + EncodeFields(unknown);
      }
    }

    method ByteSizeLong() returns (size: nat)
      requires Int32(id)
      modifies this`cachedSize
      ensures size == |EncodeResult(Value())|
      ensures cachedSize == ToInt32(size)
    {
      hide VarintSize;
      EncodeFieldsConcat(IntField(1, id), unknown);
      size := 0;
      if id != 0 {
        WrittenInt32(1, id);
        size := size + 1 + VarintSize(SignExtend(id));
      }
      size := size + |EncodeFields(unknown)|;
      cachedSize := ToInt32(size);
    }
  }
}
