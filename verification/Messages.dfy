/** The messages of test.proto as values: what each decoded record does to a message, which records the
    serializer emits, and how two messages merge. */
module Messages {
  import opened Wrappers
  import opened Bytes
  import opened Utf8
  import opened Wire

  /** Recursion budget of a top-level parse. */
  const ROOT_DEPTH: nat := 100

  // ---------- int32, enum and bool on the wire ----------

  predicate Int32(x: int)
  {
    -0x8000_0000 <= x < 0x8000_0000
  }

  /** Negative int32 and enum values are written sign-extended to 64 bits. */
  function SignExtend(x: int): (n: nat)
    requires Int32(x)
    ensures n < TWO_64
  {
    if x >= 0 then x else x + TWO_64
  }

  /** ReadVarint32 keeps the low 32 bits; the assignment reinterprets them as signed. */
  function ToInt32(n: nat): (x: int)
    ensures Int32(x)
  {
    var low := n % TWO_32;
    if low < 0x8000_0000 then low else low - TWO_32
  }

  lemma Int32RoundTrip(x: int)
    requires Int32(x)
    ensures ToInt32(SignExtend(x)) == x
  {
  }

  /** What a 64-bit reader makes of the bytes. */
  function Signed64(n: nat): int
    requires n < 0x1_0000_0000_0000_0000
  {
    if n < 0x8000_0000_0000_0000 then n else n - 0x1_0000_0000_0000_0000
  }

  /** On the wire an int32 is the 64-bit number of the same value: ten bytes when it is negative, at most five when it
      is not. */
  lemma Int32OnTheWire(x: int, rest: seq<Byte>)
    requires Int32(x)
    ensures var r := ReadVarint64(EncodeVarint(SignExtend(x)) + rest);
            && r.Some? && Signed64(r.value.0) == x && r.value.1 == |EncodeVarint(SignExtend(x))|
            && (if x < 0 then r.value.1 == 10 else r.value.1 <= 5)
  {
    var n := SignExtend(x);
    PowersOf128();
    VarintRoundTrip(n, 10, rest);
    VarintSizeIsLength(n);
  }

  /** Whatever is on the wire: the 32-bit signed number that it is congruent to. */
  lemma ToInt32IsCongruent(n: nat, x: int)
    requires -0x8000_0000 <= x < 0x8000_0000
    ensures ToInt32(n) == x <==> (n - x) % 0x1_0000_0000 == 0
  {
    var q, low := n / 0x1_0000_0000, n % 0x1_0000_0000;
    assert n == q * 0x1_0000_0000 + low;
    assert (n - x) % 0x1_0000_0000 == (low - x) % 0x1_0000_0000 by {
      assert n - x == q * 0x1_0000_0000 + (low - x);
    }
  }

  // ---------- Error ----------

  datatype ErrorValue = ErrorValue(code: int, reason: seq<Byte>, unknown: seq<Field>)

  const NO_ERROR := ErrorValue(0, [], [])

  function ApplyError(m: ErrorValue, f: Field, depth: nat): Option<ErrorValue>
  {
    match f
    case Varint(1, v) => Some(m.(code := ToInt32(v)))
    case Len(2, s) => if ValidUtf8(s) then Some(m.(reason := s)) else None
    case _ => Some(m.(unknown := m.unknown + [f]))
  }

  predicate KnownError(f: Field)
  {
    (f.Varint? && f.num == 1) || (f.Len? && f.num == 2)
  }

  ghost predicate ValidError(m: ErrorValue, depth: nat)
  {
    && Int32(m.code)
    && |m.reason| < MAX_LENGTH
    && AllWellFormed(m.unknown, depth)
    && forall f :: f in m.unknown ==> !KnownError(f)
  }

  function IntField(num: nat, x: int): seq<Field>
    requires Int32(x)
  {
    if x != 0 then [Varint(num, SignExtend(x))] else []
  }

  function BytesField(num: nat, s: seq<Byte>): seq<Field>
  {
    if s != [] then [Len(num, s)] else []
  }

  /** The records Error::_InternalSerialize writes: defaults are skipped. */
  function ErrorFields(m: ErrorValue): seq<Field>
    requires Int32(m.code)
  {
    IntField(1, m.code) + BytesField(2, m.reason) + m.unknown
  }

  function MergeError(to: ErrorValue, from: ErrorValue): ErrorValue
  {
    ErrorValue(if from.code != 0 then from.code else to.code,
               if from.reason != [] then from.reason else to.reason,
               to.unknown + from.unknown)
  }

  lemma {:induction false} ApplyUnknownError(m: ErrorValue, fs: seq<Field>, depth: nat)
    requires forall f :: f in fs ==> !KnownError(f)
    ensures ApplyAll(ApplyError, m, fs, depth) == Some(m.(unknown := m.unknown + fs))
    decreases fs
  {
    hide DecodeField, DecodePayload, EncodeFields;
    if fs == [] {
      assert m.unknown + fs == m.unknown;
    } else {
      assert !KnownError(fs[0]);
      ApplyUnknownError(m.(unknown := m.unknown + [fs[0]]), fs[1..], depth);
      assert m.unknown + [fs[0]] + fs[1..] == m.unknown + fs;
    }
  }

  /** Applying the records of one Error to another merges it in, or fails on a bad string. */
  lemma ApplyErrorFields(to: ErrorValue, from: ErrorValue, depth: nat)
    requires ValidError(from, depth)
    ensures ApplyAll(ApplyError, to, ErrorFields(from), depth)
            == if ValidUtf8(from.reason) then Some(MergeError(to, from)) else None
  {
    hide DecodeField, DecodePayload, EncodeFields;
    var a, b := IntField(1, from.code), BytesField(2, from.reason);
    ApplyAllConcat(ApplyError, to, a + b, from.unknown, depth);
    ApplyAllConcat(ApplyError, to, a, b, depth);
    var m1 := if from.code != 0 then to.(code := from.code) else to;
    Int32RoundTrip(from.code);
    assert ApplyAll(ApplyError, to, a, depth) == Some(m1);
    if ValidUtf8(from.reason) {
      var m2 := if from.reason != [] then m1.(reason := from.reason) else m1;
      assert ApplyAll(ApplyError, m1, b, depth) == Some(m2);
      ApplyUnknownError(m2, from.unknown, depth);
    }
  }

  // ---------- Result ----------

  datatype ResultValue = ResultValue(id: int, unknown: seq<Field>)

  const NO_RESULT := ResultValue(0, [])

  function ApplyResult(m: ResultValue, f: Field, depth: nat): Option<ResultValue>
  {
    match f
    case Varint(1, v) => Some(m.(id := ToInt32(v)))
    case _ => Some(m.(unknown := m.unknown + [f]))
  }

  predicate KnownResult(f: Field)
  {
    f.Varint? && f.num == 1
  }

  ghost predicate ValidResult(m: ResultValue, depth: nat)
  {
    && Int32(m.id)
    && AllWellFormed(m.unknown, depth)
    && forall f :: f in m.unknown ==> !KnownResult(f)
  }

  ghost predicate ValidResults(ms: seq<ResultValue>, depth: nat)
  {
    forall i :: 0 <= i < |ms| ==> ValidResult(ms[i], depth)
  }

  function ResultFields(m: ResultValue): seq<Field>
    requires Int32(m.id)
  {
    IntField(1, m.id) + m.unknown
  }

  lemma {:induction false} ApplyUnknownResult(m: ResultValue, fs: seq<Field>, depth: nat)
    requires forall f :: f in fs ==> !KnownResult(f)
    ensures ApplyAll(ApplyResult, m, fs, depth) == Some(m.(unknown := m.unknown + fs))
    decreases fs
  {
    hide DecodeField, DecodePayload, EncodeFields;
    if fs == [] {
      assert m.unknown + fs == m.unknown;
    } else {
      assert !KnownResult(fs[0]);
      ApplyUnknownResult(m.(unknown := m.unknown + [fs[0]]), fs[1..], depth);
      assert m.unknown + [fs[0]] + fs[1..] == m.unknown + fs;
    }
  }

  lemma ApplyResultFields(m: ResultValue, depth: nat)
    requires ValidResult(m, depth)
    ensures ApplyAll(ApplyResult, NO_RESULT, ResultFields(m), depth) == Some(m)
  {
    hide DecodeField, DecodePayload, EncodeFields;
    ApplyAllConcat(ApplyResult, NO_RESULT, IntField(1, m.id), m.unknown, depth);
    Int32RoundTrip(m.id);
    assert ApplyAll(ApplyResult, NO_RESULT, IntField(1, m.id), depth) == Some(ResultValue(m.id, []));
    ApplyUnknownResult(ResultValue(m.id, []), m.unknown, depth);
    assert [] + m.unknown == m.unknown;
  }

  // ---------- entries of map<int32, string> ----------

  datatype EntryValue = EntryValue(key: int, value: seq<Byte>)

  const NO_ENTRY := EntryValue(0, [])

  /** Records other than key and value are dropped. */
  function ApplyEntry(m: EntryValue, f: Field, depth: nat): Option<EntryValue>
  {
    match f
    case Varint(1, v) => Some(m.(key := ToInt32(v)))
    case Len(2, s) => if ValidUtf8(s) then Some(m.(value := s)) else None
    case _ => Some(m)
  }

  /** Both records of an entry are always written, defaults included. */
  function EntryFields(key: int, value: seq<Byte>): seq<Field>
    requires Int32(key)
  {
    [Varint(1, SignExtend(key)), Len(2, value)]
  }

  lemma ApplyEntryFields(key: int, value: seq<Byte>, depth: nat)
    requires Int32(key)
    ensures ApplyAll(ApplyEntry, NO_ENTRY, EntryFields(key, value), depth)
            == if ValidUtf8(value) then Some(EntryValue(key, value)) else None
  {
    hide DecodeField, DecodePayload, EncodeFields;
    Int32RoundTrip(key);
    var fs := EntryFields(key, value);
    var m := EntryValue(key, []);
    assert ApplyEntry(NO_ENTRY, fs[0], depth) == Some(m);
    assert fs[1..] == [Len(2, value)];
    assert ApplyAll(ApplyEntry, m, [Len(2, value)], depth) == ApplyEntry(m, Len(2, value), depth);
  }

  // ---------- Response ----------

  datatype ResponseValue = ResponseValue(
    err: Option<ErrorValue>, pwd: seq<Byte>, isOnline: bool,
    qunzu: map<int, seq<Byte>>, res: seq<ResultValue>, unknown: seq<Field>)

  const NO_RESPONSE := ResponseValue(None, [], false, map[], [], [])

  function ErrOrEmpty(err: Option<ErrorValue>): ErrorValue
  {
    if err.Some? then err.value else NO_ERROR
  }

  function ApplyErr(m: ResponseValue, payload: seq<Byte>, depth: nat): Option<ResponseValue>
  {
    if depth == 0 then None else
    match Parse(ApplyError, ErrOrEmpty(m.err), payload, depth - 1)
    case None => None
    case Some(e) => Some(m.(err := Some(e)))
  }

  function ApplyQunzu(m: ResponseValue, payload: seq<Byte>, depth: nat): Option<ResponseValue>
  {
    if depth == 0 then None else
    match Parse(ApplyEntry, NO_ENTRY, payload, depth - 1)
    case None => None
    case Some(e) => Some(m.(qunzu := m.qunzu[e.key := e.value]))
  }

  function ApplyRes(m: ResponseValue, payload: seq<Byte>, depth: nat): Option<ResponseValue>
  {
    if depth == 0 then None else
    match Parse(ApplyResult, NO_RESULT, payload, depth - 1)
    case None => None
    case Some(r) => Some(m.(res := m.res + [r]))
  }

  function ApplyResponse(m: ResponseValue, f: Field, depth: nat): Option<ResponseValue>
  {
    match f
    case Len(1, payload) => ApplyErr(m, payload, depth)
    case Len(2, s) => if ValidUtf8(s) then Some(m.(pwd := s)) else None
    case Varint(3, v) => Some(m.(isOnline := v != 0))
    case Len(4, payload) => ApplyQunzu(m, payload, depth)
    case Len(5, payload) => ApplyRes(m, payload, depth)
    case _ => Some(m.(unknown := m.unknown + [f]))
  }

  predicate KnownResponse(f: Field)
  {
    (f.Varint? && f.num == 3) || (f.Len? && f.num in {1, 2, 4, 5})
  }

  ghost predicate ValidResponse(m: ResponseValue, depth: nat)
  {
    && depth > 0
    && (m.err.Some? ==> ValidError(m.err.value, depth - 1))
    && (forall k :: k in m.qunzu ==> Int32(k) && |m.qunzu[k]| < MAX_LENGTH)
    && ValidResults(m.res, depth - 1)
    && |m.pwd| < MAX_LENGTH
    && AllWellFormed(m.unknown, depth)
    && (forall f :: f in m.unknown ==> !KnownResponse(f))
  }

  /** Every string of the message is UTF-8. */
  ghost predicate Utf8Response(m: ResponseValue)
  {
    && (m.err.Some? ==> ValidUtf8(m.err.value.reason))
    && ValidUtf8(m.pwd)
    && forall k :: k in m.qunzu ==> ValidUtf8(m.qunzu[k])
  }

  /** An order in which the map's entries may be visited. */
  ghost predicate IsOrder(order: seq<int>, keys: set<int>)
  {
    (forall k :: k in order <==> k in keys) && NoDuplicates(order)
  }

  ghost predicate NoDuplicates(order: seq<int>)
  {
    forall i, j :: 0 <= i < j < |order| ==> order[i] != order[j]
  }

  function ErrPart(err: Option<ErrorValue>): seq<Field>
    requires err.Some? ==> Int32(err.value.code)
  {
    if err.Some? then [Len(1, EncodeFields(ErrorFields(err.value)))] else []
  }

  function EntryField(key: int, value: seq<Byte>): Field
    requires Int32(key)
  {
    Len(4, EncodeFields(EntryFields(key, value)))
  }

  function QunzuPart(qunzu: map<int, seq<Byte>>, order: seq<int>): (fs: seq<Field>)
    requires forall k :: k in order ==> k in qunzu && Int32(k)
    ensures |fs| == |order|
  {
    if order == [] then [] else [EntryField(order[0], qunzu[order[0]])] + QunzuPart(qunzu, order[1..])
  }

  function ResPart(res: seq<ResultValue>): (fs: seq<Field>)
    requires forall r :: r in res ==> Int32(r.id)
    ensures |fs| == |res|
  {
    if res == [] then [] else [Len(5, EncodeFields(ResultFields(res[0])))] + ResPart(res[1..])
  }

  function OnlinePart(isOnline: bool): seq<Field>
  {
    if isOnline then [Varint(3, 1)] else []
  }

  predicate Writable(m: ResponseValue)
  {
    && (m.err.Some? ==> Int32(m.err.value.code))
    && (forall k :: k in m.qunzu ==> Int32(k))
    && (forall r :: r in m.res ==> Int32(r.id))
  }

  /** The records Response::_InternalSerialize writes when the map is visited in `order`. */
  function ResponseFields(m: ResponseValue, order: seq<int>): seq<Field>
    requires Writable(m) && forall k :: k in order ==> k in m.qunzu
  {
    ErrPart(m.err) + (BytesField(2, m.pwd) + (OnlinePart(m.isOnline)
    + (QunzuPart(m.qunzu, order) + (ResPart(m.res) + m.unknown))))
  }

  function EncodeResponse(m: ResponseValue, order: seq<int>): seq<Byte>
    requires Writable(m) && forall k :: k in order ==> k in m.qunzu
  {
    EncodeFields(ResponseFields(m, order))
  }

  function MergeResponse(to: ResponseValue, from: ResponseValue): ResponseValue
  {
    ResponseValue(
      if from.err.Some? then Some(MergeError(ErrOrEmpty(to.err), from.err.value)) else to.err,
      if from.pwd != [] then from.pwd else to.pwd,
      if from.isOnline then true else to.isOnline,
      to.qunzu + from.qunzu,
      to.res + from.res,
      to.unknown + from.unknown)
  }

  // ---------- applying the records of a Response ----------

  lemma {:induction false} PayloadIsShorter(fs: seq<Field>, f: Field)
    requires f in fs && f.Len?
    ensures |f.payload| < |EncodeFields(fs)|
  {
    if f != fs[0] {
      PayloadIsShorter(fs[1..], f);
    }
  }

  lemma {:induction false} ApplyUnknownResponse(m: ResponseValue, fs: seq<Field>, depth: nat)
    requires forall f :: f in fs ==> !KnownResponse(f)
    ensures ApplyAll(ApplyResponse, m, fs, depth) == Some(m.(unknown := m.unknown + fs))
    decreases fs
  {
    hide DecodeField, DecodePayload, EncodeFields;
    if fs == [] {
      assert m.unknown + fs == m.unknown;
    } else {
      assert !KnownResponse(fs[0]);
      ApplyUnknownResponse(m.(unknown := m.unknown + [fs[0]]), fs[1..], depth);
      assert m.unknown + [fs[0]] + fs[1..] == m.unknown + fs;
    }
  }

  lemma ParseWhole<M>(apply: (M, Field, nat) -> Option<M>, m: M, fs: seq<Field>, depth: nat)
    requires AllWellFormed(fs, depth)
    ensures Parse(apply, m, EncodeFields(fs), depth) == ApplyAll(apply, m, fs, depth)
  {
    ParseEncoded(apply, m, fs, [], depth);
    assert EncodeFields(fs) + [] == EncodeFields(fs);
  }

  lemma ErrorFieldsWellFormed(m: ErrorValue, depth: nat)
    requires ValidError(m, depth)
    ensures AllWellFormed(ErrorFields(m), depth)
  {
  }

  lemma ApplyErrPart(to: ResponseValue, err: Option<ErrorValue>, depth: nat)
    requires depth > 0 && (err.Some? ==> ValidError(err.value, depth - 1))
    ensures ApplyAll(ApplyResponse, to, ErrPart(err), depth) ==
            if err.None? then Some(to)
            else if ValidUtf8(err.value.reason) then Some(to.(err := Some(MergeError(ErrOrEmpty(to.err), err.value))))
            else None
  {
    hide DecodeField, DecodePayload, EncodeFields;
    if err.Some? {
      var fs := ErrorFields(err.value);
      ErrorFieldsWellFormed(err.value, depth - 1);
      ParseWhole(ApplyError, ErrOrEmpty(to.err), fs, depth - 1);
      ApplyErrorFields(ErrOrEmpty(to.err), err.value, depth - 1);
      assert ApplyResponse(to, Len(1, EncodeFields(fs)), depth) == ApplyErr(to, EncodeFields(fs), depth);
    }
  }

  lemma ApplyEntryField(to: ResponseValue, key: int, value: seq<Byte>, depth: nat)
    requires depth > 0 && Int32(key) && |value| < MAX_LENGTH
    ensures ApplyResponse(to, EntryField(key, value), depth)
            == if ValidUtf8(value) then Some(to.(qunzu := to.qunzu[key := value])) else None
  {
    hide DecodeField, DecodePayload, EncodeFields, ValidUtf8, Parse, ApplyEntry, ApplyAll;
    var payload := EncodeFields(EntryFields(key, value));
    ParseWhole(ApplyEntry, NO_ENTRY, EntryFields(key, value), depth - 1);
    ApplyEntryFields(key, value, depth - 1);
    assert ApplyResponse(to, Len(4, payload), depth) == ApplyQunzu(to, payload, depth);
  }

  /** The part of a map that the keys of `order` select. */
  function Selected(qunzu: map<int, seq<Byte>>, order: seq<int>): map<int, seq<Byte>>
    requires forall k :: k in order ==> k in qunzu
  {
    map k | k in order :: qunzu[k]
  }

  predicate Utf8Entries(qunzu: map<int, seq<Byte>>, order: seq<int>)
    requires forall k :: k in order ==> k in qunzu
  {
    forall k :: k in order ==> ValidUtf8(qunzu[k])
  }

  /** The map gains the visited entries, each overwriting what was there; one bad string fails the lot. */
  lemma {:induction false} ApplyQunzuPart(to: ResponseValue, qunzu: map<int, seq<Byte>>, order: seq<int>, depth: nat)
    requires depth > 0
    requires forall k :: k in order ==> k in qunzu && Int32(k) && |qunzu[k]| < MAX_LENGTH
    ensures ApplyAll(ApplyResponse, to, QunzuPart(qunzu, order), depth) ==
            if Utf8Entries(qunzu, order) then Some(to.(qunzu := to.qunzu + Selected(qunzu, order))) else None
    decreases order
  {
    hide ApplyResponse, EntryField, ValidUtf8;
    if order == [] {
      assert to.qunzu + Selected(qunzu, order) == to.qunzu;
    } else {
      var k, fs := order[0], QunzuPart(qunzu, order);
      ApplyEntryField(to, k, qunzu[k], depth);
      assert fs[0] == EntryField(k, qunzu[k]) && fs[1..] == QunzuPart(qunzu, order[1..]);
      SelectOneMore(to.qunzu, qunzu, order);
      if ValidUtf8(qunzu[k]) {
        hide Selected, Utf8Entries, QunzuPart;
        ApplyQunzuPart(to.(qunzu := to.qunzu[k := qunzu[k]]), qunzu, order[1..], depth);
      }
    }
  }

  lemma SelectOneMore(to: map<int, seq<Byte>>, qunzu: map<int, seq<Byte>>, order: seq<int>)
    requires order != [] && order[0] in qunzu && forall k :: k in order ==> k in qunzu
    ensures to[order[0] := qunzu[order[0]]] + Selected(qunzu, order[1..]) == to + Selected(qunzu, order)
    ensures Utf8Entries(qunzu, order) <==> ValidUtf8(qunzu[order[0]]) && Utf8Entries(qunzu, order[1..])
  {
    hide ValidUtf8;
    assert forall j :: j in order <==> j == order[0] || j in order[1..];
  }

  lemma {:induction false} ApplyResPart(to: ResponseValue, res: seq<ResultValue>, depth: nat)
    requires depth > 0 && ValidResults(res, depth - 1)
    ensures ApplyAll(ApplyResponse, to, ResPart(res), depth) == Some(to.(res := to.res + res))
    decreases res
  {
    hide DecodeField, DecodePayload, EncodeFields;
    if res == [] {
      assert to.res + res == to.res;
    } else {
      var payload := EncodeFields(ResultFields(res[0]));
      ParseWhole(ApplyResult, NO_RESULT, ResultFields(res[0]), depth - 1);
      ApplyResultFields(res[0], depth - 1);
      assert ApplyResponse(to, Len(5, payload), depth) == ApplyRes(to, payload, depth);
      ApplyResPart(to.(res := to.res + [res[0]]), res[1..], depth);
      assert to.res + [res[0]] + res[1..] == to.res + res;
    }
  }

  /** Applying the records of one Response to another merges it in, whatever the order of the map. */
  lemma ApplyResponseFields(to: ResponseValue, from: ResponseValue, order: seq<int>, depth: nat)
    requires ValidResponse(from, depth) && IsOrder(order, from.qunzu.Keys)
    ensures ApplyAll(ApplyResponse, to, ResponseFields(from, order), depth)
            == if Utf8Response(from) then Some(MergeResponse(to, from)) else None
  {
    hide ApplyAll, ApplyResponse, MergeError, ErrPart, BytesField, OnlinePart, QunzuPart, ResPart, ValidUtf8;
    var a, b, c := ErrPart(from.err), BytesField(2, from.pwd), OnlinePart(from.isOnline);
    var d, e, u := QunzuPart(from.qunzu, order), ResPart(from.res), from.unknown;
    ApplyAllConcat(ApplyResponse, to, a, b + (c + (d + (e + u))), depth);
    ApplyErrPart(to, from.err, depth);
    if from.err.None? || ValidUtf8(from.err.value.reason) {
      var m1 := if from.err.None? then to else to.(err := Some(MergeError(ErrOrEmpty(to.err), from.err.value)));
      ApplyAllConcat(ApplyResponse, m1, b, c + (d + (e + u)), depth);
      ApplyPwd(m1, from.pwd, depth);
      if ValidUtf8(from.pwd) {
        var m2 := if from.pwd != [] then m1.(pwd := from.pwd) else m1;
        ApplyAllConcat(ApplyResponse, m2, c, d + (e + u), depth);
        ApplyOnline(m2, from.isOnline, depth);
        ApplyTail(if from.isOnline then m2.(isOnline := true) else m2, from, order, depth);
      }
    }
  }

  lemma ApplyPwd(m: ResponseValue, pwd: seq<Byte>, depth: nat)
    ensures ApplyAll(ApplyResponse, m, BytesField(2, pwd), depth) ==
            if ValidUtf8(pwd) then Some(if pwd != [] then m.(pwd := pwd) else m) else None
  {
    EmptyIsValid();
    hide ValidUtf8, ApplyErr, ApplyQunzu, ApplyRes;
  }

  lemma ApplyOnline(m: ResponseValue, isOnline: bool, depth: nat)
    ensures ApplyAll(ApplyResponse, m, OnlinePart(isOnline), depth) ==
            Some(if isOnline then m.(isOnline := true) else m)
  {
    hide ValidUtf8, ApplyErr, ApplyQunzu, ApplyRes;
  }

  lemma ApplyTail(m: ResponseValue, from: ResponseValue, order: seq<int>, depth: nat)
    requires ValidResponse(from, depth) && IsOrder(order, from.qunzu.Keys)
    ensures ApplyAll(ApplyResponse, m, QunzuPart(from.qunzu, order) + (ResPart(from.res) + from.unknown), depth) ==
            if forall k :: k in from.qunzu ==> ValidUtf8(from.qunzu[k])
            then Some(m.(qunzu := m.qunzu + from.qunzu, res := m.res + from.res, unknown := m.unknown + from.unknown))
            else None
  {
    hide DecodeField, DecodePayload, EncodeFields;
    var d, e, u := QunzuPart(from.qunzu, order), ResPart(from.res), from.unknown;
    ApplyAllConcat(ApplyResponse, m, d, e + u, depth);
    ApplyQunzuPart(m, from.qunzu, order, depth);
    assert forall k :: k in order <==> k in from.qunzu.Keys;
    assert Selected(from.qunzu, order) == from.qunzu;
    if forall k :: k in from.qunzu ==> ValidUtf8(from.qunzu[k]) {
      var m4 := m.(qunzu := m.qunzu + from.qunzu);
      ApplyAllConcat(ApplyResponse, m4, e, u, depth);
      ApplyResPart(m4, from.res, depth);
      ApplyUnknownResponse(m4.(res := m4.res + from.res), u, depth);
    }
  }
}
