/** The generated Response class: nested, repeated and map fields, parsed with the inner do/while loops. */
module ResponseObject {
  import opened Wrappers
  import opened Bytes
  import opened Utf8
  import opened Wire
  import opened Messages
  import opened Codec
  import opened Objects

  lemma DropSlice(data: seq<Byte>, a: nat, b: nat, limit: nat)
    requires a <= b <= limit <= |data|
    ensures data[a..limit][b - a..] == data[b..limit]
  {
  }

  lemma SubSlice(data: seq<Byte>, a: nat, limit: nat, i: nat, j: nat)
    requires a <= limit <= |data| && i <= j <= limit - a
    ensures data[a..limit][i..j] == data[a + i..a + j]
  {
    var u, v := data[a..limit][i..j], data[a + i..a + j];
    assert forall k :: 0 <= k < j - i ==> u[k] == v[k];
  }

  // ---------- re-entering the tag switch for one more element ----------

  /** What parsing `bs` amounts to when a tag has just been read and a delimited element of it comes next. */
  function AfterTag(num: nat, m: ResponseValue, bs: seq<Byte>, depth: nat): Option<ResponseValue>
  {
    var p := ReadDelimited(bs);
    if p.None? then None
    else Resume(ApplyResponse, ApplyResponse(m, Len(num, p.value.0), depth), bs[p.value.1..], depth)
  }

  lemma AfterTagIs(m: ResponseValue, bs: seq<Byte>, depth: nat)
    ensures var p := ReadDelimited(bs);
            && (p.None? ==> AfterTag(4, m, bs, depth) == None && AfterTag(5, m, bs, depth) == None)
            && (p.Some? ==>
                  var (payload, n) := p.value;
                  && AfterTag(4, m, bs, depth) == Resume(ApplyResponse, ApplyQunzu(m, payload, depth), bs[n..], depth)
                  && AfterTag(5, m, bs, depth) == Resume(ApplyResponse, ApplyRes(m, payload, depth), bs[n..], depth))
  {
    hide ReadDelimited, Resume, ApplyQunzu, ApplyRes;
  }

  lemma AfterTagIsTurn(num: nat, m: ResponseValue, bs: seq<Byte>, depth: nat, n: nat)
    requires bs != [] && 0 < num && ReadTag(bs) == Some((num * 8 + 2, n))
    ensures Parse(ApplyResponse, m, bs, depth) == AfterTag(num, m, bs[n..], depth)
  {
    hide ReadTag, ReadDelimited, Parse, ApplyResponse;
    DelimitedTurn(ApplyResponse, m, bs, depth, num, n);
    if ReadDelimited(bs[n..]).Some? {
      assert bs[n..][ReadDelimited(bs[n..]).value.1..] == bs[n + ReadDelimited(bs[n..]).value.1..];
    }
  }

  /** ExpectTag: a tag below 128 is one byte, so finding that byte is reading that tag. */
  lemma ExpectedTag(num: nat, m: ResponseValue, bs: seq<Byte>, depth: nat)
    requires bs != [] && 0 < num < 16 && bs[0] == num * 8 + 2
    ensures Parse(ApplyResponse, m, bs, depth) == AfterTag(num, m, bs[1..], depth)
  {
    hide ReadDelimited, Parse, ApplyResponse;
    AfterTagIsTurn(num, m, bs, depth, 1);
  }

  ghost function ValuesOf(rs: seq<Result>): (vs: seq<ResultValue>)
    reads (set r | r in rs)`id, (set r | r in rs)`unknown
    ensures |vs| == |rs|
    ensures forall i :: 0 <= i < |rs| ==> vs[i] == rs[i].Value()
  {
    if rs == [] then [] else ValuesOf(rs[..|rs| - 1]) + [rs[|rs| - 1].Value()]
  }

  /** MapEntryFuncs::InternalSerialize: the entry's tag, its length, then its key and its value. */
  function WriteEntry(key: int, value: seq<Byte>): (bs: seq<Byte>)
    requires Int32(key)
  {
    EncodeTag(4, 2) + EncodeVarint(EntrySize(key, value)) + WriteInt32(1, key) + WriteString(2, value)
  }

  /** The length of an entry without its own tag and length prefix. */
  function EntrySize(key: int, value: seq<Byte>): nat
    requires Int32(key)
  {
    |WriteInt32(1, key)| + |WriteString(2, value)|
  }

  lemma WrittenEntry(key: int, value: seq<Byte>)
    requires Int32(key)
    ensures EncodeField(EntryField(key, value)) == WriteEntry(key, value)
  {
    var fs := EntryFields(key, value);
    assert fs == [fs[0]] + [fs[1]];
    EncodeFieldsConcat([fs[0]], [fs[1]]);
    EncodeOne(fs[0]);
    EncodeOne(fs[1]);
  }

  lemma {:induction false} QunzuAppend(qunzu: map<int, seq<Byte>>, order: seq<int>, k: int)
    requires forall j :: j in order + [k] ==> j in qunzu && Int32(j)
    ensures QunzuPart(qunzu, order + [k]) == QunzuPart(qunzu, order) + [EntryField(k, qunzu[k])]
    decreases order
  {
    if order != [] {
      QunzuAppend(qunzu, order[1..], k);
      assert (order + [k])[1..] == order[1..] + [k];
    } else {
      assert order + [k] == [k];
    }
  }

  lemma VisitOne(qunzu: map<int, seq<Byte>>, order: seq<int>, k: int)
    requires (forall j :: j in order ==> j in qunzu && Int32(j)) && k in qunzu && Int32(k)
    ensures EncodeFields(QunzuPart(qunzu, order + [k])) ==
            EncodeFields(QunzuPart(qunzu, order)) + WriteEntry(k, qunzu[k])
  {
    hide EncodeFields, EncodeField, WriteEntry, EntryField;
    QunzuAppend(qunzu, order, k);
    EncodeFieldsConcat(QunzuPart(qunzu, order), [EntryField(k, qunzu[k])]);
    EncodeOne(EntryField(k, qunzu[k]));
    WrittenEntry(k, qunzu[k]);
  }

  lemma {:induction false} ResAppend(a: seq<ResultValue>, r: ResultValue)
    requires (forall x :: x in a ==> Int32(x.id)) && Int32(r.id)
    ensures ResPart(a + [r]) == ResPart(a) + [Len(5, EncodeResult(r))]
  {
    if a != [] {
      ResAppend(a[1..], r);
      assert (a + [r])[1..] == a[1..] + [r];
    } else {
      assert a + [r] == [r];
    }
  }

  lemma NothingWritten(vs: seq<ResultValue>)
    ensures EncodeFields(ResPart(vs[..0])) == []
  {
  }

  lemma ResOneMore(vs: seq<ResultValue>, i: nat)
    requires i < |vs| && forall x :: x in vs ==> Int32(x.id)
    ensures EncodeFields(ResPart(vs[..i + 1])) ==
            EncodeFields(ResPart(vs[..i]))
            + (EncodeTag(5, 2) + (EncodeVarint(|EncodeResult(vs[i])|) + EncodeResult(vs[i])))
  {
    hide EncodeFields;
    assert vs[..i + 1] == vs[..i] + [vs[i]];
    ResAppend(vs[..i], vs[i]);
    EncodeFieldsConcat(ResPart(vs[..i]), [Len(5, EncodeResult(vs[i]))]);
    EncodeOne(Len(5, EncodeResult(vs[i])));
  }

  lemma ErrIsShorter(m: ResponseValue)
    requires Writable(m) && m.err.Some?
    ensures |EncodeError(m.err.value)| < |EncodeFields(ErrPart(m.err))|
    ensures EncodeFields(ErrPart(m.err)) ==
            EncodeTag(1, 2) + (EncodeVarint(|EncodeError(m.err.value)|) + EncodeError(m.err.value))
  {
    hide EncodeFields;
    EncodeOne(Len(1, EncodeError(m.err.value)));
    PayloadIsShorter(ErrPart(m.err), Len(1, EncodeError(m.err.value)));
  }

  lemma ResultIsShorter(m: ResponseValue, i: nat)
    requires Writable(m) && i < |m.res|
    ensures Int32(m.res[i].id) && |EncodeResult(m.res[i])| < |EncodeFields(ResPart(m.res))|
  {
    hide EncodeFields;
    ResPartShape(m.res);
    assert ResPart(m.res)[i] == Len(5, EncodeResult(m.res[i]));
    PayloadIsShorter(ResPart(m.res), ResPart(m.res)[i]);
  }

  /** What each field adds to the size of a Response. */
  lemma SizeParts(m: ResponseValue, order: seq<int>)
    requires Writable(m) && IsOrder(order, m.qunzu.Keys)
    ensures Size(m) == |EncodeFields(QunzuPart(m.qunzu, order))| + |EncodeFields(ResPart(m.res))|
                       + |EncodeFields(BytesField(2, m.pwd))| + |EncodeFields(ErrPart(m.err))|
                       + (if m.isOnline then 2 else 0) + |EncodeFields(m.unknown)|
    ensures m.err.Some? ==> |EncodeError(m.err.value)| < Size(m)
    ensures forall i :: 0 <= i < |m.res| ==> Int32(m.res[i].id) && |EncodeResult(m.res[i])| < Size(m)
  {
    hide EncodeFields, EncodeError, EncodeResult, QunzuPart, ResPart, ErrPart, BytesField;
    LengthIsOrderFree(m, order, AnyOrder(m.qunzu.Keys));
    ResponsePieces(m, order);
    EncodeNothing();
    if m.err.Some? {
      ErrIsShorter(m);
    }
    if m.isOnline {
      EncodeOne(Varint(3, 1));
    }
    forall i | 0 <= i < |m.res|
      ensures Int32(m.res[i].id) && |EncodeResult(m.res[i])| < Size(m)
    {
      ResultIsShorter(m, i);
    }
  }

  /** The map takes as many bytes as `size` says, in whatever order it is visited. */
  ghost predicate IsQunzuSize(qunzu: map<int, seq<Byte>>, size: nat)
    requires forall k :: k in qunzu ==> Int32(k)
  {
    forall order :: IsOrder(order, qunzu.Keys) ==> SizeMatches(size, |EncodeFields(QunzuPart(qunzu, order))|)
  }

  /** The string's tag byte, length prefix and bytes; nothing for the default. */
  function PwdSize(pwd: seq<Byte>): (size: nat)
    ensures SizeMatches(size, |EncodeFields(BytesField(2, pwd))|)
  {
    WrittenString(2, pwd);
    EncodeNothing();
    EncodeOne(Len(2, pwd));
    if pwd != [] then 1 + DelimitedSize(|pwd|) else 0
  }

  lemma SizeSum(m: ResponseValue, qunzuSize: nat, resSize: nat, errSize: nat)
    requires Writable(m) && (forall k :: k in m.qunzu ==> Int32(k)) && IsQunzuSize(m.qunzu, qunzuSize)
    requires SizeMatches(resSize, |EncodeFields(ResPart(m.res))|)
    requires SizeMatches(errSize, |EncodeFields(ErrPart(m.err))|)
    ensures SizeMatches(qunzuSize + resSize + PwdSize(m.pwd) + errSize + (if m.isOnline then 2 else 0)
                        + |EncodeFields(m.unknown)|, Size(m))
  {
    hide EncodeFields, QunzuPart, IsOrder, Size, PwdSize, ResPart, ErrPart, BytesField, EncodeError, Writable;
    SizeParts(m, AnyOrder(m.qunzu.Keys));
  }

  lemma EntrySizeMatches(key: int, value: seq<Byte>)
    requires Int32(key)
    ensures var entry := 2 + VarintSize(SignExtend(key)) + DelimitedSize(|value|);
            SizeMatches(1 + DelimitedSize(entry), |WriteEntry(key, value)|)
  {
    hide VarintSize, DelimitedSize, EncodeVarint;
    VarintSizeIsLength(SignExtend(key));
    WrittenString(2, value);
    TagsAreShort();
    var computed := 2 + VarintSize(SignExtend(key)) + DelimitedSize(|value|);
    assert SizeMatches(computed, EntrySize(key, value));
    DelimitedMatches(4, computed, EntrySize(key, value));
  }

  lemma TagsAreShort()
    ensures |EncodeTag(1, 0)| == 1
  {
  }

  ghost predicate ResultCacheFresh(r: Result)
    reads r
  {
    Int32(r.id) && r.cachedSize == |EncodeResult(r.Value())|
  }

  /** The loop that writes the repeated field. */
  method SerializeResults(rs: seq<Result>, target: seq<Byte>) returns (out: seq<Byte>)
    requires forall v :: v in ValuesOf(rs) ==> Int32(v.id)
    requires forall i :: 0 <= i < |rs| ==> ResultCacheFresh(rs[i])
    ensures out == target + EncodeFields(ResPart(ValuesOf(rs)))
  {
    hide EncodeFields, EncodeTag, EncodeVarint, EncodeResult, ResPart;
    ghost var vs := ValuesOf(rs);
    out := target;
    NothingWritten(vs);
    for i := 0 to |rs|
      invariant out == target + EncodeFields(ResPart(vs[..i]))
    {
      ResOneMore(vs, i);
      assert ResultCacheFresh(rs[i]);
      out := out + EncodeTag(5, 2) + EncodeVarint(rs[i].cachedSize);
      out := rs[i].InternalSerialize(out);
    }
    assert vs[..|rs|] == vs;
  }

  /** MessageSize of one element, which caches it. */
  method ResultSize(r: Result) returns (size: nat)
    requires Int32(r.Value().id)
    modifies r`cachedSize
    ensures var n := |EncodeResult(r.Value())|;
            SizeMatches(1 + size, |EncodeTag(5, 2)| + |EncodeVarint(n)| + n)
    ensures |EncodeResult(r.Value())| < MAX_LENGTH ==> ResultCacheFresh(r)
  {
    hide EncodeTag, EncodeVarint, EncodeResult, DelimitedSize;
    var n := r.ByteSizeLong();
    DelimitedMatches(5, n, n);
    size := DelimitedSize(n);
  }

  /** The repeated field's share of ByteSizeLong: a tag byte and a delimited size each. Every element's
      cached size is refreshed on the way. */
  method ResultSizes(rs: seq<Result>) returns (size: nat)
    requires forall i :: 0 <= i < |rs| ==> Int32(ValuesOf(rs)[i].id)
    modifies (set r | r in rs)`cachedSize
    ensures ValuesOf(rs) == old(ValuesOf(rs))
    ensures SizeMatches(size, |EncodeFields(ResPart(ValuesOf(rs)))|)
    ensures forall i :: 0 <= i < |rs| && |EncodeResult(rs[i].Value())| < MAX_LENGTH ==> ResultCacheFresh(rs[i])
  {
    hide EncodeFields, EncodeTag, EncodeVarint, EncodeResult, ResPart, VarintSize, ToInt32;
    ghost var vs := ValuesOf(rs);
    NothingWritten(vs);
    size := |rs|;
    for i := 0 to |rs|
      invariant ValuesOf(rs) == vs && size >= |rs| - i
      invariant SizeMatches(size - (|rs| - i), |EncodeFields(ResPart(vs[..i]))|)
      invariant forall j :: 0 <= j < i && |EncodeResult(vs[j])| < MAX_LENGTH ==> ResultCacheFresh(rs[j])
    {
      ResOneMore(vs, i);
      assert vs[i] == ValuesOf(rs)[i];
      var n := ResultSize(rs[i]);
      size := size + n;
    }
    assert vs[..|rs|] == vs;
  }

  lemma OneMoreValue(rs: seq<Result>, r: Result)
    ensures ValuesOf(rs + [r]) == ValuesOf(rs) + [r.Value()]
  {
    assert (rs + [r])[..|rs|] == rs;
  }

  function WritePwd(pwd: seq<Byte>): seq<Byte>
  {
    if pwd != [] then WriteString(2, pwd) else []
  }

  function WriteOnline(isOnline: bool): seq<Byte>
  {
    if isOnline then EncodeTag(3, 0) + EncodeVarint(1) else []
  }

  function WriteUnknown(unknown: seq<Field>): seq<Byte>
  {
    if unknown != [] then EncodeFields(unknown) else []
  }

  lemma WrittenScalars(m: ResponseValue)
    ensures WritePwd(m.pwd) == EncodeFields(BytesField(2, m.pwd))
    ensures WriteOnline(m.isOnline) == EncodeFields(OnlinePart(m.isOnline))
    ensures WriteUnknown(m.unknown) == EncodeFields(m.unknown)
  {
    hide EncodeFields;
    EncodeNothing();
    WrittenString(2, m.pwd);
    EncodeOne(Varint(3, 1));
  }

  /** The loop over the map, in whatever order it (or the deterministic sorter) yields the entries. */
  method SerializeQunzu(qunzu: map<int, seq<Byte>>, target: seq<Byte>) returns (out: seq<Byte>, ghost order: seq<int>)
    requires forall k :: k in qunzu ==> Int32(k)
    ensures IsOrder(order, qunzu.Keys)
    ensures out == target + EncodeFields(QunzuPart(qunzu, order))
  {
    hide EncodeFields, EncodeTag, EncodeVarint, EncodeDelimited;
    out, order := target, [];
    var keys := qunzu.Keys;
    EncodeNothing();
    while keys != {}
      invariant keys <= qunzu.Keys && IsOrder(order, qunzu.Keys - keys)
      invariant out == target + EncodeFields(QunzuPart(qunzu, order))
    {
      HasMember(keys);
      var k :| k in keys;
      VisitOne(qunzu, order, k);
      out := out + WriteEntry(k, qunzu[k]);
      order := order + [k];
      keys := keys - {k};
    }
  }

  lemma JoinPieces(t: seq<Byte>, a: seq<Byte>, b: seq<Byte>, c: seq<Byte>, d: seq<Byte>, e: seq<Byte>, f: seq<Byte>)
    ensures t + a + b + c + d + e + f == t + (a + b + c + d + e + f)
  {
  }

  class Response {
    var err: Error?
    var pwd: seq<Byte>
    var isOnline: bool
    var qunzu: map<int, seq<Byte>>
    var res: seq<Result>
    var unknown: seq<Field>
    var cachedSize: int

    ghost function Value(): ResponseValue
      reads this`err, this`pwd, this`isOnline, this`qunzu, this`res, this`unknown
      reads (if err == null then {} else {err})`code, (if err == null then {} else {err})`reason
      reads (if err == null then {} else {err})`unknown
      reads (set r | r in res)`id, (set r | r in res)`unknown
    {
      ResponseValue(if err == null then None else Some(err.Value()), pwd, isOnline, qunzu, ValuesOf(res), unknown)
    }

    constructor ()
      ensures Value() == NO_RESPONSE && err == null && res == []
    {
      err, pwd, isOnline, qunzu, res, unknown, cachedSize := null, [], false, map[], [], [], 0;
    }

    method Clear()
      modifies this
      ensures Value() == NO_RESPONSE && err == null && res == []
    {
      qunzu := map[];
      res := [];
      pwd := [];
      err := null;
      isOnline := false;
      unknown := [];
    }

    /** ParseMessage into mutable_err(): creates the nested message, or parses on top of what it holds. */
    method ParseErr(data: seq<Byte>, pos: nat, limit: nat, depth: nat) returns (ok: bool, next: nat)
      requires pos <= limit <= |data|
      modifies this`err, err
      ensures err == old(err) || fresh(err)
      ensures var p := ReadDelimited(data[pos..limit]);
              if p.None? then !ok
              else
                && ApplyErr(old(Value()), p.value.0, depth) == (if ok then Some(Value()) else None)
                && next == pos + p.value.1
    {
      hide ReadDelimited, Parse, ApplyError, ValuesOf;
      var p := ReadDelimited(data[pos..limit]);
      next := pos;
      if p.None? { return false, next; }
      var (payload, n) := p.value;
      next := pos + n;
      if depth == 0 { return false, next; }
      if err == null {
        err := new Error();
      }
      SubSlice(data, pos, limit, n - |payload|, n);
      ok := err.InternalParse(data, next - |payload|, next, depth - 1);
    }

    /** ParseMessage into a map entry, which then overwrites or adds its key. */
    method ParseQunzu(data: seq<Byte>, pos: nat, limit: nat, depth: nat) returns (ok: bool, next: nat)
      requires pos <= limit <= |data|
      modifies this`qunzu
      ensures var p := ReadDelimited(data[pos..limit]);
              if p.None? then !ok
              else
                && ApplyQunzu(old(Value()), p.value.0, depth) == (if ok then Some(Value()) else None)
                && next == pos + p.value.1
    {
      hide ReadDelimited, Parse;
      var p := ReadDelimited(data[pos..limit]);
      next := pos;
      if p.None? { return false, next; }
      var (payload, n) := p.value;
      next := pos + n;
      if depth == 0 { return false, next; }
      var e := Parse(ApplyEntry, NO_ENTRY, payload, depth - 1);
      if e.None? { return false, next; }
      qunzu := qunzu[e.value.key := e.value.value];
      return true, next;
    }

    /** ParseMessage into add_res(): a new element at the end. */
    method ParseRes(data: seq<Byte>, pos: nat, limit: nat, depth: nat) returns (ok: bool, next: nat)
      requires pos <= limit <= |data|
      modifies this`res
      ensures var p := ReadDelimited(data[pos..limit]);
              if p.None? then !ok
              else
                && ApplyRes(old(Value()), p.value.0, depth) == (if ok then Some(Value()) else None)
                && next == pos + p.value.1
    {
      hide ReadDelimited, Parse, ValuesOf;
      var p := ReadDelimited(data[pos..limit]);
      next := pos;
      if p.None? { return false, next; }
      var (payload, n) := p.value;
      next := pos + n;
      if depth == 0 { return false, next; }
      var r := new Result();
      SubSlice(data, pos, limit, n - |payload|, n);
      ok := r.InternalParse(data, next - |payload|, next, depth - 1);
      res := res + [r];
      OneMoreValue(old(res), r);
    }

    /** The do/while over map entries. DataAvailable only promises that bytes remain
        when it says so; it may also say no at the end of an input chunk. */
    method ParseQunzuRun(data: seq<Byte>, start: nat, limit: nat, depth: nat) returns (ok: bool, pos: nat)
      requires 0 < start <= limit <= |data|
      modifies this`qunzu
      ensures AfterTag(4, old(Value()), data[start..limit], depth)
              == if ok && pos <= limit then Parse(ApplyResponse, Value(), data[pos..limit], depth) else None
      ensures ok ==> start < pos <= limit
    {
      hide AfterTag, ReadDelimited, ReadTag, Parse, ApplyResponse, ApplyQunzu;
      ghost var goal := AfterTag(4, Value(), data[start..limit], depth);
      ghost var m := Value();
      pos := start - 1;
      var more := true;
      while more
        invariant start - 1 <= pos <= limit && m == Value()
        invariant more ==> pos < limit && AfterTag(4, m, data[pos + 1..limit], depth) == goal
        invariant !more ==> start < pos && Parse(ApplyResponse, m, data[pos..limit], depth) == goal
        decreases limit - pos, more
      {
        pos := pos + 1;
        AfterTagIs(m, data[pos..limit], depth);
        var next;
        ok, next := ParseQunzu(data, pos, limit, depth);
        if !ok { return false, pos; }
        DropSlice(data, pos, next, limit);
        pos := next;
        m := Value();
        var available: bool := *;
        more := available && pos < limit && data[pos] == 34;
        if more {
          ExpectedTag(4, m, data[pos..limit], depth);
          DropSlice(data, pos, pos + 1, limit);
        }
      }
      return true, pos;
    }

    /** The do/while over repeated elements. DataAvailable only promises that bytes remain
        when it says so; it may also say no at the end of an input chunk. */
    method ParseResRun(data: seq<Byte>, start: nat, limit: nat, depth: nat) returns (ok: bool, pos: nat)
      requires 0 < start <= limit <= |data|
      modifies this`res
      ensures AfterTag(5, old(Value()), data[start..limit], depth)
              == if ok && pos <= limit then Parse(ApplyResponse, Value(), data[pos..limit], depth) else None
      ensures ok ==> start < pos <= limit
    {
      hide AfterTag, ReadDelimited, ReadTag, Parse, ApplyResponse, ApplyRes;
      ghost var goal := AfterTag(5, Value(), data[start..limit], depth);
      ghost var m := Value();
      pos := start - 1;
      var more := true;
      while more
        invariant start - 1 <= pos <= limit && m == Value()
        invariant more ==> pos < limit && AfterTag(5, m, data[pos + 1..limit], depth) == goal
        invariant !more ==> start < pos && Parse(ApplyResponse, m, data[pos..limit], depth) == goal
        decreases limit - pos, more
      {
        pos := pos + 1;
        AfterTagIs(m, data[pos..limit], depth);
        var next;
        ok, next := ParseRes(data, pos, limit, depth);
        if !ok { return false, pos; }
        DropSlice(data, pos, next, limit);
        pos := next;
        m := Value();
        var available: bool := *;
        more := available && pos < limit && data[pos] == 42;
        if more {
          ExpectedTag(5, m, data[pos..limit], depth);
          DropSlice(data, pos, pos + 1, limit);
        }
      }
      return true, pos;
    }

    method ParseErrField(data: seq<Byte>, start: nat, limit: nat, depth: nat) returns (ok: bool, pos: nat)
      requires start <= limit <= |data|
      modifies this`err, err
      ensures err == old(err) || fresh(err)
      ensures AfterTag(1, old(Value()), data[start..limit], depth)
              == if ok && pos <= limit then Parse(ApplyResponse, Value(), data[pos..limit], depth) else None
      ensures ok ==> start < pos <= limit
    {
      hide ReadDelimited, Parse, ApplyErr;
      ok, pos := ParseErr(data, start, limit, depth);
      if ok {
        DropSlice(data, start, pos, limit);
      }
    }

    /** The cases pwd and is_online. */
    method ParseScalar(data: seq<Byte>, start: nat, limit: nat, depth: nat, tag: nat, n: nat)
      returns (ok: bool, pos: nat)
      requires start < limit <= |data| && ReadTag(data[start..limit]) == Some((tag, n)) && (tag == 18 || tag == 24)
      modifies this`pwd, this`isOnline
      ensures Parse(ApplyResponse, old(Value()), data[start..limit], depth)
              == if ok && pos <= limit then Parse(ApplyResponse, Value(), data[pos..limit], depth) else None
      ensures ok ==> start < pos <= limit
    {
      hide DecodePayload, DecodeField, ReadTag, ReadVarint64, ReadDelimited, ValidUtf8, Parse;
      hide ApplyErr, ApplyQunzu, ApplyRes;
      var rest := data[start..limit];
      pos := start;
      if tag == 18 {
        DelimitedTurn(ApplyResponse, Value(), rest, depth, 2, n);
        var s := ReadDelimited(rest[n..]);
        if s.None? || !ValidUtf8(s.value.0) { return false, pos; }
        pwd := s.value.0;
        pos := pos + n + s.value.1;
      } else {
        VarintTurn(ApplyResponse, Value(), rest, depth, 3, n);
        var v := ReadVarint64(rest[n..]);
        if v.None? { return false, pos; }
        isOnline := v.value.0 != 0;
        pos := pos + n + v.value.1;
      }
      DropSlice(data, start, pos, limit);
      return true, pos;
    }

    /** handle_unusual: every tag that is not exactly that of a known field. */
    method ParseUnusual(data: seq<Byte>, start: nat, limit: nat, depth: nat, tag: nat, n: nat)
      returns (ok: bool, pos: nat)
      requires start < limit <= |data| && ReadTag(data[start..limit]) == Some((tag, n))
      requires tag != 10 && tag != 18 && tag != 24 && tag != 34 && tag != 42
      modifies this`unknown
      ensures Parse(ApplyResponse, old(Value()), data[start..limit], depth)
              == if ok && pos <= limit then Parse(ApplyResponse, Value(), data[pos..limit], depth) else None
      ensures ok ==> start < pos <= limit
    {
      hide DecodePayload, DecodeField, ReadTag, ReadVarint64, ReadDelimited, ValidUtf8, Parse;
      hide ApplyErr, ApplyQunzu, ApplyRes;
      var rest := data[start..limit];
      pos := start;
      if tag == 0 || tag % 8 == 4 {
        EndTurn(ApplyResponse, Value(), rest, depth, tag, n);
        return false, pos;
      }
      UnknownTurn(ApplyResponse, Value(), rest, depth, tag, n);
      var u := DecodePayload(tag / 8, tag % 8, rest[n..], depth);
      if u.None? { return false, pos; }
      unknown := unknown + [u.value.0];
      pos := pos + n + u.value.1;
      DropSlice(data, start, pos, limit);
      return true, pos;
    }

    /** One turn of the parse loop: read a tag and switch on its field number. */
    method ParseField(data: seq<Byte>, start: nat, limit: nat, depth: nat) returns (ok: bool, pos: nat)
      requires start < limit <= |data|
      modifies this, err
      ensures err == old(err) || fresh(err)
      ensures Parse(ApplyResponse, old(Value()), data[start..limit], depth)
              == if ok && pos <= limit then Parse(ApplyResponse, Value(), data[pos..limit], depth) else None
      ensures ok ==> start < pos <= limit
    {
      hide *;
      pos := start;
      var rest := data[start..limit];
      var t := ReadTag(rest);
      if t.None? {
        ParseBadTag(ApplyResponse, Value(), rest, depth);
        return false, pos;
      }
      var (tag, n) := t.value;
      DropSlice(data, start, start + n, limit);
      if tag / 8 == 1 && tag % 256 == 10 {
        AfterTagIsTurn(1, Value(), rest, depth, n);
        ok, pos := ParseErrField(data, start + n, limit, depth);
      } else if tag / 8 == 4 && tag % 256 == 34 {
        AfterTagIsTurn(4, Value(), rest, depth, n);
        ok, pos := ParseQunzuRun(data, start + n, limit, depth);
      } else if tag / 8 == 5 && tag % 256 == 42 {
        AfterTagIsTurn(5, Value(), rest, depth, n);
        ok, pos := ParseResRun(data, start + n, limit, depth);
      } else if (tag / 8 == 2 && tag % 256 == 18) || (tag / 8 == 3 && tag % 256 == 24) {
        ok, pos := ParseScalar(data, start, limit, depth, tag, n);
      } else {
        ok, pos := ParseUnusual(data, start, limit, depth, tag, n);
      }
    }

    method InternalParse(data: seq<Byte>, start: nat, limit: nat, depth: nat) returns (ok: bool)
      requires start <= limit <= |data|
      modifies this, err
      ensures err == old(err) || fresh(err)
      ensures Parse(ApplyResponse, old(Value()), data[start..limit], depth) == if ok then Some(Value()) else None
    {
      hide *;
      var pos := start;
      while pos < limit
        invariant start <= pos <= limit
        invariant err == old(err) || fresh(err)
        invariant Parse(ApplyResponse, Value(), data[pos..limit], depth)
                  == Parse(ApplyResponse, old(Value()), data[start..limit], depth)
      {
        ok, pos := ParseField(data, pos, limit, depth);
        if !ok { return false; }
      }
      assert data[pos..limit] == [];
      ParseNothing(ApplyResponse, Value(), depth);
      return true;
    }

    // ---------- size and serialization ----------

    /** The cached sizes the length prefixes are taken from agree with the nested messages. */
    ghost predicate CachesFresh()
      requires Writable(Value())
      reads this`err, this`pwd, this`isOnline, this`qunzu, this`res, this`unknown, err, res
    {
      ErrFresh() && ResFresh()
    }

    ghost predicate ErrFresh()
      reads this`err, err
    {
      err != null ==> Int32(err.code) && err.cachedSize == |EncodeError(err.Value())|
    }

    ghost predicate ResFresh()
      reads this`res, res
    {
      forall i :: 0 <= i < |res| ==> ResultCacheFresh(res[i])
    }

    lemma BothFresh()
      requires Writable(Value()) && ErrFresh() && ResFresh()
      ensures CachesFresh()
    {
    }

    method InternalSerialize(target: seq<Byte>) returns (out: seq<Byte>)
      requires Writable(Value()) && CachesFresh()
      ensures target <= out && IsSerialization(Value(), out[|target|..])
    {
      hide EncodeFields, EncodeResponse, ResponseFields, ErrPart, BytesField, OnlinePart, QunzuPart, ResPart;
      hide ResultCacheFresh, EncodeError;
      ghost var m := Value();
      ghost var order;
      out := SerializeErr(target);
      out := out + WritePwd(pwd) + WriteOnline(isOnline);
      out, order := SerializeQunzu(qunzu, out);
      out := SerializeResults(res, out);
      out := out + WriteUnknown(unknown);
      ResponsePieces(m, order);
      WrittenScalars(m);
      JoinPieces(target, EncodeFields(ErrPart(m.err)), EncodeFields(BytesField(2, m.pwd)),
                 EncodeFields(OnlinePart(m.isOnline)),
                 EncodeFields(QunzuPart(m.qunzu, order)), EncodeFields(ResPart(m.res)), EncodeFields(m.unknown));
      assert out[|target|..] == EncodeResponse(m, order);
    }

    /** The nested message, behind the length its last ByteSizeLong cached. */
    method SerializeErr(target: seq<Byte>) returns (out: seq<Byte>)
      requires Writable(Value()) && CachesFresh()
      ensures out == target + EncodeFields(ErrPart(Value().err))
    {
      hide EncodeFields, EncodeTag, EncodeVarint;
      out := target;
      if err != null {
        EncodeOne(Len(1, EncodeError(err.Value())));
        out := out + EncodeTag(1, 2) + EncodeVarint(err.cachedSize);
        out := err.InternalSerialize(out);
      } else {
        EncodeNothing();
      }
    }

    /** The map's share of ByteSizeLong: one tag byte an entry, then each entry's delimited size. */
    method QunzuSize() returns (size: nat)
      requires Writable(Value())
      ensures (forall k :: k in Value().qunzu ==> Int32(k)) && IsQunzuSize(Value().qunzu, size)
    {
      hide EncodeFields, WriteEntry, VarintSize, DelimitedSize, SignExtend;
      ghost var order: seq<int> := [];
      EncodeNothing();
      size := |qunzu|;
      var keys := qunzu.Keys;
      while keys != {}
        invariant keys <= qunzu.Keys && IsOrder(order, qunzu.Keys - keys)
        invariant |order| + |keys| == |qunzu| && size >= |keys|
        invariant SizeMatches(size - |keys|, |EncodeFields(QunzuPart(qunzu, order))|)
      {
        HasMember(keys);
        var k :| k in keys;
        VisitOne(qunzu, order, k);
        EntrySizeMatches(k, qunzu[k]);
        size := size + DelimitedSize(2 + VarintSize(SignExtend(k)) + DelimitedSize(|qunzu[k]|));
        order := order + [k];
        keys := keys - {k};
      }
      forall other | IsOrder(other, qunzu.Keys)
        ensures SizeMatches(size, |EncodeFields(QunzuPart(qunzu, other))|)
      {
        assert forall k :: k in order <==> k in other;
        EntriesLengthIsOrderFree(qunzu, order, other);
      }
    }

    /** MessageSize of the nested message, which caches it. */
    method ErrSize() returns (size: nat)
      requires Writable(Value())
      modifies (if err == null then {} else {err})`cachedSize
      ensures Value() == old(Value())
      ensures SizeMatches(size, |EncodeFields(ErrPart(Value().err))|)
      ensures Size(Value()) < MAX_LENGTH ==> ErrFresh()
    {
      hide EncodeFields, EncodeResponse, EncodeError, EncodeResult, Size, DelimitedSize, QunzuPart, ResPart;
      hide ResponseFields, ValuesOf, EncodeVarint;
      ghost var m := Value();
      SizeParts(m, AnyOrder(m.qunzu.Keys));
      EncodeNothing();
      size := 0;
      if err != null {
        ErrIsShorter(m);
        var n := err.ByteSizeLong();
        DelimitedMatches(1, n, |EncodeError(m.err.value)|);
        size := 1 + DelimitedSize(n);
      }
      assert Value() == m;
    }

    /** The repeated field's share. */
    method ResSize() returns (size: nat)
      requires Writable(Value())
      modifies (set r | r in res)`cachedSize
      ensures Value() == old(Value()) && SizeMatches(size, |EncodeFields(ResPart(Value().res))|)
      ensures Size(Value()) < MAX_LENGTH ==> ResFresh()
    {
      hide EncodeFields, EncodeResponse, EncodeError, EncodeResult, Size, DelimitedSize, ErrPart, QunzuPart, ResPart;
      hide ResponseFields, Writable, IsOrder, AnyOrder, PwdSize;
      ghost var m := Value();
      SizeParts(m, AnyOrder(m.qunzu.Keys));
      size := ResultSizes(res);
      assert Value() == m;
      forall i | 0 <= i < |res| && Size(m) < MAX_LENGTH
        ensures ResultCacheFresh(res[i])
      {
        assert m.res[i] == res[i].Value();
      }
    }

    /** The nested messages' shares, which leave every cached size up to date. */
    method NestedSizes() returns (resSize: nat, errSize: nat)
      requires Writable(Value())
      modifies (if err == null then {} else {err})`cachedSize, (set r | r in res)`cachedSize
      ensures Value() == old(Value())
      ensures SizeMatches(resSize, |EncodeFields(ResPart(Value().res))|)
      ensures SizeMatches(errSize, |EncodeFields(ErrPart(Value().err))|)
      ensures Size(Value()) < MAX_LENGTH ==> CachesFresh()
    {
      hide *;
      resSize := ResSize();
      errSize := ErrSize();
      if Size(Value()) < MAX_LENGTH {
        BothFresh();
      }
    }

    /** The size of what the object holds itself, added to the shares of what it refers to. */
    method AddSizes(qunzuSize: nat, resSize: nat, errSize: nat) returns (size: nat)
      ensures var m := Value();
              size == qunzuSize + resSize + PwdSize(m.pwd) + errSize + (if m.isOnline then 2 else 0)
                      + |EncodeFields(m.unknown)|
    {
      hide EncodeFields, DelimitedSize;
      size := qunzuSize + resSize;
      if pwd != [] {
        size := size + 1 + DelimitedSize(|pwd|);
      }
      size := size + errSize;
      if isOnline {
        size := size + 2;
      }
      size := size + |EncodeFields(unknown)|;
    }

    method TotalSize() returns (size: nat)
      requires Writable(Value())
      modifies (if err == null then {} else {err})`cachedSize, (set r | r in res)`cachedSize
      ensures Value() == old(Value()) && SizeMatches(size, Size(Value()))
      ensures Size(Value()) < MAX_LENGTH ==> CachesFresh()
    {
      ghost var m := Value();
      hide *;
      var qunzuSize := QunzuSize();
      var resSize, errSize := NestedSizes();
      assert Value() == m;
      SizeSum(m, qunzuSize, resSize, errSize);
      size := AddSizes(qunzuSize, resSize, errSize);
    }

    /** The exact size, as long as there is less than 4 GiB of it; and never less than 4 GiB of a larger message. */
    method ByteSizeLong() returns (size: nat)
      requires Writable(Value())
      modifies this`cachedSize, (if err == null then {} else {err})`cachedSize, (set r | r in res)`cachedSize
      ensures Value() == old(Value())
      ensures SizeMatches(size, Size(Value())) && cachedSize == ToInt32(size)
      ensures Size(Value()) < MAX_LENGTH ==> CachesFresh()
    {
      hide *;
      size := TotalSize();
      cachedSize := ToInt32(size);
    }

    // ---------- whole messages ----------

    /** Fails exactly when the message takes 2 GiB or more; the buffer is sized by ByteSizeLong and filled whole. */
    method SerializePartialToString() returns (ok: bool, out: seq<Byte>)
      requires Writable(Value())
      modifies this`cachedSize, (if err == null then {} else {err})`cachedSize, (set r | r in res)`cachedSize
      ensures Value() == old(Value())
      ensures ok <==> Size(Value()) < 0x8000_0000
      ensures ok ==> IsSerialization(Value(), out) && |out| == Size(Value())
    {
      hide EncodeResponse, CachesFresh, Writable, IsSerialization, Size;
      out := [];
      var size := ByteSizeLong();
      if size >= MAX_LENGTH { return false, out; }
      out := InternalSerialize([]);
      assert out[0..] == out;
      SerializationLength(Value(), out);
      ok := true;
    }

    method ParseFromString(data: seq<Byte>) returns (ok: bool)
      modifies this
      ensures ParseResponse(data) == if ok then Some(Value()) else None
    {
      hide Parse, ApplyResponse;
      Clear();
      ok := InternalParse(data, 0, |data|, ROOT_DEPTH);
      assert data[0..|data|] == data;
    }

    method MergeRes(rs: seq<Result>)
      modifies this`res
      ensures ValuesOf(res) == old(ValuesOf(res)) + ValuesOf(rs)
    {
      hide *;
      var copies := CopyResults(rs);
      res := res + copies;
      AppendedValues(old(res), copies);
    }

    method MergeErr(other: Error?)
      requires other != null ==> other != err
      modifies this`err, err
      ensures err == old(err) || fresh(err)
      ensures other == null ==> err == old(err) && (err != null ==> err.Value() == old(err.Value()))
      ensures other != null ==> other.Value() == old(other.Value())
      ensures other != null ==> err != null
      ensures other != null ==>
        err.Value() == MergeError(if old(err) == null then NO_ERROR else old(err.Value()), other.Value())
    {
      if other != null {
        if err == null {
          err := new Error();
        }
        err.MergeFrom(other);
      }
    }

    method MergeFrom(from: Response)
      requires from != this && (from.err != null ==> from.err != err)
      modifies this, err
      ensures Value() == MergeResponse(old(Value()), old(from.Value()))
    {
      hide MergeError, ValuesOf;
      ghost var to, other := Value(), from.Value();
      MergeScalars(from);
      MergeRes(from.res);
      assert ValuesOf(res) == to.res + other.res;
      MergeErr(from.err);
      assert ValuesOf(res) == to.res + other.res;
      assert Value() == MergeResponse(to, other);
    }

    method MergeScalars(from: Response)
      requires from != this
      modifies this`qunzu, this`pwd, this`isOnline, this`unknown
      ensures qunzu == old(qunzu) + from.qunzu && unknown == old(unknown) + from.unknown
      ensures pwd == (if from.pwd != [] then from.pwd else old(pwd)) && isOnline == (from.isOnline || old(isOnline))
    {
      qunzu := qunzu + from.qunzu;
      if from.pwd != [] {
        pwd := from.pwd;
      }
      if from.isOnline {
        isOnline := true;
      }
      unknown := unknown + from.unknown;
    }
  }

  method CopyResults(rs: seq<Result>) returns (copies: seq<Result>)
    ensures ValuesOf(copies) == ValuesOf(rs)
    ensures fresh(copies)
  {
    copies := [];
    for i := 0 to |rs|
      invariant |copies| == i && fresh(copies)
      invariant forall j :: 0 <= j < i ==> copies[j].Value() == rs[j].Value()
    {
      var r := new Result();
      r.id, r.unknown := rs[i].id, rs[i].unknown;
      copies := copies + [r];
    }
    assert ValuesOf(copies) == ValuesOf(rs);
  }

  lemma AppendedValues(a: seq<Result>, b: seq<Result>)
    ensures ValuesOf(a + b) == ValuesOf(a) + ValuesOf(b)
  {
  }

  /** Writing one message object and reading it into another, as tests/test_proto.cpp does: the copy holds
      what the original held, exactly when the original's strings are UTF-8. */
  method Transfer(from: Response, to: Response) returns (written: bool, read: bool)
    requires from != to && ValidResponse(from.Value(), ROOT_DEPTH)
    modifies from`cachedSize, (if from.err == null then {} else {from.err})`cachedSize
    modifies (set r | r in from.res)`cachedSize, to
    ensures written <==> Size(old(from.Value())) < 0x8000_0000
    ensures written ==> (read <==> Utf8Response(old(from.Value())))
    ensures written && read ==> to.Value() == old(from.Value())
  {
    hide Parse, ApplyResponse, EncodeFields, IsSerialization, Size;
    var out;
    read := false;
    written, out := from.SerializePartialToString();
    if written {
      SerializationRoundTrip(from.Value(), out);
      read := to.ParseFromString(out);
    }
  }
}
