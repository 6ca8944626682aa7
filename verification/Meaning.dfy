/** What a parsed Response means in terms of the records of its input, stated without the parse loop
    (Protocol Buffers Encoding, section "Last One Wins"). */
module Meaning {
  import opened Wrappers
  import opened Bytes
  import opened Utf8
  import opened Wire
  import opened Messages
  import opened Codec
  import opened RpcHeader

  /** All records of the input, or None when it cannot be cut into records. */
  function Records(bs: seq<Byte>, depth: nat): Option<seq<Field>>
    decreases |bs|
  {
    if bs == [] then Some([])
    else
      match DecodeField(bs, depth)
      case None => None
      case Some((f, n)) =>
        match Records(bs[n..], depth)
        case None => None
        case Some(fs) => Some([f] + fs)
  }

  /** Decoding and applying record by record is the same as decoding everything first. */
  lemma {:induction false} ParseIsDecodeThenApply<M>(apply: (M, Field, nat) -> Option<M>, m: M, bs: seq<Byte>,
                                                     depth: nat)
    ensures Parse(apply, m, bs, depth) ==
            if Records(bs, depth).None? then None else ApplyAll(apply, m, Records(bs, depth).value, depth)
    decreases |bs|
  {
    hide DecodeField;
    if bs != [] && DecodeField(bs, depth).Some? {
      var (f, n) := DecodeField(bs, depth).value;
      if apply(m, f, depth).Some? {
        ParseIsDecodeThenApply(apply, apply(m, f, depth).value, bs[n..], depth);
      }
      if Records(bs[n..], depth).Some? {
        assert ([f] + Records(bs[n..], depth).value)[1..] == Records(bs[n..], depth).value;
      }
    }
  }

  // ---------- the records of one field ----------

  function LastVarint(fs: seq<Field>, num: nat): Option<nat>
  {
    if fs == [] then None
    else
      var f := fs[|fs| - 1];
      if f.Varint? && f.num == num then Some(f.value) else LastVarint(fs[..|fs| - 1], num)
  }

  function Payloads(fs: seq<Field>, num: nat): seq<seq<Byte>>
  {
    if fs == [] then []
    else
      var f := fs[|fs| - 1];
      Payloads(fs[..|fs| - 1], num) + if f.Len? && f.num == num then [f.payload] else []
  }

  function Unknowns(fs: seq<Field>): seq<Field>
  {
    if fs == [] then []
    else
      var f := fs[|fs| - 1];
      Unknowns(fs[..|fs| - 1]) + if KnownResponse(f) then [] else [f]
  }

  function Join(ps: seq<seq<Byte>>): seq<Byte>
  {
    if ps == [] then [] else Join(ps[..|ps| - 1]) + ps[|ps| - 1]
  }

  /** The value of the last entry for `key`. */
  function LastEntry(ps: seq<seq<Byte>>, key: int, depth: nat): Option<seq<Byte>>
  {
    if ps == [] then None
    else
      var e := Parse(ApplyEntry, NO_ENTRY, ps[|ps| - 1], depth);
      if e.Some? && e.value.key == key then Some(e.value.value) else LastEntry(ps[..|ps| - 1], key, depth)
  }

  // ---------- the meaning ----------

  /** The last scalar wins, the last entry of a key wins, repeated elements all count in order, the pieces of the
      nested message add up as if they were one, and everything else is kept. */
  ghost predicate Means(m: ResponseValue, fs: seq<Field>, depth: nat)
  {
    && m.pwd == (if Payloads(fs, 2) == [] then [] else Payloads(fs, 2)[|Payloads(fs, 2)| - 1])
    && m.isOnline == (LastVarint(fs, 3).Some? && LastVarint(fs, 3).value != 0)
    && m.unknown == Unknowns(fs)
    && MeansErr(m.err, Payloads(fs, 1), depth)
    && MeansQunzu(m.qunzu, Payloads(fs, 4), depth)
    && MeansRes(m.res, Payloads(fs, 5), depth)
  }

  ghost predicate MeansErr(err: Option<ErrorValue>, ps: seq<seq<Byte>>, depth: nat)
  {
    && (err.None? <==> ps == [])
    && (ps != [] ==> depth > 0 && Parse(ApplyError, NO_ERROR, Join(ps), depth - 1) == err)
  }

  ghost predicate MeansQunzu(qunzu: map<int, seq<Byte>>, ps: seq<seq<Byte>>, depth: nat)
  {
    if ps == [] then qunzu == map[] else depth > 0 && HasLastEntries(qunzu, ps, depth - 1)
  }

  ghost predicate HasLastEntries(qunzu: map<int, seq<Byte>>, ps: seq<seq<Byte>>, depth: nat)
  {
    forall k :: LastEntry(ps, k, depth) == if k in qunzu then Some(qunzu[k]) else None
  }

  ghost predicate MeansRes(res: seq<ResultValue>, ps: seq<seq<Byte>>, depth: nat)
  {
    && |res| == |ps|
    && (ps != [] ==> depth > 0)
    && forall i :: 0 <= i < |ps| ==> Parse(ApplyResult, NO_RESULT, ps[i], depth - 1) == Some(res[i])
  }

  lemma OneMoreRecord(fs: seq<Field>, f: Field, num: nat)
    ensures LastVarint(fs + [f], num) == if f.Varint? && f.num == num then Some(f.value) else LastVarint(fs, num)
    ensures Payloads(fs + [f], num) ==
            if f.Len? && f.num == num then Payloads(fs, num) + [f.payload] else Payloads(fs, num)
    ensures Unknowns(fs + [f]) == if KnownResponse(f) then Unknowns(fs) else Unknowns(fs) + [f]
  {
    assert (fs + [f])[..|fs|] == fs;
  }

  lemma OneMoreErr(m: ResponseValue, ps: seq<seq<Byte>>, p: seq<Byte>, depth: nat)
    requires MeansErr(m.err, ps, depth) && ApplyErr(m, p, depth).Some?
    ensures MeansErr(ApplyErr(m, p, depth).value.err, ps + [p], depth)
  {
    hide Parse;
    assert (ps + [p])[..|ps|] == ps;
    assert Join(ps + [p]) == Join(ps) + p;
    if ps == [] {
      assert Join(ps) + p == p;
    } else {
      ParseConcat(ApplyError, NO_ERROR, Join(ps), p, depth - 1);
    }
  }

  lemma OneMoreEntry(m: ResponseValue, ps: seq<seq<Byte>>, p: seq<Byte>, depth: nat)
    requires MeansQunzu(m.qunzu, ps, depth) && ApplyQunzu(m, p, depth).Some?
    ensures MeansQunzu(ApplyQunzu(m, p, depth).value.qunzu, ps + [p], depth)
  {
    hide Parse;
    var q := ApplyQunzu(m, p, depth).value.qunzu;
    assert (ps + [p])[..|ps|] == ps;
    forall k
      ensures LastEntry(ps + [p], k, depth - 1) == if k in q then Some(q[k]) else None
    {
      assert ps != [] ==> LastEntry(ps, k, depth - 1) == if k in m.qunzu then Some(m.qunzu[k]) else None;
    }
  }

  lemma OneMoreRes(m: ResponseValue, ps: seq<seq<Byte>>, p: seq<Byte>, depth: nat)
    requires MeansRes(m.res, ps, depth) && ApplyRes(m, p, depth).Some?
    ensures MeansRes(ApplyRes(m, p, depth).value.res, ps + [p], depth)
  {
    hide Parse;
  }

  lemma MeansOneMore(m: ResponseValue, fs: seq<Field>, f: Field, depth: nat)
    requires Means(m, fs, depth) && ApplyResponse(m, f, depth).Some?
    ensures Means(ApplyResponse(m, f, depth).value, fs + [f], depth)
  {
    hide MeansErr, MeansQunzu, MeansRes, ApplyErr, ApplyQunzu, ApplyRes, ValidUtf8;
    hide LastVarint, Payloads, Unknowns;
    OneMoreRecord(fs, f, 1);
    OneMoreRecord(fs, f, 2);
    OneMoreRecord(fs, f, 3);
    OneMoreRecord(fs, f, 4);
    OneMoreRecord(fs, f, 5);
    match f
    case Len(1, p) => OneMoreErr(m, Payloads(fs, 1), p, depth); ApplyKeeps(m, p, depth);
    case Len(4, p) => OneMoreEntry(m, Payloads(fs, 4), p, depth); ApplyKeeps(m, p, depth);
    case Len(5, p) => OneMoreRes(m, Payloads(fs, 5), p, depth); ApplyKeeps(m, p, depth);
    case _ =>
  }

  lemma ApplyKeeps(m: ResponseValue, p: seq<Byte>, depth: nat)
    ensures ApplyErr(m, p, depth).Some? ==> ApplyErr(m, p, depth).value == m.(err := ApplyErr(m, p, depth).value.err)
    ensures ApplyQunzu(m, p, depth).Some? ==>
              ApplyQunzu(m, p, depth).value == m.(qunzu := ApplyQunzu(m, p, depth).value.qunzu)
    ensures ApplyRes(m, p, depth).Some? ==> ApplyRes(m, p, depth).value == m.(res := ApplyRes(m, p, depth).value.res)
  {
    hide Parse;
  }

  lemma {:induction false} AppliedMeans(fs: seq<Field>, depth: nat)
    ensures var r := ApplyAll(ApplyResponse, NO_RESPONSE, fs, depth); r.Some? ==> Means(r.value, fs, depth)
  {
    hide Means, ApplyResponse;
    if fs == [] {
      NothingMeansDefault(depth);
    } else {
      var init, f := fs[..|fs| - 1], fs[|fs| - 1];
      assert init + [f] == fs;
      AppliedMeans(init, depth);
      ApplyAllConcat(ApplyResponse, NO_RESPONSE, init, [f], depth);
      var m := ApplyAll(ApplyResponse, NO_RESPONSE, init, depth);
      if m.Some? {
        assert [f][1..] == [];
        assert ApplyAll(ApplyResponse, m.value, [f], depth) == ApplyResponse(m.value, f, depth);
        if ApplyResponse(m.value, f, depth).Some? {
          MeansOneMore(m.value, init, f, depth);
        }
      }
    }
  }

  lemma NothingMeansDefault(depth: nat)
    ensures Means(NO_RESPONSE, [], depth)
  {
  }

  /** For every input the parser accepts, the message is what its records mean. */
  lemma LastOneWins(bs: seq<Byte>)
    requires ParseResponse(bs).Some?
    ensures Records(bs, ROOT_DEPTH).Some? && Means(ParseResponse(bs).value, Records(bs, ROOT_DEPTH).value, ROOT_DEPTH)
  {
    hide Means, Parse, ApplyResponse, Records;
    ParseIsDecodeThenApply(ApplyResponse, NO_RESPONSE, bs, ROOT_DEPTH);
    AppliedMeans(Records(bs, ROOT_DEPTH).value, ROOT_DEPTH);
  }

  // ---------- which inputs are accepted, and what the flat messages mean ----------

  /** The strings with these numbers are UTF-8. */
  predicate StringsAreUtf8(fs: seq<Field>, nums: set<nat>)
  {
    forall i :: 0 <= i < |fs| && fs[i].Len? && fs[i].num in nums ==> ValidUtf8(fs[i].payload)
  }

  function LastString(fs: seq<Field>, num: nat, otherwise: seq<Byte>): seq<Byte>
  {
    if Payloads(fs, num) == [] then otherwise else Payloads(fs, num)[|Payloads(fs, num)| - 1]
  }

  function LastInt(fs: seq<Field>, num: nat, otherwise: int): int
  {
    if LastVarint(fs, num).None? then otherwise else ToInt32(LastVarint(fs, num).value)
  }

  /** The records that are not one of these numbers and strings. */
  function Others(fs: seq<Field>, ints: set<nat>, strings: set<nat>): seq<Field>
  {
    if fs == [] then []
    else
      var f := fs[|fs| - 1];
      Others(fs[..|fs| - 1], ints, strings) +
      if (f.Varint? && f.num in ints) || (f.Len? && f.num in strings) then [] else [f]
  }

  lemma OneMoreField(fs: seq<Field>, f: Field, num: nat, nums: set<nat>, ints: set<nat>, otherwise: seq<Byte>)
    ensures StringsAreUtf8(fs + [f], nums) <==>
            StringsAreUtf8(fs, nums) && (f.Len? && f.num in nums ==> ValidUtf8(f.payload))
    ensures LastString(fs + [f], num, otherwise) ==
            if f.Len? && f.num == num then f.payload else LastString(fs, num, otherwise)
    ensures LastVarint(fs + [f], num) == if f.Varint? && f.num == num then Some(f.value) else LastVarint(fs, num)
    ensures Others(fs + [f], ints, nums) ==
            Others(fs, ints, nums) + if (f.Varint? && f.num in ints) || (f.Len? && f.num in nums) then [] else [f]
  {
    hide ValidUtf8;
    assert (fs + [f])[..|fs|] == fs;
    OneMoreRecord(fs, f, num);
    assert (fs + [f])[|fs|] == f;
  }

  lemma ApplyOneMore<M>(apply: (M, Field, nat) -> Option<M>, m: M, fs: seq<Field>, f: Field, depth: nat)
    ensures ApplyAll(apply, m, fs + [f], depth) ==
            if ApplyAll(apply, m, fs, depth).None? then None
            else apply(ApplyAll(apply, m, fs, depth).value, f, depth)
  {
    ApplyAllConcat(apply, m, fs, [f], depth);
    assert [f][1..] == [];
  }

  lemma {:induction false} ErrorApplied(m: ErrorValue, fs: seq<Field>, depth: nat)
    ensures ApplyAll(ApplyError, m, fs, depth) ==
            if StringsAreUtf8(fs, {2})
            then Some(ErrorValue(LastInt(fs, 1, m.code), LastString(fs, 2, m.reason), m.unknown + Others(fs, {1}, {2})))
            else None
    decreases |fs|
  {
    if fs == [] {
      assert m.unknown + [] == m.unknown;
    } else {
      hide StringsAreUtf8, LastString, LastVarint, Others, ApplyAll, ValidUtf8;
      var init, f := fs[..|fs| - 1], fs[|fs| - 1];
      assert fs == init + [f];
      ErrorApplied(m, init, depth);
      ApplyOneMore(ApplyError, m, init, f, depth);
      OneMoreField(init, f, 1, {2}, {1}, m.reason);
      OneMoreField(init, f, 2, {2}, {1}, m.reason);
      assert m.unknown + (Others(init, {1}, {2}) + [f]) == m.unknown + Others(init, {1}, {2}) + [f];
      assert Others(init, {1}, {2}) + [] == Others(init, {1}, {2});
    }
  }

  lemma {:induction false} ResultApplied(m: ResultValue, fs: seq<Field>, depth: nat)
    ensures ApplyAll(ApplyResult, m, fs, depth) ==
            Some(ResultValue(LastInt(fs, 1, m.id), m.unknown + Others(fs, {1}, {})))
    decreases |fs|
  {
    if fs == [] {
      assert m.unknown + [] == m.unknown;
    } else {
      hide LastVarint, Others, ApplyAll;
      var init, f := fs[..|fs| - 1], fs[|fs| - 1];
      assert fs == init + [f];
      ResultApplied(m, init, depth);
      ApplyOneMore(ApplyResult, m, init, f, depth);
      OneMoreField(init, f, 1, {}, {1}, []);
      assert m.unknown + (Others(init, {1}, {}) + [f]) == m.unknown + Others(init, {1}, {}) + [f];
      assert Others(init, {1}, {}) + [] == Others(init, {1}, {});
    }
  }

  lemma {:induction false} EntryApplied(m: EntryValue, fs: seq<Field>, depth: nat)
    ensures ApplyAll(ApplyEntry, m, fs, depth) ==
            if StringsAreUtf8(fs, {2}) then Some(EntryValue(LastInt(fs, 1, m.key), LastString(fs, 2, m.value)))
            else None
    decreases |fs|
  {
    if fs != [] {
      hide StringsAreUtf8, LastString, LastVarint, Others, ApplyAll, ValidUtf8;
      var init, f := fs[..|fs| - 1], fs[|fs| - 1];
      assert fs == init + [f];
      EntryApplied(m, init, depth);
      ApplyOneMore(ApplyEntry, m, init, f, depth);
      OneMoreField(init, f, 1, {2}, {1}, m.value);
      OneMoreField(init, f, 2, {2}, {1}, m.value);
    }
  }

  function LastSize(fs: seq<Field>, otherwise: nat): nat
  {
    if LastVarint(fs, 3).None? then otherwise else LastVarint(fs, 3).value % 0x1_0000_0000
  }

  lemma {:induction false} HeaderApplied(m: Header, fs: seq<Field>, depth: nat)
    ensures ApplyAll(ApplyHeader, m, fs, depth) ==
            if StringsAreUtf8(fs, {1, 2})
            then Some(Header(LastString(fs, 1, m.service), LastString(fs, 2, m.name), LastSize(fs, m.argsSize),
                             m.unknown + Others(fs, {3}, {1, 2})))
            else None
    decreases |fs|
  {
    if fs == [] {
      assert m.unknown + [] == m.unknown;
    } else {
      hide StringsAreUtf8, LastString, LastVarint, Others, ApplyAll, ValidUtf8;
      var init, f := fs[..|fs| - 1], fs[|fs| - 1];
      assert fs == init + [f];
      HeaderApplied(m, init, depth);
      ApplyOneMore(ApplyHeader, m, init, f, depth);
      OneMoreField(init, f, 1, {1, 2}, {3}, m.service);
      OneMoreField(init, f, 2, {1, 2}, {3}, m.name);
      OneMoreField(init, f, 3, {1, 2}, {3}, m.name);
      assert m.unknown + (Others(init, {3}, {1, 2}) + [f]) == m.unknown + Others(init, {3}, {1, 2}) + [f];
      assert Others(init, {3}, {1, 2}) + [] == Others(init, {3}, {1, 2});
    }
  }

  /** For every input: a header is accepted exactly when it is below 2 GiB, consists of records and has UTF-8 names;
      then the last of each field counts, and fields it does not know are kept. */
  lemma HeaderMeans(bs: seq<Byte>)
    ensures var fs := Records(bs, ROOT_DEPTH);
            ParseHeader(bs) ==
            if |bs| < 0x8000_0000 && fs.Some? && StringsAreUtf8(fs.value, {1, 2})
            then Some(Header(LastString(fs.value, 1, []), LastString(fs.value, 2, []), LastSize(fs.value, 0),
                             Others(fs.value, {3}, {1, 2})))
            else None
  {
    hide Parse, Records, ApplyHeader, StringsAreUtf8, LastString, LastSize, Others;
    ParseIsDecodeThenApply(ApplyHeader, NO_HEADER, bs, ROOT_DEPTH);
    if Records(bs, ROOT_DEPTH).Some? {
      var fs := Records(bs, ROOT_DEPTH).value;
      HeaderApplied(NO_HEADER, fs, ROOT_DEPTH);
      assert [] + Others(fs, {3}, {1, 2}) == Others(fs, {3}, {1, 2});
    }
  }

  /** For every input and old value: an Error is accepted exactly when it consists of records and its string is UTF-8;
      the last of each field counts. */
  lemma ErrorMeans(m: ErrorValue, bs: seq<Byte>, depth: nat)
    ensures var fs := Records(bs, depth);
            Parse(ApplyError, m, bs, depth) ==
            if fs.Some? && StringsAreUtf8(fs.value, {2})
            then Some(ErrorValue(LastInt(fs.value, 1, m.code), LastString(fs.value, 2, m.reason),
                                 m.unknown + Others(fs.value, {1}, {2})))
            else None
  {
    hide Parse, Records, ApplyError, StringsAreUtf8, LastString, LastInt, Others;
    ParseIsDecodeThenApply(ApplyError, m, bs, depth);
    if Records(bs, depth).Some? {
      ErrorApplied(m, Records(bs, depth).value, depth);
    }
  }

  lemma ResultMeans(m: ResultValue, bs: seq<Byte>, depth: nat)
    ensures var fs := Records(bs, depth);
            Parse(ApplyResult, m, bs, depth) ==
            if fs.None? then None
            else Some(ResultValue(LastInt(fs.value, 1, m.id), m.unknown + Others(fs.value, {1}, {})))
  {
    hide Parse, Records, ApplyResult, LastInt, Others;
    ParseIsDecodeThenApply(ApplyResult, m, bs, depth);
    if Records(bs, depth).Some? {
      ResultApplied(m, Records(bs, depth).value, depth);
    }
  }

  /** A map entry: fields other than its key and value are dropped. */
  lemma EntryMeans(bs: seq<Byte>, depth: nat)
    ensures var fs := Records(bs, depth);
            Parse(ApplyEntry, NO_ENTRY, bs, depth) ==
            if fs.Some? && StringsAreUtf8(fs.value, {2})
            then Some(EntryValue(LastInt(fs.value, 1, 0), LastString(fs.value, 2, [])))
            else None
  {
    hide Parse, Records, ApplyEntry, StringsAreUtf8, LastString, LastInt;
    ParseIsDecodeThenApply(ApplyEntry, NO_ENTRY, bs, depth);
    if Records(bs, depth).Some? {
      EntryApplied(NO_ENTRY, Records(bs, depth).value, depth);
    }
  }

  /** A record of a Response that can be taken in: nested ones have to be accepted one level down. */
  predicate Acceptable(f: Field, depth: nat)
  {
    && (f.Len? && f.num == 2 ==> ValidUtf8(f.payload))
    && (f.Len? && f.num in {1, 4, 5} ==> depth > 0 && Records(f.payload, depth - 1).Some?)
    && (f.Len? && f.num in {1, 4} ==> StringsAreUtf8(Records(f.payload, depth - 1).value, {2}))
  }

  lemma AcceptedIff(m: ResponseValue, f: Field, depth: nat)
    ensures ApplyResponse(m, f, depth).Some? <==> Acceptable(f, depth)
  {
    hide Records, StringsAreUtf8, LastInt, LastString, Others, ValidUtf8, Parse;
    if f.Len? && depth > 0 {
      ErrorMeans(ErrOrEmpty(m.err), f.payload, depth - 1);
      EntryMeans(f.payload, depth - 1);
      ResultMeans(NO_RESULT, f.payload, depth - 1);
    }
  }

  lemma {:induction false} AllAcceptedIff(m: ResponseValue, fs: seq<Field>, depth: nat)
    ensures ApplyAll(ApplyResponse, m, fs, depth).Some? <==> forall i :: 0 <= i < |fs| ==> Acceptable(fs[i], depth)
    decreases fs
  {
    hide ApplyResponse, Acceptable;
    if fs != [] {
      AcceptedIff(m, fs[0], depth);
      if ApplyResponse(m, fs[0], depth).Some? {
        AllAcceptedIff(ApplyResponse(m, fs[0], depth).value, fs[1..], depth);
        assert forall i :: 0 < i < |fs| ==> fs[i] == fs[1..][i - 1];
      }
    }
  }

  /** Which inputs the parser accepts: those that consist of records, with UTF-8 strings and nested messages that are
      acceptable in turn, at most as deep as the budget allows. */
  lemma ParsesIff(bs: seq<Byte>)
    ensures ParseResponse(bs).Some? <==>
            && Records(bs, ROOT_DEPTH).Some?
            && forall i :: 0 <= i < |Records(bs, ROOT_DEPTH).value| ==>
                 Acceptable(Records(bs, ROOT_DEPTH).value[i], ROOT_DEPTH)
  {
    hide Parse, Records, ApplyResponse, Acceptable;
    ParseIsDecodeThenApply(ApplyResponse, NO_RESPONSE, bs, ROOT_DEPTH);
    if Records(bs, ROOT_DEPTH).Some? {
      AllAcceptedIff(NO_RESPONSE, Records(bs, ROOT_DEPTH).value, ROOT_DEPTH);
    }
  }

  /** Messages and groups may be nested a hundred deep. */
  lemma RecursionLimit(n: nat)
    ensures ParseResponse(EncodeField(Nested(n))).Some? <==> n <= 100
  {
    hide ApplyResponse, Nested, EncodeField, DecodeField;
    var bs := EncodeField(Nested(n));
    NestingIsLimited(n, ROOT_DEPTH);
    if n <= 100 {
      NestedIsWellFormed(n, ROOT_DEPTH);
      assert bs + [] == bs;
      FieldRoundTrip(Nested(n), ROOT_DEPTH, []);
      NestedIsUnknown(NO_RESPONSE, n, ROOT_DEPTH);
      assert bs[|bs|..] == [];
      var m := ApplyResponse(NO_RESPONSE, Nested(n), ROOT_DEPTH).value;
      assert Parse(ApplyResponse, m, [], ROOT_DEPTH) == Some(m);
    } else {
      assert DecodeField(bs, ROOT_DEPTH).None?;
    }
  }

  lemma NestedIsUnknown(m: ResponseValue, n: nat, depth: nat)
    ensures ApplyResponse(m, Nested(n), depth).Some?
  {
    hide ApplyErr, ApplyQunzu, ApplyRes;
  }
}
