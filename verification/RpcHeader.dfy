/** The RpcHeader message of rpc_header.proto. */
module RpcHeader {
  import opened Wrappers
  import opened Bytes
  import opened Utf8
  import opened Wire
  import opened Messages

  datatype Header = Header(service: seq<Byte>, name: seq<Byte>, argsSize: nat, unknown: seq<Field>)

  const NO_HEADER := Header([], [], 0, [])

  function ApplyHeader(m: Header, f: Field, depth: nat): Option<Header>
  {
    match f
    case Len(1, s) => if ValidUtf8(s) then Some(m.(service := s)) else None
    case Len(2, s) => if ValidUtf8(s) then Some(m.(name := s)) else None
    case Varint(3, v) => Some(m.(argsSize := v % TWO_32))
    case _ => Some(m.(unknown := m.unknown + [f]))
  }

  function SizeField(n: nat): seq<Field>
  {
    if n != 0 then [Varint(3, n)] else []
  }

  function HeaderFields(service: seq<Byte>, name: seq<Byte>, argsSize: nat): seq<Field>
  {
    BytesField(1, service) + (BytesField(2, name) + SizeField(argsSize))
  }

  function EncodeHeader(service: seq<Byte>, name: seq<Byte>, argsSize: nat): seq<Byte>
  {
    EncodeFields(HeaderFields(service, name, argsSize))
  }

  /** ParseFromString; a message of 2 GiB or more is refused. */
  function ParseHeader(bs: seq<Byte>): (r: Option<Header>)
    ensures r.Some? ==> r.value.argsSize < TWO_32
  {
    if |bs| >= MAX_LENGTH then None else ParseChecked(NO_HEADER, bs)
  }

  function ParseChecked(m: Header, bs: seq<Byte>): (r: Option<Header>)
    requires m.argsSize < TWO_32
    ensures r.Some? ==> r.value.argsSize < TWO_32
  {
    ParsedSizeFits(m, bs);
    Parse(ApplyHeader, m, bs, ROOT_DEPTH)
  }

  lemma {:induction false} ParsedSizeFits(m: Header, bs: seq<Byte>)
    requires m.argsSize < TWO_32
    ensures var r := Parse(ApplyHeader, m, bs, ROOT_DEPTH); r.Some? ==> r.value.argsSize < TWO_32
    decreases |bs|
  {
    hide DecodeField, ValidUtf8;
    if bs != [] && DecodeField(bs, ROOT_DEPTH).Some? {
      var (f, n) := DecodeField(bs, ROOT_DEPTH).value;
      if ApplyHeader(m, f, ROOT_DEPTH).Some? {
        ParsedSizeFits(ApplyHeader(m, f, ROOT_DEPTH).value, bs[n..]);
      }
    }
  }

  /** A header comes back as it was written exactly when both names are UTF-8. */
  lemma HeaderRoundTrip(service: seq<Byte>, name: seq<Byte>, argsSize: nat)
    requires argsSize < TWO_32 && |EncodeHeader(service, name, argsSize)| < MAX_LENGTH
    ensures ParseHeader(EncodeHeader(service, name, argsSize)) ==
            if ValidUtf8(service) && ValidUtf8(name) then Some(Header(service, name, argsSize, [])) else None
  {
    hide DecodeField, EncodeFields, ValidUtf8, HeaderFields, ApplyHeader, AllWellFormed;
    HeaderFieldsWellFormed(service, name, argsSize);
    ParseWhole(ApplyHeader, NO_HEADER, HeaderFields(service, name, argsSize), ROOT_DEPTH);
    ApplyHeaderFields(service, name, argsSize);
  }

  lemma ApplyHeaderFields(service: seq<Byte>, name: seq<Byte>, argsSize: nat)
    requires argsSize < TWO_32
    ensures ApplyAll(ApplyHeader, NO_HEADER, HeaderFields(service, name, argsSize), ROOT_DEPTH) ==
            if ValidUtf8(service) && ValidUtf8(name) then Some(Header(service, name, argsSize, [])) else None
  {
    ApplyService(service);
    var m1 := Header(service, [], 0, []);
    ApplyName(m1, name);
    ApplySize(m1.(name := name), argsSize);
    var a, b, c := BytesField(1, service), BytesField(2, name), SizeField(argsSize);
    assert HeaderFields(service, name, argsSize) == a + (b + c);
    hide *;
    ApplyAllConcat(ApplyHeader, NO_HEADER, a, b + c, ROOT_DEPTH);
    ApplyAllConcat(ApplyHeader, m1, b, c, ROOT_DEPTH);
  }

  lemma ApplyService(service: seq<Byte>)
    ensures ApplyAll(ApplyHeader, NO_HEADER, BytesField(1, service), ROOT_DEPTH) ==
            if ValidUtf8(service) then Some(Header(service, [], 0, [])) else None
  {
    EmptyIsValid();
    hide ValidUtf8;
  }

  lemma ApplyName(m: Header, name: seq<Byte>)
    requires m.name == []
    ensures ApplyAll(ApplyHeader, m, BytesField(2, name), ROOT_DEPTH) ==
            if ValidUtf8(name) then Some(m.(name := name)) else None
  {
    EmptyIsValid();
    hide ValidUtf8;
  }

  lemma ApplySize(m: Header, argsSize: nat)
    requires m.argsSize == 0 && argsSize < TWO_32
    ensures ApplyAll(ApplyHeader, m, SizeField(argsSize), ROOT_DEPTH) == Some(m.(argsSize := argsSize))
  {
    hide ValidUtf8;
  }

  lemma HeaderFieldsWellFormed(service: seq<Byte>, name: seq<Byte>, argsSize: nat)
    requires argsSize < TWO_32 && |EncodeHeader(service, name, argsSize)| < MAX_LENGTH
    ensures AllWellFormed(HeaderFields(service, name, argsSize), ROOT_DEPTH)
  {
    hide EncodeFields, EncodeField;
    var fs := HeaderFields(service, name, argsSize);
    if service != [] {
      assert fs[0] == Len(1, service);
      PayloadIsShorter(fs, fs[0]);
    }
    if name != [] {
      assert Len(2, name) in fs by { assert fs[|BytesField(1, service)|] == Len(2, name); }
      PayloadIsShorter(fs, Len(2, name));
    }
  }

  lemma SizeOnlyHeader(n: nat)
    requires 0x1000_0000 <= n < TWO_32
    ensures |EncodeHeader([], [], n)| == 6
  {
    assert HeaderFields([], [], n) == [Varint(3, n)];
    assert [Varint(3, n)][1..] == [];
    assert |EncodeVarint(n)| == 5 by { VarintSizeIsLength(n); }
    assert |EncodeTag(3, 0)| == 1;
    assert EncodeFields([Varint(3, n)]) == EncodeTag(3, 0) + EncodeVarint(n) + EncodeFields([]);
  }

  /** A header with names of one byte each. */
  lemma ShortHeader(a: Byte, b: Byte, n: nat)
    requires n < 128
    ensures EncodeHeader([a], [b], n) == [10, 1, a, 18, 1, b] + if n == 0 then [] else [24, n]
  {
    var x, y, z := Len(1, [a]), Len(2, [b]), Varint(3, n);
    EncodeNothing();
    EncodeFieldsConcat([x], [y] + SizeField(n));
    EncodeFieldsConcat([y], SizeField(n));
    assert [x][1..] == [] && [y][1..] == [] && [z][1..] == [];
    assert EncodeField(x) == [10, 1, a] && EncodeField(y) == [18, 1, b] && EncodeField(z) == [24, n];
    assert HeaderFields([a], [b], n) == [x] + ([y] + SizeField(n));
  }
}
