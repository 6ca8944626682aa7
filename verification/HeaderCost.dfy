/** How many bytes other than zero a header takes: the header that CallMethod writes has the fewest of all encodings
    of the same names and size. */
module HeaderCost {
  import opened Wrappers
  import opened Bytes
  import opened Utf8
  import opened Wire
  import opened Messages
  import opened RpcHeader

  function Nonzero(bs: seq<Byte>): nat
  {
    if bs == [] then 0 else (if bs[0] != 0 then 1 else 0) + Nonzero(bs[1..])
  }

  lemma {:induction false} NonzeroConcat(a: seq<Byte>, b: seq<Byte>)
    ensures Nonzero(a + b) == Nonzero(a) + Nonzero(b)
  {
    if a == [] {
      assert a + b == b;
    } else {
      NonzeroConcat(a[1..], b);
      assert (a + b)[1..] == a[1..] + b;
    }
  }

  lemma {:induction false} NonzeroOfZeros(bs: seq<Byte>)
    ensures Nonzero(bs) == 0 <==> forall i :: 0 <= i < |bs| ==> bs[i] == 0
  {
    if bs != [] {
      NonzeroOfZeros(bs[1..]);
      assert forall i :: 0 < i < |bs| ==> bs[i] == bs[1..][i - 1];
    }
  }

  // ---------- varints ----------

  lemma {:induction false} VarintHasNoZeros(n: nat)
    requires n > 0
    ensures Nonzero(EncodeVarint(n)) == |EncodeVarint(n)|
  {
    if n >= 128 {
      VarintHasNoZeros(n / 128);
    }
  }

  lemma {:induction false} LongerVarint(a: nat, b: nat)
    requires a <= b
    ensures |EncodeVarint(a)| <= |EncodeVarint(b)|
    decreases a
  {
    if a >= 128 {
      LongerVarint(a / 128, b / 128);
    }
  }

  /** However a number is encoded, it takes as many nonzero bytes as its shortest encoding. */
  lemma {:induction false} DecodedVarintCost(bs: seq<Byte>, max: nat)
    requires DecodeVarint(bs, max).Some? && DecodeVarint(bs, max).value.0 > 0
    ensures Nonzero(bs[..DecodeVarint(bs, max).value.1]) >= |EncodeVarint(DecodeVarint(bs, max).value.0)|
    decreases max
  {
    var (v, n) := DecodeVarint(bs, max).value;
    var used := bs[..n];
    if bs[0] >= 128 {
      var (v', n') := DecodeVarint(bs[1..], max - 1).value;
      assert used[1..] == bs[1..][..n'];
      if v >= 128 {
        assert v / 128 == v';
        DecodedVarintCost(bs[1..], max - 1);
      }
    }
  }

  // ---------- records ----------

  function StringCost(s: seq<Byte>): nat
  {
    if s == [] then 0 else 1 + |EncodeVarint(|s|)| + Nonzero(s)
  }

  function SizeCost(n: nat): nat
  {
    if n == 0 then 0 else 1 + |EncodeVarint(n)|
  }

  function Cost(m: Header): nat
  {
    StringCost(m.service) + StringCost(m.name) + SizeCost(m.argsSize)
  }

  lemma StringFieldCost(num: nat, s: seq<Byte>)
    requires 0 < num < 16
    ensures Nonzero(EncodeFields(BytesField(num, s))) == StringCost(s)
  {
    EncodeNothing();
    if s != [] {
      var f := Len(num, s);
      assert [f][1..] == [];
      assert EncodeFields([f]) == EncodeField(f) + EncodeFields([]) == EncodeField(f);
      NonzeroConcat(EncodeTag(num, 2), EncodeDelimited(s));
      NonzeroConcat(EncodeVarint(|s|), s);
      VarintHasNoZeros(|s|);
      VarintHasNoZeros(num * 8 + 2);
    }
  }

  lemma HeaderCost(service: seq<Byte>, name: seq<Byte>, argsSize: nat)
    ensures Nonzero(EncodeHeader(service, name, argsSize)) == Cost(Header(service, name, argsSize, []))
  {
    var a, b, c := BytesField(1, service), BytesField(2, name), SizeField(argsSize);
    SizeFieldCost(argsSize);
    hide EncodeFields, Nonzero, EncodeVarint, StringCost, SizeCost, BytesField, SizeField;
    EncodeFieldsConcat(a, b + c);
    EncodeFieldsConcat(b, c);
    NonzeroConcat(EncodeFields(a), EncodeFields(b + c));
    NonzeroConcat(EncodeFields(b), EncodeFields(c));
    StringFieldCost(1, service);
    StringFieldCost(2, name);
  }

  lemma SizeFieldCost(n: nat)
    ensures Nonzero(EncodeFields(SizeField(n))) == SizeCost(n)
  {
    EncodeNothing();
    if n != 0 {
      var f := Varint(3, n);
      assert [f][1..] == [];
      assert EncodeFields([f]) == EncodeField(f) + EncodeFields([]) == EncodeField(f);
      NonzeroConcat(EncodeTag(3, 0), EncodeVarint(n));
      VarintHasNoZeros(n);
      VarintHasNoZeros(24);
    }
  }

  /** The tag of a record is not zero. */
  lemma TagCost(bs: seq<Byte>)
    requires ReadTag(bs).Some? && ReadTag(bs).value.0 > 0
    ensures Nonzero(bs[..ReadTag(bs).value.1]) >= 1
  {
    DecodedVarintCost(bs, 5);
  }

  /** One record raises the cost of what has been read by no more than its own nonzero bytes. */
  lemma StepCost(m: Header, bs: seq<Byte>)
    requires DecodeField(bs, ROOT_DEPTH).Some?
    requires ApplyHeader(m, DecodeField(bs, ROOT_DEPTH).value.0, ROOT_DEPTH).Some?
    ensures var (f, n) := DecodeField(bs, ROOT_DEPTH).value;
            var m' := ApplyHeader(m, f, ROOT_DEPTH).value;
            m'.unknown == m.unknown ==> Cost(m') <= Cost(m) + Nonzero(bs[..n])
  {
    hide DecodeGroup, ValidUtf8, Nonzero, EncodeVarint, ReadTag, ReadVarint64, ReadDelimited;
    var (f, n) := DecodeField(bs, ROOT_DEPTH).value;
    var (tag, k) := ReadTag(bs).value;
    assert bs[..n] == bs[..k] + bs[k..][..n - k];
    NonzeroConcat(bs[..k], bs[k..][..n - k]);
    TagCost(bs);
    if f.Len? {
      DelimitedCost(bs[k..]);
    } else if f.Varint? {
      SizeVarintCost(bs[k..]);
    }
  }

  lemma DelimitedCost(bs: seq<Byte>)
    requires ReadDelimited(bs).Some?
    ensures var (s, n) := ReadDelimited(bs).value;
            StringCost(s) <= 1 + Nonzero(bs[..n])
  {
    var (size, k) := DecodeVarint(bs, 5).value;
    var (s, n) := ReadDelimited(bs).value;
    if s != [] {
      assert bs[..n] == bs[..k] + s;
      NonzeroConcat(bs[..k], s);
      DecodedVarintCost(bs, 5);
    }
  }

  lemma SizeVarintCost(bs: seq<Byte>)
    requires ReadVarint64(bs).Some?
    ensures SizeCost(ReadVarint64(bs).value.0 % TWO_32) <= 1 + Nonzero(bs[..ReadVarint64(bs).value.1])
  {
    var (v, n) := DecodeVarint(bs, 10).value;
    var size := v % TWO_64 % TWO_32;
    if size > 0 {
      DecodedVarintCost(bs, 10);
      LongerVarint(size, v);
    }
  }

  lemma {:induction false} UnknownOnlyGrows(m: Header, bs: seq<Byte>)
    ensures var r := Parse(ApplyHeader, m, bs, ROOT_DEPTH);
            r.Some? ==> |r.value.unknown| >= |m.unknown|
    decreases |bs|
  {
    hide DecodeField, ValidUtf8;
    if bs != [] && DecodeField(bs, ROOT_DEPTH).Some? {
      var (f, n) := DecodeField(bs, ROOT_DEPTH).value;
      if ApplyHeader(m, f, ROOT_DEPTH).Some? {
        UnknownOnlyGrows(ApplyHeader(m, f, ROOT_DEPTH).value, bs[n..]);
      }
    }
  }

  lemma {:induction false} ParseCost(m: Header, bs: seq<Byte>)
    ensures var r := Parse(ApplyHeader, m, bs, ROOT_DEPTH);
            r.Some? && |r.value.unknown| == |m.unknown| ==> Cost(r.value) <= Cost(m) + Nonzero(bs)
    decreases |bs|
  {
    hide DecodeField, ApplyHeader, Cost, Nonzero;
    if bs != [] && DecodeField(bs, ROOT_DEPTH).Some? {
      var (f, n) := DecodeField(bs, ROOT_DEPTH).value;
      if ApplyHeader(m, f, ROOT_DEPTH).Some? {
        var m' := ApplyHeader(m, f, ROOT_DEPTH).value;
        ParseCost(m', bs[n..]);
        UnknownOnlyGrows(m', bs[n..]);
        KnownOrLonger(m, f);
        StepCost(m, bs);
        NonzeroConcat(bs[..n], bs[n..]);
        assert bs[..n] + bs[n..] == bs;
      }
    }
  }

  lemma KnownOrLonger(m: Header, f: Field)
    ensures var r := ApplyHeader(m, f, ROOT_DEPTH);
            r.Some? ==> r.value.unknown == m.unknown || |r.value.unknown| > |m.unknown|
  {
  }

  /** Every encoding of these names and this size has at least as many nonzero bytes as the one written. */
  lemma WrittenHeaderIsCheapest(service: seq<Byte>, name: seq<Byte>, argsSize: nat, bs: seq<Byte>)
    requires ParseHeader(bs) == Some(Header(service, name, argsSize, []))
    ensures Nonzero(bs) >= Nonzero(EncodeHeader(service, name, argsSize))
  {
    hide Nonzero, EncodeHeader, Cost, Parse;
    HeaderCost(service, name, argsSize);
    ParseCost(NO_HEADER, bs);
    assert Cost(NO_HEADER) == 0 by { NothingCostsNothing(); }
  }

  lemma NothingCostsNothing()
    ensures Cost(NO_HEADER) == 0
  {
  }
}
