/** Well-formed UTF-8 byte sequences, by the grammar in section 4 of RFC 3629. */
module Utf8 {
  import opened Bytes

  predicate Tail(b: Byte)
  {
    0x80 <= b <= 0xBF
  }

  /** Length of the character at the front of `bs`, or 0 when there is none. */
  function CharLength(bs: seq<Byte>): (n: nat)
    requires bs != []
    ensures n <= |bs|
  {
    var b := bs[0];
    if b <= 0x7F then 1
    else if 0xC2 <= b <= 0xDF && |bs| >= 2 && Tail(bs[1]) then 2
    else if |bs| >= 3 && SecondOfThree(b, bs[1]) && Tail(bs[2]) then 3
    else if |bs| >= 4 && SecondOfFour(b, bs[1]) && Tail(bs[2]) && Tail(bs[3]) then 4
    else 0
  }

  predicate SecondOfThree(first: Byte, second: Byte)
  {
    || (first == 0xE0 && 0xA0 <= second <= 0xBF)
    || (0xE1 <= first <= 0xEC && Tail(second))
    || (first == 0xED && 0x80 <= second <= 0x9F)
    || (0xEE <= first <= 0xEF && Tail(second))
  }

  predicate SecondOfFour(first: Byte, second: Byte)
  {
    || (first == 0xF0 && 0x90 <= second <= 0xBF)
    || (0xF1 <= first <= 0xF3 && Tail(second))
    || (first == 0xF4 && 0x80 <= second <= 0x8F)
  }

  lemma EmptyIsValid()
    ensures ValidUtf8([])
  {
  }

  predicate ValidUtf8(bs: seq<Byte>)
    decreases |bs|
  {
    bs == [] || (CharLength(bs) > 0 && ValidUtf8(bs[CharLength(bs)..]))
  }

  // ---------- the characters behind the bytes ----------

  /** Unicode scalar values: no surrogates, and nothing above U+10FFFF. */
  predicate Scalar(c: nat)
  {
    c < 0xD800 || 0xE000 <= c <= 0x10FFFF
  }

  /** The encoding of one character, by the table in section 3 of RFC 3629. */
  function EncodeChar(c: nat): (bs: seq<Byte>)
    requires Scalar(c)
    ensures 1 <= |bs| <= 4
  {
    if c < 0x80 then [c]
    else if c < 0x800 then [0xC0 + c / 0x40, 0x80 + c % 0x40]
    else if c < 0x1_0000 then [0xE0 + c / 0x1000, 0x80 + c / 0x40 % 0x40, 0x80 + c % 0x40]
    else [0xF0 + c / 0x4_0000, 0x80 + c / 0x1000 % 0x40, 0x80 + c / 0x40 % 0x40, 0x80 + c % 0x40]
  }

  predicate AllScalar(cs: seq<nat>)
  {
    forall i :: 0 <= i < |cs| ==> Scalar(cs[i])
  }

  function EncodeChars(cs: seq<nat>): seq<Byte>
    requires AllScalar(cs)
  {
    if cs == [] then [] else EncodeChar(cs[0]) + EncodeChars(cs[1..])
  }

  lemma EncodedIsOneChar(c: nat, rest: seq<Byte>)
    requires Scalar(c)
    ensures CharLength(EncodeChar(c) + rest) == |EncodeChar(c)|
  {
    var bs := EncodeChar(c) + rest;
    if 0x800 <= c < 0x1_0000 {
      SecondByteOfThree(c);
      hide SecondOfThree;
      assert bs[0] == 0xE0 + c / 0x1000 && bs[1] == 0x80 + c / 0x40 % 0x40;
    } else if c >= 0x1_0000 {
      SecondByteOfFour(c);
      hide SecondOfFour;
      assert bs[0] == 0xF0 + c / 0x4_0000 && bs[1] == 0x80 + c / 0x1000 % 0x40;
    }
  }

  lemma SecondByteOfThree(c: nat)
    requires Scalar(c) && 0x800 <= c < 0x1_0000
    ensures SecondOfThree(0xE0 + c / 0x1000, 0x80 + c / 0x40 % 0x40)
  {
  }

  lemma SecondByteOfFour(c: nat)
    requires 0x1_0000 <= c <= 0x10FFFF
    ensures SecondOfFour(0xF0 + c / 0x4_0000, 0x80 + c / 0x1000 % 0x40)
  {
  }

  /** Every character the grammar accepts is the encoding of a scalar value. */
  lemma OneCharIsEncoded(bs: seq<Byte>) returns (c: nat)
    requires bs != [] && CharLength(bs) > 0
    ensures Scalar(c) && EncodeChar(c) == bs[..CharLength(bs)]
  {
    var n := CharLength(bs);
    var b: int := bs[0];
    if n == 1 {
      c := b;
    } else if n == 2 {
      c := (b - 0xC0) * 0x40 + (bs[1] - 0x80);
    } else if n == 3 {
      c := ThreeBytes(b, bs[1], bs[2]);
    } else {
      c := FourBytes(b, bs[1], bs[2], bs[3]);
    }
  }

  lemma ThreeBytes(a: Byte, b: Byte, d: Byte) returns (c: nat)
    requires SecondOfThree(a, b) && Tail(d)
    ensures 0x800 <= c < 0x1_0000 && Scalar(c) && EncodeChar(c) == [a, b, d]
  {
    c := (a - 0xE0) * 0x1000 + (b - 0x80) * 0x40 + (d - 0x80);
    assert c / 0x40 == (a - 0xE0) * 0x40 + (b - 0x80) && c % 0x40 == d - 0x80;
  }

  lemma FourBytes(a: Byte, b: Byte, d: Byte, e: Byte) returns (c: nat)
    requires SecondOfFour(a, b) && Tail(d) && Tail(e)
    ensures 0x1_0000 <= c <= 0x10FFFF && EncodeChar(c) == [a, b, d, e]
  {
    var q := (a - 0xF0) * 0x40 + (b - 0x80);
    var p := q * 0x40 + (d - 0x80);
    c := p * 0x40 + (e - 0x80);
    Shifts(c);
    assert c / 0x40 == p && p / 0x40 == q && q / 0x40 == a - 0xF0;
  }

  lemma Shifts(c: nat)
    ensures c / 0x1000 == c / 0x40 / 0x40 && c / 0x4_0000 == c / 0x40 / 0x40 / 0x40
  {
  }

  lemma {:induction false} EncodedIsValid(cs: seq<nat>)
    requires AllScalar(cs)
    ensures ValidUtf8(EncodeChars(cs))
  {
    if cs != [] {
      var rest := EncodeChars(cs[1..]);
      EncodedIsValid(cs[1..]);
      EncodedIsOneChar(cs[0], rest);
      assert (EncodeChar(cs[0]) + rest)[|EncodeChar(cs[0])|..] == rest;
    }
  }

  lemma {:induction false} ValidIsEncoded(bs: seq<Byte>) returns (cs: seq<nat>)
    requires ValidUtf8(bs)
    ensures AllScalar(cs) && EncodeChars(cs) == bs
    decreases |bs|
  {
    if bs == [] {
      cs := [];
    } else {
      var c := OneCharIsEncoded(bs);
      var rest := ValidIsEncoded(bs[CharLength(bs)..]);
      cs := [c] + rest;
      assert cs[1..] == rest && bs[..CharLength(bs)] + bs[CharLength(bs)..] == bs;
    }
  }

  /** A byte sequence is accepted exactly when it is the encoding of some scalar values. */
  lemma ValidIffEncoded(bs: seq<Byte>)
    ensures ValidUtf8(bs) <==> exists cs :: AllScalar(cs) && EncodeChars(cs) == bs
  {
    if ValidUtf8(bs) {
      var cs := ValidIsEncoded(bs);
    }
    if cs :| AllScalar(cs) && EncodeChars(cs) == bs {
      EncodedIsValid(cs);
    }
  }
}
