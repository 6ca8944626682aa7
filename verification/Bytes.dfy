/** Bytes and fixed-width integers.

    `ToLittle` is the memory image of an unsigned integer on the (little-endian) hosts the code runs on;
    `HostToNetwork` and `NetworkToHost` are the htobeNN / beNNtoh calls of Endian.h. */
module Bytes {
  type Byte = x: int | 0 <= x < 256

  /** The bytes of a text in ASCII. */
  function Ascii(s: string): seq<Byte>
  {
    seq(|s|, i requires 0 <= i < |s| => s[i] as int % 256)
  }

  /** 256 to the power `width`: the number of unsigned integers that fit in `width` bytes. */
  function Range(width: nat): (r: nat)
    ensures r > 0
  {
    if width == 0 then 1 else 256 * Range(width - 1)
  }

  function ToLittle(n: nat, width: nat): (bs: seq<Byte>)
    ensures |bs| == width
  {
    if width == 0 then [] else [n % 256] + ToLittle(n / 256, width - 1)
  }

  function FromLittle(bs: seq<Byte>): (n: nat)
    ensures n < Range(|bs|)
  {
    if bs == [] then 0 else bs[0] + 256 * FromLittle(bs[1..])
  }

  lemma {:induction false} LittleRoundTrip(n: nat, width: nat)
    requires n < Range(width)
    ensures FromLittle(ToLittle(n, width)) == n
  {
    if width > 0 {
      LittleRoundTrip(n / 256, width - 1);
      assert ToLittle(n, width)[1..] == ToLittle(n / 256, width - 1);
    }
  }

  lemma LowByte(b: Byte, n: nat)
    ensures (b + 256 * n) % 256 == b && (b + 256 * n) / 256 == n
  {
  }

  lemma {:induction false} LittleInverse(bs: seq<Byte>)
    ensures ToLittle(FromLittle(bs), |bs|) == bs
  {
    if bs != [] {
      LittleInverse(bs[1..]);
      LowByte(bs[0], FromLittle(bs[1..]));
    }
  }

  function Reverse(bs: seq<Byte>): (r: seq<Byte>)
    ensures |r| == |bs|
    ensures forall i :: 0 <= i < |bs| ==> r[i] == bs[|bs| - 1 - i]
  {
    seq(|bs|, i requires 0 <= i < |bs| => bs[|bs| - 1 - i])
  }

  lemma ReverseTwice(bs: seq<Byte>)
    ensures Reverse(Reverse(bs)) == bs
  {
  }

  /** Big-endian value of a byte sequence, most significant byte first (Appendix B of RFC 791). */
  function FromBig(bs: seq<Byte>): (n: nat)
    ensures n < Range(|bs|)
  {
    if bs == [] then 0 else FromBig(bs[..|bs| - 1]) * 256 + bs[|bs| - 1]
  }

  /** htobe16/32/64 on a little-endian host: swaps the bytes of the memory image. */
  function HostToNetwork(n: nat, width: nat): (r: nat)
    ensures r < Range(width)
  {
    FromLittle(Reverse(ToLittle(n, width)))
  }

  /** be16/32/64toh: reads the memory image of its argument as a big-endian number. */
  function NetworkToHost(n: nat, width: nat): (r: nat)
    ensures r < Range(width)
  {
    FromBig(ToLittle(n, width))
  }

  lemma {:induction false} FromBigIsReversed(bs: seq<Byte>)
    ensures FromBig(bs) == FromLittle(Reverse(bs))
  {
    if bs != [] {
      FromBigIsReversed(bs[..|bs| - 1]);
      assert Reverse(bs)[1..] == Reverse(bs[..|bs| - 1]);
    }
  }

  /** The bytes HostToNetwork leaves in memory are the big-endian ones, and NetworkToHost reads them back. */
  lemma NetworkOrder(n: nat, width: nat)
    requires n < Range(width)
    ensures var image := ToLittle(HostToNetwork(n, width), width);
            FromBig(image) == n && NetworkToHost(FromLittle(image), width) == n
  {
    var little := ToLittle(n, width);
    LittleInverse(Reverse(little));
    FromBigIsReversed(Reverse(little));
    ReverseTwice(little);
    LittleRoundTrip(n, width);
    LittleInverse(ToLittle(HostToNetwork(n, width), width));
  }

  /** The byte at place i of a big-endian image counts for 256 to the power of the bytes behind it. */
  lemma {:induction false} BigEndianPlaces(bs: seq<Byte>, i: nat)
    requires i < |bs|
    ensures FromBig(bs) / Range(|bs| - 1 - i) % 256 == bs[i]
  {
    var init, last := bs[..|bs| - 1], bs[|bs| - 1];
    assert FromBig(bs) == FromBig(init) * 256 + last;
    if i < |init| {
      assert Range(|bs| - 1 - i) == 256 * Range(|init| - 1 - i);
      hide FromBig, Range;
      BigEndianPlaces(init, i);
      OnePlaceDown(FromBig(init), last, Range(|init| - 1 - i));
    } else {
      assert Range(|bs| - 1 - i) == 1;
      hide FromBig, Range;
      LastPlace(FromBig(init), last);
    }
  }

  lemma LastPlace(n: nat, b: Byte)
    ensures (n * 256 + b) / 1 % 256 == b
  {
  }

  lemma OnePlaceDown(n: nat, b: Byte, r: nat)
    requires r > 0
    ensures (n * 256 + b) / (256 * r) == n / r
  {
    DivideTwice(n * 256 + b, r);
    QuotientIs(256, n, b);
  }

  lemma DivideTwice(n: nat, r: nat)
    requires r > 0
    ensures n / (256 * r) == n / 256 / r
  {
    var q, m := n / 256, n % 256;
    var k, l := q / r, q % r;
    assert n == (k * r + l) * 256 + m;
    assert n == k * (256 * r) + (l * 256 + m) && l * 256 + m < 256 * r;
    QuotientIs(256 * r, k, l * 256 + m);
  }

  lemma {:induction false} MultipleIsLarge(a: nat, d: nat)
    requires a > 0
    ensures a * d >= d
  {
    if a > 1 {
      MultipleIsLarge(a - 1, d);
      assert (a - 1) * d == a * d - d;
    }
  }

  lemma QuotientIs(d: nat, q: nat, r: nat)
    requires r < d
    ensures (q * d + r) / d == q
  {
    var n := q * d + r;
    var k, m := n / d, n % d;
    assert n == k * d + m && m < d;
    if k > q {
      assert (k - q) * d == k * d - q * d;
      MultipleIsLarge(k - q, d);
    } else if k < q {
      assert (q - k) * d == q * d - k * d;
      MultipleIsLarge(q - k, d);
    }
  }

  /** Two's-complement encoding of a signed integer of `width` bytes, and back. */
  function ToUnsigned(x: int, width: nat): (n: nat)
    requires InRange(x, width)
    ensures n < Range(width)
  {
    if x >= 0 then x else x + Range(width)
  }

  function ToSigned(n: nat, width: nat): (x: int)
    requires width > 0 && n < Range(width)
    ensures InRange(x, width) && ToUnsigned(x, width) == n
  {
    if 2 * n < Range(width) then n else n - Range(width)
  }

  predicate InRange(x: int, width: nat)
  {
    0 - Range(width) <= 2 * x < Range(width)
  }
}
