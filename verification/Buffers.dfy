/** muduo::net::Buffer: one array with a reader and a writer index, refining a plain sequence of bytes. */
module Buffers {
  import opened Bytes

  const CHEAP_PREPEND: nat := 8
  const INITIAL_SIZE: nat := 1024
  const INT_MAX: nat := 0x7fff_ffff

  function Max(a: nat, b: nat): nat
  {
    if a > b then a else b
  }

  /** No buffer is ever larger than this: `demand` is the largest readable-plus-requested length that any
      call of ensureWritableBytes has seen. */
  function SpaceBound(initial: nat, demand: nat): nat
  {
    Max(CHEAP_PREPEND + INITIAL_SIZE, Max(CHEAP_PREPEND + initial, 2 * demand + 6))
  }

  /** A buffer of the default initial size is within every bound for the same or a larger demand. */
  lemma FreshBound(initial: nat, other: nat, demand: nat)
    ensures SpaceBound(INITIAL_SIZE, demand) <= SpaceBound(initial, Max(other, demand))
  {
  }

  lemma SpliceSlice(all: seq<Byte>, p: nat, bytes: seq<Byte>, r: nat, w: nat)
    requires r <= p && p + |bytes| <= w <= |all|
    ensures (all[..p] + bytes + all[p + |bytes|..])[r..w] == all[r..w][..p - r] + bytes + all[r..w][p - r + |bytes|..]
  {
  }

  lemma JoinSlices(all: seq<Byte>, a: nat, b: nat, c: nat)
    requires a <= b <= c <= |all|
    ensures all[a..c] == all[a..b] + all[b..c]
  {
  }

  lemma SpliceAtEnd(all: seq<Byte>, w: nat, bytes: seq<Byte>, r: nat)
    requires r <= w && w + |bytes| <= |all|
    ensures (all[..w] + bytes + all[w + |bytes|..])[r..w + |bytes|] == all[r..w] + bytes
  {
  }

  /** The largest of 8+1024, 8 plus the initial size, and twice the demand plus 6. */
  lemma SpaceBoundIs(initial: nat, demand: nat, bound: nat)
    ensures SpaceBound(initial, demand) == bound <==>
            && (bound == 8 + 1024 || bound == 8 + initial || bound == 2 * demand + 6)
            && bound >= 8 + 1024 && bound >= 8 + initial && bound >= 2 * demand + 6
  {
  }

  class Buffer {
    var data: array<Byte>
    var readerIndex: nat
    var writerIndex: nat
    ghost var initial: nat
    ghost var demand: nat

    ghost predicate Valid()
      reads this
    {
      && readerIndex <= writerIndex <= data.Length
      && CHEAP_PREPEND <= data.Length <= SpaceBound(initial, demand)
      && (readerIndex == data.Length ==> readerIndex == CHEAP_PREPEND)
    }

    /** The readable bytes. */
    ghost function Contents(): (s: seq<Byte>)
      requires Valid()
      reads this, data
    {
      data[readerIndex..writerIndex]
    }

    constructor (initialSize: nat)
      ensures Valid() && fresh(data) && Contents() == []
      ensures initial == initialSize && demand == 0
      ensures data.Length == CHEAP_PREPEND + initialSize && readerIndex == writerIndex == CHEAP_PREPEND
    {
      data := new Byte[CHEAP_PREPEND + initialSize](_ => 0);
      readerIndex, writerIndex := CHEAP_PREPEND, CHEAP_PREPEND;
      initial, demand := initialSize, 0;
    }

    function ReadableBytes(): nat
      requires Valid()
      reads this
    {
      writerIndex - readerIndex
    }

    function WritableBytes(): nat
      requires Valid()
      reads this
    {
      data.Length - writerIndex
    }

    function PrependableBytes(): nat
      reads this
    {
      readerIndex
    }

    method Swap(rhs: Buffer)
      requires Valid() && rhs.Valid()
      modifies this, rhs
      ensures Valid() && rhs.Valid()
      ensures data == old(rhs.data) && rhs.data == old(data)
      ensures Contents() == old(rhs.Contents()) && rhs.Contents() == old(Contents())
      ensures WritableBytes() == old(rhs.WritableBytes()) && rhs.WritableBytes() == old(WritableBytes())
      ensures initial == old(rhs.initial) && demand == old(rhs.demand)
    {
      data, rhs.data := rhs.data, data;
      readerIndex, rhs.readerIndex := rhs.readerIndex, readerIndex;
      writerIndex, rhs.writerIndex := rhs.writerIndex, writerIndex;
      initial, rhs.initial := rhs.initial, initial;
      demand, rhs.demand := rhs.demand, demand;
    }

    // ---------- taking bytes out ----------

    method Retrieve(len: nat)
      requires Valid() && len <= ReadableBytes()
      modifies this`readerIndex, this`writerIndex
      ensures Valid() && Contents() == old(Contents())[len..]
      ensures if len < |old(Contents())| then readerIndex == old(readerIndex) + len && writerIndex == old(writerIndex)
              else readerIndex == writerIndex == 8
    {
      if len < ReadableBytes() {
        readerIndex := readerIndex + len;
      } else {
        RetrieveAll();
      }
    }

    method RetrieveAll()
      requires Valid()
      modifies this`readerIndex, this`writerIndex
      ensures Valid() && Contents() == [] && readerIndex == writerIndex == 8
    {
      readerIndex := CHEAP_PREPEND;
      writerIndex := CHEAP_PREPEND;
    }

    method RetrieveAsString(len: nat) returns (result: seq<Byte>)
      requires Valid() && len <= ReadableBytes()
      modifies this`readerIndex, this`writerIndex
      ensures Valid() && result == old(Contents())[..len] && Contents() == old(Contents())[len..]
      ensures len == |old(Contents())| ==> readerIndex == writerIndex == 8
    {
      result := data[readerIndex..readerIndex + len];
      Retrieve(len);
    }

    method RetrieveAllAsString() returns (result: seq<Byte>)
      requires Valid()
      modifies this`readerIndex, this`writerIndex
      ensures Valid() && result == old(Contents()) && Contents() == [] && readerIndex == writerIndex == 8
    {
      result := RetrieveAsString(ReadableBytes());
    }

    /** Drops the last bytes instead of the first. */
    method Unwrite(len: nat)
      requires Valid() && len <= ReadableBytes()
      modifies this`writerIndex
      ensures Valid() && Contents() == old(Contents())[..|old(Contents())| - len]
    {
      assert data[readerIndex..writerIndex - len] == Contents()[..|Contents()| - len];
      writerIndex := writerIndex - len;
    }

    // ---------- making room ----------

    /** Whether even the space before the readable bytes would not be enough. */
    predicate Grows(len: nat)
      requires Valid()
      reads this
    {
      WritableBytes() + PrependableBytes() < len + CHEAP_PREPEND
    }

    /** Grows the array, or moves the readable bytes left over the bytes already read. */
    method MakeSpace(len: nat)
      requires Valid() && WritableBytes() < len && ReadableBytes() + len <= demand
      modifies this`data, this`readerIndex, this`writerIndex, data
      ensures Valid() && (data == old(data) || fresh(data))
      ensures WritableBytes() >= len && Contents() == old(Contents())
      ensures if old(Grows(len)) then data.Length == old(writerIndex) + len && readerIndex == old(readerIndex)
              else data.Length == old(data.Length) && readerIndex == CHEAP_PREPEND
    {
      if Grows(len) {
        Resize(writerIndex + len);
      } else {
        assert CHEAP_PREPEND < readerIndex;
        var readable := ReadableBytes();
        MoveLeft(readable);
        readerIndex := CHEAP_PREPEND;
        writerIndex := readerIndex + readable;
        assert readable == ReadableBytes();
      }
    }

    /** std::copy of a range onto an earlier, possibly overlapping one, byte by byte from the front. */
    method MoveLeft(readable: nat)
      requires Valid() && readable == ReadableBytes() && CHEAP_PREPEND < readerIndex
      modifies data
      ensures data[CHEAP_PREPEND..CHEAP_PREPEND + readable] == old(Contents())
    {
      for i := 0 to readable
        invariant data[CHEAP_PREPEND..CHEAP_PREPEND + i] == old(data[readerIndex..readerIndex + i])
        invariant forall k :: readerIndex + i <= k < data.Length ==> data[k] == old(data[k])
      {
        data[CHEAP_PREPEND + i] := data[readerIndex + i];
        assert data[CHEAP_PREPEND..CHEAP_PREPEND + i + 1] ==
               data[CHEAP_PREPEND..CHEAP_PREPEND + i] + [data[CHEAP_PREPEND + i]];
      }
    }

    /** vector::resize to a larger size. */
    method Resize(size: nat)
      requires Valid() && data.Length < size <= SpaceBound(initial, demand)
      modifies this`data
      ensures Valid() && fresh(data) && data.Length == size && Contents() == old(Contents())
    {
      var old_ := data;
      data := new Byte[size](i requires 0 <= i reads old_ => if i < old_.Length then old_[i] else 0);
    }

    method EnsureWritableBytes(len: nat)
      requires Valid()
      modifies this`data, this`readerIndex, this`writerIndex, this`demand, data
      ensures Valid() && (data == old(data) || fresh(data))
      ensures WritableBytes() >= len && Contents() == old(Contents())
      ensures demand == Max(old(demand), |Contents()| + len)
      ensures old(WritableBytes()) >= len ==> unchanged(this`data, this`readerIndex, this`writerIndex)
      ensures old(WritableBytes()) < len ==>
                if old(Grows(len)) then data.Length == old(writerIndex) + len && readerIndex == old(readerIndex)
                else data.Length == old(data.Length) && readerIndex == CHEAP_PREPEND
    {
      demand := Max(demand, ReadableBytes() + len);
      if WritableBytes() < len {
        MakeSpace(len);
      }
    }

    // ---------- putting bytes in ----------

    method Write(at: nat, bytes: seq<Byte>)
      requires Valid() && at + |bytes| <= data.Length
      modifies data
      ensures data[..] == old(data[..])[..at] + bytes + old(data[..])[at + |bytes|..]
      ensures data[at..at + |bytes|] == bytes
      ensures forall k :: 0 <= k < data.Length && !(at <= k < at + |bytes|) ==> data[k] == old(data[k])
    {
      for i := 0 to |bytes|
        invariant forall k :: 0 <= k < i ==> data[at + k] == bytes[k]
        invariant forall k :: 0 <= k < data.Length && !(at <= k < at + i) ==> data[k] == old(data[k])
      {
        data[at + i] := bytes[i];
      }
    }

    /** Stores into the readable bytes, as a client does through a pointer it was given. */
    method Overwrite(at: nat, bytes: seq<Byte>)
      requires Valid() && at + |bytes| <= ReadableBytes()
      modifies data
      ensures Contents() == old(Contents())[..at] + bytes + old(Contents())[at + |bytes|..]
    {
      hide SpaceBound;
      ghost var all := data[..];
      Write(readerIndex + at, bytes);
      SpliceSlice(all, readerIndex + at, bytes, readerIndex, writerIndex);
      assert Contents() == data[..][readerIndex..writerIndex];
    }

    method HasWritten(len: nat)
      requires Valid() && len <= WritableBytes()
      modifies this`writerIndex
      ensures Valid() && writerIndex == old(writerIndex) + len
      ensures Contents() == old(Contents()) + data[old(writerIndex)..writerIndex]
    {
      writerIndex := writerIndex + len;
    }

    method Append(bytes: seq<Byte>)
      requires Valid()
      modifies this`data, this`readerIndex, this`writerIndex, this`demand, data
      ensures Valid() && (data == old(data) || fresh(data))
      ensures Contents() == old(Contents()) + bytes
      ensures demand == Max(old(demand), |old(Contents())| + |bytes|)
      ensures WritableBytes() >= old(WritableBytes()) - |bytes|
      ensures old(WritableBytes()) < |bytes| && old(Grows(|bytes|)) ==>
                data.Length == writerIndex && readerIndex == old(readerIndex)
    {
      EnsureWritableBytes(|bytes|);
      ghost var all, r, w := data[..], readerIndex, writerIndex;
      assert Contents() == all[r..w];
      Write(writerIndex, bytes);
      HasWritten(|bytes|);
      SpliceAtEnd(all, w, bytes, r);
      assert Contents() == data[..][r..w + |bytes|];
    }

    method Prepend(bytes: seq<Byte>)
      requires Valid() && |bytes| <= PrependableBytes()
      modifies this`readerIndex, data
      ensures Valid() && Contents() == bytes + old(Contents()) && readerIndex == old(readerIndex) - |bytes|
    {
      hide SpaceBound;
      ghost var contents, w := Contents(), writerIndex;
      readerIndex := readerIndex - |bytes|;
      Write(readerIndex, bytes);
      assert data[readerIndex + |bytes|..w] == contents;
      JoinSlices(data[..], readerIndex, readerIndex + |bytes|, w);
    }

    method CopyWithReserve(reserve: nat) returns (other: Buffer)
      requires Valid() && ReadableBytes() <= INT_MAX
      ensures fresh(other) && fresh(other.data) && other.Valid() && other.Contents() == Contents()
      ensures other.WritableBytes() >= reserve
      ensures other.initial == INITIAL_SIZE && other.demand == |Contents()| + reserve
    {
      hide SpaceBound;
      other := new Buffer(INITIAL_SIZE);
      other.EnsureWritableBytes(ReadableBytes() + reserve);
      other.Append(data[readerIndex..writerIndex]);
    }

    /** Copies the readable bytes into a fresh buffer with `reserve` more bytes of room and swaps it in. The
        copy goes through a StringPiece, whose length is an int. */
    method Shrink(reserve: nat)
      requires Valid() && ReadableBytes() <= INT_MAX
      modifies this
      ensures Valid() && fresh(data) && Contents() == old(Contents())
      ensures WritableBytes() >= reserve
      ensures initial == old(initial) && demand == Max(old(demand), |old(Contents())| + reserve)
    {
      hide SpaceBound;
      ghost var wasInitial, wasDemand := initial, demand;
      var other := CopyWithReserve(reserve);
      Swap(other);
      FreshBound(wasInitial, wasDemand, demand);
      initial, demand := wasInitial, Max(wasDemand, demand);
    }

    // ---------- integers in network byte order; width is sizeof the integer: 1, 2, 4 or 8 ----------

    method AppendInt(x: int, width: nat)
      requires Valid() && InRange(x, width)
      modifies this`data, this`readerIndex, this`writerIndex, this`demand, data
      ensures Valid() && (data == old(data) || fresh(data))
      ensures Contents() == old(Contents()) + BigEndian(x, width)
    {
      var be := HostToNetwork(ToUnsigned(x, width), width);
      Append(ToLittle(be, width));
    }

    method PrependInt(x: int, width: nat)
      requires Valid() && InRange(x, width) && width <= PrependableBytes()
      modifies this`readerIndex, data
      ensures Valid() && Contents() == BigEndian(x, width) + old(Contents())
    {
      var be := HostToNetwork(ToUnsigned(x, width), width);
      Prepend(ToLittle(be, width));
    }

    method PeekInt(width: nat) returns (x: int)
      requires Valid() && 0 < width <= ReadableBytes()
      ensures x == BigEndianValue(Contents()[..width])
    {
      var image := data[readerIndex..readerIndex + width];
      assert image == Contents()[..width];
      LittleInverse(image);
      x := ToSigned(NetworkToHost(FromLittle(image), width), width);
    }

    method ReadInt(width: nat) returns (x: int)
      requires Valid() && 0 < width <= ReadableBytes()
      modifies this`readerIndex, this`writerIndex
      ensures Valid() && x == BigEndianValue(old(Contents())[..width]) && Contents() == old(Contents())[width..]
    {
      x := PeekInt(width);
      Retrieve(width);
    }
  }

  // ---------- integers on the wire ----------

  /** The bytes appendIntN leaves in the buffer. */
  function BigEndian(x: int, width: nat): (bs: seq<Byte>)
    requires InRange(x, width)
    ensures |bs| == width
  {
    ToLittle(HostToNetwork(ToUnsigned(x, width), width), width)
  }

  /** The two's-complement value of bytes in network order. */
  function BigEndianValue(bs: seq<Byte>): (x: int)
    requires bs != []
  {
    ToSigned(FromBig(bs), |bs|)
  }

  lemma IntRoundTrip(x: int, width: nat)
    requires width > 0 && InRange(x, width)
    ensures BigEndianValue(BigEndian(x, width)) == x
  {
    NetworkOrder(ToUnsigned(x, width), width);
    LittleInverse(BigEndian(x, width));
  }

  /** Two's complement, most significant byte first. */
  lemma BytesOfInt(x: int, width: nat, i: nat)
    requires i < width && InRange(x, width)
    ensures BigEndian(x, width)[i] == (if x < 0 then x + Range(width) else x) / Range(width - 1 - i) % 256
  {
    NetworkOrder(ToUnsigned(x, width), width);
    BigEndianPlaces(BigEndian(x, width), i);
  }

  datatype Sized = Sized(x: int, width: nat)

  predicate Fits(item: Sized)
  {
    item.width > 0 && InRange(item.x, item.width)
  }

  type Item = item: Sized | Fits(item) witness Sized(0, 1)

  function EncodeInts(items: seq<Item>): seq<Byte>
  {
    if items == [] then [] else BigEndian(items[0].x, items[0].width) + EncodeInts(items[1..])
  }

  lemma FirstInt(items: seq<Item>, rest: seq<Byte>)
    requires items != []
    ensures var first := BigEndian(items[0].x, items[0].width);
            && EncodeInts(items) + rest == first + (EncodeInts(items[1..]) + rest)
            && (EncodeInts(items) + rest)[..items[0].width] == first
            && (EncodeInts(items) + rest)[items[0].width..] == EncodeInts(items[1..]) + rest
            && BigEndianValue(first) == items[0].x
  {
    hide BigEndian, BigEndianValue;
    IntRoundTrip(items[0].x, items[0].width);
  }

  /** Integers are read back equal and in order, and what follows them stays. */
  method ReadInts(b: Buffer, items: seq<Item>, ghost rest: seq<Byte>) returns (read: seq<int>)
    requires b.Valid() && b.Contents() == EncodeInts(items) + rest
    modifies b`readerIndex, b`writerIndex
    ensures b.Valid() && b.Contents() == rest
    ensures |read| == |items| && forall i :: 0 <= i < |items| ==> read[i] == items[i].x
  {
    hide EncodeInts, BigEndian, BigEndianValue, SpaceBound, Max;
    read := [];
    assert items[0..] == items;
    for i := 0 to |items|
      invariant b.Valid() && b.Contents() == EncodeInts(items[i..]) + rest
      invariant |read| == i && forall j :: 0 <= j < i ==> read[j] == items[j].x
    {
      FirstInt(items[i..], rest);
      assert items[i..][1..] == items[i + 1..] && items[i..][0] == items[i];
      var x := b.ReadInt(items[i].width);
      assert b.Contents() == EncodeInts(items[i + 1..]) + rest && x == items[i].x;
      read := read + [x];
    }
    NoInts();
    assert [] + rest == rest;
  }

  lemma NoInts()
    ensures EncodeInts([]) == []
  {
  }

  /** Whatever the buffer holds: integers of mixed widths appended to it, and more bytes after them, are read back
      equal and in order once what was there before has been retrieved, and the bytes after them are left. */
  method AppendThenRead(b: Buffer, items: seq<Item>, more: seq<Byte>) returns (read: seq<int>)
    requires b.Valid()
    modifies b, b.data
    ensures b.Valid() && b.Contents() == more
    ensures |read| == |items| && forall i :: 0 <= i < |items| ==> read[i] == items[i].x
  {
    hide EncodeInts, SpaceBound, Max;
    ghost var was := b.Contents();
    var before := b.ReadableBytes();
    AppendInts(b, items);
    b.Append(more);
    assert b.Contents() == was + EncodeInts(items) + more;
    b.Retrieve(before);
    assert b.Contents() == EncodeInts(items) + more;
    read := ReadInts(b, items, more);
  }

  method AppendInts(b: Buffer, items: seq<Item>)
    requires b.Valid()
    modifies b, b.data
    ensures b.Valid() && (b.data == old(b.data) || fresh(b.data))
    ensures b.Contents() == old(b.Contents()) + EncodeInts(items)
  {
    for i := 0 to |items|
      invariant b.Valid() && (b.data == old(b.data) || fresh(b.data))
      invariant b.Contents() + EncodeInts(items[i..]) == old(b.Contents()) + EncodeInts(items)
    {
      ghost var before := b.Contents();
      assert items[i..][1..] == items[i + 1..];
      FirstInt(items[i..], []);
      assert EncodeInts(items[i..]) + [] == EncodeInts(items[i..]);
      assert EncodeInts(items[i + 1..]) + [] == EncodeInts(items[i + 1..]);
      hide BigEndian, EncodeInts;
      b.AppendInt(items[i].x, items[i].width);
      Regroup(before, BigEndian(items[i].x, items[i].width), EncodeInts(items[i + 1..]));
    }
  }

  lemma Regroup(a: seq<Byte>, b: seq<Byte>, c: seq<Byte>)
    ensures a + b + c == a + (b + c)
  {
  }

  /** The space bound is reached: for every n there is a run that ends with exactly 2 * demand + 6 bytes. */
  method BoundIsReached(n: nat) returns (b: Buffer)
    requires n > 0
    ensures b.Valid() && b.demand == n + 1 && b.data.Length == 2 * b.demand + 6
  {
    b := new Buffer(0);
    b.Append(seq(n, _ => 0));
    b.Retrieve(n - 1);
    b.Unwrite(1);
    b.EnsureWritableBytes(n + 1);
  }
}
