/** BufferOutputStream: protobuf's zero-copy output stream over a Buffer. */
module BufferStream {
  import opened Bytes
  import opened Buffers

  const CHUNK: nat := 4096

  class BufferOutputStream {
    const buffer: Buffer
    const originalSize: nat
    ghost const original: seq<Byte>   // what was readable when the stream was built
    ghost var granted: nat            // bytes handed out by Next
    ghost var backedUp: nat           // bytes given back by BackUp
    ghost var lastNext: nat           // what BackUp may still give back

    ghost predicate Valid()
      reads this, buffer, buffer.data
    {
      && buffer.Valid()
      && originalSize == |original|
      && original <= buffer.Contents()
      && backedUp + lastNext <= granted
      && |buffer.Contents()| == |original| + granted - backedUp
    }

    /** The bytes of the stream itself. */
    ghost function Written(): seq<Byte>
      requires Valid()
      reads this, buffer, buffer.data
    {
      buffer.Contents()[|original|..]
    }

    constructor (buf: Buffer)
      requires buf.Valid()
      ensures Valid() && buffer == buf && original == buf.Contents() && granted == backedUp == 0 && Written() == []
    {
      buffer := buf;
      originalSize := buf.ReadableBytes();
      original := buf.Contents();
      granted, backedUp, lastNext := 0, 0, 0;
    }

    lemma ContentsAre()
      requires Valid()
      ensures buffer.Contents() == original + Written()
    {
    }

    /** Hands out all the room there is, at least 4096 bytes; size is an int. `at` is the pointer, as an
        offset into the stream. */
    method Next() returns (at: nat, size: nat)
      requires Valid() && buffer.data.Length + CHUNK <= INT_MAX
      modifies this`granted, this`lastNext, buffer, buffer.data
      ensures Valid() && (buffer.data == old(buffer.data) || fresh(buffer.data))
      ensures buffer.data.Length <= old(buffer.data.Length) + CHUNK
      ensures 4096 <= size < 0x8000_0000 && lastNext == size && granted == old(granted) + size
      ensures at == |old(Written())| && |Written()| == at + size && Written()[..at] == old(Written())
    {
      hide SpaceBound, Max;
      ghost var before := buffer.Contents();
      buffer.EnsureWritableBytes(CHUNK);
      at := buffer.ReadableBytes() - originalSize;
      size := buffer.WritableBytes();
      buffer.HasWritten(size);
      granted, lastNext := granted + size, size;
      DropFront(before, buffer.Contents()[|before|..], |original|);
    }

    method BackUp(count: nat)
      requires Valid() && count <= lastNext
      modifies this`backedUp, this`lastNext, buffer`writerIndex
      ensures Valid() && backedUp == old(backedUp) + count && lastNext == old(lastNext) - count
      ensures Written() == old(Written())[..|old(Written())| - count]
    {
      buffer.Unwrite(count);
      backedUp, lastNext := backedUp + count, lastNext - count;
    }

    method ByteCount() returns (n: int)
      requires Valid()
      ensures n == granted - backedUp == |Written()|
    {
      n := buffer.ReadableBytes() - originalSize;
    }

    /** A client storing bytes through the pointer Next returned. */
    method Store(at: nat, bytes: seq<Byte>)
      requires Valid() && at + |bytes| <= |Written()|
      modifies buffer.data
      ensures Valid()
      ensures Written() == old(Written())[..at] + bytes + old(Written())[at + |bytes|..]
    {
      buffer.Overwrite(originalSize + at, bytes);
    }
  }

  /** One chunk: take what Next grants, fill as much of it as there is to write, give the rest back. */
  method EmitChunk(s: BufferOutputStream, bytes: seq<Byte>) returns (n: nat)
    requires s.Valid() && s.buffer.data.Length + CHUNK <= INT_MAX
    modifies s, s.buffer, s.buffer.data
    ensures s.Valid() && (s.buffer.data == old(s.buffer.data) || fresh(s.buffer.data))
    ensures s.buffer.data.Length <= old(s.buffer.data.Length) + CHUNK
    ensures n <= |bytes| && (n == |bytes| || n >= CHUNK)
    ensures s.Written() == old(s.Written()) + bytes[..n]
  {
    ghost var before := s.Written();
    var at, size := s.Next();
    n := if size < |bytes| then size else |bytes|;
    s.Store(at, bytes[..n]);
    assert s.Written()[..at + n] == before + bytes[..n];
    s.BackUp(size - n);
  }

  lemma MoveOver(a: seq<Byte>, b: seq<Byte>, n: nat)
    requires n <= |b|
    ensures (a + b[..n]) + b[n..] == a + b
  {
  }

  lemma DropFront(a: seq<Byte>, b: seq<Byte>, k: nat)
    requires k <= |a|
    ensures (a + b)[k..] == a[k..] + b
  {
  }

  /** What a serializer does with the stream, chunk by chunk. The buffer ends up with its old contents followed
      by exactly the bytes written, however often it moved or grew on the way. */
  method Emit(s: BufferOutputStream, bytes: seq<Byte>)
    requires s.Valid() && s.buffer.data.Length + |bytes| + CHUNK <= INT_MAX
    modifies s, s.buffer, s.buffer.data
    ensures s.Valid() && s.Written() == old(s.Written()) + bytes
    ensures s.buffer.Contents() == old(s.buffer.Contents()) + bytes
  {
    ghost var before, all := s.Written(), s.buffer.Contents();
    assert all == s.original + before;
    hide *;
    var sent := 0;
    while sent < |bytes|
      invariant sent <= |bytes|
      invariant s.Valid() && (s.buffer.data == old(s.buffer.data) || fresh(s.buffer.data))
      invariant sent < |bytes| ==> s.buffer.data.Length + |bytes| - sent + CHUNK <= INT_MAX
      invariant s.Written() + bytes[sent..] == before + bytes
    {
      ghost var written := s.Written();
      var rest := bytes[sent..];
      var n := EmitChunk(s, rest);
      MoveOver(written, rest, n);
      assert rest[n..] == bytes[sent + n..];
      sent := sent + n;
    }
    assert s.Written() + [] == s.Written();
    s.ContentsAre();
    assert s.original + before + bytes == s.original + (before + bytes);
  }
}
