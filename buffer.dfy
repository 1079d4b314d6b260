/**
 * The part of NIO's ByteBuffer the library relies on: a byte store with a
 * reader and a writer index. Bytes in [readerIndex, writerIndex) are the
 * readable ones; `get*` and `read*` see no byte at or past the writer index.
 * Writing at the writer index replaces whatever the store held there.
 */
module Buffer {
  import opened Bytes
  import opened Wire

  class ByteBuffer {
    var bytes: seq<byte>
    var readerIndex: nat
    var writerIndex: nat

    ghost predicate Valid()
      reads this
    {
      readerIndex <= writerIndex <= |bytes|
    }

    /** The written bytes [0, writerIndex). */
    function Written(): (w: seq<byte>)
      reads this
      requires Valid()
      ensures |w| == writerIndex
    {
      bytes[..writerIndex]
    }

    /** `ByteBufferAllocator().buffer(capacity:)`: nothing written yet. */
    constructor Allocate()
      ensures Valid() && bytes == [] && readerIndex == 0 && writerIndex == 0
    {
      bytes, readerIndex, writerIndex := [], 0, 0;
    }

    /** Copying the struct: same bytes and indices, separate storage. */
    constructor Copy(other: ByteBuffer)
      requires other.Valid()
      ensures Valid() && bytes == other.bytes
      ensures readerIndex == other.readerIndex && writerIndex == other.writerIndex
    {
      bytes, readerIndex, writerIndex := other.bytes, other.readerIndex, other.writerIndex;
    }

    method WriteBytes(s: seq<byte>)
      requires Valid()
      modifies this
      ensures Valid() && bytes == old(Written()) + s
      ensures writerIndex == old(writerIndex) + |s| && readerIndex == old(readerIndex)
    {
      bytes := bytes[..writerIndex] + s;
      writerIndex := writerIndex + |s|;
    }

    method WriteInteger32(x: int32)
      requires Valid()
      modifies this
      ensures Valid() && bytes == old(Written()) + Int32Bytes(x)
      ensures writerIndex == old(writerIndex) + 4 && readerIndex == old(readerIndex)
    {
      WriteBytes(Int32Bytes(x));
    }

    method WriteInteger64(x: int64)
      requires Valid()
      modifies this
      ensures Valid() && bytes == old(Written()) + Int64Bytes(x)
      ensures writerIndex == old(writerIndex) + 8 && readerIndex == old(readerIndex)
    {
      WriteBytes(Int64Bytes(x));
    }

    /** `setInteger(_, at: 0, as: Int32.self)`: overwrites bytes 0..4 only. */
    method SetInteger32AtZero(x: int32)
      requires Valid() && 4 <= writerIndex
      modifies this
      ensures Valid() && bytes == Int32Bytes(x) + old(bytes[4..])
      ensures writerIndex == old(writerIndex) && readerIndex == old(readerIndex)
    {
      bytes := Int32Bytes(x) + bytes[4..];
    }

    /** `moveWriterIndex(to:)`; NIO traps unless readerIndex <= to <= capacity. */
    method MoveWriterIndex(to: nat)
      requires Valid() && readerIndex <= to <= |bytes|
      modifies this
      ensures Valid() && writerIndex == to
      ensures bytes == old(bytes) && readerIndex == old(readerIndex)
    {
      writerIndex := to;
    }

    /** `moveReaderIndex(to:)`; NIO traps unless to <= writerIndex. */
    method MoveReaderIndex(to: nat)
      requires Valid() && to <= writerIndex
      modifies this
      ensures Valid() && readerIndex == to
      ensures bytes == old(bytes) && writerIndex == old(writerIndex)
    {
      readerIndex := to;
    }

    /** `readBytes(length: 1)`: nil when nothing is readable. */
    method ReadByte() returns (r: Option<byte>)
      requires Valid()
      modifies this
      ensures Valid() && bytes == old(bytes) && writerIndex == old(writerIndex)
      ensures r.None? <==> old(readerIndex) == writerIndex
      ensures r.None? ==> readerIndex == old(readerIndex)
      ensures r.Some? ==> r.value == bytes[old(readerIndex)] && readerIndex == old(readerIndex) + 1
    {
      if readerIndex == writerIndex {
        return None;
      }
      r := Some(bytes[readerIndex]);
      readerIndex := readerIndex + 1;
    }

    /** `readInteger(as: Int32.self)`: nil, and no move, with fewer than 4 readable bytes. */
    method ReadInteger32() returns (r: Option<int32>)
      requires Valid()
      modifies this
      ensures Valid() && bytes == old(bytes) && writerIndex == old(writerIndex)
      ensures r.None? <==> writerIndex - old(readerIndex) < 4
      ensures r.None? ==> readerIndex == old(readerIndex)
      ensures r.Some? ==> readerIndex == old(readerIndex) + 4
      ensures r.Some? ==> r.value == ReadInt32(Written()[old(readerIndex)..readerIndex])
    {
      if writerIndex - readerIndex < 4 {
        return None;
      }
      assert bytes[readerIndex..readerIndex + 4] == Written()[readerIndex..readerIndex + 4];
      r := Some(ReadInt32(bytes[readerIndex..readerIndex + 4]));
      readerIndex := readerIndex + 4;
    }

    /** `readInteger(as: Int64.self)`: nil, and no move, with fewer than 8 readable bytes. */
    method ReadInteger64() returns (r: Option<int64>)
      requires Valid()
      modifies this
      ensures Valid() && bytes == old(bytes) && writerIndex == old(writerIndex)
      ensures r.None? <==> writerIndex - old(readerIndex) < 8
      ensures r.None? ==> readerIndex == old(readerIndex)
      ensures r.Some? ==> readerIndex == old(readerIndex) + 8
      ensures r.Some? ==> r.value == ReadInt64(Written()[old(readerIndex)..readerIndex])
    {
      if writerIndex - readerIndex < 8 {
        return None;
      }
      assert bytes[readerIndex..readerIndex + 8] == Written()[readerIndex..readerIndex + 8];
      r := Some(ReadInt64(bytes[readerIndex..readerIndex + 8]));
      readerIndex := readerIndex + 8;
    }

    /**
     * `getSlice(at:length:)`: the bytes, when the range lies within the
     * readable bytes; nil otherwise.
     */
    method GetSlice(at: int, length: int) returns (r: Option<seq<byte>>)
      requires Valid()
      ensures r.Some? <==> readerIndex <= at && 0 <= length && at + length <= writerIndex
      ensures r.Some? ==> r.value == Written()[at..at + length]
    {
      if readerIndex <= at && 0 <= length && at + length <= writerIndex {
        r := Some(bytes[at..at + length]);
      } else {
        r := None;
      }
    }

    /**
     * `ByteBuffer.getString()`: scans from the reader index for a NUL, reads
     * the bytes before it and moves the reader just past it. The library
     * force-unwraps the byte at the scan index, which traps when no NUL is
     * readable; that outcome is None here.
     */
    method GetString() returns (r: Option<seq<byte>>)
      requires Valid()
      modifies this
      ensures Valid() && bytes == old(bytes) && writerIndex == old(writerIndex)
      ensures r.None? <==> CString(Written(), old(readerIndex)).None?
      ensures r.Some? ==> CString(Written(), old(readerIndex)) == Some(CStr(r.value, readerIndex))
    {
      var idx := readerIndex;
      while idx < writerIndex && bytes[idx] != 0
        invariant readerIndex <= idx <= writerIndex
        invariant forall j :: readerIndex <= j < idx ==> bytes[j] != 0
        decreases writerIndex - idx
      {
        idx := idx + 1;
      }
      ghost var w := Written();
      if idx == writerIndex {
        assert forall j :: readerIndex <= j < |w| ==> w[j] != 0;
        return None;
      }
      NulAtFirst(w, readerIndex, idx);
      assert w[readerIndex..idx] == bytes[readerIndex..idx];
      r := Some(bytes[readerIndex..idx]);
      readerIndex := idx + 1;
    }
  }
}
