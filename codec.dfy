/**
 * The per-type codec: each `encode(key:data:)` appends tag, key, NUL and
 * payload to the buffer and then overwrites bytes 0..4 with
 * Int32(writerIndex + 1); each `init(from:)` reads a payload at the buffer's
 * reader index and moves it forward. Every method is proved against the pure
 * layout (Wire.EncodeEntry, Wire.Patched) or the pure reader
 * (Wire.DecodePayload).
 */
module Codec {
  import opened Bytes
  import opened Bson
  import opened Wire
  import opened Buffer

  /** What an encoder may be asked to do without the prefix overflowing Int32. */
  ghost predicate CanAppend(data: ByteBuffer, e: Entry)
    reads data
  {
    data.Valid() && 4 <= data.writerIndex && Storable(e.value)
    && data.writerIndex + |EncodeEntry(e)| + 1 <= INT32_MAX
  }

  /** The common tail of every encoder: tag, key and NUL. */
  method WriteHeader(t: BsonType, key: seq<byte>, data: ByteBuffer)
    requires data.Valid()
    modifies data
    ensures data.Valid() && data.readerIndex == old(data.readerIndex)
    ensures data.bytes == old(data.Written()) + [RawValue(t)] + key + [0]
    ensures data.writerIndex == |data.bytes|
  {
    data.WriteBytes([RawValue(t)]);
    data.WriteBytes(key);
    data.WriteBytes([0]);
  }

  /** `setInteger(Int32(writerIndex + 1), at: 0)` once the element is written. */
  method PatchLength(data: ByteBuffer, ghost before: seq<byte>, ghost e: Entry)
    requires data.Valid() && Storable(e.value) && 4 <= |before|
    requires data.bytes == before + EncodeEntry(e) && data.writerIndex == |data.bytes|
    requires data.writerIndex + 1 <= INT32_MAX
    modifies data
    ensures data.Valid() && data.readerIndex == old(data.readerIndex)
    ensures data.Written() == Patched(before + EncodeEntry(e))
  {
    data.SetInteger32AtZero(data.writerIndex + 1);
    assert data.Written() == data.bytes;
  }

  /** `Int32.encode(key:data:)`. */
  method EncodeInt32(key: seq<byte>, x: int32, data: ByteBuffer)
    requires CanAppend(data, Entry(key, I32(x)))
    modifies data
    ensures data.Valid() && data.readerIndex == old(data.readerIndex)
    ensures data.Written() == Patched(old(data.Written()) + EncodeEntry(Entry(key, I32(x))))
  {
    ghost var before := data.Written();
    WriteHeader(Int32, key, data);
    data.WriteInteger32(x);
    assert data.bytes == before + EncodeEntry(Entry(key, I32(x)));
    PatchLength(data, before, Entry(key, I32(x)));
  }

  /** `Int64.encode(key:data:)`. */
  method EncodeInt64(key: seq<byte>, x: int64, data: ByteBuffer)
    requires CanAppend(data, Entry(key, I64(x)))
    modifies data
    ensures data.Valid() && data.readerIndex == old(data.readerIndex)
    ensures data.Written() == Patched(old(data.Written()) + EncodeEntry(Entry(key, I64(x))))
  {
    ghost var before := data.Written();
    WriteHeader(Int64, key, data);
    data.WriteInteger64(x);
    assert data.bytes == before + EncodeEntry(Entry(key, I64(x)));
    PatchLength(data, before, Entry(key, I64(x)));
  }

  /**
   * `String.encode(key:data:)`: the text and a NUL, then the Int32 length
   * (byte count + 1), the text again and a NUL.
   */
  method EncodeString(key: seq<byte>, s: seq<byte>, data: ByteBuffer)
    requires CanAppend(data, Entry(key, Str(s)))
    modifies data
    ensures data.Valid() && data.readerIndex == old(data.readerIndex)
    ensures data.Written() == Patched(old(data.Written()) + EncodeEntry(Entry(key, Str(s))))
  {
    ghost var before := data.Written();
    WriteHeader(String, key, data);
    ghost var header := data.bytes;
    assert data.Written() == header;
    data.WriteBytes(s + [0]);
    assert data.Written() == header + (s + [0]);
    data.WriteInteger32(|s| + 1);
    assert data.Written() == header + (s + [0]) + Int32Bytes(|s| + 1);
    data.WriteBytes(s + [0]);
    assert data.bytes == header + Payload(Str(s));
    assert data.bytes == before + EncodeEntry(Entry(key, Str(s)));
    PatchLength(data, before, Entry(key, Str(s)));
  }

  /** `Document.encode(key:data:)`: the nested document's bytes [0, writerIndex). */
  method EncodeDocument(key: seq<byte>, raw: seq<byte>, data: ByteBuffer)
    requires CanAppend(data, Entry(key, Doc(raw)))
    modifies data
    ensures data.Valid() && data.readerIndex == old(data.readerIndex)
    ensures data.Written() == Patched(old(data.Written()) + EncodeEntry(Entry(key, Doc(raw))))
  {
    ghost var before := data.Written();
    WriteHeader(Document, key, data);
    data.WriteBytes(raw);
    assert data.bytes == before + EncodeEntry(Entry(key, Doc(raw)));
    PatchLength(data, before, Entry(key, Doc(raw)));
  }

  /** `value.bsonValue.encode(key:data:)`: dispatch on the case. */
  method EncodeValue(key: seq<byte>, v: Value, data: ByteBuffer)
    requires CanAppend(data, Entry(key, v))
    modifies data
    ensures data.Valid() && data.readerIndex == old(data.readerIndex)
    ensures data.Written() == Patched(old(data.Written()) + EncodeEntry(Entry(key, v)))
  {
    match v
    case Str(s) => EncodeString(key, s, data);
    case I32(x) => EncodeInt32(key, x, data);
    case I64(x) => EncodeInt64(key, x, data);
    case Doc(raw) => EncodeDocument(key, raw, data);
  }

  // ---------------------------------------------------------------------
  // Readers

  /** A reader's outcome agrees with the pure reader: None where it traps. */
  ghost predicate Agrees(r: Option<Value>, cursor: nat, d: Decoded)
  {
    match d
    case DecodeTrap => r.None?
    case Decoded(v, n) => r == Some(v) && cursor == n
  }

  /** `Int32.init(from:)`: 0, with no move, when fewer than 4 bytes are readable. */
  method DecodeInt32(data: ByteBuffer) returns (x: int32)
    requires data.Valid() && 0 < data.readerIndex
    modifies data
    ensures data.Valid() && data.bytes == old(data.bytes) && data.writerIndex == old(data.writerIndex)
    ensures DecodePayload(Int32, data.Written(), old(data.readerIndex)) == Decoded(I32(x), data.readerIndex)
  {
    var r := data.ReadInteger32();
    if r.None? {
      return 0;
    }
    return r.value;
  }

  /** `Int64.init(from:)`: 0, with no move, when fewer than 8 bytes are readable. */
  method DecodeInt64(data: ByteBuffer) returns (x: int64)
    requires data.Valid() && 0 < data.readerIndex
    modifies data
    ensures data.Valid() && data.bytes == old(data.bytes) && data.writerIndex == old(data.writerIndex)
    ensures DecodePayload(Int64, data.Written(), old(data.readerIndex)) == Decoded(I64(x), data.readerIndex)
  {
    var r := data.ReadInteger64();
    if r.None? {
      return 0;
    }
    return r.value;
  }

  /**
   * `String.init(from:)`: the text up to the first NUL, then a jump over the
   * length word, the second copy and its NUL. None where the library traps:
   * no NUL readable, or a jump past the writer index.
   */
  method DecodeString(data: ByteBuffer) returns (r: Option<seq<byte>>)
    requires data.Valid() && 0 < data.readerIndex
    modifies data
    ensures data.Valid() && data.bytes == old(data.bytes) && data.writerIndex == old(data.writerIndex)
    ensures Agrees(if r.Some? then Some(Str(r.value)) else None, data.readerIndex,
                   DecodePayload(String, data.Written(), old(data.readerIndex)))
  {
    var s := data.GetString();
    if s.None? {
      return None;
    }
    var to := data.readerIndex + 4 + |s.value| + 1;
    if to > data.writerIndex {
      return None;
    }
    data.MoveReaderIndex(to);
    r := s;
  }

  /**
   * `Document.init(from:)`: reads the prefix `len`, steps back over it and
   * slices `len - 1` bytes, which become the nested document. A missing
   * prefix or an unreadable slice gives `Document()` with no move; a slice the
   * nested iterator cannot walk (shorter than 4 bytes, or trapping) traps.
   */
  method DecodeDocument(data: ByteBuffer) returns (r: Option<seq<byte>>)
    requires data.Valid() && 0 < data.readerIndex
    modifies data
    ensures data.Valid() && data.bytes == old(data.bytes) && data.writerIndex == old(data.writerIndex)
    ensures Agrees(if r.Some? then Some(Doc(r.value)) else None, data.readerIndex,
                   DecodePayload(Document, data.Written(), old(data.readerIndex)))
  {
    ghost var c := data.readerIndex;
    var len := data.ReadInteger32();
    if len.None? {
      return Some(EmptyRaw());
    }
    data.MoveReaderIndex(data.readerIndex - 4);
    var slice := data.GetSlice(data.readerIndex, len.value - 1);
    if slice.None? {
      return Some(EmptyRaw());
    }
    data.MoveReaderIndex(data.readerIndex + len.value - 1);
    // Document(fromBSON:) on the slice: its iterator starts at offset 4
    if |slice.value| < 4 || Scan(slice.value, 4).Trapped? {
      return None;
    }
    r := slice;
  }

  /** `typeMap[type].init(from:)`. */
  method DecodeValue(t: BsonType, data: ByteBuffer) returns (r: Option<Value>)
    requires data.Valid() && 0 < data.readerIndex && InTypeMap(t)
    modifies data
    ensures data.Valid() && data.bytes == old(data.bytes) && data.writerIndex == old(data.writerIndex)
    ensures Agrees(r, data.readerIndex, DecodePayload(t, data.Written(), old(data.readerIndex)))
  {
    if t == Int32 {
      var x := DecodeInt32(data);
      r := Some(I32(x));
    } else if t == Int64 {
      var x := DecodeInt64(data);
      r := Some(I64(x));
    } else if t == String {
      var s := DecodeString(data);
      r := if s.Some? then Some(Str(s.value)) else None;
    } else {
      var d := DecodeDocument(data);
      r := if d.Some? then Some(Doc(d.value)) else None;
    }
  }
}
