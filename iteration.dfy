/**
 * `DocumentIterator`: a private copy of the document's buffer whose reader
 * index starts past the 4-byte length prefix and moves one element per call.
 */
module Iteration {
  import opened Bytes
  import opened Bson
  import opened Entries
  import opened Wire
  import opened Buffer
  import opened Codec

  /** What one call hands back: an element, the end, or a trap (`fatalError`). */
  datatype Next = Yield(entry: Entry) | End | Crash

  class DocumentIterator {
    var data: ByteBuffer

    ghost predicate Valid()
      reads this, data
    {
      data.Valid()
    }

    /** `init(over:)`: copy the buffer and skip the length prefix. */
    constructor Over(source: ByteBuffer)
      requires source.Valid() && 4 <= source.writerIndex
      ensures Valid() && fresh(data)
      ensures data.Written() == source.Written() && data.readerIndex == 4
    {
      var copy := new ByteBuffer.Copy(source);
      copy.MoveReaderIndex(4);
      data := copy;
    }

    /**
     * `next()` and `nextOrError()`: a tag byte, then (for a known tag) the
     * key, then (for a tag in the type map) the payload. End of the readable
     * bytes, an unknown tag and a tag outside the type map end the iteration;
     * the forced key read and the payload readers may trap.
     */
    method Next() returns (r: Next)
      requires Valid()
      modifies data
      ensures Valid() && data.bytes == old(data.bytes) && data.writerIndex == old(data.writerIndex)
      ensures Steps(r, data.readerIndex, Step(data.Written(), old(data.readerIndex)))
    {
      var raw := data.ReadByte();
      if raw.None? {
        return End;
      }
      var t := TypeFromRaw(raw.value);
      if t.None? {
        return End;
      }
      var key := data.GetString();
      if key.None? {
        return Crash;
      }
      if !InTypeMap(t.value) {
        return End;
      }
      var v := DecodeValue(t.value, data);
      if v.None? {
        return Crash;
      }
      r := Yield(Entry(key.value, v.value));
    }

    /**
     * `next()` as a `for` loop over a document sees it: the end exactly when
     * every entry has been yielded, otherwise the next entry, and never a trap.
     */
    method Advance(ghost buf: seq<byte>, ghost es: seq<Entry>, ghost seen: nat) returns (r: Next)
      requires Walking(this, buf, es, seen)
      modifies data
      ensures data.bytes == old(data.bytes) && data.writerIndex == old(data.writerIndex)
      ensures r.Yield? || r.End?
      ensures r.End? <==> seen == |es|
      ensures r.Yield? ==> seen < |es| && r.entry == es[seen]
      ensures r.Yield? ==> old(data.readerIndex) < data.readerIndex && Walking(this, buf, es, seen + 1)
    {
      ghost var c := data.readerIndex;
      r := Next();
      WalkNext(this, buf, es, seen, c, r);
    }
  }

  /** One call agrees with one step of the pure reader, cursor included. */
  ghost predicate Steps(r: Next, cursor: nat, s: StepResult)
  {
    match s
    case Trap => r.Crash?
    case Done(at) => r.End? && cursor == at
    case Item(e, n) => r == Yield(e) && cursor == n
  }

  /**
   * An iterator part-way through `buf`, which iterates to `es`: the first
   * `seen` entries have been yielded and the rest are still ahead.
   */
  ghost predicate Walking(it: DocumentIterator, buf: seq<byte>, es: seq<Entry>, seen: nat)
    reads it, it.data
  {
    it.Valid() && it.data.Written() == buf && Ahead(buf, it.data.readerIndex, es, seen)
  }

  /** From cursor `c`, `buf` iterates to the entries of `es` after the first `seen`. */
  ghost predicate Ahead(buf: seq<byte>, c: nat, es: seq<Entry>, seen: nat)
  {
    seen <= |es| && c <= |buf| && Scan(buf, c).Ended? && Scan(buf, c).entries == es[seen..]
  }

  /** A fresh iterator over a document's bytes has all of its entries ahead. */
  lemma WalkStart(it: DocumentIterator, es: seq<Entry>)
    requires WellFormed(es) && it.Valid()
    requires it.data.Written() == Serialize(es) && it.data.readerIndex == 4
    ensures Walking(it, Serialize(es), es, 0)
  {
    ScanSerialize(es);
  }

  /**
   * Where the pure reader has not trapped, the next call never traps; it
   * ends exactly when nothing is ahead and otherwise yields the next entry.
   */
  lemma StepAhead(buf: seq<byte>, c: nat, es: seq<Entry>, r: Next, cursor: nat)
    requires c <= |buf| && Scan(buf, c).Ended? && Scan(buf, c).entries == es
    requires Steps(r, cursor, Step(buf, c))
    ensures !r.Crash?
    ensures r.End? <==> es == []
    ensures r.Yield? ==> c < cursor <= |buf| && r.entry == es[0]
    ensures r.Yield? ==> Scan(buf, cursor).Ended? && Scan(buf, cursor).entries == es[1..]
  {
  }

  /** The loop step every document operation takes: `Walking` advances by one. */
  lemma WalkNext(it: DocumentIterator, buf: seq<byte>, es: seq<Entry>, seen: nat, c: nat, r: Next)
    requires it.Valid() && it.data.Written() == buf && seen <= |es| && c <= |buf|
    requires Scan(buf, c).Ended? && Scan(buf, c).entries == es[seen..]
    requires Steps(r, it.data.readerIndex, Step(buf, c))
    ensures !r.Crash?
    ensures r.End? <==> seen == |es|
    ensures r.Yield? ==> seen < |es| && r.entry == es[seen] && c < it.data.readerIndex
    ensures r.Yield? ==> Walking(it, buf, es, seen + 1)
  {
    StepAhead(buf, c, es[seen..], r, it.data.readerIndex);
    if r.Yield? {
      assert es[seen..][1..] == es[seen + 1..];
    }
  }
}
