/**
 * `Document`: a buffer holding the encoded elements behind a 4-byte length
 * prefix, and the set of its keys. Its entries (a ghost sequence) are what
 * iterating the buffer yields; every operation is proved against the
 * corresponding function on entries.
 */
module Documents {
  import opened Bytes
  import opened Bson
  import opened Entries
  import opened Wire
  import opened Buffer
  import opened Codec
  import opened Iteration

  /** Room to append `e` after `es` without the length prefix overflowing Int32. */
  predicate Room(es: seq<Entry>, e: Entry)
  {
    Storable(e.value) && AllStorable(es + [e]) && Fits(es + [e])
  }

  /** A key met at position `i` of unique-keyed entries was not met before. */
  lemma FreshKey(es: seq<Entry>, i: nat)
    requires UniqueKeys(es) && i < |es|
    ensures es[i].key !in KeysOf(es[..i])
  {
    var before := es[..i];
    assert forall j :: 0 <= j < |before| ==> before[j].key != es[i].key;
  }

  /** One step of `filter`: the kept entry can be appended to what was kept before. */
  lemma FilterStep(es: seq<Entry>, i: nat, p: Entry -> bool)
    requires WellFormed(es) && i < |es|
    ensures FilterSeq(es[..i + 1], p) == FilterSeq(es[..i], p) + (if p(es[i]) then [es[i]] else [])
    ensures NoNul(es[i].key) && Encodable(es[i].value)
    ensures p(es[i]) ==> es[i].key !in KeysOf(FilterSeq(es[..i], p)) && Room(FilterSeq(es[..i], p), es[i])
  {
    assert es[..i + 1] == es[..i] + [es[i]];
    FilterAppend(es[..i], es[i], p);
    if p(es[i]) {
      FilterRoom(es, i, p);
      FreshKey(es, i);
      FilterUnique(es[..i], p);
    }
  }

  lemma FilterRoom(es: seq<Entry>, i: nat, p: Entry -> bool)
    requires AllStorable(es) && Fits(es) && i < |es| && p(es[i])
    requires FilterSeq(es[..i + 1], p) == FilterSeq(es[..i], p) + [es[i]]
    ensures Room(FilterSeq(es[..i], p), es[i])
  {
    FitsPrefix(es, i + 1);
    FilterBody(es[..i + 1], p);
  }

  /**
   * The step of every loop that copies a run of entries into a new document:
   * the next entry can be appended after the ones copied so far.
   */
  lemma SliceStep(es: seq<Entry>, lo: nat, i: nat)
    requires WellFormed(es) && lo <= i < |es|
    ensures es[lo..i + 1] == es[lo..i] + [es[i]]
    ensures NoNul(es[i].key) && Encodable(es[i].value)
    ensures es[i].key !in KeysOf(es[lo..i])
    ensures Room(es[lo..i], es[i])
  {
    assert es[lo..i + 1] == es[lo..i] + [es[i]];
    SliceKey(es, lo, i);
    SliceRoom(es, lo, i);
  }

  lemma SliceKey(es: seq<Entry>, lo: nat, i: nat)
    requires UniqueKeys(es) && lo <= i < |es|
    ensures es[i].key !in KeysOf(es[lo..i])
  {
    var before := es[lo..i];
    assert forall j :: 0 <= j < |before| ==> before[j].key != es[i].key;
  }

  lemma SliceRoom(es: seq<Entry>, lo: nat, i: nat)
    requires AllStorable(es) && Fits(es) && lo <= i < |es|
    requires es[lo..i + 1] == es[lo..i] + [es[i]]
    ensures Room(es[lo..i], es[i])
  {
    FitsPrefix(es, i + 1);
    FitsPrefix(es[..i + 1], lo);
    assert es[..i + 1][lo..] == es[lo..i + 1];
  }

  /** Setting the next of a set of distinct pairs appends it. */
  lemma PairStep(pairs: seq<Entry>, i: nat)
    requires WellFormed(pairs) && i < |pairs|
    ensures NoNul(pairs[i].key) && Encodable(pairs[i].value)
    ensures Room(RemoveKey(pairs[..i], pairs[i].key), pairs[i])
    ensures SetSeq(pairs[..i], pairs[i].key, pairs[i].value) == pairs[..i + 1]
  {
    FitsPrefix(pairs, i + 1);
    assert pairs[..i + 1] == pairs[..i] + [pairs[i]];
    FreshKey(pairs, i);
    RemoveAbsentKey(pairs[..i], pairs[i].key);
  }

  /** Appending an entry with a new key keeps the entries well-formed. */
  lemma AppendWellFormed(es: seq<Entry>, e: Entry)
    requires WellFormed(es) && e.key !in KeysOf(es) && NoNul(e.key) && Encodable(e.value)
    requires Room(es, e)
    ensures WellFormed(es + [e])
    ensures KeysOf(es + [e]) == KeysOf(es) + {e.key}
    ensures |Serialize(es) + EncodeEntry(e)| + 1 <= INT32_MAX
    ensures Patched(Serialize(es) + EncodeEntry(e)) == Serialize(es + [e])
  {
    AppendSerialize(es, e);
    KeysOfAppend(es, [e]);
    AppendReadable(es, e);
    AppendUnique(es, e);
  }

  lemma AppendReadable(es: seq<Entry>, e: Entry)
    requires Readable(es) && NoNul(e.key) && Encodable(e.value)
    ensures Readable(es + [e])
  {
  }

  lemma AppendUnique(es: seq<Entry>, e: Entry)
    requires UniqueKeys(es) && e.key !in KeysOf(es)
    ensures UniqueKeys(es + [e])
  {
  }

  /** Two well-formed documents have the same bytes exactly when they have the same entries. */
  lemma SameBytesSameEntries(a: seq<Entry>, b: seq<Entry>)
    requires WellFormed(a) && WellFormed(b)
    ensures Serialize(a) == Serialize(b) <==> a == b
  {
    ScanSerialize(a);
    ScanSerialize(b);
  }

  class Document {
    var data: ByteBuffer
    var keySet: set<seq<byte>>
    ghost var entries: seq<Entry>

    /**
     * The buffer is read from 0, its written bytes are exactly the encoding
     * of the entries, and `keySet` holds their keys.
     */
    ghost predicate Valid()
      reads this, data
    {
      data.Valid() && data.readerIndex == 0
      && WellFormed(entries)
      && data.Written() == Serialize(entries)
      && keySet == KeysOf(entries)
    }

    /** `init()`: the Int32 4 and no keys. */
    constructor ()
      ensures Valid() && fresh(data) && entries == []
    {
      var buffer := new ByteBuffer.Allocate();
      buffer.WriteInteger32(4);
      data := buffer;
      keySet := {};
      entries := [];
    }

    /**
     * `init(fromBSON:)`: the bytes are copied into a new buffer and the key
     * set is rebuilt by iterating them.
     */
    constructor FromBSON(raw: seq<byte>)
      requires Canonical(raw)
      ensures Valid() && fresh(data)
      ensures data.Written() == raw && entries == Scan(raw, 4).entries
    {
      var buffer := new ByteBuffer.Allocate();
      buffer.WriteBytes(raw);
      assert buffer.Written() == raw;
      var keys := CollectKeys(buffer);
      data := buffer;
      keySet := keys;
      entries := Scan(raw, 4).entries;
    }

    /**
     * `init(keyValuePairs:)`: duplicate keys are a `fatalError`; otherwise
     * every pair is set in order on an empty document.
     */
    constructor FromPairs(pairs: seq<Entry>)
      requires WellFormed(pairs)
      ensures Valid() && fresh(data)
      ensures entries == SetAll(pairs) && entries == pairs
    {
      var d := new Document();
      var i := 0;
      while i < |pairs|
        invariant i <= |pairs|
        invariant d.Valid() && fresh(d) && fresh(d.data) && d.entries == pairs[..i]
      {
        PairStep(pairs, i);
        d.Set(pairs[i].key, Some(pairs[i].value));
        i := i + 1;
      }
      assert pairs[..i] == pairs;
      SetAllDistinct(pairs);
      data, keySet, entries := d.data, d.keySet, d.entries;
    }

    /**
     * The setter's last branch, for a key the document does not hold: encode
     * the element (which patches the prefix), write a NUL past the end and
     * step the writer index back over it, and record the key.
     */
    method Append(key: seq<byte>, v: Value)
      requires Valid() && key !in keySet && NoNul(key) && Encodable(v)
      requires Room(entries, Entry(key, v))
      modifies this, data
      ensures Valid() && data == old(data)
      ensures entries == old(entries) + [Entry(key, v)]
      ensures keySet == old(keySet) + {key}
    {
      ghost var e := Entry(key, v);
      AppendWellFormed(entries, e);
      EncodeValue(key, v, data);
      ghost var written := data.Written();
      data.WriteBytes([0]);
      data.MoveWriterIndex(data.writerIndex - 1);
      assert data.Written() == written;
      entries := entries + [e];
      keySet := keySet + {key};
    }

    /**
     * `filter(_:)`: a new document to which every iterated element that
     * satisfies `p` is set, in order. The keys are unique, so the setter
     * always takes its append branch.
     */
    method Filter(p: Entry -> bool) returns (out: Document)
      requires Valid()
      ensures fresh(out) && fresh(out.data) && out.Valid()
      ensures out.entries == FilterSeq(entries, p)
    {
      ScanSerialize(entries);
      out := FilterBuffer(data, entries, p);
    }

    /**
     * The subscript setter. `None` filters the key out; a value first filters
     * out an existing entry for the key and then appends.
     */
    method Set(key: seq<byte>, value: Option<Value>)
      requires Valid()
      requires value.Some? ==> NoNul(key) && Encodable(value.value)
      requires value.Some? ==> Room(RemoveKey(entries, key), Entry(key, value.value))
      modifies this, data
      ensures Valid() && (data == old(data) || fresh(data))
      ensures value.None? ==> entries == RemoveKey(old(entries), key)
      ensures value.Some? ==> entries == SetSeq(old(entries), key, value.value)
    {
      var notKey := (e: Entry) => e.key != key;
      RemoveKeyAsFilter(entries, key, notKey);
      RemoveKeyLookup(entries, key, key);
      if value.None? {
        var filtered := Filter(notKey);
        data, keySet, entries := filtered.data, filtered.keySet - {key}, filtered.entries;
        return;
      }
      if key in keySet {
        var filtered := Filter(notKey);
        data, keySet, entries := filtered.data, filtered.keySet, filtered.entries;
      } else {
        RemoveAbsentKey(entries, key);
      }
      Append(key, value.value);
    }

    /**
     * `first(where:)` on the key: walks the iterator and stops at the first
     * element whose key matches.
     */
    method First(key: seq<byte>) returns (r: Option<Value>)
      requires Valid()
      ensures r == Lookup(entries, key)
    {
      var it := new DocumentIterator.Over(data);
      WalkStart(it, entries);
      ghost var seen: nat := 0;
      while true
        invariant Walking(it, data.Written(), entries, seen) && fresh(it.data)
        invariant forall j :: 0 <= j < seen ==> entries[j].key != key
        decreases |data.Written()| - it.data.readerIndex
      {
        var n := it.Advance(data.Written(), entries, seen);
        if n.End? {
          assert key !in KeysOf(entries);
          return None;
        }
        if n.entry.key == key {
          LookupFirst(entries, key, seen);
          return Some(n.entry.value);
        }
        seen := seen + 1;
      }
    }

    /** The subscript getter: nil for a key not in `keySet`, else `first(where:)`. */
    method Get(key: seq<byte>) returns (r: Option<Value>)
      requires Valid()
      ensures r == Lookup(entries, key)
      ensures r.Some? <==> key in keySet
    {
      if key !in keySet {
        return None;
      }
      r := First(key);
    }

    /** `subscript(key:default:)`. */
    method GetOr(key: seq<byte>, default: Value) returns (v: Value)
      requires Valid()
      ensures Lookup(entries, key).Some? ==> v == Lookup(entries, key).value
      ensures Lookup(entries, key).None? ==> v == default
    {
      var r := Get(key);
      v := if r.Some? then r.value else default;
    }

    /** `hasKey(_:)`: membership in `keySet`. */
    function HasKey(key: seq<byte>): (b: bool)
      reads this, data
      requires Valid()
      ensures b <==> key in KeysOf(entries)
      ensures b <==> Lookup(entries, key).Some?
    {
      key in keySet
    }

    /** `keys`: the key set as an array, in the set's own (unspecified) order. */
    method Keys() returns (ks: seq<seq<byte>>)
      requires Valid()
      ensures |ks| == |entries|
      ensures forall k :: k in ks <==> k in KeysOf(entries)
      ensures forall i, j :: 0 <= i < j < |ks| ==> ks[i] != ks[j]
    {
      var rest := keySet;
      ks := [];
      while rest != {}
        invariant rest <= keySet
        invariant forall k :: k in ks <==> k in keySet && k !in rest
        invariant forall i, j :: 0 <= i < j < |ks| ==> ks[i] != ks[j]
        invariant |ks| + |rest| == |keySet|
        decreases |rest|
      {
        var k :| k in rest;
        ks := ks + [k];
        rest := rest - {k};
      }
      UniqueKeysCount(entries);
    }

    /** `count`: the number of keys, which is the number of entries. */
    function Count(): (n: nat)
      reads this, data
      requires Valid()
      ensures n == |entries|
    {
      UniqueKeysCount(entries);
      |keySet|
    }

    /**
     * `rawBSON`: the written bytes, which iterate back to exactly this
     * document's entries (so `init(fromBSON:)` on them rebuilds it).
     */
    function RawBSON(): (r: seq<byte>)
      reads this, data
      requires Valid()
      ensures Canonical(r)
      ensures Scan(r, 4) == Ended(entries, |r|)
    {
      ScanSerialize(entries);
      data.Written()
    }
  }

  /** The loop of `filter(_:)`, over a buffer that iterates to `es`. */
  method FilterBuffer(source: ByteBuffer, ghost es: seq<Entry>, p: Entry -> bool) returns (out: Document)
    requires source.Valid() && 4 <= source.writerIndex && WellFormed(es)
    requires Ahead(source.Written(), 4, es, 0)
    ensures fresh(out) && fresh(out.data) && out.Valid()
    ensures out.entries == FilterSeq(es, p)
  {
    ghost var buf := source.Written();
    var it := new DocumentIterator.Over(source);
    out := new Document();
    FilterRest(it, buf, es, p, 0, out);
    assert es[..|es|] == es;
  }

  /**
   * The rest of `filter`'s loop: `out` holds the kept entries among the
   * first `from`; every further entry that satisfies `p` is set on it.
   * This method and FilterTurn together are the single `for ... where` loop
   * of Sources/SwiftBSON/Document.swift:53-55: FilterRest is the loop and
   * FilterTurn its body, kept apart so that each proof stays small.
   */
  method FilterRest(it: DocumentIterator, ghost buf: seq<byte>, ghost es: seq<Entry>, p: Entry -> bool,
                    ghost from: nat, out: Document)
    requires WellFormed(es) && from <= |es| && Walking(it, buf, es, from)
    requires out.Valid() && it.data != out.data && out.entries == FilterSeq(es[..from], p)
    modifies it.data, out, out.data
    ensures out.Valid() && out.data == old(out.data) && out.entries == FilterSeq(es[..|es|], p)
  {
    ghost var seen: nat := from;
    while true
      invariant seen <= |es| && Walking(it, buf, es, seen)
      invariant out.Valid() && out.data == old(out.data) && out.entries == FilterSeq(es[..seen], p)
      decreases |buf| - it.data.readerIndex
    {
      var n := FilterTurn(it, buf, es, p, seen, out);
      if n.End? {
        return;
      }
      seen := seen + 1;
    }
  }

  /**
   * The body of `filter`'s one loop (see FilterRest): iterate one entry and
   * keep it when it satisfies `p`.
   */
  method FilterTurn(it: DocumentIterator, ghost buf: seq<byte>, ghost es: seq<Entry>, p: Entry -> bool,
                    ghost seen: nat, out: Document) returns (n: Next)
    requires WellFormed(es) && seen <= |es| && Walking(it, buf, es, seen)
    requires out.Valid() && it.data != out.data && out.entries == FilterSeq(es[..seen], p)
    modifies it.data, out, out.data
    ensures out.Valid() && out.data == old(out.data)
    ensures n.Yield? || n.End?
    ensures n.End? <==> seen == |es|
    ensures n.End? ==> out.entries == FilterSeq(es[..|es|], p)
    ensures n.Yield? ==> old(it.data.readerIndex) < it.data.readerIndex && Walking(it, buf, es, seen + 1)
    ensures n.Yield? ==> out.entries == FilterSeq(es[..seen + 1], p)
  {
    n := it.Advance(buf, es, seen);
    if n.Yield? {
      var e := n.entry;
      FilterStep(es, seen, p);
      if p(e) {
        out.Append(e.key, e.value);
      }
    }
  }

  /**
   * The key set `init(fromBSON:)` rebuilds: every key the iterator yields,
   * from a buffer whose iteration does not trap.
   */
  method CollectKeys(buffer: ByteBuffer) returns (keys: set<seq<byte>>)
    requires buffer.Valid() && 4 <= buffer.writerIndex
    requires Scan(buffer.Written(), 4).Ended?
    ensures keys == KeysOf(Scan(buffer.Written(), 4).entries)
  {
    ghost var es := Scan(buffer.Written(), 4).entries;
    var it := new DocumentIterator.Over(buffer);
    ghost var seen: nat := 0;
    keys := {};
    while true
      invariant Walking(it, buffer.Written(), es, seen) && fresh(it.data)
      invariant keys == KeysOf(es[..seen])
      decreases |buffer.Written()| - it.data.readerIndex
    {
      var n := it.Advance(buffer.Written(), es, seen);
      if n.End? {
        assert es[..seen] == es;
        return;
      }
      KeysOfPrefixNext(es, seen);
      keys := keys + {n.entry.key};
      seen := seen + 1;
    }
  }

  /** `dictionaryLiteral`: a `.document` holding the pairs set in order. */
  method DictionaryLiteral(pairs: seq<Entry>) returns (v: Value)
    requires WellFormed(pairs)
    ensures v == Doc(Serialize(pairs))
    ensures DocumentValue(v) == Some(Serialize(pairs))
    ensures pairs != [] ==> Encodable(v)
  {
    var d := new Document.FromPairs(pairs);
    v := Doc(d.RawBSON());
    if pairs != [] {
      NestedDocumentEncodable(pairs);
    }
  }
}
