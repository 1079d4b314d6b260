/**
 * The byte layout the library writes and the decoder that reads it, as pure
 * functions. An element is a tag byte, the key bytes, a NUL, and the payload;
 * a document is a 4-byte length prefix followed by its elements. The decoder
 * (Step, DecodePayload, Scan) follows DocumentIterator.nextOrError and the
 * per-type `init(from:)` readers branch for branch; `Trap` stands for the
 * places where the library crashes (a force-unwrap or a ByteBuffer
 * precondition) instead of returning.
 */
module Wire {
  import opened Bytes
  import opened Bson
  import opened Entries

  /** The bytes of `Document()`: only the prefix Int32(4), no terminator. */
  function EmptyRaw(): (r: seq<byte>)
    ensures |r| == 4
    ensures ReadInt32(r) == 4
  {
    Int32RoundTrip(4);
    Int32Bytes(4)
  }

  // ---------------------------------------------------------------------
  // Encoding

  /** What the encoder itself needs: a string's length word fits an Int32. */
  predicate Storable(v: Value)
  {
    v.Str? ==> |v.s| + 1 <= INT32_MAX
  }

  /** The payload `encode(key:data:)` writes after the key's NUL. */
  function Payload(v: Value): (p: seq<byte>)
    requires Storable(v)
  {
    match v
    case Str(s) => s + [0] + Int32Bytes(|s| + 1) + s + [0]
    case I32(i) => Int32Bytes(i)
    case I64(l) => Int64Bytes(l)
    case Doc(raw) => raw
  }

  /** One element: tag, key, NUL, payload. */
  function EncodeEntry(e: Entry): seq<byte>
    requires Storable(e.value)
  {
    [RawValue(TypeOf(e.value))] + e.key + [0] + Payload(e.value)
  }

  predicate AllStorable(es: seq<Entry>)
  {
    forall i :: 0 <= i < |es| ==> Storable(es[i].value)
  }

  /** The elements one after another. */
  function Body(es: seq<Entry>): seq<byte>
    requires AllStorable(es)
  {
    if es == [] then [] else EncodeEntry(es[0]) + Body(es[1..])
  }

  /** The length prefix `writerIndex + 1` still fits the Int32 it is stored in. */
  predicate Fits(es: seq<Entry>)
    requires AllStorable(es)
  {
    4 + |Body(es)| + 1 <= INT32_MAX
  }

  /**
   * The bytes [0, writerIndex) of a document whose entries were appended in
   * this order: prefix 4 when there is none, else writerIndex + 1.
   */
  function Serialize(es: seq<Entry>): (r: seq<byte>)
    requires AllStorable(es) && Fits(es)
    ensures |r| == 4 + |Body(es)|
    ensures ReadInt32(r[..4]) == (if es == [] then 4 else |r| + 1)
  {
    var n := if es == [] then 4 else 4 + |Body(es)| + 1;
    Int32RoundTrip(n);
    assert (Int32Bytes(n) + Body(es))[..4] == Int32Bytes(n);
    Int32Bytes(n) + Body(es)
  }

  /** `setInteger(Int32(writerIndex + 1), at: 0)` on the written bytes `b`. */
  function Patched(b: seq<byte>): (r: seq<byte>)
    requires 4 <= |b| && |b| + 1 <= INT32_MAX
    ensures |r| == |b| && r[4..] == b[4..]
  {
    Int32Bytes(|b| + 1) + b[4..]
  }

  // ---------------------------------------------------------------------
  // Decoding

  /** The index of the first NUL at or after `i` (`getString`'s loop). */
  function NulAt(buf: seq<byte>, i: nat): (r: Option<nat>)
    ensures r.Some? ==> i <= r.value < |buf| && buf[r.value] == 0
    ensures r.Some? ==> forall k :: i <= k < r.value ==> buf[k] != 0
    ensures r.None? ==> forall k :: i <= k < |buf| ==> buf[k] != 0
    decreases |buf| - i
  {
    if i >= |buf| then None
    else if buf[i] == 0 then Some(i)
    else NulAt(buf, i + 1)
  }

  /** The NUL `getString` stops at is the first one. */
  lemma {:induction false} NulAtFirst(buf: seq<byte>, i: nat, j: nat)
    requires i <= j < |buf| && buf[j] == 0
    requires forall k :: i <= k < j ==> buf[k] != 0
    ensures NulAt(buf, i) == Some(j)
    decreases j - i
  {
    if i < j {
      NulAtFirst(buf, i + 1, j);
    }
  }

  datatype CStr = CStr(bytes: seq<byte>, next: nat)

  /** `getString`: the bytes before the next NUL, and the index just past it. */
  function CString(buf: seq<byte>, i: nat): (r: Option<CStr>)
    requires i <= |buf|
    ensures r.Some? ==> i < r.value.next <= |buf| && r.value.next == i + |r.value.bytes| + 1
  {
    match NulAt(buf, i)
    case None => None
    case Some(j) => Some(CStr(buf[i..j], j + 1))
  }

  datatype Decoded = Decoded(value: Value, next: nat) | DecodeTrap

  datatype StepResult = Item(entry: Entry, next: nat) | Done(at: nat) | Trap

  datatype ScanResult = Ended(entries: seq<Entry>, at: nat) | Trapped

  /**
   * The reader for type `t` run with the read cursor at `c`: the value and
   * where the cursor lands.
   */
  function DecodePayload(t: BsonType, buf: seq<byte>, c: nat): (r: Decoded)
    requires 0 < c <= |buf| && InTypeMap(t)
    ensures r.Decoded? ==> c <= r.next <= |buf|
    decreases |buf|, 0
  {
    if t == Int32 then
      // readInteger yields nil with fewer than 4 readable bytes: Int32() is 0
      if |buf| - c < 4 then Decoded(I32(0), c)
      else Decoded(I32(ReadInt32(buf[c..c + 4])), c + 4)
    else if t == Int64 then
      if |buf| - c < 8 then Decoded(I64(0), c)
      else Decoded(I64(ReadInt64(buf[c..c + 8])), c + 8)
    else if t == String then
      match CString(buf, c)
      case None => DecodeTrap
      case Some(cs) =>
        // skip the length word, the second copy and its NUL
        var m := cs.next + 4 + |cs.bytes| + 1;
        if m > |buf| then DecodeTrap else Decoded(Str(cs.bytes), m)
    else
      if |buf| - c < 4 then Decoded(Doc(EmptyRaw()), c)
      else
        var len := ReadInt32(buf[c..c + 4]);
        if len - 1 < 0 || c + len - 1 > |buf| then Decoded(Doc(EmptyRaw()), c)
        else
          var slice := buf[c..c + len - 1];
          // Document(fromBSON:) moves the slice's reader to 4 and iterates it
          if |slice| < 4 then DecodeTrap
          else if Scan(slice, 4).Trapped? then DecodeTrap
          else Decoded(Doc(slice), c + len - 1)
  }

  /** One call of `nextOrError` with the read cursor at `c`. */
  function Step(buf: seq<byte>, c: nat): (r: StepResult)
    requires c <= |buf|
    ensures r.Item? ==> c < r.next <= |buf|
    ensures r.Done? ==> r.at <= |buf|
    decreases |buf|, 1
  {
    if c == |buf| then Done(c)
    else
      match TypeFromRaw(buf[c])
      case None => Done(c + 1)
      case Some(t) =>
        match CString(buf, c + 1)
        case None => Trap
        case Some(key) =>
          if !InTypeMap(t) then Done(key.next)
          else
            match DecodePayload(t, buf, key.next)
            case DecodeTrap => Trap
            case Decoded(v, n) => Item(Entry(key.bytes, v), n)
  }

  /** Iterating to the end from cursor `c`: the entries and where it stopped. */
  function Scan(buf: seq<byte>, c: nat): ScanResult
    requires c <= |buf|
    decreases |buf|, 2, |buf| - c
  {
    match Step(buf, c)
    case Trap => Trapped
    case Done(at) => Ended([], at)
    case Item(e, n) =>
      match Scan(buf, n)
      case Trapped => Trapped
      case Ended(es, at) => Ended([e] + es, at)
  }

  /**
   * A value the decoder reads back as itself once encoded: a string without
   * NUL, any integer, and a nested document whose prefix is its length + 1
   * and whose own iteration does not trap.
   */
  predicate Encodable(v: Value)
  {
    match v
    case Str(s) => NoNul(s) && |s| + 1 <= INT32_MAX
    case I32(_) => true
    case I64(_) => true
    case Doc(raw) =>
      4 <= |raw| < INT32_MAX && ReadInt32(raw[..4]) == |raw| + 1 && !Scan(raw, 4).Trapped?
  }

  /** Keys the key reader finds whole and values the readers give back. */
  predicate Readable(es: seq<Entry>)
  {
    forall i :: 0 <= i < |es| ==> NoNul(es[i].key) && Encodable(es[i].value)
  }

  /** The state of every document built through the setter. */
  predicate WellFormed(es: seq<Entry>)
  {
    UniqueKeys(es)
    && Readable(es)
    && AllStorable(es)
    && Fits(es)
  }

  /** Bytes that are exactly the serialization of what they iterate to. */
  predicate Canonical(raw: seq<byte>)
  {
    4 <= |raw|
    && Scan(raw, 4).Ended?
    && WellFormed(Scan(raw, 4).entries)
    && Serialize(Scan(raw, 4).entries) == raw
  }

  // ---------------------------------------------------------------------
  // Layout lemmas

  /**
   * What each `encode(key:data:)` writes after the key: an integer's
   * fixed-width bytes that read back as the integer; a string's bytes, a NUL,
   * a length word holding length + 1, and the second copy with its NUL; a
   * nested document's written bytes as they are.
   */
  lemma PayloadLayout(v: Value)
    requires Storable(v)
    ensures v.I32? ==> |Payload(v)| == 4 && ReadInt32(Payload(v)) == v.i
    ensures v.I64? ==> |Payload(v)| == 8 && ReadInt64(Payload(v)) == v.l
    ensures v.Str? ==> |Payload(v)| == 2 * |v.s| + 6
    ensures v.Str? ==> Payload(v)[..|v.s|] == v.s && Payload(v)[|v.s|] == 0
    ensures v.Str? ==> ReadInt32(Payload(v)[|v.s| + 1..|v.s| + 5]) == |v.s| + 1
    ensures v.Str? ==> Payload(v)[|v.s| + 5..] == v.s + [0]
    ensures v.Doc? ==> Payload(v) == v.raw
  {
    match v
    case I32(i) => Int32RoundTrip(i);
    case I64(l) => Int64RoundTrip(l);
    case Str(s) =>
      Int32RoundTrip(|s| + 1);
      var p := Payload(v);
      assert p[|s| + 1..|s| + 5] == Int32Bytes(|s| + 1);
      assert p[|s| + 5..] == s + [0];
    case Doc(_) =>
  }

  /** The body is empty exactly when there are no entries, and takes two bytes or more per entry. */
  lemma {:induction false} BodySize(es: seq<Entry>)
    requires AllStorable(es)
    ensures Body(es) == [] <==> es == []
    ensures |Body(es)| >= 2 * |es|
  {
    if es != [] {
      assert AllStorable(es[1..]);
      BodySize(es[1..]);
    }
  }

  /** A walk stops inside the buffer and yields at most one entry per byte it reads. */
  lemma {:induction false} ScanBounds(buf: seq<byte>, c: nat)
    requires c <= |buf|
    ensures Scan(buf, c).Ended? ==> Scan(buf, c).at <= |buf|
    ensures Scan(buf, c).Ended? ==> |Scan(buf, c).entries| <= |buf| - c
    decreases |buf| - c
  {
    match Step(buf, c)
    case Trap =>
    case Done(_) =>
    case Item(_, n) => ScanBounds(buf, n);
  }

  lemma {:induction false} BodyAppend(a: seq<Entry>, b: seq<Entry>)
    requires AllStorable(a) && AllStorable(b)
    ensures AllStorable(a + b)
    ensures Body(a + b) == Body(a) + Body(b)
  {
    assert AllStorable(a + b) by {
      forall i | 0 <= i < |a + b| ensures Storable((a + b)[i].value) {
        if i < |a| { assert (a + b)[i] == a[i]; } else { assert (a + b)[i] == b[i - |a|]; }
      }
    }
    if a == [] {
      assert a + b == b;
    } else {
      var tail := a[1..];
      assert (a + b)[0] == a[0];
      assert (a + b)[1..] == tail + b;
      assert AllStorable(tail);
      BodyAppend(tail, b);
      calc {
        Body(a + b);
        EncodeEntry(a[0]) + Body(tail + b);
        EncodeEntry(a[0]) + (Body(tail) + Body(b));
        (EncodeEntry(a[0]) + Body(tail)) + Body(b);
      }
    }
  }

  /** Appending one element and patching the prefix gives the longer document. */
  lemma AppendSerialize(es: seq<Entry>, e: Entry)
    requires AllStorable(es) && Storable(e.value)
    requires AllStorable(es + [e]) && Fits(es + [e])
    ensures Fits(es)
    ensures |Serialize(es) + EncodeEntry(e)| + 1 <= INT32_MAX
    ensures Patched(Serialize(es) + EncodeEntry(e)) == Serialize(es + [e])
  {
    BodyAppend(es, [e]);
    assert Body([e]) == EncodeEntry(e) + Body([]);
    var b := Serialize(es) + EncodeEntry(e);
    assert b[4..] == Body(es) + EncodeEntry(e);
  }

  /** Bodies of prefixes are no longer than the whole. */
  lemma FitsPrefix(es: seq<Entry>, k: nat)
    requires k <= |es| && AllStorable(es) && Fits(es)
    ensures AllStorable(es[..k]) && Fits(es[..k])
    ensures AllStorable(es[k..]) && Fits(es[k..])
  {
    assert es == es[..k] + es[k..];
    BodyAppend(es[..k], es[k..]);
  }

  lemma {:induction false} FilterBody(es: seq<Entry>, p: Entry -> bool)
    requires AllStorable(es)
    ensures AllStorable(FilterSeq(es, p))
    ensures |Body(FilterSeq(es, p))| <= |Body(es)|
  {
    if es != [] {
      FilterBody(es[1..], p);
    }
  }

  /** What `filter` produces from well-formed entries is well-formed. */
  lemma FilterWellFormed(es: seq<Entry>, p: Entry -> bool)
    requires WellFormed(es)
    ensures WellFormed(FilterSeq(es, p))
  {
    FilterBody(es, p);
    FilterUnique(es, p);
    FilterMembers(es, p);
  }

  lemma {:induction false} FilterMembers(es: seq<Entry>, p: Entry -> bool)
    ensures forall i :: 0 <= i < |FilterSeq(es, p)| ==> FilterSeq(es, p)[i] in es
  {
    if es != [] {
      FilterMembers(es[1..], p);
    }
  }

  // ---------------------------------------------------------------------
  // Decoding what was encoded

  /** A slice of a slice is a slice. */
  lemma SubSlice(buf: seq<byte>, c: nat, s: seq<byte>, i: nat, j: nat)
    requires c + |s| <= |buf| && buf[c..c + |s|] == s && i <= j <= |s|
    ensures buf[c + i..c + j] == s[i..j]
  {
    assert forall x :: i <= x < j ==> buf[c + x] == s[x];
  }

  /** `getString` finds a key written before a NUL. */
  lemma CStringOfTerminated(buf: seq<byte>, i: nat, s: seq<byte>)
    requires i + |s| < |buf| && buf[i..i + |s|] == s && NoNul(s) && buf[i + |s|] == 0
    ensures CString(buf, i) == Some(CStr(s, i + |s| + 1))
  {
    assert forall k :: i <= k < i + |s| ==> buf[k] == s[k - i];
  }

  /** A payload is read back by the reader its tag selects. */
  lemma DecodeWrittenPayload(buf: seq<byte>, p: nat, v: Value)
    requires 0 < p && Encodable(v)
    requires p + |Payload(v)| <= |buf| && buf[p..p + |Payload(v)|] == Payload(v)
    ensures DecodePayload(TypeOf(v), buf, p) == Decoded(v, p + |Payload(v)|)
  {
    var pay := Payload(v);
    match v
    case I32(i) =>
      Int32RoundTrip(i);
    case I64(l) =>
      Int64RoundTrip(l);
    case Str(s) =>
      assert buf[p..p + |s|] == pay[..|s|] == s;
      assert buf[p + |s|] == pay[|s|] == 0;
      CStringOfTerminated(buf, p, s);
    case Doc(raw) =>
      assert buf[p..p + 4] == raw[..4];
  }

  /** A step that reads a known tag, key and payload yields that entry. */
  lemma StepOf(buf: seq<byte>, c: nat, t: BsonType, key: CStr, v: Value, n: nat)
    requires c < |buf| && TypeFromRaw(buf[c]) == Some(t) && InTypeMap(t)
    requires CString(buf, c + 1) == Some(key)
    requires DecodePayload(t, buf, key.next) == Decoded(v, n)
    ensures Step(buf, c) == Item(Entry(key.bytes, v), n)
  {
  }

  /** One encoded element is read back by one step of the iterator. */
  lemma StepEntry(buf: seq<byte>, c: nat, e: Entry)
    requires 0 < c && NoNul(e.key) && Encodable(e.value)
    requires c + |EncodeEntry(e)| <= |buf| && buf[c..c + |EncodeEntry(e)|] == EncodeEntry(e)
    ensures Step(buf, c) == Item(e, c + |EncodeEntry(e)|)
  {
    ElementAt(buf, c, e);
    StepFromParts(buf, c, e);
  }

  /** The tag, the key, its NUL and the payload of an element written at `c`. */
  lemma ElementAt(buf: seq<byte>, c: nat, e: Entry)
    requires Storable(e.value)
    requires c + |EncodeEntry(e)| <= |buf| && buf[c..c + |EncodeEntry(e)|] == EncodeEntry(e)
    ensures |EncodeEntry(e)| == 2 + |e.key| + |Payload(e.value)|
    ensures buf[c] == RawValue(TypeOf(e.value))
    ensures buf[c + 1..c + 1 + |e.key|] == e.key
    ensures buf[c + 1 + |e.key|] == 0
    ensures buf[c + 2 + |e.key|..c + |EncodeEntry(e)|] == Payload(e.value)
  {
    var enc := EncodeEntry(e);
    EntryParts(e);
    SubSlice(buf, c, enc, 0, 1);
    SubSlice(buf, c, enc, 1, 1 + |e.key|);
    SubSlice(buf, c, enc, 1 + |e.key|, 2 + |e.key|);
    SubSlice(buf, c, enc, 2 + |e.key|, |enc|);
  }

  lemma StepFromParts(buf: seq<byte>, c: nat, e: Entry)
    requires 0 < c && NoNul(e.key) && Encodable(e.value)
    requires c + 2 + |e.key| + |Payload(e.value)| <= |buf|
    requires buf[c] == RawValue(TypeOf(e.value))
    requires buf[c + 1..c + 1 + |e.key|] == e.key
    requires buf[c + 1 + |e.key|] == 0
    requires buf[c + 2 + |e.key|..c + 2 + |e.key| + |Payload(e.value)|] == Payload(e.value)
    ensures Step(buf, c) == Item(e, c + 2 + |e.key| + |Payload(e.value)|)
  {
    var p := c + 2 + |e.key|;
    CStringOfTerminated(buf, c + 1, e.key);
    DecodeWrittenPayload(buf, p, e.value);
    StepOf(buf, c, TypeOf(e.value), CStr(e.key, p), e.value, p + |Payload(e.value)|);
  }

  /** Where the tag, the key, its NUL and the payload sit in an element. */
  lemma EntryParts(e: Entry)
    requires Storable(e.value)
    ensures |EncodeEntry(e)| == 2 + |e.key| + |Payload(e.value)|
    ensures EncodeEntry(e)[0..1] == [RawValue(TypeOf(e.value))]
    ensures EncodeEntry(e)[1..1 + |e.key|] == e.key
    ensures EncodeEntry(e)[1 + |e.key|..2 + |e.key|] == [0]
    ensures EncodeEntry(e)[2 + |e.key|..|EncodeEntry(e)|] == Payload(e.value)
  {
  }

  /** Scan continues after an item exactly where the item ended. */
  lemma ScanItem(buf: seq<byte>, c: nat, e: Entry, n: nat, es: seq<Entry>, at: nat)
    requires c <= |buf| && Step(buf, c) == Item(e, n) && Scan(buf, n) == Ended(es, at)
    ensures Scan(buf, c) == Ended([e] + es, at)
  {
  }

  /** Iterating an encoded body yields its entries and stops at its end. */
  lemma {:induction false} ScanBody(buf: seq<byte>, c: nat, es: seq<Entry>)
    requires 0 < c <= |buf|
    requires Readable(es) && AllStorable(es) && buf[c..] == Body(es)
    ensures Scan(buf, c) == Ended(es, |buf|)
    decreases |es|
  {
    if es == [] {
      assert |buf[c..]| == 0;
      assert Step(buf, c) == Done(c);
    } else {
      var n := c + |EncodeEntry(es[0])|;
      BodyFront(buf, c, es);
      StepEntry(buf, c, es[0]);
      ScanBody(buf, n, es[1..]);
      ScanItem(buf, c, es[0], n, es[1..], |buf|);
      assert [es[0]] + es[1..] == es;
    }
  }

  /** The first element of an encoded body, and the body of the rest after it. */
  lemma BodyFront(buf: seq<byte>, c: nat, es: seq<Entry>)
    requires es != [] && c <= |buf| && Readable(es) && AllStorable(es) && buf[c..] == Body(es)
    ensures Readable(es[1..]) && AllStorable(es[1..])
    ensures c + |EncodeEntry(es[0])| <= |buf|
    ensures buf[c..c + |EncodeEntry(es[0])|] == EncodeEntry(es[0])
    ensures buf[c + |EncodeEntry(es[0])|..] == Body(es[1..])
  {
    var enc := EncodeEntry(es[0]);
    assert Body(es) == enc + Body(es[1..]);
    assert buf[c..][..|enc|] == enc;
    assert buf[c..][|enc|..] == Body(es[1..]);
  }

  /**
   * The round trip: the bytes of a well-formed document iterate, from offset
   * 4, to exactly its entries in order and stop at the end of the bytes.
   */
  lemma ScanSerialize(es: seq<Entry>)
    requires WellFormed(es)
    ensures Scan(Serialize(es), 4) == Ended(es, |Serialize(es)|)
    ensures Canonical(Serialize(es))
  {
    ScanBody(Serialize(es), 4, es);
  }

  /** A non-empty well-formed document can be nested and read back. */
  lemma NestedDocumentEncodable(es: seq<Entry>)
    requires WellFormed(es) && es != []
    ensures Encodable(Doc(Serialize(es)))
  {
    var raw := Serialize(es);
    Int32RoundTrip(4 + |Body(es)| + 1);
    assert raw[..4] == Int32Bytes(4 + |Body(es)| + 1);
    ScanSerialize(es);
  }

  /**
   * An empty nested document is embedded as its 4 bytes with prefix 4; the
   * reader slices prefix - 1 = 3 bytes and the nested iterator cannot start
   * at offset 4, so iterating the outer document traps.
   */
  lemma EmptyNestedDocumentTraps()
    ensures !Encodable(Doc(EmptyRaw()))
    ensures Storable(Doc(EmptyRaw()))
    ensures Scan(Serialize([Entry([0x61], Doc(EmptyRaw()))]), 4) == Trapped
  {
    var e := Entry([0x61], Doc(EmptyRaw()));
    Int32RoundTrip(4);
    assert Body([e]) == EncodeEntry(e);
    var buf := Serialize([e]);
    assert |buf| == 11;
    assert buf[4] == 0x03 && buf[5] == 0x61 && buf[6] == 0;
    assert buf[7..11] == EmptyRaw();
    assert CString(buf, 5) == Some(CStr([0x61], 7)) by {
      CStringOfTerminated(buf, 5, [0x61]);
    }
    assert DecodePayload(Document, buf, 7) == DecodeTrap;
  }
}
