/**
 * The value variant of the library (the `BSON` enum) and the wire type tags
 * (`BSONType`): four payload cases, their narrowing accessors, the case-to-tag
 * mapping and the integer/string literal initialisers.
 */
module Bson {
  import opened Bytes

  /** The cases `BSONType` declares; every other raw byte has no case. */
  datatype BsonType = Double | String | Document | Bool | Int32 | Int64

  /** The raw tag byte of each declared type. */
  function RawValue(t: BsonType): (b: byte)
    ensures TypeFromRaw(b) == Some(t)
  {
    match t
    case Double => 0x01
    case String => 0x02
    case Document => 0x03
    case Bool => 0x08
    case Int32 => 0x10
    case Int64 => 0x12
  }

  /** `BSONType(rawValue:)`: None for a byte no case declares. */
  function TypeFromRaw(b: byte): (t: Option<BsonType>)
    ensures t.Some? ==> b in {0x01, 0x02, 0x03, 0x08, 0x10, 0x12}
    ensures t.None? <==> b !in {0x01, 0x02, 0x03, 0x08, 0x10, 0x12}
  {
    if b == 0x01 then Some(Double)
    else if b == 0x02 then Some(String)
    else if b == 0x03 then Some(Document)
    else if b == 0x08 then Some(Bool)
    else if b == 0x10 then Some(Int32)
    else if b == 0x12 then Some(Int64)
    else None
  }

  /**
   * The types that have a reader in the iterator's `typeMap`: every declared
   * type except Double and Bool.
   */
  predicate InTypeMap(t: BsonType): (b: bool)
    ensures b <==> t != Double && t != Bool
  {
    t == Int32 || t == Int64 || t == String || t == Document
  }

  /**
   * A BSON value. Strings are their UTF-8 bytes; a nested document is the
   * bytes [0, writerIndex) of its buffer, which is what a document is
   * compared by and what the encoder embeds.
   */
  datatype Value = Str(s: seq<byte>) | I32(i: int32) | I64(l: int64) | Doc(raw: seq<byte>)

  /** A key/value pair as the iterator yields it (`KeyValuePair`). */
  datatype Entry = Entry(key: seq<byte>, value: Value)

  function StringValue(v: Value): (r: Option<seq<byte>>)
    ensures r.Some? <==> v.Str?
    ensures r.Some? ==> r.value == v.s
  {
    if v.Str? then Some(v.s) else None
  }

  function Int32Value(v: Value): (r: Option<int32>)
    ensures r.Some? <==> v.I32?
    ensures r.Some? ==> r.value == v.i
  {
    if v.I32? then Some(v.i) else None
  }

  function Int64Value(v: Value): (r: Option<int64>)
    ensures r.Some? <==> v.I64?
    ensures r.Some? ==> r.value == v.l
  {
    if v.I64? then Some(v.l) else None
  }

  function DocumentValue(v: Value): (r: Option<seq<byte>>)
    ensures r.Some? <==> v.Doc?
    ensures r.Some? ==> r.value == v.raw
  {
    if v.Doc? then Some(v.raw) else None
  }

  /** `bsonType`, through the case's `bsonValue`. */
  function TypeOf(v: Value): (t: BsonType)
    ensures InTypeMap(t)
    ensures v.Str? <==> RawValue(t) == 0x02
    ensures v.Doc? <==> RawValue(t) == 0x03
    ensures v.I32? <==> RawValue(t) == 0x10
    ensures v.I64? <==> RawValue(t) == 0x12
  {
    match v
    case Str(_) => String
    case Doc(_) => Document
    case I32(_) => Int32
    case I64(_) => Int64
  }

  /** The typeMap holds a reader for exactly the types a value can have. */
  lemma TypeMapCoversValues(t: BsonType)
    ensures InTypeMap(t) <==> exists v :: TypeOf(v) == t
  {
    if InTypeMap(t) {
      var v := match t
        case Int32 => I32(0)
        case Int64 => I64(0)
        case String => Str([])
        case _ => Doc([]);
      assert TypeOf(v) == t;
    }
  }

  /** The numeric payload of an integer value. */
  function IntegerOf(v: Value): int
    requires v.I32? || v.I64?
  {
    if v.I32? then v.i else v.l
  }

  predicate FitsNativeInt(x: int, nativeSize: nat)
  {
    (nativeSize == 4 && -0x8000_0000 <= x <= 0x7FFF_FFFF)
    || (nativeSize == 8 && -0x8000_0000_0000_0000 <= x <= 0x7FFF_FFFF_FFFF_FFFF)
  }

  /**
   * `BSON.init(_ int: Int)`: an `.int32` where the native Int is 4 bytes wide,
   * an `.int64` otherwise. `nativeSize` stands for `MemoryLayout<Int>.size`.
   */
  function FromInt(x: int, nativeSize: nat): (v: Value)
    requires FitsNativeInt(x, nativeSize)
    ensures v.I32? <==> nativeSize == 4
    ensures v.I64? <==> nativeSize == 8
    ensures IntegerOf(v) == x
  {
    if nativeSize == 4 then I32(x) else I64(x)
  }

  /** `init(integerLiteral:)` delegates to `init(_:)`. */
  function IntegerLiteral(x: int, nativeSize: nat): (v: Value)
    requires FitsNativeInt(x, nativeSize)
    ensures v.I32? <==> nativeSize == 4
    ensures v.I64? <==> nativeSize == 8
    ensures IntegerOf(v) == x
  {
    FromInt(x, nativeSize)
  }

  /** On a 64-bit platform an integer literal reads back through `int64Value`. */
  lemma IntegerLiteralOn64Bit(x: int64)
    ensures Int64Value(IntegerLiteral(x, 8)) == Some(x)
    ensures Int32Value(IntegerLiteral(x, 8)) == None
  {
  }

  /** `init(stringLiteral:)`. */
  function StringLiteral(s: seq<byte>): (v: Value)
    ensures StringValue(v) == Some(s)
  {
    Str(s)
  }
}
