/**
 * Byte-level building blocks shared by the whole model: bytes, the fixed-width
 * integer ranges the codec stores, and the big-endian two's-complement layout
 * that NIO's ByteBuffer uses by default for writeInteger/readInteger/setInteger.
 */
module Bytes {

  type byte = b: int | 0 <= b < 0x100

  const INT32_MAX: int := 0x7FFF_FFFF

  /** Swift's Int32. */
  type int32 = x: int | -0x8000_0000 <= x <= 0x7FFF_FFFF

  /** Swift's Int64. */
  type int64 = x: int | -0x8000_0000_0000_0000 <= x <= 0x7FFF_FFFF_FFFF_FFFF

  /** Swift's optional: `nil` is None. */
  datatype Option<T> = None | Some(value: T)

  /** True when no byte of `s` is the NUL terminator. */
  predicate NoNul(s: seq<byte>)
  {
    forall i :: 0 <= i < |s| ==> s[i] != 0
  }

  function Pow256(n: nat): (p: nat)
    ensures p >= 1
  {
    if n == 0 then 1 else 0x100 * Pow256(n - 1)
  }

  lemma Pow256Widths()
    ensures Pow256(4) == 0x1_0000_0000
    ensures Pow256(8) == 0x1_0000_0000_0000_0000
  {
    assert Pow256(1) == 0x100;
    assert Pow256(2) == 0x1_0000;
    assert Pow256(3) == 0x100_0000;
    assert Pow256(4) == 0x1_0000_0000;
    assert Pow256(5) == 0x100_0000_0000;
    assert Pow256(6) == 0x1_0000_0000_0000;
    assert Pow256(7) == 0x100_0000_0000_0000;
  }

  /** The `n` bytes of the unsigned number `u`, most significant first. */
  function BigEndian(u: nat, n: nat): (r: seq<byte>)
    requires u < Pow256(n)
    ensures |r| == n
  {
    if n == 0 then [] else BigEndian(u / 0x100, n - 1) + [u % 0x100]
  }

  /** The unsigned number whose big-endian bytes are `s`. */
  function FromBigEndian(s: seq<byte>): (u: nat)
    ensures u < Pow256(|s|)
  {
    if s == [] then 0
    else
      var high := FromBigEndian(s[..|s| - 1]);
      assert high * 0x100 + s[|s| - 1] <= (Pow256(|s| - 1) - 1) * 0x100 + 0xFF;
      high * 0x100 + s[|s| - 1]
  }

  lemma {:induction false} FromBigEndianOfBigEndian(u: nat, n: nat)
    requires u < Pow256(n)
    ensures FromBigEndian(BigEndian(u, n)) == u
  {
    if n > 0 {
      var r := BigEndian(u, n);
      assert r[..n - 1] == BigEndian(u / 0x100, n - 1);
      FromBigEndianOfBigEndian(u / 0x100, n - 1);
    }
  }

  /** The 4 bytes NIO writes for an Int32: big-endian two's complement. */
  function Int32Bytes(x: int32): (r: seq<byte>)
    ensures |r| == 4
  {
    Pow256Widths();
    BigEndian(if x < 0 then x + 0x1_0000_0000 else x, 4)
  }

  /** The 8 bytes NIO writes for an Int64: big-endian two's complement. */
  function Int64Bytes(x: int64): (r: seq<byte>)
    ensures |r| == 8
  {
    Pow256Widths();
    BigEndian(if x < 0 then x + 0x1_0000_0000_0000_0000 else x, 8)
  }

  /** The Int32 NIO reads back from 4 bytes. */
  function ReadInt32(s: seq<byte>): int32
    requires |s| == 4
  {
    Pow256Widths();
    var u := FromBigEndian(s);
    if u >= 0x8000_0000 then u - 0x1_0000_0000 else u
  }

  /** The Int64 NIO reads back from 8 bytes. */
  function ReadInt64(s: seq<byte>): int64
    requires |s| == 8
  {
    Pow256Widths();
    var u := FromBigEndian(s);
    if u >= 0x8000_0000_0000_0000 then u - 0x1_0000_0000_0000_0000 else u
  }

  lemma Int32RoundTrip(x: int32)
    ensures ReadInt32(Int32Bytes(x)) == x
  {
    Pow256Widths();
    FromBigEndianOfBigEndian(if x < 0 then x + 0x1_0000_0000 else x, 4);
  }

  lemma Int64RoundTrip(x: int64)
    ensures ReadInt64(Int64Bytes(x)) == x
  {
    Pow256Widths();
    FromBigEndianOfBigEndian(if x < 0 then x + 0x1_0000_0000_0000_0000 else x, 8);
  }
}
