/**
 * Unsigned integers stored little-endian in a byte sequence, the byte order
 * every field of an event record uses.
 */
module Bytes {

  /** One byte of a sample. */
  newtype byte = x: int | 0 <= x < 256

  /** 256^n: one more than the largest value an n-byte unsigned field holds. */
  function Pow256(n: nat): (r: nat)
    ensures r >= 1
  {
    if n == 0 then 1 else 256 * Pow256(n - 1)
  }

  /** The value of `b` read least significant byte first. */
  function LeValue(b: seq<byte>): (v: nat)
    ensures v < Pow256(|b|)
  {
    if |b| == 0 then 0 else b[0] as nat + 256 * LeValue(b[1..])
  }

  /** 2^32: one more than the largest uint32. */
  const U32Modulus: nat := 0x1_0000_0000

  /** A four-byte field holds exactly the uint32 values. */
  lemma Pow256FourIsU32()
    ensures Pow256(4) == U32Modulus
  {
  }

  /** `v` written as `n` little-endian bytes. */
  function LeEncode(v: nat, n: nat): (b: seq<byte>)
    requires v < Pow256(n)
    ensures |b| == n
  {
    if n == 0 then [] else [(v % 256) as byte] + LeEncode(v / 256, n - 1)
  }

  /** Reading back an encoded value gives the value. */
  lemma {:induction false} LeValueOfEncode(v: nat, n: nat)
    requires v < Pow256(n)
    ensures LeValue(LeEncode(v, n)) == v
  {
    if n > 0 {
      LeValueOfEncode(v / 256, n - 1);
      var b := LeEncode(v, n);
      assert b[1..] == LeEncode(v / 256, n - 1);
      assert b[0] as nat == v % 256;
      assert v == v % 256 + 256 * (v / 256);
    }
  }

  /** Encoding the value of a byte sequence at its own width gives the bytes back. */
  lemma {:induction false} LeEncodeOfValue(b: seq<byte>)
    ensures LeEncode(LeValue(b), |b|) == b
  {
    if |b| > 0 {
      LeEncodeOfValue(b[1..]);
      var v := LeValue(b);
      var low := b[0] as nat;
      assert v == low + 256 * LeValue(b[1..]);
      assert v % 256 == low && v / 256 == LeValue(b[1..]);
      assert (low as byte) == b[0];
    }
  }
}
