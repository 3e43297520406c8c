/** Fixed-width little-endian byte layout and 64-bit two's complement,
    the two encodings the WMB wire record is built from. */
module LittleEndian {

  /** One octet of the wire format. */
  type Byte = b: int | 0 <= b < 256

  const TwoTo63: int := 0x8000_0000_0000_0000
  const TwoTo64: int := 0x1_0000_0000_0000_0000

  /** A signed 64-bit integer, the range of Go's int64. */
  type Int64 = x: int | -0x8000_0000_0000_0000 <= x < 0x8000_0000_0000_0000

  function Pow256(n: nat): (r: nat)
    ensures r >= 1
  {
    if n == 0 then 1 else 256 * Pow256(n - 1)
  }

  /** The n-byte little-endian representation of u: least significant byte first. */
  function ToBytes(u: nat, n: nat): (r: seq<Byte>)
    ensures |r| == n
  {
    if n == 0 then [] else [u % 256] + ToBytes(u / 256, n - 1)
  }

  /** The unsigned value of a little-endian byte string; it always fits in |s| bytes. */
  function FromBytes(s: seq<Byte>): (u: nat)
    ensures u < Pow256(|s|)
  {
    if s == [] then 0 else s[0] + 256 * FromBytes(s[1..])
  }

  /** Reading back what ToBytes wrote gives the original value, provided it fits. */
  lemma {:induction false} FromToBytes(u: nat, n: nat)
    requires u < Pow256(n)
    ensures FromBytes(ToBytes(u, n)) == u
  {
    if n > 0 {
      var rest := ToBytes(u / 256, n - 1);
      assert ToBytes(u, n)[1..] == rest;
      FromToBytes(u / 256, n - 1);
    }
  }

  /** Every byte string is the representation of its own value: no two byte strings
      of one width denote the same number. */
  lemma {:induction false} ToFromBytes(s: seq<Byte>)
    ensures ToBytes(FromBytes(s), |s|) == s
  {
    if s != [] {
      var u := FromBytes(s);
      assert u % 256 == s[0] && u / 256 == FromBytes(s[1..]);
      ToFromBytes(s[1..]);
    }
  }

  lemma EightBytesHold64Bits()
    ensures Pow256(8) == TwoTo64
  {
  }

  /** Two's complement: the bit pattern, read as an unsigned number, of a signed
      64-bit value. The sign bit (bit 63) is set exactly for negative values. */
  function ToUnsigned(x: Int64): (u: nat)
    ensures u < TwoTo64
    ensures u < TwoTo63 <==> x >= 0
    ensures u % TwoTo64 == x % TwoTo64
  {
    if x < 0 then x + TwoTo64 else x
  }

  /** The signed 64-bit value whose two's complement bit pattern is u. */
  function ToSigned(u: nat): (x: Int64)
    requires u < TwoTo64
    ensures ToUnsigned(x) == u
  {
    if u < TwoTo63 then u else u - TwoTo64
  }

  lemma SignedOfUnsigned(x: Int64)
    ensures ToSigned(ToUnsigned(x)) == x
  {
  }

  /** The 8-byte little-endian two's complement form of x, as Go's
      binary.Write(buf, binary.LittleEndian, x) writes an int64. */
  function EncodeInt64(x: Int64): (r: seq<Byte>)
    ensures |r| == 8
  {
    ToBytes(ToUnsigned(x), 8)
  }

  /** Reading back the 8 bytes written for x gives x. */
  lemma DecodeOfEncodeInt64(x: Int64)
    ensures DecodeInt64(EncodeInt64(x)) == x
  {
    EightBytesHold64Bits();
    FromToBytes(ToUnsigned(x), 8);
    SignedOfUnsigned(x);
  }

  /** The int64 that 8 little-endian two's complement bytes denote. The sign bit is
      the top bit of the last byte, the most significant one. */
  function DecodeInt64(s: seq<Byte>): (x: Int64)
    requires |s| == 8
    ensures x < 0 <==> s[7] >= 128
  {
    EightBytesHold64Bits();
    FromBytesAppend(s[..7], s[7]);
    assert s == s[..7] + [s[7]];
    assert Pow256(7) == 0x100_0000_0000_0000;
    ToSigned(FromBytes(s))
  }

  /** Appending a byte adds it at the next higher place value. */
  lemma {:induction false} FromBytesAppend(s: seq<Byte>, b: Byte)
    ensures FromBytes(s + [b]) == FromBytes(s) + Pow256(|s|) * b
  {
    if s == [] {
      assert ([] + [b])[1..] == [];
    } else {
      assert (s + [b])[1..] == s[1..] + [b];
      FromBytesAppend(s[1..], b);
      assert Pow256(|s|) * b == 256 * (Pow256(|s| - 1) * b);
    }
  }

  /** Decoding is injective: the 8 bytes are exactly the encoding of what they decode to. */
  lemma EncodeOfDecodeInt64(s: seq<Byte>)
    requires |s| == 8
    ensures EncodeInt64(DecodeInt64(s)) == s
  {
    EightBytesHold64Bits();
    ToFromBytes(s);
  }
}
