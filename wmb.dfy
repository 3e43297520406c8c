/** The watermark marker (WMB) value and its fixed 17-byte wire record
    [Idle:1][Offset:8][Watermark:8], every field little-endian. */
module Wmb {
  import opened LittleEndian

  /** A watermark marker, reported per partition: the offset reached, the
      watermark (event time in epoch milliseconds) and whether the partition is idle. */
  datatype WMB = WMB(idle: bool, offset: Int64, watermark: Int64)

  /** Width of the encoded record: one byte of Idle, eight of Offset, eight of Watermark. */
  const RecordSize: nat := 17

  datatype DecodeError = ShortRecord(length: nat)

  datatype Result<T> = Success(value: T) | Failure(error: DecodeError)

  /** A bool on the wire: 1 for true, 0 for false. */
  function BoolByte(b: bool): (r: Byte)
    ensures (r != 0) == b
  {
    if b then 1 else 0
  }

  /** EncodeToBytes: the fields in declaration order, Idle, Offset, Watermark.
      Encoding has no failure mode. */
  function EncodeToBytes(w: WMB): (r: seq<Byte>)
    ensures |r| == RecordSize
    ensures r[0] != 0 <==> w.idle
  {
    [BoolByte(w.idle)] + EncodeInt64(w.offset) + EncodeInt64(w.watermark)
  }

  /** DecodeToWMB: reads the first 17 bytes as [Idle:1][Offset:8][Watermark:8] and
      ignores whatever follows; a shorter input is an error, never a partial WMB.
      Any nonzero idle byte reads as true. */
  function DecodeToWMB(b: seq<Byte>): (r: Result<WMB>)
    ensures r.Failure? <==> |b| < RecordSize
    ensures r.Failure? ==> r.error == ShortRecord(|b|)
    ensures r.Success? ==> (r.value.idle <==> b[0] != 0)
  {
    if |b| < RecordSize then Failure(ShortRecord(|b|))
    else Success(WMB(b[0] != 0, DecodeInt64(b[1..9]), DecodeInt64(b[9..17])))
  }

  /** Byte 0 is the idle flag, bytes 1-8 the offset, bytes 9-16 the watermark. */
  lemma EncodeLayout(w: WMB)
    ensures EncodeToBytes(w)[0] == BoolByte(w.idle)
    ensures EncodeToBytes(w)[1..9] == EncodeInt64(w.offset)
    ensures EncodeToBytes(w)[9..17] == EncodeInt64(w.watermark)
  {
  }

  /** Decoding the encoding of any WMB gives it back, all three fields preserved. */
  lemma RoundTrip(w: WMB)
    ensures DecodeToWMB(EncodeToBytes(w)) == Success(w)
  {
    EncodeLayout(w);
    DecodeOfEncodeInt64(w.offset);
    DecodeOfEncodeInt64(w.watermark);
  }

  /** Trailing bytes after the first 17 are ignored: decode depends only on the prefix. */
  lemma DecodeIgnoresTrailing(b: seq<Byte>, trailing: seq<Byte>)
    requires |b| >= RecordSize
    ensures DecodeToWMB(b + trailing) == DecodeToWMB(b)
  {
    assert (b + trailing)[1..9] == b[1..9];
    assert (b + trailing)[9..17] == b[9..17];
  }

  /** Forward compatibility: a record followed by any extra fields still decodes to itself. */
  lemma RoundTripWithTrailing(w: WMB, trailing: seq<Byte>)
    ensures DecodeToWMB(EncodeToBytes(w) + trailing) == Success(w)
  {
    DecodeIgnoresTrailing(EncodeToBytes(w), trailing);
    RoundTrip(w);
  }

  /** The other direction: re-encoding what was decoded reproduces the first 17 bytes,
      except that a nonzero idle byte other than 1 comes back as 1. */
  lemma EncodeOfDecode(b: seq<Byte>)
    requires |b| >= RecordSize
    ensures DecodeToWMB(b).Success?
    ensures EncodeToBytes(DecodeToWMB(b).value)[1..] == b[1..RecordSize]
    ensures EncodeToBytes(DecodeToWMB(b).value)[0] == (if b[0] == 0 then 0 else 1)
  {
    var w := DecodeToWMB(b).value;
    EncodeLayout(w);
    EncodeOfDecodeInt64(b[1..9]);
    EncodeOfDecodeInt64(b[9..17]);
    assert b[1..RecordSize] == b[1..9] + b[9..17];
    assert EncodeToBytes(w)[1..] == EncodeToBytes(w)[1..9] + EncodeToBytes(w)[9..17];
  }

  /** Hence a 17-byte record whose idle byte is 0 or 1 is exactly the encoding of what it decodes to. */
  lemma CanonicalRecord(b: seq<Byte>)
    requires |b| == RecordSize && (b[0] == 0 || b[0] == 1)
    ensures DecodeToWMB(b).Success? && EncodeToBytes(DecodeToWMB(b).value) == b
  {
    EncodeOfDecode(b);
    var e := EncodeToBytes(DecodeToWMB(b).value);
    assert e == [e[0]] + e[1..];
    assert b == [b[0]] + b[1..];
  }

  /** The literal test vector: {Idle:false, Offset:100, Watermark:1667495100000}. */
  lemma EncodeExample()
    ensures EncodeToBytes(WMB(false, 100, 1667495100000))
         == [0, 100, 0, 0, 0, 0, 0, 0, 0, 96, 254, 115, 62, 132, 1, 0, 0]
  {
    ExampleOffset();
    ExampleWatermark();
    assert EncodeToBytes(WMB(false, 100, 1667495100000))
        == [0] + ToBytes(100, 8) + ToBytes(1667495100000, 8);
  }

  lemma ExampleOffset()
    ensures ToBytes(100, 8) == [100, 0, 0, 0, 0, 0, 0, 0]
  {
  }

  lemma ExampleWatermark()
    ensures ToBytes(1667495100000, 8) == [96, 254, 115, 62, 132, 1, 0, 0]
  {
  }

  /** A single int64 (8 bytes) or two int64 fields (16 bytes) are too short to decode. */
  lemma ShortStructsRejected()
    ensures DecodeToWMB(EncodeInt64(100)).Failure?
    ensures DecodeToWMB(EncodeInt64(100) + EncodeInt64(1667495100000)).Failure?
  {
  }

  /** The 17-byte blob of a struct {bool true, int64 0, int64 0} decodes to an idle WMB at 0. */
  lemma ThreeFieldStructDecodes()
    ensures DecodeToWMB([1, 0, 0, 0, 0, 0, 0, 0, 0, 0, 0, 0, 0, 0, 0, 0, 0])
         == Success(WMB(true, 0, 0))
  {
    assert ToBytes(0, 8) == [0, 0, 0, 0, 0, 0, 0, 0];
    assert EncodeToBytes(WMB(true, 0, 0)) == [1, 0, 0, 0, 0, 0, 0, 0, 0, 0, 0, 0, 0, 0, 0, 0, 0];
    RoundTrip(WMB(true, 0, 0));
  }

  /** The 25-byte blob of a struct {false, 100, 1667495100000, 20} decodes to its first
      three fields; the fourth is ignored. */
  lemma FourFieldStructDecodes()
    ensures DecodeToWMB([0, 100, 0, 0, 0, 0, 0, 0, 0, 96, 254, 115, 62, 132, 1, 0, 0,
                         20, 0, 0, 0, 0, 0, 0, 0])
         == Success(WMB(false, 100, 1667495100000))
  {
    var record: seq<Byte> := [0, 100, 0, 0, 0, 0, 0, 0, 0, 96, 254, 115, 62, 132, 1, 0, 0];
    var trailing: seq<Byte> := [20, 0, 0, 0, 0, 0, 0, 0];
    EncodeExample();
    RoundTripWithTrailing(WMB(false, 100, 1667495100000), trailing);
    assert record + trailing == [0, 100, 0, 0, 0, 0, 0, 0, 0, 96, 254, 115, 62, 132, 1, 0, 0,
                                 20, 0, 0, 0, 0, 0, 0, 0];
  }
}
