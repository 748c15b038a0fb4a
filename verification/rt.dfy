/**
 * Constants and the CAN bit-timing record that the source declares itself
 * because libc and neli lack them (its `rt` module).
 */
module Rt {
  import opened Wrappers
  import opened Bytes

  /** `EXT_FILTER_VF`: the extended-filter bit a details query asks for. */
  const EXT_FILTER_VF: u32 := 1

  /** `IflaCan::BitTiming`, the CAN attribute type under IFLA_INFO_DATA. */
  const IFLA_CAN_BITTIMING: u16 := 1

  /** `size_of::<can_bittiming>()`: eight u32 fields, no padding. */
  const BITTIMING_SIZE: nat := 32

  /** `can_bittiming`, in its `repr(C)` field order. */
  datatype CanBitTiming = CanBitTiming(
    bitrate: u32,
    samplePoint: u32,
    tq: u32,
    propSeg: u32,
    phaseSeg1: u32,
    phaseSeg2: u32,
    sjw: u32,
    brp: u32)

  /** The record's fields in memory order. */
  function Fields(t: CanBitTiming): (ws: seq<u32>)
    ensures |ws| == 8
  {
    [t.bitrate, t.samplePoint, t.tq, t.propSeg, t.phaseSeg1, t.phaseSeg2, t.sjw, t.brp]
  }

  /** Consecutive u32 values, each in native byte order, with nothing between them. */
  function EncodeWords(e: Endian, ws: seq<u32>): (b: seq<byte>)
    ensures |b| == 4 * |ws|
  {
    if ws == [] then [] else U32ToBytes(e, ws[0]) + EncodeWords(e, ws[1..])
  }

  function DecodeWords(e: Endian, b: seq<byte>): (ws: seq<u32>)
    requires |b| % 4 == 0
    ensures 4 * |ws| == |b|
  {
    if b == [] then [] else [U32FromBytes(e, b[..4])] + DecodeWords(e, b[4..])
  }

  lemma {:induction false} DecodeEncodeWords(e: Endian, ws: seq<u32>)
    ensures DecodeWords(e, EncodeWords(e, ws)) == ws
  {
    if ws != [] {
      var b := EncodeWords(e, ws);
      assert b[..4] == U32ToBytes(e, ws[0]);
      assert b[4..] == EncodeWords(e, ws[1..]);
      U32RoundTrip(e, ws[0]);
      DecodeEncodeWords(e, ws[1..]);
    }
  }

  lemma {:induction false} EncodeDecodeWords(e: Endian, b: seq<byte>)
    requires |b| % 4 == 0
    ensures EncodeWords(e, DecodeWords(e, b)) == b
  {
    if b != [] {
      var ws := DecodeWords(e, b);
      assert ws[1..] == DecodeWords(e, b[4..]);
      U32BytesRoundTrip(e, b[..4]);
      EncodeDecodeWords(e, b[4..]);
      assert b == b[..4] + b[4..];
    }
  }

  /** The record's bytes, as `slice::from_raw_parts` exposes them. */
  function Encode(e: Endian, t: CanBitTiming): (b: seq<byte>)
    ensures |b| == BITTIMING_SIZE
  {
    EncodeWords(e, Fields(t))
  }

  /** Reads a record back from exactly 32 bytes; any other length is refused. */
  function Decode(e: Endian, b: seq<byte>): (r: Option<CanBitTiming>)
    ensures r.Some? <==> |b| == BITTIMING_SIZE
  {
    if |b| != BITTIMING_SIZE then None
    else
      var ws := DecodeWords(e, b);
      Some(CanBitTiming(ws[0], ws[1], ws[2], ws[3], ws[4], ws[5], ws[6], ws[7]))
  }

  /** Round trip: the 32 bytes of a record decode to the same record. */
  lemma DecodeEncode(e: Endian, t: CanBitTiming)
    ensures Decode(e, Encode(e, t)) == Some(t)
  {
    DecodeEncodeWords(e, Fields(t));
  }

  /** Round trip: any 32 bytes decode to a record whose encoding is those bytes. */
  lemma EncodeDecode(e: Endian, b: seq<byte>)
    requires |b| == BITTIMING_SIZE
    ensures Decode(e, b).Some? && Encode(e, Decode(e, b).value) == b
  {
    var ws := DecodeWords(e, b);
    assert Fields(Decode(e, b).value) == ws;
    EncodeDecodeWords(e, b);
  }

  /**
   * The record `set_bitrate` fills in: the bitrate, the sample point or 0 when
   * none is given, and every timing segment left at zero for the kernel to
   * compute.
   */
  function ForBitrate(bitrate: u32, samplePoint: Option<u16>): (t: CanBitTiming)
    ensures Fields(t)[2..] == [0, 0, 0, 0, 0, 0]
  {
    CanBitTiming(bitrate, samplePoint.UnwrapOr(0), 0, 0, 0, 0, 0, 0)
  }
}
