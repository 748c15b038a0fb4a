/**
 * The CAN MTU allow-list: the two values a CAN link may carry (classic frames
 * and CAN FD frames), their 4-byte native-endian encoding, and decoding that
 * maps every other value to "unrecognised" rather than passing it through.
 */
module MtuCodec {
  import opened Wrappers
  import opened Bytes

  /** `Mtu`, a closed enum with `Standard = 16` and `Fd = 72`. */
  datatype Mtu = Standard | Fd

  /** `mtu as u32`: the enum's discriminant. */
  function Value(m: Mtu): (v: u32)
    ensures v == 16 || v == 72
  {
    match m
    case Standard => 16
    case Fd => 72
  }

  /** The match on a decoded u32: only the two discriminants are recognised. */
  function FromValue(v: u32): (r: Option<Mtu>)
    ensures r == Some(Standard) <==> v == 16
    ensures r == Some(Fd) <==> v == 72
    ensures r == None <==> v != 16 && v != 72
  {
    if v == 16 then Some(Standard)
    else if v == 72 then Some(Fd)
    else None
  }

  /** The payload of an IFLA_MTU request attribute: `u32::to_ne_bytes(mtu as u32)`. */
  function Encode(e: Endian, m: Mtu): (b: seq<byte>)
    ensures |b| == 4
  {
    U32ToBytes(e, Value(m))
  }

  /**
   * What an IFLA_MTU reply payload does to the decoded MTU field: None when
   * its length is not 4 (the field is left alone), otherwise Some of the new
   * field value, which is itself None for a value off the allow-list.
   */
  function DecodePayload(e: Endian, p: seq<byte>): (r: Option<Option<Mtu>>)
    ensures r.Some? <==> |p| == 4
  {
    if |p| == 4 then Some(FromValue(U32FromBytes(e, p))) else None
  }

  /** Round trip: the 4 bytes written for an MTU decode to that MTU. */
  lemma RoundTrip(e: Endian, m: Mtu)
    ensures DecodePayload(e, Encode(e, m)) == Some(Some(m))
  {
    U32RoundTrip(e, Value(m));
  }

  /**
   * A 4-byte payload is recognised exactly when it is the encoding of an MTU,
   * and then as that MTU.
   */
  lemma DecodeOnlyEncodings(e: Endian, p: seq<byte>, m: Mtu)
    requires |p| == 4
    ensures DecodePayload(e, p) == Some(Some(m)) <==> p == Encode(e, m)
  {
    U32BytesRoundTrip(e, p);
    U32RoundTrip(e, Value(m));
  }
}
