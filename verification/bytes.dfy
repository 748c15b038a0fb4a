/**
 * Machine integers and their byte encodings.
 *
 * Rust's `u32::to_ne_bytes` / `u32::from_ne_bytes` write and read the host's
 * native byte order; the model takes that order as a parameter.  Little-endian
 * is defined by recursion on the byte count, big-endian as its reversal.
 */
module Bytes {

  type byte = x: int | 0 <= x < 0x100
  type u16 = x: int | 0 <= x < 0x1_0000
  type u32 = x: int | 0 <= x < 0x1_0000_0000
  type i32 = x: int | -0x8000_0000 <= x < 0x8000_0000

  /** The host's native byte order. */
  datatype Endian = Little | Big

  function Pow256(n: nat): (p: nat)
    ensures p > 0
  {
    if n == 0 then 1 else 256 * Pow256(n - 1)
  }

  /** The n least significant bytes of v, least significant first. */
  function LeBytes(v: nat, n: nat): (b: seq<byte>)
    ensures |b| == n
  {
    if n == 0 then [] else [v % 256] + LeBytes(v / 256, n - 1)
  }

  /** The number whose little-endian bytes are b. */
  function LeValue(b: seq<byte>): nat
  {
    if b == [] then 0 else b[0] + 256 * LeValue(b[1..])
  }

  lemma {:induction false} LeValueBound(b: seq<byte>)
    ensures LeValue(b) < Pow256(|b|)
  {
    if b != [] {
      LeValueBound(b[1..]);
    }
  }

  /** Reading back the n bytes written for a value that fits in n bytes gives the value. */
  lemma {:induction false} LeValueOfLeBytes(v: nat, n: nat)
    requires v < Pow256(n)
    ensures LeValue(LeBytes(v, n)) == v
  {
    if n > 0 {
      assert v / 256 < Pow256(n - 1);
      LeValueOfLeBytes(v / 256, n - 1);
      assert LeBytes(v, n)[1..] == LeBytes(v / 256, n - 1);
    }
  }

  /** Writing back the value read from b gives b. */
  lemma {:induction false} LeBytesOfLeValue(b: seq<byte>)
    ensures LeBytes(LeValue(b), |b|) == b
  {
    if b != [] {
      LeBytesOfLeValue(b[1..]);
      var v := LeValue(b);
      assert v % 256 == b[0] && v / 256 == LeValue(b[1..]);
    }
  }

  function Reverse<T>(s: seq<T>): (r: seq<T>)
    ensures |r| == |s|
    ensures forall i :: 0 <= i < |s| ==> r[i] == s[|s| - 1 - i]
  {
    if s == [] then [] else Reverse(s[1..]) + [s[0]]
  }

  lemma ReverseReverse<T>(s: seq<T>)
    ensures Reverse(Reverse(s)) == s
  {
  }

  /** `u32::to_ne_bytes`. */
  function U32ToBytes(e: Endian, v: u32): (b: seq<byte>)
    ensures |b| == 4
  {
    match e
    case Little => LeBytes(v, 4)
    case Big => Reverse(LeBytes(v, 4))
  }

  /**
   * `u32::from_ne_bytes` on a `[u8; 4]`: the least significant byte of the
   * value is the first byte on a little-endian host and the last on a
   * big-endian one.
   */
  function U32FromBytes(e: Endian, b: seq<byte>): (v: u32)
    requires |b| == 4
    ensures v % 256 == (match e case Little => b[0] case Big => b[3])
  {
    var w := match e
      case Little => b
      case Big => Reverse(b);
    LeValueBound(w);
    LeValue(w)
  }

  /** Round trip: the four bytes of a u32 read back as the same u32. */
  lemma U32RoundTrip(e: Endian, v: u32)
    ensures U32FromBytes(e, U32ToBytes(e, v)) == v
  {
    LeValueOfLeBytes(v, 4);
    ReverseReverse(LeBytes(v, 4));
  }

  /** Round trip: any four bytes, read as a u32 and written again, are unchanged. */
  lemma U32BytesRoundTrip(e: Endian, b: seq<byte>)
    requires |b| == 4
    ensures U32ToBytes(e, U32FromBytes(e, b)) == b
  {
    match e
    case Little =>
      LeBytesOfLeValue(b);
    case Big =>
      LeBytesOfLeValue(Reverse(b));
      ReverseReverse(b);
  }

  /** Distinct u32 values have distinct encodings. */
  lemma U32ToBytesInjective(e: Endian, v: u32, w: u32)
    requires U32ToBytes(e, v) == U32ToBytes(e, w)
    ensures v == w
  {
    U32RoundTrip(e, v);
    U32RoundTrip(e, w);
  }

  /**
   * `x as c_int` for a `u32` x: the bit pattern is kept, so values of 2^31
   * and above become negative.
   */
  function AsCInt(v: u32): (r: i32)
    ensures (r + 0x1_0000_0000) % 0x1_0000_0000 == v
    ensures r >= 0 <==> v < 0x8000_0000
  {
    if v < 0x8000_0000 then v else v - 0x1_0000_0000
  }
}
