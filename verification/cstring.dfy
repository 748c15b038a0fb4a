/**
 * The two standard-library conversions the details decoder applies to an
 * interface-name payload: `CString::from_vec_with_nul` and
 * `CString::into_string`.  UTF-8 well-formedness is the one Rust's
 * `String::from_utf8` enforces: the byte sequences of Table 3-7 of the Unicode
 * Standard (no overlong forms, no surrogates, nothing above U+10FFFF).
 */
module CStrings {
  import opened Wrappers
  import opened Bytes

  const NUL: byte := 0

  predicate IsContinuation(b: byte) {
    0x80 <= b <= 0xBF
  }

  /** s is a concatenation of well-formed UTF-8 encoded scalar values. */
  predicate ValidUtf8(s: seq<byte>)
    decreases |s|
  {
    if s == [] then true
    else if s[0] <= 0x7F then ValidUtf8(s[1..])
    else if 0xC2 <= s[0] <= 0xDF then
      |s| >= 2 && IsContinuation(s[1]) && ValidUtf8(s[2..])
    else if s[0] == 0xE0 then
      |s| >= 3 && 0xA0 <= s[1] <= 0xBF && IsContinuation(s[2]) && ValidUtf8(s[3..])
    else if 0xE1 <= s[0] <= 0xEC || 0xEE <= s[0] <= 0xEF then
      |s| >= 3 && IsContinuation(s[1]) && IsContinuation(s[2]) && ValidUtf8(s[3..])
    else if s[0] == 0xED then
      |s| >= 3 && 0x80 <= s[1] <= 0x9F && IsContinuation(s[2]) && ValidUtf8(s[3..])
    else if s[0] == 0xF0 then
      |s| >= 4 && 0x90 <= s[1] <= 0xBF && IsContinuation(s[2]) && IsContinuation(s[3])
      && ValidUtf8(s[4..])
    else if 0xF1 <= s[0] <= 0xF3 then
      |s| >= 4 && IsContinuation(s[1]) && IsContinuation(s[2]) && IsContinuation(s[3])
      && ValidUtf8(s[4..])
    else if s[0] == 0xF4 then
      |s| >= 4 && 0x80 <= s[1] <= 0x8F && IsContinuation(s[2]) && IsContinuation(s[3])
      && ValidUtf8(s[4..])
    else false
  }

  /** Every ASCII byte string is valid UTF-8. */
  lemma {:induction false} AsciiIsUtf8(s: seq<byte>)
    requires forall i :: 0 <= i < |s| ==> s[i] < 0x80
    ensures ValidUtf8(s)
  {
    if s != [] {
      AsciiIsUtf8(s[1..]);
    }
  }

  /** The index of the first NUL in v, if there is one. */
  function FirstNul(v: seq<byte>): (r: Option<nat>)
    ensures r.Some? ==> r.value < |v| && v[r.value] == NUL && NUL !in v[..r.value]
    ensures r.None? <==> NUL !in v
  {
    if v == [] then None
    else if v[0] == NUL then Some(0)
    else
      match FirstNul(v[1..])
      case None => None
      case Some(i) =>
        assert v[..i + 1] == [v[0]] + v[1..][..i];
        Some(i + 1)
  }

  /**
   * `CString::from_vec_with_nul`: accepted exactly when v's one NUL is its last
   * byte; the C string then holds the bytes before it.
   */
  function FromVecWithNul(v: seq<byte>): (r: Option<seq<byte>>)
    ensures r.Some? <==> |v| > 0 && v[|v| - 1] == NUL && NUL !in v[..|v| - 1]
    ensures r.Some? ==> r.value + [NUL] == v
  {
    match FirstNul(v)
    case Some(i) =>
      if i == |v| - 1 then Some(v[..i]) else None
    case None => None
  }

  /** `CString::into_string`: accepted exactly when the bytes are valid UTF-8. */
  function IntoString(c: seq<byte>): (r: Option<seq<byte>>)
    ensures r.Some? <==> ValidUtf8(c)
    ensures r.Some? ==> r.value == c
  {
    if ValidUtf8(c) then Some(c) else None
  }

  /** How neli writes a `&str` attribute payload: its bytes and a terminating NUL. */
  function StrPayload(s: seq<byte>): (p: seq<byte>)
    ensures |p| == |s| + 1 && p[|s|] == NUL && p[..|s|] == s
  {
    s + [NUL]
  }

  /** The payload written for a NUL-free, valid UTF-8 string is read back as that string. */
  lemma StrPayloadRoundTrip(s: seq<byte>)
    requires NUL !in s && ValidUtf8(s)
    ensures FromVecWithNul(StrPayload(s)) == Some(s)
    ensures IntoString(s) == Some(s)
  {
  }
}
