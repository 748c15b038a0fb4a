/**
 * The `Details` record and the fold that `details()` performs over the
 * attributes of a link reply, stated as functions so that its properties
 * (last decodable occurrence wins, unknown types are ignored, a field that
 * fails to decode is left alone) can be proved once.
 */
module LinkDetails {
  import opened Wrappers
  import opened Bytes
  import opened CStrings
  import opened Attributes
  import opened MtuCodec

  /** `Details`; the name is kept as the UTF-8 bytes of the Rust `String`. */
  datatype Details = Details(name: Option<seq<byte>>, index: u32, isUp: bool, mtu: Option<Mtu>)

  /**
   * The name an attribute contributes: only an IFLA_IFNAME payload whose one
   * NUL is its last byte and whose bytes before it are valid UTF-8.
   */
  function IfnameOf(a: RawAttr): (r: Option<seq<byte>>)
    ensures r.Some? <==>
      a.kind == IFLA_IFNAME && |a.payload| > 0 && a.payload[|a.payload| - 1] == NUL
      && NUL !in a.payload[..|a.payload| - 1] && ValidUtf8(a.payload[..|a.payload| - 1])
    ensures r.Some? ==> r.value + [NUL] == a.payload
  {
    if a.kind != IFLA_IFNAME then None
    else
      match FromVecWithNul(a.payload)
      case None => None
      case Some(c) => IntoString(c)
  }

  /**
   * What an attribute does to the MTU field: only an IFLA_MTU payload of
   * exactly 4 bytes sets it, to the allow-listed value or to None.
   */
  function MtuOf(e: Endian, a: RawAttr): (r: Option<Option<Mtu>>)
    ensures r.Some? <==> a.kind == IFLA_MTU && |a.payload| == 4
    ensures r.Some? ==> r.value == FromValue(U32FromBytes(e, a.payload))
  {
    if a.kind == IFLA_MTU then DecodePayload(e, a.payload) else None
  }

  /**
   * One step of the fold: a decodable name replaces the name and a 4-byte
   * MTU payload replaces the MTU.  Only an IFLA_IFNAME attribute can touch the
   * name and only an IFLA_MTU attribute the MTU; any other attribute leaves
   * the record as it was.
   */
  function Apply(d: Details, e: Endian, a: RawAttr): (r: Details)
    ensures r.index == d.index && r.isUp == d.isUp
    ensures a.kind != IFLA_IFNAME ==> r.name == d.name
    ensures a.kind != IFLA_MTU ==> r.mtu == d.mtu
  {
    var name := if IfnameOf(a).Some? then IfnameOf(a) else d.name;
    var mtu := if MtuOf(e, a).Some? then MtuOf(e, a).value else d.mtu;
    d.(name := name, mtu := mtu)
  }

  /** The record after folding the attributes, in order, into `init`. */
  function Decoded(init: Details, e: Endian, attrs: seq<RawAttr>): (d: Details)
    ensures d.index == init.index && d.isUp == init.isUp
    decreases |attrs|
  {
    if attrs == [] then init
    else Apply(Decoded(init, e, attrs[..|attrs| - 1]), e, attrs[|attrs| - 1])
  }

  /** Folding one more attribute applies it to the fold of the prefix. */
  lemma DecodedStep(init: Details, e: Endian, attrs: seq<RawAttr>, i: nat)
    requires i < |attrs|
    ensures Decoded(init, e, attrs[..i + 1]) == Apply(Decoded(init, e, attrs[..i]), e, attrs[i])
  {
    assert attrs[..i + 1][..i] == attrs[..i];
  }

  /** Folding a concatenation folds the second part into the result of the first. */
  lemma {:induction false} DecodedAppend(init: Details, e: Endian, a: seq<RawAttr>, b: seq<RawAttr>)
    ensures Decoded(init, e, a + b) == Decoded(Decoded(init, e, a), e, b)
    decreases |b|
  {
    if b == [] {
      assert a + b == a;
    } else {
      var ab, front, last := a + b, b[..|b| - 1], b[|b| - 1];
      assert ab[..|ab| - 1] == a + front;
      assert ab[|ab| - 1] == last;
      DecodedAppend(init, e, a, front);
    }
  }

  /** When several IFLA_IFNAME attributes decode, the last of them gives the name. */
  lemma {:induction false} NameFromLastIfname(init: Details, e: Endian, attrs: seq<RawAttr>, k: nat)
    requires k < |attrs| && IfnameOf(attrs[k]).Some?
    requires forall j :: k < j < |attrs| ==> IfnameOf(attrs[j]).None?
    ensures Decoded(init, e, attrs).name == IfnameOf(attrs[k])
    decreases |attrs|
  {
    if k < |attrs| - 1 {
      NameFromLastIfname(init, e, attrs[..|attrs| - 1], k);
    }
  }

  /** When no attribute decodes as a name, the name is the initial one. */
  lemma {:induction false} NameKeptWithoutIfname(init: Details, e: Endian, attrs: seq<RawAttr>)
    requires forall j :: 0 <= j < |attrs| ==> IfnameOf(attrs[j]).None?
    ensures Decoded(init, e, attrs).name == init.name
    decreases |attrs|
  {
    if attrs != [] {
      NameKeptWithoutIfname(init, e, attrs[..|attrs| - 1]);
    }
  }

  /** The last 4-byte IFLA_MTU attribute decides the MTU field, allow-listed or None. */
  lemma {:induction false} MtuFromLastMtu(init: Details, e: Endian, attrs: seq<RawAttr>, k: nat)
    requires k < |attrs| && MtuOf(e, attrs[k]).Some?
    requires forall j :: k < j < |attrs| ==> MtuOf(e, attrs[j]).None?
    ensures Decoded(init, e, attrs).mtu == MtuOf(e, attrs[k]).value
    decreases |attrs|
  {
    if k < |attrs| - 1 {
      MtuFromLastMtu(init, e, attrs[..|attrs| - 1], k);
    }
  }

  /** Without a 4-byte IFLA_MTU attribute the MTU field is the initial one. */
  lemma {:induction false} MtuKeptWithoutMtu(init: Details, e: Endian, attrs: seq<RawAttr>)
    requires forall j :: 0 <= j < |attrs| ==> MtuOf(e, attrs[j]).None?
    ensures Decoded(init, e, attrs).mtu == init.mtu
    decreases |attrs|
  {
    if attrs != [] {
      MtuKeptWithoutMtu(init, e, attrs[..|attrs| - 1]);
    }
  }

  predicate Inspected(a: RawAttr) {
    a.kind == IFLA_IFNAME || a.kind == IFLA_MTU
  }

  /** The attributes of the two inspected types, in their original order. */
  function InspectedOnly(attrs: seq<RawAttr>): (r: seq<RawAttr>)
    ensures forall j :: 0 <= j < |r| ==> Inspected(r[j])
    ensures forall j :: 0 <= j < |attrs| && Inspected(attrs[j]) ==> attrs[j] in r
    ensures forall a :: a in r ==> a in attrs
    ensures |r| <= |attrs|
    decreases |attrs|
  {
    if attrs == [] then []
    else
      var last := attrs[|attrs| - 1];
      InspectedOnly(attrs[..|attrs| - 1]) + (if Inspected(last) then [last] else [])
  }

  /** Attributes other than IFLA_IFNAME and IFLA_MTU have no effect on the record. */
  lemma {:induction false} OtherKindsIgnored(init: Details, e: Endian, attrs: seq<RawAttr>)
    ensures Decoded(init, e, attrs) == Decoded(init, e, InspectedOnly(attrs))
    decreases |attrs|
  {
    if attrs != [] {
      var front, last := attrs[..|attrs| - 1], attrs[|attrs| - 1];
      OtherKindsIgnored(init, e, front);
      if Inspected(last) {
        var r := InspectedOnly(attrs);
        assert r[..|r| - 1] == InspectedOnly(front);
      } else {
        assert InspectedOnly(attrs) == InspectedOnly(front) + [];
        assert InspectedOnly(front) + [] == InspectedOnly(front);
        assert IfnameOf(last).None? && MtuOf(e, last).None?;
      }
    }
  }

  /**
   * An MTU attribute carrying the encoding of m, with no 4-byte MTU attribute
   * after it, makes the decoded MTU m.
   */
  lemma MtuReadBack(init: Details, e: Endian, before: seq<RawAttr>, m: Mtu, after: seq<RawAttr>)
    requires forall j :: 0 <= j < |after| ==> MtuOf(e, after[j]).None?
    ensures Decoded(init, e, before + [RawAttr(IFLA_MTU, MtuCodec.Encode(e, m))] + after).mtu == Some(m)
  {
    var attrs := before + [RawAttr(IFLA_MTU, MtuCodec.Encode(e, m))] + after;
    RoundTrip(e, m);
    assert forall j :: |before| < j < |attrs| ==> attrs[j] == after[j - |before| - 1];
    MtuFromLastMtu(init, e, attrs, |before|);
  }

  /**
   * A name attribute written as neli writes a `&str` (bytes and NUL), for a
   * NUL-free valid UTF-8 name and with no decodable name after it, makes the
   * decoded name that name.
   */
  lemma NameReadBack(init: Details, e: Endian, before: seq<RawAttr>, name: seq<byte>, after: seq<RawAttr>)
    requires NUL !in name && ValidUtf8(name)
    requires forall j :: 0 <= j < |after| ==> IfnameOf(after[j]).None?
    ensures Decoded(init, e, before + [RawAttr(IFLA_IFNAME, StrPayload(name))] + after).name == Some(name)
  {
    var attrs := before + [RawAttr(IFLA_IFNAME, StrPayload(name))] + after;
    StrPayloadRoundTrip(name);
    assert forall j :: |before| < j < |attrs| ==> attrs[j] == after[j - |before| - 1];
    NameFromLastIfname(init, e, attrs, |before|);
  }
}
