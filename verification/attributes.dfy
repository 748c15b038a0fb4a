/**
 * Route-netlink attributes, as the link requests and replies carry them.
 *
 * A request attribute is a tree: a type code with either raw payload bytes or
 * an ordered list of nested attributes.  A reply attribute is what neli hands
 * back for each top-level `rtattr` of a link reply: a type code and its raw
 * payload.  The byte-level TLV framing is not part of this model.
 */
module Attributes {
  import opened Wrappers
  import opened Bytes

  // Link attribute types (IFLA_*), from linux/if_link.h.
  const IFLA_IFNAME: u16 := 3
  const IFLA_MTU: u16 := 4
  const IFLA_LINKINFO: u16 := 18
  const IFLA_EXT_MASK: u16 := 29

  // Link-info attribute types (IFLA_INFO_*), nested inside IFLA_LINKINFO.
  const IFLA_INFO_KIND: u16 := 1
  const IFLA_INFO_DATA: u16 := 2

  datatype AttrPayload = Raw(bytes: seq<byte>) | Nested(children: seq<Rtattr>)

  datatype Rtattr = Rtattr(kind: u16, payload: AttrPayload)

  /** A reply attribute: its type code and raw payload bytes. */
  datatype RawAttr = RawAttr(kind: u16, payload: seq<byte>)

  /** The index of the first attribute of the given type. */
  function FirstOfKind(attrs: seq<Rtattr>, kind: u16): (r: Option<nat>)
    ensures r.Some? ==> r.value < |attrs| && attrs[r.value].kind == kind
    ensures r.Some? ==> forall j :: 0 <= j < r.value ==> attrs[j].kind != kind
    ensures r.None? ==> forall j :: 0 <= j < |attrs| ==> attrs[j].kind != kind
  {
    if attrs == [] then None
    else if attrs[0].kind == kind then Some(0)
    else
      match FirstOfKind(attrs[1..], kind)
      case None => None
      case Some(i) => Some(i + 1)
  }

  /**
   * The payload found by following a path of type codes from the top level
   * down through nested attributes, taking the first attribute of each type.
   */
  function FindPath(attrs: seq<Rtattr>, path: seq<u16>): Option<AttrPayload>
    decreases |path|
  {
    if path == [] then None
    else
      match FirstOfKind(attrs, path[0])
      case None => None
      case Some(i) =>
        if |path| == 1 then Some(attrs[i].payload)
        else if attrs[i].payload.Nested? then FindPath(attrs[i].payload.children, path[1..])
        else None
  }

  /** A request attribute sent as raw bytes reads back, on the reply side, as the same bytes. */
  function AsRaw(a: Rtattr): (r: Option<RawAttr>)
    ensures r.Some? <==> a.payload.Raw?
    ensures r.Some? ==> r.value.kind == a.kind && r.value.payload == a.payload.bytes
  {
    match a.payload
    case Raw(b) => Some(RawAttr(a.kind, b))
    case Nested(_) => None
  }

  /** neli's `RtBuffer`: the growable list of top-level attributes of a link message. */
  class RtBuffer {
    var attrs: seq<Rtattr>

    constructor ()
      ensures attrs == []
    {
      attrs := [];
    }

    method Push(a: Rtattr)
      modifies this
      ensures attrs == old(attrs) + [a]
    {
      attrs := attrs + [a];
    }
  }

  /**
   * An attribute created with an empty payload and then grown with
   * `add_nested_attribute`, one child at a time.
   */
  class NestingAttr {
    const kind: u16
    var children: seq<Rtattr>

    constructor (kind: u16)
      ensures this.kind == kind && children == []
    {
      this.kind := kind;
      children := [];
    }

    method AddNestedAttribute(child: Rtattr)
      modifies this
      ensures children == old(children) + [child]
    {
      children := children + [child];
    }

    /** The attribute as it stands now (Rust copies it when it is pushed or nested). */
    function Snapshot(): Rtattr
      reads this
    {
      Rtattr(kind, Nested(children))
    }
  }
}
