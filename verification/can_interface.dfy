/**
 * `CanInterface`: a handle on a CAN network interface, identified only by its
 * kernel interface index.  Every operation builds one link request, performs
 * one exchange with the kernel and classifies the reply.  The exchange (and
 * the OS name-to-index lookup) are inputs here; the request each operation
 * would send is returned as `sent`.
 */
module CanIface {
  import opened Wrappers
  import opened Bytes
  import opened CStrings
  import opened Attributes
  import opened Rt
  import opened MtuCodec
  import opened Netlink
  import opened LinkDetails

  /** `libc::IFNAMSIZ`. */
  const IFNAMSIZ: nat := 16

  /** The link kinds the source names: "can" and "vcan". */
  const CAN_KIND: seq<byte> := [0x63, 0x61, 0x6E]
  const VCAN_KIND: seq<byte> := [0x76, 0x63, 0x61, 0x6E]

  /** A failed OS call (`nix::Error`), as from `if_nametoindex`. */
  datatype Errno = Errno(code: int)

  /** Whether an exchange ended with an Ack record. */
  predicate IsAck<P>(rx: Exchange<P>) {
    rx.Success? && rx.value.Some? && rx.value.value.AckPayload?
  }

  /**
   * `send_and_read_ack`: success exactly when the one message received is an
   * Ack; an error is passed on; no message, or any other message, is NoAck.
   */
  function ReadAck<P>(rx: Exchange<P>): (r: Result<(), NlError>)
    ensures r.Success? <==> IsAck(rx)
    ensures rx.Failure? ==> r == Failure(rx.error)
    ensures rx.Success? && !IsAck(rx) ==> r == Failure(NoAck)
  {
    match rx
    case Failure(err) => Failure(err)
    case Success(msg) =>
      if msg.Some? && msg.value.AckPayload? then Success(()) else Failure(NoAck)
  }

  /**
   * A link message for the given index with no interface flags to change:
   * the index keeps its bit pattern, the attributes are carried as given, and
   * both the flags and the change mask are empty, so under `CombineFlags` the
   * interface flags come through unchanged.
   */
  function LinkMsg(ifIndex: u32, attrs: seq<Rtattr>): (m: Ifinfomsg)
    ensures (m.index + 0x1_0000_0000) % 0x1_0000_0000 == ifIndex
    ensures m.attrs == attrs
    ensures m.flags == {} && m.change == {}
  {
    Ifinfomsg(Unspecified, Netrom, AsCInt(ifIndex), {}, {}, attrs)
  }

  /**
   * The result mapping of `create` once the kernel has acknowledged: a given
   * index is trusted, otherwise the index comes from looking the name up
   * again, and a failed lookup is reported as a message error.
   */
  function CreatedHandle(index: Option<u32>, lookup: Result<u32, Errno>): (r: Result<CanInterface, NlError>)
    ensures index.Some? ==> r == Success(CanInterface(index.value))
    ensures index.None? ==> (r.Success? <==> lookup.Success?)
    ensures index.None? && lookup.Success? ==> r == Success(CanInterface(lookup.value))
    ensures r.Failure? ==> r.error.Msg?
  {
    match index
    case Some(i) => Success(CanInterface(i))
    case None =>
      match lookup
      case Success(i) => Success(CanInterface(i))
      case Failure(_) =>
        Failure(Msg("Interface must have been deleted between request and this if_nametoindex"))
  }

  /**
   * `send_info_msg`: frames a link message with Request and Ack plus the
   * extra flags, one at a time, and reads the acknowledgement.
   */
  method SendInfoMsg(msgType: Rtm, info: Ifinfomsg, additionalFlags: seq<NlmF>, rx: Exchange<LinkReply>)
    returns (sent: Nlmsghdr, r: Result<(), NlError>)
    ensures sent.msgType == msgType && sent.payload == info
    ensures forall f :: f in sent.flags <==> f == Request || f == Ack || f in additionalFlags
    ensures r == ReadAck(rx)
  {
    var flags := {Request, Ack};
    for i := 0 to |additionalFlags|
      invariant forall f :: f in flags <==> f == Request || f == Ack || f in additionalFlags[..i]
    {
      flags := flags + {additionalFlags[i]};
    }
    assert additionalFlags[..|additionalFlags|] == additionalFlags;
    sent := Nlmsghdr(msgType, flags, info);
    r := ReadAck(rx);
  }

  /** Copies a 4-byte MTU payload into a `[u8; 4]`, index by index. */
  method CopyMtuBytes(payload: seq<byte>) returns (bytes: seq<byte>)
    requires |payload| == 4
    ensures bytes == payload
  {
    var buf := new byte[4];
    for index := 0 to |payload|
      invariant buf[..index] == payload[..index]
    {
      buf[index] := payload[index];
    }
    bytes := buf[..];
  }

  /** Where the kind and the bit timing sit in a link-info tree built as `set_bitrate` intends. */
  lemma CanLinkInfoPaths(kind: seq<byte>, timing: seq<byte>)
    ensures
      var attrs := [Rtattr(IFLA_LINKINFO, Nested([
        Rtattr(IFLA_INFO_KIND, Raw(kind)),
        Rtattr(IFLA_INFO_DATA, Nested([Rtattr(IFLA_CAN_BITTIMING, Raw(timing))]))]))];
      && FindPath(attrs, [IFLA_LINKINFO, IFLA_INFO_KIND]) == Some(Raw(kind))
      && FindPath(attrs, [IFLA_LINKINFO, IFLA_INFO_DATA, IFLA_CAN_BITTIMING]) == Some(Raw(timing))
  {
    var leaf := [Rtattr(IFLA_CAN_BITTIMING, Raw(timing))];
    var children := [Rtattr(IFLA_INFO_KIND, Raw(kind)), Rtattr(IFLA_INFO_DATA, Nested(leaf))];
    var attrs := [Rtattr(IFLA_LINKINFO, Nested(children))];
    assert FirstOfKind(attrs, IFLA_LINKINFO) == Some(0);
    assert FirstOfKind(children, IFLA_INFO_KIND) == Some(0);
    assert FirstOfKind(children, IFLA_INFO_DATA) == Some(1);
    assert FirstOfKind(leaf, IFLA_CAN_BITTIMING) == Some(0);
    assert [IFLA_LINKINFO, IFLA_INFO_KIND][1..] == [IFLA_INFO_KIND];
    assert [IFLA_INFO_DATA, IFLA_CAN_BITTIMING][1..] == [IFLA_CAN_BITTIMING];
    assert FindPath(children, [IFLA_INFO_DATA, IFLA_CAN_BITTIMING]) == Some(Raw(timing));
    assert [IFLA_LINKINFO, IFLA_INFO_DATA, IFLA_CAN_BITTIMING][1..] == [IFLA_INFO_DATA, IFLA_CAN_BITTIMING];
  }

  datatype CanInterface = CanInterface(ifIndex: u32) {

    /** `open_iface`: no check is made; the handle simply records the index. */
    static function OpenIface(ifIndex: u32): (iface: CanInterface)
      ensures iface.ifIndex == ifIndex
    {
      CanInterface(ifIndex)
    }

    /** `open`: the handle for the index the name lookup found, or the lookup's error. */
    static function Open(lookup: Result<u32, Errno>): (r: Result<CanInterface, Errno>)
      ensures r.Success? <==> lookup.Success?
      ensures r.Success? ==> r.value.ifIndex == lookup.value
      ensures r.Failure? ==> r.error == lookup.error
    {
      match lookup
      case Success(i) => Success(OpenIface(i))
      case Failure(err) => Failure(err)
    }

    /** `bring_down`: clears the Up flag, under a change mask of just Up. */
    method BringDown(rx: Exchange<LinkReply>) returns (sent: Nlmsghdr, r: Result<(), NlError>)
      ensures sent == Nlmsghdr(Newlink, {Request, Ack}, Ifinfomsg(Unspecified, Netrom, AsCInt(ifIndex), {}, {Up}, []))
      ensures forall current :: CombineFlags(current, sent.payload) == current - {Up}
      ensures r == ReadAck(rx)
    {
      var info := Ifinfomsg(Unspecified, Netrom, AsCInt(ifIndex), {}, {Up}, []);
      sent, r := SendInfoMsg(Newlink, info, [], rx);
    }

    /** `bring_up`: sets the Up flag, under a change mask of just Up. */
    method BringUp(rx: Exchange<LinkReply>) returns (sent: Nlmsghdr, r: Result<(), NlError>)
      ensures sent == Nlmsghdr(Newlink, {Request, Ack}, Ifinfomsg(Unspecified, Netrom, AsCInt(ifIndex), {Up}, {Up}, []))
      ensures forall current :: CombineFlags(current, sent.payload) == current + {Up}
      ensures r == ReadAck(rx)
    {
      var info := Ifinfomsg(Unspecified, Netrom, AsCInt(ifIndex), {Up}, {Up}, []);
      sent, r := SendInfoMsg(Newlink, info, [], rx);
    }

    /**
     * `create`: a Newlink request with Create and Excl carrying the name and a
     * link-info attribute with the kind; on acknowledgement the handle's index
     * is chosen by CreatedHandle.
     */
    static method Create(name: seq<byte>, index: Option<u32>, kind: seq<byte>,
                         rx: Exchange<LinkReply>, lookup: Result<u32, Errno>)
      returns (sent: Nlmsghdr, r: Result<CanInterface, NlError>)
      requires |name| <= IFNAMSIZ
      ensures sent.msgType == Newlink
      ensures sent.flags == {Request, Ack, NlmF.Create, Excl}
      ensures sent.payload == LinkMsg(index.UnwrapOr(0), [
        Rtattr(IFLA_IFNAME, Raw(StrPayload(name))),
        Rtattr(IFLA_LINKINFO, Nested([Rtattr(IFLA_INFO_KIND, Raw(StrPayload(kind)))]))])
      ensures NUL !in name && ValidUtf8(name) ==>
        IfnameOf(AsRaw(sent.payload.attrs[0]).value) == Some(name)
      ensures !IsAck(rx) ==> r == Failure(ReadAck(rx).error)
      ensures IsAck(rx) ==> r == CreatedHandle(index, lookup)
    {
      var buffer := new RtBuffer();
      buffer.Push(Rtattr(IFLA_IFNAME, Raw(StrPayload(name))));
      var linkinfo := new NestingAttr(IFLA_LINKINFO);
      linkinfo.AddNestedAttribute(Rtattr(IFLA_INFO_KIND, Raw(StrPayload(kind))));
      buffer.Push(linkinfo.Snapshot());
      assert linkinfo.children == [Rtattr(IFLA_INFO_KIND, Raw(StrPayload(kind)))];
      assert buffer.attrs == [Rtattr(IFLA_IFNAME, Raw(StrPayload(name))),
        Rtattr(IFLA_LINKINFO, Nested([Rtattr(IFLA_INFO_KIND, Raw(StrPayload(kind)))]))];
      var info := Ifinfomsg(Unspecified, Netrom, AsCInt(index.UnwrapOr(0)), {}, {}, buffer.attrs);
      var ack;
      sent, ack := SendInfoMsg(Newlink, info, [NlmF.Create, Excl], rx);
      assert forall f :: f in [NlmF.Create, Excl] <==> f == NlmF.Create || f == Excl;
      if NUL !in name && ValidUtf8(name) {
        StrPayloadRoundTrip(name);
      }
      if ack.Failure? {
        r := Failure(ack.error);
        return;
      }
      r := CreatedHandle(index, lookup);
    }

    /** `create_vcan`: `create` with the kind "vcan". */
    static method CreateVcan(name: seq<byte>, index: Option<u32>,
                             rx: Exchange<LinkReply>, lookup: Result<u32, Errno>)
      returns (sent: Nlmsghdr, r: Result<CanInterface, NlError>)
      requires |name| <= IFNAMSIZ
      ensures sent.msgType == Newlink
      ensures sent.payload == LinkMsg(index.UnwrapOr(0), [
        Rtattr(IFLA_IFNAME, Raw(StrPayload(name))),
        Rtattr(IFLA_LINKINFO, Nested([Rtattr(IFLA_INFO_KIND, Raw(StrPayload(VCAN_KIND)))]))])
      ensures FindPath(sent.payload.attrs, [IFLA_LINKINFO, IFLA_INFO_KIND]) == Some(Raw(StrPayload(VCAN_KIND)))
      ensures FindPath(sent.payload.attrs, [IFLA_IFNAME]) == Some(Raw(StrPayload(name)))
      ensures sent.flags == {Request, Ack, NlmF.Create, Excl}
      ensures IsAck(rx) ==> r == CreatedHandle(index, lookup)
      ensures !IsAck(rx) ==> r == Failure(ReadAck(rx).error)
    {
      sent, r := Create(name, index, VCAN_KIND, rx, lookup);
      var linkinfo := sent.payload.attrs[1];
      assert FirstOfKind(linkinfo.payload.children, IFLA_INFO_KIND) == Some(0);
      assert FirstOfKind(sent.payload.attrs, IFLA_LINKINFO) == Some(1);
    }

    /**
     * `delete`: a Dellink request with no attributes; on failure the handle
     * comes back, unchanged, together with the error.
     */
    method Delete(rx: Exchange<LinkReply>) returns (sent: Nlmsghdr, r: Result<(), (CanInterface, NlError)>)
      ensures sent == Nlmsghdr(Dellink, {Request, Ack}, LinkMsg(ifIndex, []))
      ensures r.Success? <==> IsAck(rx)
      ensures r.Failure? ==> r.error == (this, ReadAck(rx).error)
    {
      var info := LinkMsg(ifIndex, []);
      var ack;
      sent, ack := SendInfoMsg(Dellink, info, [], rx);
      match ack
      case Success(_) => r := Success(());
      case Failure(err) => r := Failure((this, err));
    }

    /**
     * `details`: a Getlink request carrying only the extended-filter mask,
     * sent with Request alone, and the fold of the reply's attributes into a
     * fresh record.
     */
    method Details(e: Endian, rx: Exchange<LinkReply>) returns (sent: Nlmsghdr, r: Result<Details, NlError>)
      ensures sent == Nlmsghdr(Getlink, {Request},
        LinkMsg(ifIndex, [Rtattr(IFLA_EXT_MASK, Raw(U32ToBytes(e, EXT_FILTER_VF)))]))
      ensures rx.Failure? ==> r == Failure(rx.error)
      ensures rx.Success? && rx.value.None? ==> r == Failure(NoAck)
      ensures rx.Success? && rx.value.Some? ==> r.Success? && r.value.index == ifIndex
      ensures r.Success? ==>
        (r.value.isUp <==> rx.value.value.Payload? && Up in rx.value.value.p.flags)
      ensures rx.Success? && rx.value.Some? && rx.value.value.Payload? ==>
        r.value == Decoded(LinkDetails.Details(None, ifIndex, Up in rx.value.value.p.flags, None),
                           e, rx.value.value.p.attrs)
      ensures rx.Success? && rx.value.Some? && !rx.value.value.Payload? ==>
        r.value == LinkDetails.Details(None, ifIndex, false, None)
    {
      var info := LinkMsg(ifIndex, [Rtattr(IFLA_EXT_MASK, Raw(U32ToBytes(e, EXT_FILTER_VF)))]);
      sent := Nlmsghdr(Getlink, {Request}, info);
      if rx.Failure? {
        return sent, Failure(rx.error);
      }
      if rx.value.None? {
        return sent, Failure(NoAck);
      }
      var details := LinkDetails.Details(None, ifIndex, false, None);
      var msg := rx.value.value;
      if msg.Payload? {
        var payload := msg.p;
        details := details.(isUp := Up in payload.flags);
        var init := details;
        for i := 0 to |payload.attrs|
          invariant details == Decoded(init, e, payload.attrs[..i])
        {
          var attr := payload.attrs[i];
          DecodedStep(init, e, payload.attrs, i);
          if attr.kind == IFLA_IFNAME {
            var cstring := FromVecWithNul(attr.payload);
            if cstring.Some? {
              var s := IntoString(cstring.value);
              if s.Some? {
                details := details.(name := s);
              }
            }
          } else if attr.kind == IFLA_MTU {
            if |attr.payload| == 4 {
              var bytes := CopyMtuBytes(attr.payload);
              details := details.(mtu := FromValue(U32FromBytes(e, bytes)));
            }
          }
          assert details == Apply(Decoded(init, e, payload.attrs[..i]), e, attr);
        }
        assert payload.attrs[..|payload.attrs|] == payload.attrs;
      }
      r := Success(details);
    }

    /**
     * `set_mtu`: a Newlink request whose one attribute is the MTU's 4
     * native-endian bytes; read back by the details decoder it is that MTU.
     */
    method SetMtu(e: Endian, mtu: Mtu, rx: Exchange<LinkReply>) returns (sent: Nlmsghdr, r: Result<(), NlError>)
      ensures sent == Nlmsghdr(Newlink, {Request, Ack}, LinkMsg(ifIndex, [Rtattr(IFLA_MTU, Raw(MtuCodec.Encode(e, mtu)))]))
      ensures MtuOf(e, AsRaw(sent.payload.attrs[0]).value) == Some(Some(mtu))
      ensures r == ReadAck(rx)
    {
      var buffer := new RtBuffer();
      buffer.Push(Rtattr(IFLA_MTU, Raw(U32ToBytes(e, Value(mtu)))));
      var info := LinkMsg(ifIndex, buffer.attrs);
      sent, r := SendInfoMsg(Newlink, info, [], rx);
      MtuCodec.RoundTrip(e, mtu);
    }

    /**
     * `set_bitrate` as the source writes it: the Data attribute holding the
     * bit timing is built but never nested into the link-info attribute, so
     * the request carries the kind and nothing else.
     */
    method SetBitrateAsWritten(e: Endian, bitrate: u32, samplePoint: Option<u16>, rx: Exchange<LinkReply>)
      returns (sent: Nlmsghdr, r: Result<(), NlError>)
      requires 0 < bitrate <= 1_000_000
      requires samplePoint.None? || samplePoint.value < 1000
      ensures sent == Nlmsghdr(Newlink, {Request, Ack},
        LinkMsg(ifIndex, [Rtattr(IFLA_LINKINFO, Nested([Rtattr(IFLA_INFO_KIND, Raw(StrPayload(CAN_KIND)))]))]))
      ensures FindPath(sent.payload.attrs, [IFLA_LINKINFO, IFLA_INFO_DATA]) == None
      ensures FindPath(sent.payload.attrs, [IFLA_LINKINFO, IFLA_INFO_DATA, IFLA_CAN_BITTIMING]) == None
      ensures r == ReadAck(rx)
    {
      var buffer := new RtBuffer();
      var linkInfo := new NestingAttr(IFLA_LINKINFO);
      linkInfo.AddNestedAttribute(Rtattr(IFLA_INFO_KIND, Raw(StrPayload(CAN_KIND))));
      var data := new NestingAttr(IFLA_INFO_DATA);
      var timing := ForBitrate(bitrate, samplePoint);
      data.AddNestedAttribute(Rtattr(IFLA_CAN_BITTIMING, Raw(Rt.Encode(e, timing))));
      assert linkInfo.children == [Rtattr(IFLA_INFO_KIND, Raw(StrPayload(CAN_KIND)))];
      buffer.Push(linkInfo.Snapshot());
      assert buffer.attrs == [Rtattr(IFLA_LINKINFO, Nested([Rtattr(IFLA_INFO_KIND, Raw(StrPayload(CAN_KIND)))]))];
      var info := LinkMsg(ifIndex, buffer.attrs);
      sent, r := SendInfoMsg(Newlink, info, [], rx);
      assert FirstOfKind(sent.payload.attrs, IFLA_LINKINFO) == Some(0);
      assert FirstOfKind(sent.payload.attrs[0].payload.children, IFLA_INFO_DATA) == None;
    }

    /**
     * `set_bitrate` with the Data attribute nested into the link-info
     * attribute after the kind: the request carries the kind "can" and a
     * 32-byte bit-timing record that decodes to the given bitrate, the given
     * sample point (or 0) and zero in every other field.
     */
    method SetBitrate(e: Endian, bitrate: u32, samplePoint: Option<u16>, rx: Exchange<LinkReply>)
      returns (sent: Nlmsghdr, r: Result<(), NlError>)
      requires 0 < bitrate <= 1_000_000
      requires samplePoint.None? || samplePoint.value < 1000
      ensures sent == Nlmsghdr(Newlink, {Request, Ack},
        LinkMsg(ifIndex, [Rtattr(IFLA_LINKINFO, Nested([
          Rtattr(IFLA_INFO_KIND, Raw(StrPayload(CAN_KIND))),
          Rtattr(IFLA_INFO_DATA, Nested([
            Rtattr(IFLA_CAN_BITTIMING, Raw(Rt.Encode(e, ForBitrate(bitrate, samplePoint))))]))]))]))
      ensures FindPath(sent.payload.attrs, [IFLA_LINKINFO, IFLA_INFO_KIND]) == Some(Raw(StrPayload(CAN_KIND)))
      ensures
        var timing := FindPath(sent.payload.attrs, [IFLA_LINKINFO, IFLA_INFO_DATA, IFLA_CAN_BITTIMING]);
        && timing.Some? && timing.value.Raw?
        && |timing.value.bytes| == BITTIMING_SIZE
        && Rt.Decode(e, timing.value.bytes)
             == Some(CanBitTiming(bitrate, samplePoint.UnwrapOr(0), 0, 0, 0, 0, 0, 0))
      ensures r == ReadAck(rx)
    {
      var buffer := new RtBuffer();
      var linkInfo := new NestingAttr(IFLA_LINKINFO);
      linkInfo.AddNestedAttribute(Rtattr(IFLA_INFO_KIND, Raw(StrPayload(CAN_KIND))));
      var data := new NestingAttr(IFLA_INFO_DATA);
      var timing := ForBitrate(bitrate, samplePoint);
      data.AddNestedAttribute(Rtattr(IFLA_CAN_BITTIMING, Raw(Rt.Encode(e, timing))));
      assert data.children == [Rtattr(IFLA_CAN_BITTIMING, Raw(Rt.Encode(e, timing)))];
      linkInfo.AddNestedAttribute(data.Snapshot());
      assert linkInfo.children == [
        Rtattr(IFLA_INFO_KIND, Raw(StrPayload(CAN_KIND))),
        Rtattr(IFLA_INFO_DATA, Nested([Rtattr(IFLA_CAN_BITTIMING, Raw(Rt.Encode(e, timing)))]))];
      buffer.Push(linkInfo.Snapshot());
      assert buffer.attrs == [linkInfo.Snapshot()];
      var info := LinkMsg(ifIndex, buffer.attrs);
      sent, r := SendInfoMsg(Newlink, info, [], rx);
      CanLinkInfoPaths(StrPayload(CAN_KIND), Rt.Encode(e, timing));
      DecodeEncode(e, timing);
    }
  }
}
