/**
 * The route-netlink message vocabulary the interface handle speaks: header
 * flags, message types, the link message (`Ifinfomsg`) and what one receive
 * on the socket can yield.
 */
module Netlink {
  import opened Wrappers
  import opened Bytes
  import opened Attributes

  /** Netlink header flags (`NlmF`), mirroring neli's enum; the handle sends Request, Ack, Create and Excl. */
  datatype NlmF =
    | Request | Multi | Ack | Echo | DumpIntr | DumpFiltered
    | Root | Match | Atomic | Dump
    | Replace | Excl | Create | Append

  /** Route-netlink link message types (`Rtm`); the handle sends Newlink, Dellink and Getlink. */
  datatype Rtm = Newlink | Dellink | Getlink | Setlink

  /** Interface flags (`Iff`), mirroring linux/if.h; the handle changes only Up and reads only Up. */
  datatype Iff =
    | Up | Broadcast | Debug | Loopback | PointToPoint | NoTrailers | Running
    | NoArp | Promisc | AllMulti | Master | Slave | Multicast | Portsel
    | AutoMedia | Dynamic | LowerUp | Dormant | Echo

  /** Address family of a link message (`RtAddrFamily`), a few of neli's cases; links use Unspecified. */
  datatype RtAddrFamily = Unspecified | Inet | Inet6 | Packet

  /** Hardware type of a link message (`Arphrd`), a few of neli's cases; the handle always sends Netrom as a placeholder. */
  datatype Arphrd = Netrom | Ether | Can | Loopback

  /** A link request (`Ifinfomsg`): its header fields and its attribute tree. */
  datatype Ifinfomsg = Ifinfomsg(
    family: RtAddrFamily,
    linkType: Arphrd,
    index: i32,
    flags: set<Iff>,
    change: set<Iff>,
    attrs: seq<Rtattr>)

  /** A link reply as neli parses it: its interface flags and its top-level attributes. */
  datatype LinkReply = LinkReply(flags: set<Iff>, attrs: seq<RawAttr>)

  /** A framed request (`Nlmsghdr`) as it is handed to the socket. */
  datatype Nlmsghdr = Nlmsghdr(msgType: Rtm, flags: set<NlmF>, payload: Ifinfomsg)

  /** The payload of a received message (`NlPayload`). */
  datatype NlPayload<P> = AckPayload | ErrPayload(errno: int) | Payload(p: P) | Empty

  /** `NlError`, reduced to the cases this layer produces or passes on. */
  datatype NlError =
    | NoAck            // no reply, or a reply that is not the expected kind
    | Msg(text: string) // a message raised by the handle itself
    | Kernel(errno: int) // an error record sent back by the kernel
    | Io(errno: int)     // the socket could not be opened, written or read

  /**
   * The outcome of one request/reply exchange on a fresh route socket: a
   * transport or kernel error, or the one message received, if any.  This is
   * where the socket I/O of the source enters the model as an input.
   */
  type Exchange<P> = Result<Option<NlPayload<P>>, NlError>

  /**
   * How the kernel applies a link message's flags under a non-empty change
   * mask (rtnl_dev_combine_flags in the kernel): flags inside the mask are
   * taken from the message, flags outside it keep their current state.  The
   * kernel reads an empty mask as "all flags", but it skips the flag change
   * altogether when both the mask and the flags are empty, which is the only
   * empty-mask message the handle sends; there the current flags stay, as here.
   */
  function CombineFlags(current: set<Iff>, msg: Ifinfomsg): (r: set<Iff>)
    ensures forall f :: f in msg.change ==> (f in r <==> f in msg.flags)
    ensures forall f :: f !in msg.change ==> (f in r <==> f in current)
  {
    (current - msg.change) + (msg.flags * msg.change)
  }
}
