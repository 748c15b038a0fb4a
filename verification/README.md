# socketcan-rs netlink core, modelled in Dafny

This project models the deterministic core of `src/nl.rs` from socketcan-rs.
That module manages Linux CAN network interfaces over route netlink. A
`CanInterface` handle holds only a kernel interface index. Each operation
builds one link request, exchanges it with the kernel, and classifies the
reply. The operations are: open, create, delete, bring up, bring down, set
MTU, set bitrate and query details.

The model covers:

- **MTU allow-list** (`mtu.dfy`, module `MtuCodec`). `Mtu` is a closed enum
  with `Standard = 16` and `Fd = 72`. It is written as 4 native-endian bytes.
  Decoding recognises only those two values.
- **Details decoder** (`details.dfy`, module `LinkDetails`). This is the fold
  that `details()` runs over the attributes of a link reply. It is stated as
  functions, with lemmas:
  - the last decodable occurrence of an attribute wins;
  - a field with no decodable attribute keeps its initial value;
  - attribute types other than IFLA_IFNAME and IFLA_MTU have no effect.
- **Name decoding** (`cstring.dfy`, module `CStrings`). `CString::from_vec_with_nul`
  and `into_string` are modelled. UTF-8 validity is defined concretely, as the
  well-formed byte sequences of Table 3-7 of the Unicode Standard. These are the
  sequences Rust's `String::from_utf8` accepts.
- **Bit-timing record** (`rt.dfy`, module `Rt`). `can_bittiming` has eight u32
  fields. It is encoded as 32 native-endian bytes, and its decoder is proved to
  be the inverse of that encoding in both directions. The record that
  `set_bitrate` fills in is also defined here.
- **Byte codec** (`bytes.dfy`, module `Bytes`). `u32::to_ne_bytes` and
  `from_ne_bytes` are modelled with the byte order as a parameter. The module
  also models the `u32 as c_int` cast, which is two's-complement
  reinterpretation.
- **Requests and replies** (`attributes.dfy`, `netlink.dfy`):
  - Request attributes are abstract trees: a type code with raw bytes or with
    nested children.
  - Reply attributes are a type code with raw bytes.
  - The model also has the header flags, the link message and what one
    receive can yield.
  - The source's step-by-step `RtBuffer::push` and `add_nested_attribute`
    calls are mirrored by two small classes, `RtBuffer` and `NestingAttr`.
- **The handle** (`can_interface.dfy`, module `CanIface`). There is one method
  per operation of `CanInterface`. Each returns the request it sends (`sent`)
  and its result.
  - The socket exchange enters as an input value, `Exchange<P>`. It is either
    a transport or kernel error, or the one message received, if any.
  - The `if_nametoindex` lookup enters as an input `Result`.
  - `send_info_msg` keeps its flag loop.
  - `details()` keeps its attribute loop and the index loop that copies the
    MTU bytes.

Numeric attribute codes are those of linux/if_link.h: IFLA_IFNAME 3,
IFLA_MTU 4, IFLA_LINKINFO 18, IFLA_EXT_MASK 29, IFLA_INFO_KIND 1 and
IFLA_INFO_DATA 2. IFLA_CAN_BITTIMING = 1 comes from `IflaCan` in the source.
A `&str` attribute payload is modelled the way neli writes it: the string's
bytes followed by one NUL.

Two behaviours of the code are easy to misread:

- An IFLA_MTU payload of exactly 4 bytes always replaces the MTU field. If its
  value is not 16 or 72, the field becomes `None`, even when an earlier
  attribute had set it. Only a payload whose length is not 4 leaves the field
  as it was (src/nl.rs:377-393).
- The request that `set_bitrate` actually builds does not carry the bit timing
  (see Findings).

## Model

| member | source | states |
|---|---|---|
| `Bytes.U32RoundTrip` | src/nl.rs:416-420 | the 4 native-endian bytes of any u32 read back, with `from_ne_bytes`, as the same u32 |
| `Bytes.U32ToBytes` | src/nl.rs:419 | `u32::to_ne_bytes` gives exactly 4 bytes, and `U32RoundTrip` makes them read back as the value |
| `Bytes.U32FromBytes` | src/nl.rs:388 | `u32::from_ne_bytes`: the value's least significant byte is the first byte on a little-endian host and the last on a big-endian one; `U32BytesRoundTrip` makes it the inverse of writing |
| `Bytes.U32BytesRoundTrip` | src/nl.rs:378-388 | any 4 bytes read as a u32 and written again are unchanged, so reading is the exact inverse of writing |
| `Bytes.U32ToBytesInjective` | src/nl.rs:416-420 | distinct u32 values never share an encoding |
| `Bytes.LeValueOfLeBytes` | src/nl.rs:388 | little-endian writing then reading of any value that fits returns the value (the core of the round trip) |
| `Bytes.LeBytesOfLeValue` | src/nl.rs:388 | little-endian reading then writing returns the original bytes |
| `Bytes.AsCInt` | src/nl.rs:281 | `u32 as c_int` keeps the value modulo 2^32 and is negative exactly for values of 2^31 and above |
| `CStrings.FirstNul` | src/nl.rs:369 | finds the first NUL byte, with no NUL before it, or reports that there is none |
| `CStrings.FromVecWithNul` | src/nl.rs:368-369 | accepted exactly when the payload is non-empty, its last byte is NUL and no other byte is; the C string is the bytes before that NUL |
| `CStrings.IntoString` | src/nl.rs:371 | accepted exactly when the bytes are well-formed UTF-8, and then unchanged |
| `CStrings.AsciiIsUtf8` | src/nl.rs:543-548 | every ASCII name, like the test's "info", is valid UTF-8 |
| `CStrings.StrPayloadRoundTrip` | src/nl.rs:286 | a NUL-free valid UTF-8 name written as an attribute payload is read back by the name decoder as the same name |
| `Rt.Encode` | src/nl.rs:461-465 | the record's bytes are exactly `size_of::<can_bittiming>()` = 32 |
| `Rt.Decode` | src/nl.rs:110-122 | a record is read back from exactly 32 bytes and from no other length |
| `Rt.DecodeEncodeWords` | src/nl.rs:110-122 | a run of u32 fields written back to back reads back field by field |
| `Rt.EncodeDecodeWords` | src/nl.rs:110-122 | bytes read as u32 fields and written again are unchanged |
| `Rt.DecodeEncode` | src/nl.rs:461-465 | round trip: the 32 bytes of any bit-timing record decode to that record |
| `Rt.EncodeDecode` | src/nl.rs:461-465 | any 32 bytes decode to a record whose encoding is those same bytes |
| `Rt.ForBitrate` | src/nl.rs:451-460 | the six timing fields after bitrate and sample point are all zero |
| `MtuCodec.Value` | src/nl.rs:68-73 | the discriminant of an MTU is 16 or 72 |
| `MtuCodec.FromValue` | src/nl.rs:385-392 | a value is `Some(Standard)` iff it is 16, `Some(Fd)` iff it is 72, and `None` for every other value, never a raw number |
| `MtuCodec.Encode` | src/nl.rs:416-420 | an MTU is written as exactly 4 bytes |
| `MtuCodec.DecodePayload` | src/nl.rs:377-393 | an MTU payload changes the field exactly when it is 4 bytes long |
| `MtuCodec.RoundTrip` | src/nl.rs:416-420 | the 4 bytes written for any MTU decode to that MTU |
| `MtuCodec.DecodeOnlyEncodings` | src/nl.rs:377-392 | a 4-byte payload decodes to a given MTU exactly when it is that MTU's encoding |
| `Netlink.CombineFlags` | src/nl.rs:244-265 | under a non-empty change mask, masked interface flags take the message's value and all others keep their state |
| `Attributes.RtBuffer.Push` | src/nl.rs:286-289 | `buffer.push` appends the attribute after the ones already pushed, keeping their order |
| `Attributes.NestingAttr.AddNestedAttribute` | src/nl.rs:288 | `add_nested_attribute` appends the child after the existing children; the kind stays |
| `LinkDetails.IfnameOf` | src/nl.rs:367-375 | an attribute gives a name iff it is IFLA_IFNAME, ends in its only NUL, and the bytes before it are valid UTF-8; the name is those bytes |
| `LinkDetails.MtuOf` | src/nl.rs:376-393 | an attribute affects the MTU iff it is IFLA_MTU with exactly 4 bytes, and then sets it to the allow-listed value of those bytes |
| `LinkDetails.Apply` | src/nl.rs:366-396 | one pass of the loop body: only an IFLA_IFNAME attribute can change the name, only an IFLA_MTU attribute the MTU, so any other attribute (the `_ => ()` arm) changes nothing; index and up state never change. What a name or MTU attribute sets is stated by `IfnameOf`, `MtuOf` and the fold lemmas |
| `LinkDetails.Decoded` | src/nl.rs:355-397 | the attribute fold never changes the record's index or up state |
| `LinkDetails.DecodedAppend` | src/nl.rs:365 | folding a concatenation is folding the second part into the result of the first |
| `LinkDetails.NameFromLastIfname` | src/nl.rs:365-375 | when several name attributes decode, the last decodable one gives the name |
| `LinkDetails.NameKeptWithoutIfname` | src/nl.rs:367-375 | when no attribute decodes as a name, the name stays as it was |
| `LinkDetails.MtuFromLastMtu` | src/nl.rs:376-393 | the last 4-byte IFLA_MTU attribute decides the MTU, allow-listed or `None` |
| `LinkDetails.MtuKeptWithoutMtu` | src/nl.rs:376-377 | without a 4-byte IFLA_MTU attribute the MTU stays as it was |
| `LinkDetails.InspectedOnly` | src/nl.rs:395 | keeps only attributes of the two inspected types |
| `LinkDetails.OtherKindsIgnored` | src/nl.rs:395 | removing every attribute that is neither IFLA_IFNAME nor IFLA_MTU leaves the decoded record unchanged |
| `LinkDetails.MtuReadBack` | src/nl.rs:554-561 | an attribute carrying the bytes `set_mtu` writes for m, with no 4-byte MTU attribute after it, decodes to MTU m |
| `LinkDetails.NameReadBack` | src/nl.rs:543-546 | a name attribute written as `create` writes it, for a NUL-free valid UTF-8 name, with no decodable name after it, decodes to that name |
| `CanIface.ReadAck` | src/nl.rs:209-226 | success iff the one received message is an Ack; errors pass through; no message or any other message is `NoAck` |
| `CanIface.CreatedHandle` | src/nl.rs:295-307 | a given index is used as is; otherwise the lookup's index is used, or, if the lookup fails, a `Msg` error |
| `CanIface.LinkMsg` | src/nl.rs:278-283 | `Ifinfomsg::new(Unspecified, Netrom, idx as c_int, empty, empty, attrs)`: the index keeps its bit pattern modulo 2^32, the attributes are carried as given, and flags and change mask are both empty, so by `CombineFlags` every interface flag stays as it was |
| `CanIface.SendInfoMsg` | src/nl.rs:185-205 | the header carries exactly Request, Ack and the extra flags, with the given type and message; the result is the Ack classification |
| `CanIface.CopyMtuBytes` | src/nl.rs:378-383 | the 4-byte array holds exactly the payload's bytes |
| `CanIface.CanInterface.OpenIface` | src/nl.rs:178-182 | no check: any index gives a handle with that index |
| `CanIface.CanInterface.Open` | src/nl.rs:169-172 | a handle iff the name lookup succeeds, with the index it found; otherwise the lookup's error |
| `CanIface.CanInterface.BringDown` | src/nl.rs:244-252 | Newlink with Request and Ack, no attributes, the Up bit under the change mask; applied to any state it clears Up and nothing else |
| `CanIface.CanInterface.BringUp` | src/nl.rs:257-265 | Newlink with Request and Ack, no attributes, Up under the mask; applied to any state it sets Up and nothing else |
| `CanIface.CanInterface.Create` | src/nl.rs:275-308 | requires a name of at most IFNAMSIZ bytes; the request is `[Ifname(name), Linkinfo[Kind(kind)]]` with Request, Ack, Create and Excl; its name reads back through the details decoder; a failed exchange is the error; otherwise the handle comes from `CreatedHandle` |
| `CanIface.CanInterface.CreateVcan` | src/nl.rs:269-271 | `create` with kind "vcan": Newlink with Request, Ack, Create and Excl, index `unwrap_or(0) as c_int`, exactly `[Ifname(name), Linkinfo[Kind("vcan")]]`, the kind and name found at their attribute paths, and the same result |
| `CanIface.CanInterface.Delete` | src/nl.rs:311-324 | Dellink with Request and Ack and no attributes; success iff Ack; on failure the error comes back with the same, unchanged handle |
| `CanIface.CanInterface.Details` | src/nl.rs:327-404 | Getlink with Request only and `[ExtMask(EXT_FILTER_VF)]`; an exchange error is passed on; no reply is `NoAck`; the index is always the handle's; `is_up` holds only when the reply payload parsed and has Up; the other fields are the attribute fold |
| `CanIface.CanInterface.SetMtu` | src/nl.rs:407-425 | Newlink with Request and Ack and `[Mtu(4 native-endian bytes)]`, which the details decoder reads back as the same MTU; the result is the Ack classification |
| `CanIface.CanInterface.SetBitrateAsWritten` | src/nl.rs:428-472 | the code as written: the request holds `Linkinfo[Kind("can")]` only, with no Data and no bit-timing attribute |
| `CanIface.CanInterface.SetBitrate` | src/nl.rs:428-472 | requires 0 < bitrate <= 1000000 and a sample point below 1000; the request is `Linkinfo[Kind("can"), Data[BitTiming]]`; the 32-byte bit timing decodes to the bitrate, the sample point (or 0) and zero in the other six fields |

## Left out

- Socket I/O is not modelled: `open_route_socket`, `getpid`, `connect`, `send` and `recv` (src/nl.rs:231-239). The outcome of one exchange is an input value. Because of this, the model does not tell a failed socket open from a failed send or receive; all three are an `Err`.
- The TLV byte encoding done inside neli is not modelled. That covers `Rtattr::new` serialisation, 4-byte alignment, rewriting the nested length, header sequence and port fields, and the parsing of reply framing into attributes. Serialisation failures of `Rtattr::new` (the `?` on each attribute) are therefore absent. Requests are abstract trees and replies arrive already split into attributes.
- neli's `Ifinfomsg::up`/`down` is not visible. BringUp and BringDown use the intended flag and mask pair instead: Up in flags and mask, or Up in the mask only.
- `CombineFlags` is the kernel's rule for applying a flag mask, not code of this repository. It gives the up/down requests their meaning. It is stated for a non-empty mask and for the empty mask with empty flags, the only messages the handle sends. The kernel reads an empty mask with some flags set as "all flags"; that case is not modelled.
- `if_nametoindex` (src/nl.rs:170, 299) is an OS call. Its result is an input.
- The kernel's behaviour is outside the model. Which reply it sends, and whether a later `details()` reflects an earlier request, are not modelled. MtuReadBack and NameReadBack state only what the decoder does with the bytes the request carried.
- `IflaCan` values other than `BitTiming`, the unused `EXT_FILTER_*` constants, the `neli_enum`/`impl_trait` plumbing and the kernel-dependent tests (src/nl.rs:475-563) are not modelled.
- `NlError` is reduced to NoAck, Msg, Kernel and Io. neli turns a kernel error record into an `Err` inside `recv`; that arrives here as a failed exchange. An error payload that did reach `send_and_read_ack` counts as `NoAck`, as its `else` branch does.
- Rust `String`/`&str` values are kept as their UTF-8 bytes. There is no character-level view.
- CanIface.CanInterface.Create: the name-length bound is the source's `debug_assert!` and is modelled as a precondition. Linux's IFNAMSIZ counts the terminating NUL, so the kernel's own, stricter limit is not modelled.
- CanIface.CanInterface.SetBitrate: the range checks are `debug_assert!`s and are modelled as preconditions. Release builds skip them, and what they would send for out-of-range values is not modelled.
- CanIface.CanInterface.SetBitrateAsWritten: carries the same `debug_assert!` range checks as preconditions, with the same gap for release builds.
- CanIface.CanInterface.Details: the ExtMask attribute is built with `.unwrap()` (src/nl.rs:336), which would panic rather than return an error if neli's serialisation failed; that failure is not modelled, like the other `Rtattr::new` failures.

## Findings

| source | as written | input that shows it | evidently intended | confidence | as-written member | corrected member |
|---|---|---|---|---|---|---|
| src/nl.rs:447-468 | `set_bitrate` builds the `Data` attribute and nests the `BitTiming` record into it, but never nests `Data` into `Linkinfo`; only `Linkinfo[Kind("can")]` is pushed | `set_bitrate(500000, Some(750))` on any handle: the request has no IFLA_INFO_DATA under IFLA_LINKINFO, so no bitrate reaches the kernel | call `link_info.add_nested_attribute(&data)` before pushing `link_info`, giving `Linkinfo[Kind("can"), Data[BitTiming(32 bytes)]]` | high; not executed | `CanIface.CanInterface.SetBitrateAsWritten` | `CanIface.CanInterface.SetBitrate` |
