# GVSP packet decoder (aravis `arvgvspprivate.h`)

This project models the packet decoder of aravis's GigE Vision Streaming
Protocol (GVSP) layer. A GVSP packet is one received UDP datagram. It starts
with a 16-bit packet type (the status word). One of two header layouts
follows:

- the compact header: a 16-bit frame id, then a 32-bit `packet_infos` word
  holding a 7-bit content type and a 24-bit packet id;
- the extended header: a flags word, `packet_infos`, a 64-bit frame id and a
  32-bit packet id.

The top bit of `packet_infos` selects the layout. It is the top bit of byte 4
of the packet. The data area follows the header. For a data leader, the data
area holds the payload type, the time stamp, the pixel format and the image
geometry.

A packet is a `seq<bv8>`, and every inline accessor of the header is a Dafny
function. Each field accessor returns the number its bytes denote in network
byte order, and its contract says so. The field accessors are the packet
type, packet id, frame id, leader payload type, tick count, pixel format and
the four geometry fields. The other accessors are specified by what they
compute:

- the error test on a packet type (bit 15 set);
- the mode test (the top bit of packet byte 4);
- the content type (the low seven bits of that byte);
- the data offset and the data bytes;
- the data size, `packet_size` minus the headers with 64-bit wrap-around;
- the buffer payload kind, known exactly for the ten wire codes;
- the time stamp in nanoseconds, exact against `ticks * 10^9 / frequency`
  when no step wraps.

None of the C accessors checks
the packet length, so each Dafny function `requires` the bytes its C
counterpart reads. The one exception is `arv_gvsp_packet_get_data`: it
returns a pointer and reads nothing past the header. `Gvsp.GetData` returns
the bytes of the data area instead, so it needs that area to exist.

Modules:

- `Bytes` (`bytes.dfy`): the byte and word types, and big-endian readers
  and writers with their round-trip lemmas. It also defines `BigEndian`,
  the number a byte string denotes most significant byte first, and proves
  the readers equal to it. `Wrap64` is the wrap-around of `guint64` and
  `size_t` arithmetic.
- `Gvsp` (`gvsp.dfy`): the constants, the struct layouts as byte offsets, and
  one function per accessor.
- `GvspHeader` (`header.dfy`):
  - the two layouts as one `Header` datatype and the decoder into it;
  - facts about mode detection, packet types and fixed sizes.
- `GvspPayloadTypes` (`payload_types.dfy`): `WireCode`, the inverse of the
  payload-type switch `Gvsp.BufferPayloadTypeOf`, with the round-trip and
  one-to-one lemmas over the ten codes.
- `GvspTimestamp` (`timestamp.dfy`): the time stamp accessor and its 64-bit
  tick-to-nanosecond conversion, when that conversion is exact, and an input
  where it wraps.
- `GvspPackets` (`packets.dfy`): a reference writer that lays out packets as
  the packed structs do. It is used to prove that every accessor reads back
  what was written, and that a decoded header written back gives the same
  bytes.

Three facts about the code are worth stating:

- The data leader is 32 bytes: 2 + 2 + seven 4-byte fields
  (`src/arvgvspprivate.h:131-141`).
- `arv_gvsp_packet_get_data_size` does not check for underflow
  (`src/arvgvspprivate.h:370-377`). A `packet_size` below 8 (compact) or 20
  (extended) wraps modulo 2^64, as the second `ensures` of `Gvsp.GetDataSize`
  states.
- The payload-type switch recognises ten wire codes, 0x0001 to 0x0009 and
  0x4001 (`src/arvgvspprivate.h:77-89`, `276-297`).

## Model

| member | source | states |
|---|---|---|
| Gvsp.GetPacketType | src/arvgvspprivate.h:190-194 | the packet type is the number in packet bytes 0 and 1, in network order: its high byte is packet byte 0 and its low byte is packet byte 1 |
| Gvsp.PacketTypeIsError | src/arvgvspprivate.h:196-200 | a packet type is an error exactly when it is at least 0x8000, that is, when bit 15 is set |
| Gvsp.HasExtendedIds | src/arvgvspprivate.h:202-206 | the packet uses extended ids exactly when `header[2]` (packet byte 4) is at least 0x80 |
| Gvsp.GetContentType | src/arvgvspprivate.h:208-222 | in both layouts the content type is the low seven bits of packet byte 4, and so at most 0x7f |
| Gvsp.GetPacketId | src/arvgvspprivate.h:224-236 | in compact mode the packet id is the number in bytes 5 to 7, the low three bytes of `packet_infos`, and so below 2^24; in extended mode it is the number in bytes 16 to 19 |
| Gvsp.GetFrameId | src/arvgvspprivate.h:238-250 | in compact mode the frame id is the number in bytes 2 and 3, and so below 2^16; in extended mode it is the number in bytes 8 to 15 |
| Gvsp.GetDataOffset | src/arvgvspprivate.h:252-264 | the data area starts at byte 20 when the mode bit is set and at byte 8 otherwise |
| Gvsp.GetData | src/arvgvspprivate.h:252-264 | the data area is every packet byte from that offset to the end, in order |
| Gvsp.GetDataSize | src/arvgvspprivate.h:370-377 | the data size is the packet size minus the status word and the active header; a packet size below that wraps to packet size + 2^64 - offset |
| Gvsp.GetLeaderPayloadType | src/arvgvspprivate.h:266-274 | the leader's payload type is the number in bytes 2 and 3 of the data area |
| Gvsp.BufferPayloadTypeOf | src/arvgvspprivate.h:276-299 | a code maps to a kind other than Unknown exactly when it is one of the ten wire codes of the switch |
| Gvsp.GetBufferPayloadType | src/arvgvspprivate.h:266-300 | a leader's buffer payload type is known exactly when its payload-type field holds one of the ten wire codes |
| Gvsp.GetXOffset | src/arvgvspprivate.h:302-309 | the x offset is the number in bytes 24 to 27 of the data area |
| Gvsp.GetYOffset | src/arvgvspprivate.h:311-318 | the y offset is the number in bytes 28 to 31 of the data area |
| Gvsp.GetWidth | src/arvgvspprivate.h:320-327 | the width is the number in bytes 16 to 19 of the data area |
| Gvsp.GetHeight | src/arvgvspprivate.h:329-336 | the height is the number in bytes 20 to 23 of the data area |
| Gvsp.GetPixelFormat | src/arvgvspprivate.h:338-345 | the pixel format is the number in bytes 12 to 15 of the data area |
| Gvsp.GetTicks | src/arvgvspprivate.h:360 | the tick count, `timestamp_high` shifted up by 32 bits and joined with `timestamp_low`, is the number in the eight bytes 4 to 11 of the data area |
| Bytes.BE16Put16 | src/arvgvspprivate.h:193 | a 16-bit word written in network order at any position reads back unchanged |
| Bytes.BE32Put32 | src/arvgvspprivate.h:230 | a 32-bit word written in network order at any position reads back unchanged |
| Bytes.BE64Put64 | src/arvgvspprivate.h:244 | a 64-bit word written big-endian at any position reads back unchanged |
| Bytes.BigEndianConcat | src/arvgvspprivate.h:360 | appending bytes to a big-endian byte string multiplies its value by 256 per byte appended and adds the value of the new bytes; this is why the time stamp is high * 2^32 + low |
| Bytes.BE16IsBigEndian | src/arvgvspprivate.h:193 | the 16-bit shift-and-or read `g_ntohs` is the number its two bytes denote, most significant first |
| Bytes.BE32IsBigEndian | src/arvgvspprivate.h:230 | the 32-bit read `g_ntohl` is the number its four bytes denote, most significant first |
| Bytes.BE64IsBigEndian | src/arvgvspprivate.h:244 | the 64-bit read `GUINT64_FROM_BE` is the number its eight bytes denote, most significant first |
| Bytes.LowBytes24IsBigEndian | src/arvgvspprivate.h:231-235 | masking a 32-bit read with `ARV_GVSP_PACKET_ID_MASK` leaves the number its three low bytes denote |
| Bytes.Widened16IsBigEndian | src/arvgvspprivate.h:245-249 | a 16-bit read widened to 64 bits is still the number its two bytes denote |
| Bytes.BE64Join | src/arvgvspprivate.h:360 | a 64-bit big-endian read is the high 32-bit word times 2^32 plus the low one, which is how the time stamp halves are joined |
| GvspHeader.ParseHeader | src/arvgvspprivate.h:102-114 | a packet decodes to the extended layout exactly when its mode bit is set; the decoded content type fits 7 bits, and a compact frame id and packet id fit 16 and 24 bits |
| GvspHeader.ModeFromFirstFiveBytes | src/arvgvspprivate.h:202-206 | the mode and the data offset depend only on the first five bytes of the packet |
| GvspHeader.ModeBitIsTopOfPacketInfos | src/arvgvspprivate.h:102-114 | the mode bit is bit 31 of `packet_infos`, which both layouts place at the same offset |
| GvspHeader.ContentTypeIgnoresMode | src/arvgvspprivate.h:208-222 | two packets whose byte 4 agrees below the mode bit have the same content type |
| GvspHeader.ErrorPacketTypes | src/arvgvspprivate.h:44-48 | PACKET_UNAVAILABLE is an error packet type; OK and RESEND are not |
| GvspHeader.ProtocolOverheads | src/arvgvspprivate.h:170-173 | the protocol overheads are 36 and 48 bytes, and the data starts at 8 or 20 bytes |
| GvspHeader.DataSizeOfWholeDatagram | src/arvgvspprivate.h:370-377 | given the datagram's own length, the data size is the length of the data area |
| GvspPayloadTypes.WireCode | src/arvgvspprivate.h:276-297 | each known buffer kind has a wire code, and that code is one of the ten in the table |
| GvspPayloadTypes.WireCodeRoundTrip | src/arvgvspprivate.h:276-297 | every known buffer kind is reached, from its own wire code |
| GvspPayloadTypes.KindDeterminesCode | src/arvgvspprivate.h:276-297 | a known code is recovered from the kind it maps to |
| GvspPayloadTypes.KnownCodesDistinctKinds | src/arvgvspprivate.h:276-297 | two distinct known codes map to distinct kinds |
| GvspPayloadTypes.TenKnownCodes | src/arvgvspprivate.h:77-89 | the payload-type enumeration has ten distinct codes |
| GvspTimestamp.TicksToNs | src/arvgvspprivate.h:362-367 | when no `guint64` step wraps, whole seconds times 10^9 plus the scaled remainder is exactly floor(ticks * 10^9 / frequency) |
| GvspTimestamp.GetTimestamp | src/arvgvspprivate.h:347-368 | a tick frequency below 1 gives 0 and reads nothing from the packet; otherwise, when no step wraps, the result is the exact nanosecond count of the leader's tick count |
| GvspTimestamp.NoOverflowWhenBounded | src/arvgvspprivate.h:362-365 | no step wraps when the frequency is at most 18_446_744_073 Hz and ticks / frequency is at most 18_446_744_072 seconds |
| GvspTimestamp.OneSecond | src/arvgvspprivate.h:362-367 | one second's worth of ticks converts to exactly 10^9 ns, whatever the frequency |
| GvspTimestamp.PacketTimestampIsExact | src/arvgvspprivate.h:347-368 | within those bounds, a packet's time stamp is the exact nanosecond count of its leader tick count |
| GvspTimestamp.RemainderScalingWraps | src/arvgvspprivate.h:363 | at a frequency of 2^63 Hz, the scaled remainder wraps and the result differs from the exact value |
| GvspPackets.PacketInfos | src/arvgvspprivate.h:102-114 | the top bit of a written `packet_infos` word is 1 exactly for the extended layout |
| GvspPackets.EncodeHeader | src/arvgvspprivate.h:102-114 | a written header is 6 bytes in the compact layout and 18 in the extended one |
| GvspPackets.EncodePacket | src/arvgvspprivate.h:165-168 | a written packet is 2 bytes of status word plus the header plus the data long |
| GvspPackets.PacketBytes | src/arvgvspprivate.h:165-168 | a written packet is the 2-byte status word, then the header, then the data |
| GvspPackets.EncodeLeader | src/arvgvspprivate.h:131-141 | a written data leader is 32 bytes |
| GvspPackets.PacketInfosFields | src/arvgvspprivate.h:32-35 | the mode mask, the content-type mask and shift, and the packet-id mask recover the fields packed into `packet_infos` |
| GvspPackets.DecodeEncodedHeader | src/arvgvspprivate.h:190-264 | in either layout, each accessor returns the field that was written: packet type, mode, content type, packet id, frame id, data offset, data |
| GvspPackets.DecodeEncodedExtended | src/arvgvspprivate.h:108-114 | in the extended layout, the flags word, the 64-bit frame id and the 32-bit packet id read back as written |
| GvspPackets.ParseEncodedHeader | src/arvgvspprivate.h:102-114 | decoding a written header gives the same header value back |
| GvspPackets.EncodeParsedCompactHeader | src/arvgvspprivate.h:102-106 | writing back a decoded compact header gives the packet's own 6 header bytes |
| GvspPackets.EncodeParsedExtendedHeader | src/arvgvspprivate.h:108-114 | writing back a decoded extended header gives its own 18 bytes when the low 24 bits of `packet_infos` are zero |
| GvspPackets.DecodeEncodedLeader | src/arvgvspprivate.h:266-345 | in either layout, every leader accessor returns the field that was written, whatever follows the leader |
| GvspPackets.TicksAreBE64 | src/arvgvspprivate.h:360 | the joined time stamp is the 64-bit big-endian value at offset 4 of the data area |
| GvspPackets.DecodeEncodedDataSize | src/arvgvspprivate.h:370-377 | for a written packet, the data size computed from the datagram's length is the length of the data written |
| GvspPackets.LeaderExample | src/arvgvspprivate.h:190-368 | a compact leader for frame 7 with a 640x480 image, stamped 125 ticks at 125 Hz, decodes field by field; its time stamp is 10^9 ns |

## Left out

- The packet builders `arv_gvsp_packet_new_data_leader`, `_new_data_trailer` and `_new_data_block` (`src/arvgvspprivate.h:177-186`) are declared here but defined in a source file outside this model. `GvspPackets` instead has its own writer of the packed layouts, with no buffer-capacity handling.
- `arv_gvsp_packet_to_string` and `arv_gvsp_packet_debug` are left out because they only format text and log.
- The data trailer (`ArvGvspDataTrailer`) has no accessor in the header. Only its layout constants are modelled.
- The content type ALL_IN has no accessor of its own. It is a constant only.
- Pointer casts, unaligned access and host byte order are not modelled. Each `g_ntohs`, `g_ntohl` and `GUINT64_FROM_BE` is a big-endian read of bytes.
- `ArvBufferPayloadType` and `ArvPixelFormat` are defined outside this header. The first is a local datatype with the eleven values the switch returns. The second is an opaque 32-bit code.
- `size_t` is taken to be 64 bits wide.
- The `flags` word of the data leader is laid out by the writer but read by no accessor.
- GvspTimestamp.TicksToNs and GvspTimestamp.GetTimestamp: when a step wraps, their contracts do not give the wrapped value. `GvspTimestamp.RemainderScalingWraps` shows one input where the result then falls short of the exact count.
- GvspPackets.EncodeParsedExtendedHeader: it needs the low 24 bits of `packet_infos` to be zero. In extended mode no accessor reads those bits, so a decoded header cannot restore them.
