/** The two GVSP header layouts as one tagged variant, the decoder that
    classifies a packet into it, and the facts about mode detection, the
    packet type and the fixed sizes that the layouts imply. */
module GvspHeader {
  import opened Bytes
  import opened Gvsp

  /** A decoded header, its fields typed as the accessors return them. The
      compact layout has a 16-bit frame id and packs a 24-bit packet id
      into `packet_infos`; the extended one carries a flags word, a 64-bit
      frame id and a separate 32-bit packet id. */
  datatype Header =
    | Compact(frameId: uint64, contentType: uint32, packetId: uint32)
    | Extended(flags: uint16, contentType: uint32, frameId: uint64, packetId: uint32)

  /** The content type fits its 7-bit field, and a compact frame id and
      packet id their 16-bit and 24-bit fields. */
  predicate ValidHeader(h: Header) {
    && h.contentType <= 0x7f
    && (h.Compact? ==> h.frameId < 0x1_0000 && h.packetId < 0x100_0000)
  }

  /** The packet is long enough to hold its whole active header. */
  predicate HasHeader(p: seq<uint8>) {
    HasModeByte(p) && |p| >= GetDataOffset(p)
  }

  /** Classifies the header with arv_gvsp_packet_has_extended_ids, then
      reads each field with the accessor for it. */
  function ParseHeader(p: seq<uint8>): (h: Header)
    requires HasHeader(p)
    ensures ValidHeader(h)
    ensures h.Extended? <==> HasExtendedIds(p)
  {
    if HasExtendedIds(p) then
      Extended(BE16(p, PacketPrefixSize + ExtendedFlagsAt), GetContentType(p), GetFrameId(p), GetPacketId(p))
    else
      Compact(GetFrameId(p), GetContentType(p), GetPacketId(p))
  }

  /** Mode detection reads nothing past byte 4, which both layouts place
      at the same offset. */
  lemma ModeFromFirstFiveBytes(p: seq<uint8>, q: seq<uint8>)
    requires HasModeByte(p) && HasModeByte(q)
    requires p[..5] == q[..5]
    ensures HasExtendedIds(p) == HasExtendedIds(q)
    ensures GetDataOffset(p) == GetDataOffset(q)
  {
    assert p[4] == p[..5][4] && q[4] == q[..5][4];
  }

  /** The extended-id bit is the top bit of `packet_infos`. */
  lemma ModeBitIsTopOfPacketInfos(p: seq<uint8>)
    requires |p| >= PacketPrefixSize + CompactPacketInfosAt + 4
    ensures HasExtendedIds(p) <==> BE32(p, PacketPrefixSize + CompactPacketInfosAt) >> 31 == 1
    ensures PacketPrefixSize + CompactPacketInfosAt == PacketPrefixSize + ExtendedPacketInfosAt
  {
  }

  /** The content type sits in the seven bits below the mode bit, so the
      mode bit never leaks into it. */
  lemma ContentTypeIgnoresMode(p: seq<uint8>, q: seq<uint8>)
    requires |p| >= 8 && |q| >= 8
    requires p[4] & 0x7f == q[4] & 0x7f
    ensures GetContentType(p) == GetContentType(q)
  {
  }

  /** The error bit is bit 15 of the packet type. */
  lemma ErrorPacketTypes()
    ensures PacketTypeIsError(PacketTypePacketUnavailable)
    ensures !PacketTypeIsError(PacketTypeOk)
    ensures !PacketTypeIsError(PacketTypeResend)
  {
  }

  /** IP (20) and UDP (8) headers included, and the data offsets. */
  lemma ProtocolOverheads()
    ensures ProtocolOverhead == 36 && ExtendedProtocolOverhead == 48
    ensures PacketPrefixSize + CompactHeaderSize == 8 && PacketPrefixSize + ExtendedHeaderSize == 20
    ensures LeaderYOffsetAt + 4 == LeaderSize && TrailerData0At + 4 == TrailerSize
  {
  }

  /** When the packet size is the datagram's own length, the data size is
      the length of the data area. */
  lemma DataSizeOfWholeDatagram(p: seq<uint8>)
    requires HasHeader(p) && |p| < Uint64Modulus
    ensures GetDataSize(p, |p|) == |GetData(p)|
  {
  }
}
