/** A reference writer for GVSP packets, used to state that every decoder
    accessor reads back the field that was put at its offset: the status
    word, either header layout, and a data leader. It lays fields out as
    the packed structs do; it does not model the packet builders'
    capacity handling. */
module GvspPackets {
  import opened Bytes
  import opened Gvsp
  import opened GvspHeader
  import GvspTimestamp

  /** The fields of a data leader (ArvGvspDataLeader), with the time stamp
      whole: its high and low halves are the two 32-bit words on the wire. */
  datatype Leader = Leader(
    flags: uint16,
    payloadType: uint16,
    timestamp: uint64,
    pixelFormat: uint32,
    width: uint32,
    height: uint32,
    xOffset: uint32,
    yOffset: uint32)

  /** The `packet_infos` word: mode bit, content type, and in compact mode
      the packet id. */
  function PacketInfos(h: Header): (infos: uint32)
    requires ValidHeader(h)
    ensures infos >> 31 == (if h.Extended? then 1 else 0)
  {
    match h
    case Compact(_, contentType, packetId) => (contentType << 24) | packetId
    case Extended(_, contentType, _, _) => 0x8000_0000 | (contentType << 24)
  }

  /** The header bytes that follow the status word. */
  function EncodeHeader(h: Header): (bytes: seq<uint8>)
    requires ValidHeader(h)
    ensures |bytes| == if h.Extended? then ExtendedHeaderSize else CompactHeaderSize
  {
    match h
    case Compact(frameId, _, _) => Put16(frameId as uint16) + Put32(PacketInfos(h))
    case Extended(flags, _, frameId, packetId) =>
      Put16(flags) + Put32(PacketInfos(h)) + Put64(frameId) + Put32(packetId)
  }

  /** A whole packet: status word, header, then the data area. */
  function EncodePacket(status: PacketType, h: Header, data: seq<uint8>): (p: seq<uint8>)
    requires ValidHeader(h)
    ensures |p| == PacketPrefixSize + |EncodeHeader(h)| + |data|
  {
    Put16(status) + EncodeHeader(h) + data
  }

  /** The 32 bytes of a data leader. */
  function EncodeLeader(l: Leader): (bytes: seq<uint8>)
    ensures |bytes| == LeaderSize
  {
    Put16(l.flags) + Put16(l.payloadType) + Put64(l.timestamp)
    + Put32(l.pixelFormat) + Put32(l.width) + Put32(l.height) + Put32(l.xOffset) + Put32(l.yOffset)
  }

  /** The bytes of a written packet: the status word, then the header,
      then the data. */
  lemma PacketBytes(status: PacketType, h: Header, data: seq<uint8>)
    requires ValidHeader(h)
    ensures var p, e := EncodePacket(status, h, data), EncodeHeader(h);
      && p[0] == Put16(status)[0] && p[1] == Put16(status)[1]
      && (forall k :: 0 <= k < |e| ==> p[PacketPrefixSize + k] == e[k])
      && p[PacketPrefixSize + |e|..] == data
  {
  }

  /** The status word, the mode byte and `packet_infos` of a written
      packet, common to both layouts. */
  lemma DecodeEncodedPrefix(status: PacketType, h: Header, data: seq<uint8>)
    requires ValidHeader(h)
    ensures var p := EncodePacket(status, h, data);
      && HasHeader(p)
      && GetPacketType(p) == status
      && p[4] == (PacketInfos(h) >> 24) as uint8
      && BE32(p, 4) == PacketInfos(h)
      && GetData(p) == data
  {
    var p, e, infos := EncodePacket(status, h, data), EncodeHeader(h), PacketInfos(h);
    PacketBytes(status, h, data);
    BE16At(p, 0, status);
    assert e[2] == Put32(infos)[0] && e[3] == Put32(infos)[1];
    assert e[4] == Put32(infos)[2] && e[5] == Put32(infos)[3];
    assert p[4] == e[2] && p[5] == e[3] && p[6] == e[4] && p[7] == e[5];
    BE32At(p, 4, infos);
  }

  /** The mode bit and the content type come back out of `packet_infos`. */
  lemma PacketInfosFields(h: Header)
    requires ValidHeader(h)
    ensures ((PacketInfos(h) >> 24) as uint8 & ExtendedIdModeMask != 0) == h.Extended?
    ensures ((PacketInfos(h) >> 24) as uint8 & 0x7f) as uint32 == h.contentType
    ensures h.Compact? ==> PacketInfos(h) & PacketIdMask == h.packetId
  {
  }

  /** The compact packet id is the low 24 bits of whatever `packet_infos`
      holds. */
  lemma CompactPacketId(p: seq<uint8>, infos: uint32)
    requires HasModeByte(p) && !HasExtendedIds(p) && |p| >= 8
    requires BE32(p, 4) == infos
    ensures GetPacketId(p) == infos & PacketIdMask
  {
  }

  /** The header accessors on a written compact header. */
  lemma DecodeEncodedCompact(status: PacketType, h: Header, data: seq<uint8>)
    requires ValidHeader(h) && h.Compact?
    ensures var p := EncodePacket(status, h, data);
      && HasHeader(p)
      && !HasExtendedIds(p)
      && GetContentType(p) == h.contentType
      && GetPacketId(p) == h.packetId
      && GetFrameId(p) == h.frameId
  {
    var p, e := EncodePacket(status, h, data), EncodeHeader(h);
    DecodeEncodedPrefix(status, h, data);
    PacketInfosFields(h);
    PacketBytes(status, h, data);
    assert e[0] == Put16(h.frameId as uint16)[0] && e[1] == Put16(h.frameId as uint16)[1];
    assert p[2] == e[0] && p[3] == e[1];
    BE16At(p, 2, h.frameId as uint16);
    CompactPacketId(p, PacketInfos(h));
  }

  /** The header accessors on a written extended header. */
  lemma DecodeEncodedExtended(status: PacketType, h: Header, data: seq<uint8>)
    requires ValidHeader(h) && h.Extended?
    ensures var p := EncodePacket(status, h, data);
      && HasHeader(p)
      && HasExtendedIds(p)
      && GetContentType(p) == h.contentType
      && GetPacketId(p) == h.packetId
      && GetFrameId(p) == h.frameId
      && BE16(p, PacketPrefixSize + ExtendedFlagsAt) == h.flags
  {
    var p, e := EncodePacket(status, h, data), EncodeHeader(h);
    DecodeEncodedPrefix(status, h, data);
    PacketInfosFields(h);
    PacketBytes(status, h, data);
    ExtendedHeaderBytes(h);
    assert p[2] == e[0] && p[3] == e[1];
    BE16At(p, 2, h.flags);
    assert p[8] == e[6] && p[9] == e[7] && p[10] == e[8] && p[11] == e[9];
    assert p[12] == e[10] && p[13] == e[11] && p[14] == e[12] && p[15] == e[13];
    BE64At(p, 8, h.frameId);
    assert p[16] == e[14] && p[17] == e[15] && p[18] == e[16] && p[19] == e[17];
    BE32At(p, 16, h.packetId);
  }

  /** Where each field of an extended header lands. */
  lemma ExtendedHeaderBytes(h: Header)
    requires ValidHeader(h) && h.Extended?
    ensures var e := EncodeHeader(h);
      && e[0] == Put16(h.flags)[0] && e[1] == Put16(h.flags)[1]
      && (forall k :: 0 <= k < 8 ==> e[6 + k] == Put64(h.frameId)[k])
      && (forall k :: 0 <= k < 4 ==> e[14 + k] == Put32(h.packetId)[k])
  {
  }

  /** Every header accessor reads back what the writer put, in either
      layout, and the data area is exactly the bytes after the header. */
  lemma DecodeEncodedHeader(status: PacketType, h: Header, data: seq<uint8>)
    requires ValidHeader(h)
    ensures var p := EncodePacket(status, h, data);
      && HasHeader(p)
      && GetPacketType(p) == status
      && HasExtendedIds(p) == h.Extended?
      && GetContentType(p) == h.contentType
      && GetPacketId(p) == h.packetId
      && GetFrameId(p) == h.frameId
      && GetDataOffset(p) == PacketPrefixSize + |EncodeHeader(h)|
      && GetData(p) == data
  {
    DecodeEncodedPrefix(status, h, data);
    if h.Compact? {
      DecodeEncodedCompact(status, h, data);
    } else {
      DecodeEncodedExtended(status, h, data);
    }
  }

  /** Decoding a written header into the tagged variant gives it back. */
  lemma ParseEncodedHeader(status: PacketType, h: Header, data: seq<uint8>)
    requires ValidHeader(h)
    ensures HasHeader(EncodePacket(status, h, data))
    ensures ParseHeader(EncodePacket(status, h, data)) == h
  {
    DecodeEncodedPrefix(status, h, data);
    if h.Extended? {
      DecodeEncodedExtended(status, h, data);
    } else {
      DecodeEncodedCompact(status, h, data);
    }
  }

  /** Writing back a compact header that was read reproduces its bytes:
      the compact layout has no bit the decoder ignores. */
  lemma EncodeParsedCompactHeader(p: seq<uint8>)
    requires HasHeader(p) && !HasExtendedIds(p)
    ensures EncodeHeader(ParseHeader(p)) == p[2..8]
  {
    var h := ParseHeader(p);
    CompactFrameIdOfParsed(p);
    CompactInfosOfParsed(p);
    assert EncodeHeader(h) == Put16(BE16(p, 2)) + Put32(BE32(p, 4));
    CompactHeaderBytesBack(p);
  }

  /** The frame id rebuilt from a decoded compact header is the one on
      the wire. */
  lemma CompactFrameIdOfParsed(p: seq<uint8>)
    requires HasHeader(p) && !HasExtendedIds(p)
    ensures ParseHeader(p).frameId as uint16 == BE16(p, 2)
  {
    ParsedCompact(p);
    WidenNarrow16(BE16(p, 2));
  }

  /** The `packet_infos` word rebuilt from a decoded compact header is the
      one on the wire. */
  lemma CompactInfosOfParsed(p: seq<uint8>)
    requires HasHeader(p) && !HasExtendedIds(p)
    ensures PacketInfos(ParseHeader(p)) == BE32(p, 4)
  {
    var h := ParseHeader(p);
    ParsedCompact(p);
    BE32TopByte(p, 4);
    CompactInfosOf(h, BE32(p, 4), p[4]);
  }

  /** Solver aid: widening a 16-bit word and narrowing it back loses
      nothing, stated on a plain word so that no byte string is in scope. */
  lemma WidenNarrow16(x: uint16)
    ensures (x as uint64) as uint16 == x
  {
  }

  /** The decoded compact header, field by field from the bytes. */
  lemma ParsedCompact(p: seq<uint8>)
    requires HasHeader(p) && !HasExtendedIds(p)
    ensures ParseHeader(p) == Compact(BE16(p, 2) as uint64, (p[4] & 0x7f) as uint32, BE32(p, 4) & PacketIdMask)
  {
  }

  /** A `packet_infos` word with the mode bit clear is its content type
      and its packet id put back together. */
  lemma CompactInfosOf(h: Header, infos: uint32, top: uint8)
    requires infos >> 24 == top as uint32 && top < 0x80
    requires ValidHeader(h) && h.Compact? && h.contentType == (top & 0x7f) as uint32 && h.packetId == infos & PacketIdMask
    ensures PacketInfos(h) == infos
  {
  }

  /** The two compact header fields, read and written back, are the
      header's 6 bytes. */
  lemma CompactHeaderBytesBack(p: seq<uint8>)
    requires |p| >= 8
    ensures Put16(BE16(p, 2)) + Put32(BE32(p, 4)) == p[2..8]
  {
    Put16BE16(p, 2);
    Put32BE32(p, 4);
    assert p[2..8] == p[2..4] + p[4..8];
  }

  /** The same holds of an extended header whose reserved low 24 bits of
      `packet_infos` are zero; they are the only bits the decoder skips. */
  lemma EncodeParsedExtendedHeader(p: seq<uint8>)
    requires HasHeader(p) && HasExtendedIds(p)
    requires p[5] == 0 && p[6] == 0 && p[7] == 0
    ensures EncodeHeader(ParseHeader(p)) == p[2..20]
  {
    var h := ParseHeader(p);
    ExtendedInfosOfParsed(p);
    assert EncodeHeader(h) == Put16(BE16(p, 2)) + Put32(BE32(p, 4)) + Put64(BE64(p, 8)) + Put32(BE32(p, 16));
    ExtendedHeaderBytesBack(p);
  }

  /** With the reserved bits zero, the `packet_infos` word rebuilt from a
      decoded extended header is the one on the wire. */
  lemma ExtendedInfosOfParsed(p: seq<uint8>)
    requires HasHeader(p) && HasExtendedIds(p)
    requires p[5] == 0 && p[6] == 0 && p[7] == 0
    ensures PacketInfos(ParseHeader(p)) == BE32(p, 4)
  {
    assert ParseHeader(p).contentType == (p[4] & 0x7f) as uint32;
  }

  /** The four extended header fields, read and written back, are the
      header's 18 bytes. */
  lemma ExtendedHeaderBytesBack(p: seq<uint8>)
    requires |p| >= 20
    ensures Put16(BE16(p, 2)) + Put32(BE32(p, 4)) + Put64(BE64(p, 8)) + Put32(BE32(p, 16)) == p[2..20]
  {
    Put16BE16(p, 2);
    Put32BE32(p, 4);
    Put64BE64(p, 8);
    Put32BE32(p, 16);
    assert p[2..20] == p[2..4] + p[4..8] + p[8..16] + p[16..20];
  }

  /** A read at a fixed offset into the data area is the same read on
      the data view. */
  lemma DataRead16(p: seq<uint8>, at: nat)
    requires HasLeaderField(p, at, 2)
    ensures BE16(p, GetDataOffset(p) + at) == BE16(GetData(p), at)
  {
    var o, d := GetDataOffset(p), GetData(p);
    assert p[o + at] == d[at] && p[o + at + 1] == d[at + 1];
    BE16Same(p, o + at, d, at);
  }

  lemma DataRead32(p: seq<uint8>, at: nat)
    requires HasLeaderField(p, at, 4)
    ensures BE32(p, GetDataOffset(p) + at) == BE32(GetData(p), at)
  {
    var o, d := GetDataOffset(p), GetData(p);
    assert p[o + at] == d[at] && p[o + at + 1] == d[at + 1];
    assert p[o + at + 2] == d[at + 2] && p[o + at + 3] == d[at + 3];
    BE32Same(p, o + at, d, at);
  }

  /** The tick count is the 64-bit big-endian value at data offset 4. */
  lemma TicksAreBE64(p: seq<uint8>)
    requires HasLeaderField(p, LeaderTimestampHighAt, 8)
    ensures GetTicks(p) == BE64(GetData(p), LeaderTimestampHighAt) as int
  {
    DataRead32(p, LeaderTimestampHighAt);
    DataRead32(p, LeaderTimestampLowAt);
    BE64Join(GetData(p), LeaderTimestampHighAt);
  }

  /** Where each field of a leader lands in its 32 bytes. */
  lemma LeaderLayout(l: Leader, rest: seq<uint8>)
    ensures var d := EncodeLeader(l) + rest;
      && d[2] == Put16(l.payloadType)[0] && d[3] == Put16(l.payloadType)[1]
      && (forall k :: 0 <= k < 8 ==> d[4 + k] == Put64(l.timestamp)[k])
      && (forall k :: 0 <= k < 4 ==> d[12 + k] == Put32(l.pixelFormat)[k])
      && (forall k :: 0 <= k < 4 ==> d[16 + k] == Put32(l.width)[k])
      && (forall k :: 0 <= k < 4 ==> d[20 + k] == Put32(l.height)[k])
      && (forall k :: 0 <= k < 4 ==> d[24 + k] == Put32(l.xOffset)[k])
      && (forall k :: 0 <= k < 4 ==> d[28 + k] == Put32(l.yOffset)[k])
  {
  }

  /** Reading a written leader, on the data view. */
  lemma ReadEncodedLeader(l: Leader, rest: seq<uint8>)
    ensures var d := EncodeLeader(l) + rest;
      && BE16(d, LeaderPayloadTypeAt) == l.payloadType
      && BE64(d, LeaderTimestampHighAt) == l.timestamp
      && BE32(d, LeaderPixelFormatAt) == l.pixelFormat
      && BE32(d, LeaderWidthAt) == l.width
      && BE32(d, LeaderHeightAt) == l.height
      && BE32(d, LeaderXOffsetAt) == l.xOffset
      && BE32(d, LeaderYOffsetAt) == l.yOffset
  {
    var d := EncodeLeader(l) + rest;
    LeaderLayout(l, rest);
    BE16At(d, 2, l.payloadType);
    BE64At(d, 4, l.timestamp);
    BE32At(d, 12, l.pixelFormat);
    BE32At(d, 16, l.width);
    BE32At(d, 20, l.height);
    BE32At(d, 24, l.xOffset);
    BE32At(d, 28, l.yOffset);
  }

  /** Every leader accessor reads back the leader field that was written,
      whatever the header layout and whatever follows the leader. */
  lemma DecodeEncodedLeader(status: PacketType, h: Header, l: Leader, rest: seq<uint8>)
    requires ValidHeader(h)
    ensures var p := EncodePacket(status, h, EncodeLeader(l) + rest);
      && HasLeaderField(p, 0, LeaderSize)
      && GetLeaderPayloadType(p) == l.payloadType
      && GetBufferPayloadType(p) == BufferPayloadTypeOf(l.payloadType)
      && GetTicks(p) == l.timestamp as int
      && GetPixelFormat(p) == l.pixelFormat
      && GetWidth(p) == l.width
      && GetHeight(p) == l.height
      && GetXOffset(p) == l.xOffset
      && GetYOffset(p) == l.yOffset
  {
    var p := EncodePacket(status, h, EncodeLeader(l) + rest);
    DecodeEncodedPrefix(status, h, EncodeLeader(l) + rest);
    ReadEncodedLeader(l, rest);
    DataRead16(p, LeaderPayloadTypeAt);
    TicksAreBE64(p);
    DataRead32(p, LeaderPixelFormatAt);
    DataRead32(p, LeaderWidthAt);
    DataRead32(p, LeaderHeightAt);
    DataRead32(p, LeaderXOffsetAt);
    DataRead32(p, LeaderYOffsetAt);
  }

  /** The data size computed from the datagram length is the length of the
      data written after the header. */
  lemma DecodeEncodedDataSize(status: PacketType, h: Header, data: seq<uint8>)
    requires ValidHeader(h)
    requires |EncodePacket(status, h, data)| < Uint64Modulus
    ensures HasHeader(EncodePacket(status, h, data))
    ensures GetDataSize(EncodePacket(status, h, data), |EncodePacket(status, h, data)|) == |data|
  {
    DecodeEncodedHeader(status, h, data);
  }

  /** A compact leader for a 640x480 image, frame 7, packet 0, stamped 125
      ticks at 125 ticks per second: decoding gives every field back and
      a time stamp of exactly one second. */
  lemma LeaderExample()
    ensures var h := Compact(7, ContentTypeDataLeader, 0);
      var l := Leader(0, PayloadTypeImage, 125, 0x0108_0001, 640, 480, 0, 0);
      var p := EncodePacket(PacketTypeOk, h, EncodeLeader(l));
      && ValidHeader(h)
      && HasLeaderField(p, 0, LeaderSize)
      && GetPacketType(p) == PacketTypeOk
      && GetContentType(p) == ContentTypeDataLeader
      && GetFrameId(p) == 7 && GetPacketId(p) == 0
      && GetBufferPayloadType(p) == Image
      && GetPixelFormat(p) == 0x0108_0001
      && GetWidth(p) == 640 && GetHeight(p) == 480
      && GetXOffset(p) == 0 && GetYOffset(p) == 0
      && GvspTimestamp.GetTimestamp(p, 125) == 1_000_000_000
  {
    var h := Compact(7, ContentTypeDataLeader, 0);
    var l := Leader(0, PayloadTypeImage, 125, 0x0108_0001, 640, 480, 0, 0);
    assert EncodeLeader(l) + [] == EncodeLeader(l);
    DecodeEncodedHeader(PacketTypeOk, h, EncodeLeader(l));
    DecodeEncodedLeader(PacketTypeOk, h, l, []);
    GvspTimestamp.OneSecond(125);
  }
}
