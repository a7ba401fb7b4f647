/** The GigE Vision Streaming Protocol (GVSP) packet decoder: the wire
    constants, the two header layouts as byte offsets, and one function per
    inline accessor of `arvgvspprivate.h` (the time stamp's is in
    `GvspTimestamp`, beside its conversion). A packet is the byte sequence of
    one received datagram, starting with the 16-bit packet type (status).
    None of the accessors checks the packet's length; each one `requires`
    the bytes its C counterpart dereferences (the data area, which the C
    code returns as a pointer, is returned here as its bytes, so it must
    be present). Every multi-byte field is the number its bytes denote in
    network byte order, `BigEndian`. */
module Gvsp {
  import opened Bytes

  // Header fields and masks.
  const ExtendedIdModeMask: uint8 := 0x80
  const PacketIdMask: uint32 := 0x00ff_ffff
  const PacketInfosContentTypeMask: uint32 := 0x7f00_0000
  const PacketInfosContentTypePos: nat := 24

  // Packet types (the status word).
  const PacketTypeOk: uint16 := 0x0000
  const PacketTypeResend: uint16 := 0x0100
  const PacketTypePacketUnavailable: uint16 := 0x800c

  // Content types (bits 24 to 30 of the packet infos word).
  const ContentTypeDataLeader: uint32 := 0x01
  const ContentTypeDataTrailer: uint32 := 0x02
  const ContentTypeDataBlock: uint32 := 0x03
  const ContentTypeAllIn: uint32 := 0x04

  // Payload types (the 16-bit code of a data leader).
  const PayloadTypeImage: uint16 := 0x0001
  const PayloadTypeRawdata: uint16 := 0x0002
  const PayloadTypeFile: uint16 := 0x0003
  const PayloadTypeChunkData: uint16 := 0x0004
  const PayloadTypeExtendedChunkData: uint16 := 0x0005
  const PayloadTypeJpeg: uint16 := 0x0006
  const PayloadTypeJpeg2000: uint16 := 0x0007
  const PayloadTypeH264: uint16 := 0x0008
  const PayloadTypeMultizoneImage: uint16 := 0x0009
  const PayloadTypeImageExtendedChunk: uint16 := 0x4001

  // The packed layouts. `PacketPrefixSize` is sizeof (ArvGvspPacket): the
  // status word in front of the header; header offsets are relative to it.
  const PacketPrefixSize: nat := 2

  // ArvGvspHeader (compact).
  const CompactFrameIdAt: nat := 0
  const CompactPacketInfosAt: nat := 2
  const CompactHeaderSize: nat := 6

  // ArvGvspExtendedHeader.
  const ExtendedFlagsAt: nat := 0
  const ExtendedPacketInfosAt: nat := 2
  const ExtendedFrameIdAt: nat := 6
  const ExtendedPacketIdAt: nat := 14
  const ExtendedHeaderSize: nat := 18

  /** The header byte holding the extended-id bit (`header[2]`): the most
      significant byte of `packet_infos` in both layouts. */
  const ExtendedIdModeAt: nat := 2

  // ArvGvspDataLeader, relative to the data area.
  const LeaderFlagsAt: nat := 0
  const LeaderPayloadTypeAt: nat := 2
  const LeaderTimestampHighAt: nat := 4
  const LeaderTimestampLowAt: nat := 8
  const LeaderPixelFormatAt: nat := 12
  const LeaderWidthAt: nat := 16
  const LeaderHeightAt: nat := 20
  const LeaderXOffsetAt: nat := 24
  const LeaderYOffsetAt: nat := 28
  const LeaderSize: nat := 32

  // ArvGvspDataTrailer, relative to the data area (no accessor reads it).
  const TrailerPayloadTypeAt: nat := 0
  const TrailerData0At: nat := 4
  const TrailerSize: nat := 8

  // IP and UDP header sizes counted in the protocol overheads.
  const IpHeaderSize: nat := 20
  const UdpHeaderSize: nat := 8
  const ProtocolOverhead: nat := IpHeaderSize + UdpHeaderSize + PacketPrefixSize + CompactHeaderSize
  const ExtendedProtocolOverhead: nat := IpHeaderSize + UdpHeaderSize + PacketPrefixSize + ExtendedHeaderSize

  /** Every 16-bit bit-vector value is a packet type: the enumeration is open. */
  type PacketType = uint16

  /** The buffer kinds a leader's payload type maps to (ArvBufferPayloadType). */
  datatype BufferPayloadType =
    | Unknown
    | Image
    | Rawdata
    | File
    | ChunkData
    | ExtendedChunkData
    | Jpeg
    | Jpeg2000
    | H264
    | MultizoneImage
    | ImageExtendedChunk

  /** The smallest packet whose extended-id bit can be read. */
  predicate HasModeByte(p: seq<uint8>) {
    |p| > PacketPrefixSize + ExtendedIdModeAt
  }

  /** arv_gvsp_packet_get_packet_type. */
  function GetPacketType(p: seq<uint8>): (t: PacketType)
    requires |p| >= PacketPrefixSize
    ensures t >> 8 == p[0] as uint16 && t & 0xff == p[1] as uint16
    ensures t as int == BigEndian(p[0..2])
  {
    BE16IsBigEndian(p, 0);
    BE16(p, 0)
  }

  /** arv_gvsp_packet_type_is_error. */
  function PacketTypeIsError(t: PacketType): (r: bool)
    ensures r <==> t >= 0x8000
  {
    t & 0x8000 != 0
  }

  /** arv_gvsp_packet_has_extended_ids. */
  function HasExtendedIds(p: seq<uint8>): (r: bool)
    requires HasModeByte(p)
    ensures r <==> p[4] >= 0x80
  {
    p[PacketPrefixSize + ExtendedIdModeAt] & ExtendedIdModeMask != 0
  }

  /** Size of the active header, status word excluded. */
  function HeaderSize(p: seq<uint8>): (n: nat)
    requires HasModeByte(p)
  {
    if HasExtendedIds(p) then ExtendedHeaderSize else CompactHeaderSize
  }

  /** arv_gvsp_packet_get_content_type. Both layouts keep `packet_infos` at
      the same offset and the code applies the same mask in each branch, so
      the result is the low seven bits of packet byte 4 whatever the mode. */
  function GetContentType(p: seq<uint8>): (c: uint32)
    requires |p| >= PacketPrefixSize + CompactPacketInfosAt + 4
    ensures c <= 0x7f
    ensures c == (p[4] & 0x7f) as uint32
  {
    BE32TopByte(p, 4);
    if HasExtendedIds(p) then
      (BE32(p, PacketPrefixSize + ExtendedPacketInfosAt) & PacketInfosContentTypeMask) >> PacketInfosContentTypePos
    else
      (BE32(p, PacketPrefixSize + CompactPacketInfosAt) & PacketInfosContentTypeMask) >> PacketInfosContentTypePos
  }

  /** arv_gvsp_packet_get_packet_id. */
  function GetPacketId(p: seq<uint8>): (id: uint32)
    requires HasModeByte(p)
    requires |p| >= PacketPrefixSize + HeaderSize(p)
    ensures !HasExtendedIds(p) ==> id < 0x100_0000 && id as int == BigEndian(p[5..8])
    ensures HasExtendedIds(p) ==> id as int == BigEndian(p[16..20])
  {
    if HasExtendedIds(p) then
      BE32IsBigEndian(p, PacketPrefixSize + ExtendedPacketIdAt);
      BE32(p, PacketPrefixSize + ExtendedPacketIdAt)
    else
      LowBytes24IsBigEndian(p, PacketPrefixSize + CompactPacketInfosAt);
      BE32(p, PacketPrefixSize + CompactPacketInfosAt) & PacketIdMask
  }

  /** arv_gvsp_packet_get_frame_id: 16 bits zero-extended in compact mode,
      the full 64-bit field in extended mode. */
  function GetFrameId(p: seq<uint8>): (id: uint64)
    requires HasModeByte(p)
    requires HasExtendedIds(p) ==> |p| >= PacketPrefixSize + ExtendedFrameIdAt + 8
    ensures !HasExtendedIds(p) ==> id < 0x1_0000 && id as int == BigEndian(p[2..4])
    ensures HasExtendedIds(p) ==> id as int == BigEndian(p[8..16])
  {
    if HasExtendedIds(p) then
      BE64IsBigEndian(p, PacketPrefixSize + ExtendedFrameIdAt);
      BE64(p, PacketPrefixSize + ExtendedFrameIdAt)
    else
      Widened16IsBigEndian(p, PacketPrefixSize + CompactFrameIdAt);
      BE16(p, PacketPrefixSize + CompactFrameIdAt) as uint64
  }

  /** arv_gvsp_packet_get_data: the offset of the data area in the packet. */
  function GetDataOffset(p: seq<uint8>): (offset: nat)
    requires HasModeByte(p)
    ensures offset == (if p[4] >= 0x80 then 20 else 8)
  {
    PacketPrefixSize + HeaderSize(p)
  }

  /** The data area itself, as a view of the packet's remaining bytes. */
  function GetData(p: seq<uint8>): (data: seq<uint8>)
    requires HasModeByte(p)
    requires |p| >= GetDataOffset(p)
    ensures |data| == |p| - GetDataOffset(p)
    ensures forall k :: 0 <= k < |data| ==> data[k] == p[GetDataOffset(p) + k]
  {
    p[GetDataOffset(p)..]
  }

  /** arv_gvsp_packet_get_data_size. `size_t` is taken as 64 bits wide; the
      subtraction is unchecked and wraps when `packetSize` is smaller than
      the headers. */
  function GetDataSize(p: seq<uint8>, packetSize: nat64): (size: nat64)
    requires HasModeByte(p)
    ensures packetSize >= GetDataOffset(p) ==> size == packetSize - GetDataOffset(p)
    ensures packetSize < GetDataOffset(p) ==> size == packetSize + Uint64Modulus - GetDataOffset(p)
  {
    if HasExtendedIds(p) then
      Wrap64(Wrap64(packetSize - PacketPrefixSize) - ExtendedHeaderSize)
    else
      Wrap64(Wrap64(packetSize - PacketPrefixSize) - CompactHeaderSize)
  }

  /** Whether the packet holds the `width` bytes of the leader field at
      `at` bytes into the data area. */
  predicate HasLeaderField(p: seq<uint8>, at: nat, width: nat) {
    HasModeByte(p) && |p| >= GetDataOffset(p) + at + width
  }

  /** The ten wire codes the payload-type switch recognises. */
  const KnownPayloadTypes: set<uint16> := {
    PayloadTypeImage, PayloadTypeRawdata, PayloadTypeFile, PayloadTypeChunkData,
    PayloadTypeExtendedChunkData, PayloadTypeJpeg, PayloadTypeJpeg2000,
    PayloadTypeH264, PayloadTypeMultizoneImage, PayloadTypeImageExtendedChunk
  }

  /** The switch of arv_gvsp_packet_get_buffer_payload_type: total, with
      every code outside the table mapping to Unknown. */
  function BufferPayloadTypeOf(code: uint16): (kind: BufferPayloadType)
    ensures kind != Unknown <==> code in KnownPayloadTypes
  {
    if code == PayloadTypeImage then Image
    else if code == PayloadTypeRawdata then Rawdata
    else if code == PayloadTypeFile then File
    else if code == PayloadTypeChunkData then ChunkData
    else if code == PayloadTypeExtendedChunkData then ExtendedChunkData
    else if code == PayloadTypeJpeg then Jpeg
    else if code == PayloadTypeJpeg2000 then Jpeg2000
    else if code == PayloadTypeH264 then H264
    else if code == PayloadTypeMultizoneImage then MultizoneImage
    else if code == PayloadTypeImageExtendedChunk then ImageExtendedChunk
    else Unknown
  }

  /** The leader's 16-bit payload-type code. */
  function GetLeaderPayloadType(p: seq<uint8>): (code: uint16)
    requires HasLeaderField(p, LeaderPayloadTypeAt, 2)
    ensures code as int == BigEndian(p[GetDataOffset(p) + 2..GetDataOffset(p) + 4])
  {
    BE16IsBigEndian(p, GetDataOffset(p) + LeaderPayloadTypeAt);
    BE16(p, GetDataOffset(p) + LeaderPayloadTypeAt)
  }

  /** arv_gvsp_packet_get_buffer_payload_type. */
  function GetBufferPayloadType(p: seq<uint8>): (kind: BufferPayloadType)
    requires HasLeaderField(p, LeaderPayloadTypeAt, 2)
    ensures kind != Unknown <==> GetLeaderPayloadType(p) in KnownPayloadTypes
  {
    BufferPayloadTypeOf(GetLeaderPayloadType(p))
  }

  /** arv_gvsp_packet_get_x_offset. */
  function GetXOffset(p: seq<uint8>): (x: uint32)
    requires HasLeaderField(p, LeaderXOffsetAt, 4)
    ensures x as int == BigEndian(p[GetDataOffset(p) + 24..GetDataOffset(p) + 28])
  {
    BE32IsBigEndian(p, GetDataOffset(p) + LeaderXOffsetAt);
    BE32(p, GetDataOffset(p) + LeaderXOffsetAt)
  }

  /** arv_gvsp_packet_get_y_offset. */
  function GetYOffset(p: seq<uint8>): (y: uint32)
    requires HasLeaderField(p, LeaderYOffsetAt, 4)
    ensures y as int == BigEndian(p[GetDataOffset(p) + 28..GetDataOffset(p) + 32])
  {
    BE32IsBigEndian(p, GetDataOffset(p) + LeaderYOffsetAt);
    BE32(p, GetDataOffset(p) + LeaderYOffsetAt)
  }

  /** arv_gvsp_packet_get_width. */
  function GetWidth(p: seq<uint8>): (w: uint32)
    requires HasLeaderField(p, LeaderWidthAt, 4)
    ensures w as int == BigEndian(p[GetDataOffset(p) + 16..GetDataOffset(p) + 20])
  {
    BE32IsBigEndian(p, GetDataOffset(p) + LeaderWidthAt);
    BE32(p, GetDataOffset(p) + LeaderWidthAt)
  }

  /** arv_gvsp_packet_get_height. */
  function GetHeight(p: seq<uint8>): (h: uint32)
    requires HasLeaderField(p, LeaderHeightAt, 4)
    ensures h as int == BigEndian(p[GetDataOffset(p) + 20..GetDataOffset(p) + 24])
  {
    BE32IsBigEndian(p, GetDataOffset(p) + LeaderHeightAt);
    BE32(p, GetDataOffset(p) + LeaderHeightAt)
  }

  /** arv_gvsp_packet_get_pixel_format; the pixel format is an opaque code. */
  function GetPixelFormat(p: seq<uint8>): (f: uint32)
    requires HasLeaderField(p, LeaderPixelFormatAt, 4)
    ensures f as int == BigEndian(p[GetDataOffset(p) + 12..GetDataOffset(p) + 16])
  {
    BE32IsBigEndian(p, GetDataOffset(p) + LeaderPixelFormatAt);
    BE32(p, GetDataOffset(p) + LeaderPixelFormatAt)
  }

  /** The leader's 64-bit tick count, `timestamp_high << 32 | timestamp_low`. */
  function GetTicks(p: seq<uint8>): (ticks: nat64)
    requires HasLeaderField(p, LeaderTimestampHighAt, 8)
    ensures ticks == BigEndian(p[GetDataOffset(p) + 4..GetDataOffset(p) + 12])
  {
    BE64Join(p, GetDataOffset(p) + LeaderTimestampHighAt);
    BE64IsBigEndian(p, GetDataOffset(p) + LeaderTimestampHighAt);
    Join32(BE32(p, GetDataOffset(p) + LeaderTimestampHighAt), BE32(p, GetDataOffset(p) + LeaderTimestampLowAt))
  }
}
