/** The payload-type table of arv_gvsp_packet_get_buffer_payload_type:
    total over all 16-bit codes, one-to-one on the ten known codes, and
    Unknown everywhere else. */
module GvspPayloadTypes {
  import opened Bytes
  import opened Gvsp

  /** The wire code of a known buffer kind: the table read backwards. */
  function WireCode(kind: BufferPayloadType): (code: uint16)
    requires kind != Unknown
    ensures code in KnownPayloadTypes
  {
    match kind
    case Image => PayloadTypeImage
    case Rawdata => PayloadTypeRawdata
    case File => PayloadTypeFile
    case ChunkData => PayloadTypeChunkData
    case ExtendedChunkData => PayloadTypeExtendedChunkData
    case Jpeg => PayloadTypeJpeg
    case Jpeg2000 => PayloadTypeJpeg2000
    case H264 => PayloadTypeH264
    case MultizoneImage => PayloadTypeMultizoneImage
    case ImageExtendedChunk => PayloadTypeImageExtendedChunk
  }

  /** Every known buffer kind is reached, from its own wire code. */
  lemma WireCodeRoundTrip(kind: BufferPayloadType)
    requires kind != Unknown
    ensures BufferPayloadTypeOf(WireCode(kind)) == kind
  {
  }

  /** A known code is recovered from its buffer kind, so distinct known
      codes map to distinct kinds. */
  lemma KindDeterminesCode(code: uint16)
    requires code in KnownPayloadTypes
    ensures BufferPayloadTypeOf(code) != Unknown
    ensures WireCode(BufferPayloadTypeOf(code)) == code
  {
  }

  lemma KnownCodesDistinctKinds(c1: uint16, c2: uint16)
    requires c1 in KnownPayloadTypes && c2 in KnownPayloadTypes && c1 != c2
    ensures BufferPayloadTypeOf(c1) != BufferPayloadTypeOf(c2)
  {
    KindDeterminesCode(c1);
    KindDeterminesCode(c2);
  }

  /** There are exactly ten known codes. */
  lemma TenKnownCodes()
    ensures |KnownPayloadTypes| == 10
  {
  }
}
