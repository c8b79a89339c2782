/** Packet layout, message identifiers and NACK codes (inc/fileXferDefines.h). */
module Defines {
  import opened Bytes
  import opened Wrappers

  const PACK_PREAMBLE: u32 := 0xDEAD_BEEF

  // Packet field indexes
  const PACK_MSGID_IND := 4
  const PACK_LEN_IND := 5
  const PACK_PAYLOAD_IND := 7

  // Packet field lengths
  const PACK_PREAM_FIELD_LEN := 4
  const PACK_MSGID_FIELD_LEN := 1
  const PACK_LEN_FIELD_LEN := 2
  const PACK_CRC_FIELD_LEN := 4

  /** Bytes a packet occupies besides its payload. */
  const PACK_OVERHEAD := PACK_PAYLOAD_IND + PACK_CRC_FIELD_LEN

  // Packet ids
  const PACKS_NUM := 12
  const PACK_ID_MIN := 1
  const PACK_ID_MAX := 11
  const PACK_HANDSHAKE_REQ: byte := 1
  const PACK_HANDSHAKE_RES: byte := 2
  const PACK_FILES_LIST_REQ: byte := 3
  const PACK_FILES_LIST_RES: byte := 4
  const PACK_FILE_HASH_REQ: byte := 5
  const PACK_FILE_HASH_RES: byte := 6
  const PACK_FILE_SEND_REQ: byte := 7
  const PACK_FILE_RECEIVE_REQ: byte := 8
  const PACK_FILE_DATA: byte := 9
  const PACK_ACK: byte := 10
  const PACK_NACK: byte := 11

  // NACK error codes
  const NACK_ERR_NO_HANDSHAKE: byte := 1
  const NACK_ERR_WRONG_CRC: byte := 2
  const NACK_ERR_UNEXPECTED_PACKET: byte := 3
  const NACK_ERR_BAD_REQUEST: byte := 4
  const NACK_ERR_NO_MEMORY: byte := 5

  /** Length of the segment-index prefix of a FILE_DATA payload. */
  const SEG_IND_LEN := 2

  /** The field offsets are the running sums of the field lengths. */
  lemma OffsetsAreRunningSums()
    ensures PACK_MSGID_IND == PACK_PREAM_FIELD_LEN
    ensures PACK_LEN_IND == PACK_MSGID_IND + PACK_MSGID_FIELD_LEN
    ensures PACK_PAYLOAD_IND == PACK_LEN_IND + PACK_LEN_FIELD_LEN
    ensures PACK_OVERHEAD == 11
  {
  }

  /**
   * The message kinds, in the order of the engine's dispatch table; the
   * table's slot 0 (`default_handler`) has no kind.
   */
  datatype MsgKind =
    | HandshakeReq | HandshakeRes
    | FilesListReq | FilesListRes
    | FileHashReq | FileHashRes
    | FileSendReq | FileReceiveReq
    | FileData | Ack | Nack
  {
    /** The id carried on the wire. */
    function Id(): (id: byte)
      ensures PACK_ID_MIN <= id <= PACK_ID_MAX
    {
      match this
      case HandshakeReq => PACK_HANDSHAKE_REQ
      case HandshakeRes => PACK_HANDSHAKE_RES
      case FilesListReq => PACK_FILES_LIST_REQ
      case FilesListRes => PACK_FILES_LIST_RES
      case FileHashReq => PACK_FILE_HASH_REQ
      case FileHashRes => PACK_FILE_HASH_RES
      case FileSendReq => PACK_FILE_SEND_REQ
      case FileReceiveReq => PACK_FILE_RECEIVE_REQ
      case FileData => PACK_FILE_DATA
      case Ack => PACK_ACK
      case Nack => PACK_NACK
    }
  }

  /** The dispatch: the range check of the message processor followed by the table lookup. */
  function KindOf(id: byte): (k: Option<MsgKind>)
    ensures k.Some? <==> PACK_ID_MIN <= id <= PACK_ID_MAX
    ensures k.Some? ==> k.value.Id() == id && id < PACKS_NUM
  {
    if id == PACK_HANDSHAKE_REQ then Some(HandshakeReq)
    else if id == PACK_HANDSHAKE_RES then Some(HandshakeRes)
    else if id == PACK_FILES_LIST_REQ then Some(FilesListReq)
    else if id == PACK_FILES_LIST_RES then Some(FilesListRes)
    else if id == PACK_FILE_HASH_REQ then Some(FileHashReq)
    else if id == PACK_FILE_HASH_RES then Some(FileHashRes)
    else if id == PACK_FILE_SEND_REQ then Some(FileSendReq)
    else if id == PACK_FILE_RECEIVE_REQ then Some(FileReceiveReq)
    else if id == PACK_FILE_DATA then Some(FileData)
    else if id == PACK_ACK then Some(Ack)
    else if id == PACK_NACK then Some(Nack)
    else None
  }

  /** Every kind is found again from its id, so the eleven ids are distinct. */
  lemma KindOfId(k: MsgKind)
    ensures KindOf(k.Id()) == Some(k)
  {
  }

  /** The NACK codes are distinct and each fits the one-byte NACK payload. */
  lemma NackCodesDistinct()
    ensures |{NACK_ERR_NO_HANDSHAKE, NACK_ERR_WRONG_CRC, NACK_ERR_UNEXPECTED_PACKET,
              NACK_ERR_BAD_REQUEST, NACK_ERR_NO_MEMORY}| == 5
  {
  }
}
