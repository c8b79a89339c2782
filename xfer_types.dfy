/** The engine's state enumerations and status record (inc/fileXfer.h). */
module XferTypes {
  import opened Bytes
  import opened Defines
  import opened Conf

  const PARSE_STATES_NUM := 3

  /** The three phases of reassembling one packet from the byte stream. */
  datatype ParseState = WaitPreamble | WaitBody | ProcessMsg
  {
    /** Position in the engine's table of parser functions. */
    function Code(): (c: nat)
      ensures c < PARSE_STATES_NUM
    {
      match this
      case WaitPreamble => 0
      case WaitBody => 1
      case ProcessMsg => 2
    }
  }

  /** Which exchange, if any, is in flight. */
  datatype SessionState =
    | Idle
    | WaitHandshake
    | WaitFileHash
    | WaitFilesList
    | WaitAck
    | WaitFileSendAck
    | WaitFileReqAck
    | WaitFile
    | ErrReceived
  {
    /** WAIT_FILESEND_ACK and WAIT_FILEREQ_ACK are declared, but no statement of the engine assigns them. */
    predicate Assignable() {
      !WaitFileSendAck? && !WaitFileReqAck?
    }
  }

  // Values of the error-state enumeration. The field that holds them is
  // assigned the raw NACK code byte, so it is modelled as a byte.
  const NO_ERROR: byte := 0
  const ERR_NO_HANDSHAKE: byte := 1
  const ERR_WRONG_CRC: byte := 2
  const ERR_UNEXPECTED_PACKET: byte := 3
  const ERR_BAD_REQUEST: byte := 4
  const ERR_NO_MEMORY: byte := 5

  /** A received NACK code stored as the last error reads as the matching error state. */
  lemma ErrorStatesMatchNackCodes()
    ensures ERR_NO_HANDSHAKE == NACK_ERR_NO_HANDSHAKE
    ensures ERR_WRONG_CRC == NACK_ERR_WRONG_CRC
    ensures ERR_UNEXPECTED_PACKET == NACK_ERR_UNEXPECTED_PACKET
    ensures ERR_BAD_REQUEST == NACK_ERR_BAD_REQUEST
    ensures ERR_NO_MEMORY == NACK_ERR_NO_MEMORY
    ensures NO_ERROR !in {NACK_ERR_NO_HANDSHAKE, NACK_ERR_WRONG_CRC, NACK_ERR_UNEXPECTED_PACKET,
                          NACK_ERR_BAD_REQUEST, NACK_ERR_NO_MEMORY}
  {
  }

  /**
   * The part of the status record that the message handlers and the request
   * helpers read and write: the stored file name, the handshake flag, the
   * peer's window, the session state and the last error. The fill counters
   * and the parse state belong to the codec and the parser.
   */
  datatype Status = Status(
    fileName: Bytes,
    handshakeDone: bool,
    peerWindow: u16,
    state: SessionState,
    lastError: byte)
  {
    ghost predicate Valid() {
      |fileName| == FILE_NAME_LEN_MAX && state.Assignable()
    }
  }
}
