/** Build-time configuration (inc/fileXferConf.h). */
module Conf {
  import opened Defines

  /** The payload size this end advertises in its handshake response. */
  const DEFAULT_WINDOW_SIZE := 256

  /** Capacity of the buffer outgoing packets are built in. */
  const TX_BUF_SIZE := 256

  /** Capacity of the buffer incoming packets are reassembled in. */
  const RX_BUF_SIZE := PACK_PREAM_FIELD_LEN + PACK_MSGID_FIELD_LEN + PACK_LEN_FIELD_LEN
                       + DEFAULT_WINDOW_SIZE + PACK_CRC_FIELD_LEN

  /** Ticks a request helper waits for the answer before giving up. */
  const RESPONSE_TIMEOUT_TICKS := 1000

  /** Bytes kept of the file name announced by an incoming FILE_SEND_REQ. */
  const FILE_NAME_LEN_MAX := 16

  /** The receive buffer holds exactly one packet with a default-window payload. */
  lemma RxHoldsOneFullPacket()
    ensures RX_BUF_SIZE == PACK_OVERHEAD + DEFAULT_WINDOW_SIZE == 267
  {
  }
}
