/**
 * The packet codec: the fixed layout
 *   [preamble:4][msg id:1][payload length:2][payload][crc32:4]
 * that the fill functions build in the send buffer, and its decoding.
 */
module Wire {
  import opened Bytes
  import opened Defines
  import opened Wrappers

  /** A message before framing: its id and its payload. */
  datatype Msg = Msg(id: byte, payload: Bytes)

  /** `crc32_compute_buf(0, ·)`, a foreign function the model leaves uninterpreted. */
  type Checksum = Bytes -> u32

  /** The length field is 16 bits wide. */
  predicate Framable(m: Msg) {
    |m.payload| < 0x1_0000
  }

  /** The preamble as it appears on the wire (little-endian). */
  function PreambleBytes(): (r: Bytes)
    ensures r == [0xEF, 0xBE, 0xAD, 0xDE]
  {
    LE32(PACK_PREAMBLE)
  }

  /** Everything the checksum covers: preamble, id, length and payload. */
  function Head(m: Msg): (r: Bytes)
    requires Framable(m)
    ensures |r| == PACK_PAYLOAD_IND + |m.payload|
  {
    PreambleBytes() + [m.id] + LE16(|m.payload|) + m.payload
  }

  /**
   * The packet the fill functions build for `m`: the overhead plus the
   * payload, starting with the preamble, its checksum holding.
   */
  function Encode(crc: Checksum, m: Msg): (r: Bytes)
    requires Framable(m)
    ensures |r| == PACK_OVERHEAD + |m.payload|
    ensures r[..PACK_MSGID_IND] == PreambleBytes() && r[PACK_MSGID_IND] == m.id
    ensures CrcHolds(crc, r)
  {
    var h := Head(m);
    LE32RoundTrip(crc(h));
    assert (h + LE32(crc(h)))[..|h|] == h;
    h + LE32(crc(h))
  }

  /** The message `report_nack` sends: the error code as its one payload byte. */
  function NackMsg(code: byte): Msg {
    Msg(PACK_NACK, [code])
  }

  /** The message `report_ack` sends: no payload. */
  function AckMsg(): Msg {
    Msg(PACK_ACK, [])
  }

  /** The trailing four bytes are the checksum of everything before them. */
  predicate CrcHolds(crc: Checksum, frame: Bytes) {
    |frame| >= PACK_CRC_FIELD_LEN &&
    FromLE32(frame[|frame| - PACK_CRC_FIELD_LEN..]) == crc(frame[..|frame| - PACK_CRC_FIELD_LEN])
  }

  /**
   * The message a well-formed packet carries. Only a frame that starts with
   * the preamble, whose checksum holds and whose length field counts its
   * payload decodes; its message is then framable.
   */
  function Decode(crc: Checksum, frame: Bytes): (r: Option<Msg>)
    ensures r.Some? ==> Framable(r.value) && |frame| == PACK_OVERHEAD + |r.value.payload|
    ensures r.Some? ==> frame[..PACK_MSGID_IND] == PreambleBytes() && frame[PACK_MSGID_IND] == r.value.id
    ensures !CrcHolds(crc, frame) ==> r.None?
  {
    if |frame| >= PACK_OVERHEAD
       && frame[..PACK_MSGID_IND] == PreambleBytes()
       && FromLE16(frame[PACK_LEN_IND..PACK_PAYLOAD_IND]) == |frame| - PACK_OVERHEAD
       && CrcHolds(crc, frame)
    then Some(Msg(frame[PACK_MSGID_IND], frame[PACK_PAYLOAD_IND..|frame| - PACK_CRC_FIELD_LEN]))
    else None
  }

  /**
   * The codec's layout: 11 bytes plus the payload; preamble, id, length
   * and payload at their offsets; the checksum of the first 7+n bytes last.
   */
  lemma EncodeLayout(crc: Checksum, m: Msg)
    requires Framable(m)
    ensures var r, n := Encode(crc, m), |m.payload|;
      |r| == PACK_OVERHEAD + n &&
      r[..PACK_MSGID_IND] == PreambleBytes() &&
      r[PACK_MSGID_IND] == m.id &&
      FromLE16(r[PACK_LEN_IND..PACK_PAYLOAD_IND]) == n &&
      r[PACK_PAYLOAD_IND..PACK_PAYLOAD_IND + n] == m.payload &&
      FromLE32(r[PACK_PAYLOAD_IND + n..]) == crc(r[..PACK_PAYLOAD_IND + n])
  {
  }

  /** Decoding a built packet gives back its message. */
  lemma DecodeEncode(crc: Checksum, m: Msg)
    requires Framable(m)
    ensures Decode(crc, Encode(crc, m)) == Some(m)
  {
  }

  /** Only built packets decode: a decoded frame is the encoding of its message. */
  lemma EncodeDecode(crc: Checksum, frame: Bytes)
    requires Decode(crc, frame).Some?
    ensures Framable(Decode(crc, frame).value)
    ensures Encode(crc, Decode(crc, frame).value) == frame
  {
    var m := Decode(crc, frame).value;
    var n := |frame| - PACK_OVERHEAD;
    assert |m.payload| == n;
    LE16Injective(frame[PACK_LEN_IND..PACK_PAYLOAD_IND]);
    assert frame[..PACK_PAYLOAD_IND + n] == Head(m);
    LE32Injective(frame[PACK_PAYLOAD_IND + n..]);
    assert frame == frame[..PACK_PAYLOAD_IND + n] + frame[PACK_PAYLOAD_IND + n..];
  }
}
