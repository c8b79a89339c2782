/**
 * The byte-stream parser's decisions, as functions of what the link
 * delivers: preamble matching, the receive-buffer capacity check, and the
 * validation of a packet body.
 */
module Framing {
  import opened Bytes
  import opened Defines
  import opened Conf
  import opened Wire
  import opened XferTypes

  // ---------------------------------------------------------------------
  // Preamble matching

  /**
   * One byte seen while waiting for the preamble, with `i` bytes already
   * matched: a match advances, a mismatch restarts from 0 and the byte is
   * dropped without being compared with the preamble's first byte.
   */
  function Advance(i: nat, b: byte): (j: nat)
    requires i < PACK_PREAM_FIELD_LEN
    ensures j == 0 || (j == i + 1 && b == PreambleBytes()[i])
    ensures b == PreambleBytes()[i] ==> j == i + 1
  {
    if b == PreambleBytes()[i] then i + 1 else 0
  }

  /** Where matching resumes: after a completed preamble, from the start. */
  function Resume(i: nat): (j: nat)
    requires i <= PACK_PREAM_FIELD_LEN
    ensures j < PACK_PREAM_FIELD_LEN
  {
    if i == PACK_PREAM_FIELD_LEN then 0 else i
  }

  /**
   * The match index after the matcher has consumed `heard` starting from 0;
   * 4 means the last byte completed the preamble. After a completion the
   * matcher starts again from 0.
   */
  function MatchState(heard: Bytes): (i: nat)
    ensures i <= PACK_PREAM_FIELD_LEN
  {
    if heard == [] then 0
    else Advance(Resume(MatchState(heard[..|heard| - 1])), heard[|heard| - 1])
  }

  /** The bytes matched so far are the last bytes heard: a completion means the last four bytes were the preamble. */
  lemma {:induction false} MatchStateIsSuffix(heard: Bytes)
    ensures MatchState(heard) <= |heard|
    ensures heard[|heard| - MatchState(heard)..] == PreambleBytes()[..MatchState(heard)]
  {
    if heard != [] {
      var front := heard[..|heard| - 1];
      MatchStateIsSuffix(front);
      var i := Resume(MatchState(front));
      var j := MatchState(heard);
      if j > 0 {
        assert j == i + 1;
        assert heard[|heard| - j..] == front[|front| - i..] + [heard[|heard| - 1]];
      }
    }
  }

  /** Hearing one more byte advances the matcher from where it stood. */
  lemma MatchStateStep(heard: Bytes, b: byte)
    ensures MatchState(heard + [b]) == Advance(Resume(MatchState(heard)), b)
  {
  }

  /** The matcher completes only on a preamble: the last four bytes heard. */
  lemma MatchCompleteIsPreamble(heard: Bytes)
    requires MatchState(heard) == PACK_PREAM_FIELD_LEN
    ensures |heard| >= PACK_PREAM_FIELD_LEN && heard[|heard| - PACK_PREAM_FIELD_LEN..] == PreambleBytes()
  {
    MatchStateIsSuffix(heard);
  }

  /**
   * A false start hides a preamble that begins right after it: the byte that
   * breaks a partial match is dropped, not taken as a new first byte.
   */
  lemma FalseStartHidesPreamble()
    ensures var s := [0xEF, 0xEF, 0xBE, 0xAD, 0xDE];
      s[1..] == PreambleBytes() && MatchState(s) == 0
  {
    var s: Bytes := [0xEF, 0xEF, 0xBE, 0xAD, 0xDE];
    assert s[..1][..0] == [];
    assert MatchState(s[..1]) == 1;
    assert s[..2][..1] == s[..1];
    assert MatchState(s[..2]) == 0;
    assert s[..3][..2] == s[..2];
    assert MatchState(s[..3]) == 0;
    assert s[..4][..3] == s[..3];
    assert MatchState(s[..4]) == 0;
    assert s[..4] == s[..|s| - 1];
  }

  // ---------------------------------------------------------------------
  // Receive-buffer capacity

  /** The declared payload plus its checksum fit in the receive buffer after `fill` bytes. */
  predicate Fits(fill: nat, len: nat) {
    fill + len + PACK_CRC_FIELD_LEN <= RX_BUF_SIZE
  }

  /** The capacity test as the source computes it, on 16-bit unsigned values. */
  predicate FitsAsWritten(fill: u16, len: u16) {
    !(Wrap16(RX_BUF_SIZE - fill) < Wrap16(len + PACK_CRC_FIELD_LEN))
  }

  /** The length of the second read as the source computes it. */
  function BodyReadLenAsWritten(len: u16): u16 {
    Wrap16(len + PACK_CRC_FIELD_LEN)
  }

  /** After a full header, the capacity test passes exactly for payloads of at most the default window. */
  lemma FitsAfterHeader(len: nat)
    ensures Fits(PACK_PAYLOAD_IND, len) <==> len <= DEFAULT_WINDOW_SIZE
  {
  }

  /** The source's test agrees with the capacity test while `len + 4` does not wrap. */
  lemma FitsAsWrittenBelowWrap(fill: u16, len: u16)
    requires fill <= RX_BUF_SIZE && len + PACK_CRC_FIELD_LEN < 0x1_0000
    ensures FitsAsWritten(fill, len) <==> Fits(fill, len)
  {
  }

  /**
   * A declared length of 65535 passes the source's test (`len + 4` wraps to 3)
   * and the second read asks for 3 bytes instead of 65539.
   */
  lemma FitsAsWrittenAdmitsHugeLength()
    ensures FitsAsWritten(PACK_PAYLOAD_IND, 0xFFFF)
    ensures !Fits(PACK_PAYLOAD_IND, 0xFFFF)
    ensures BodyReadLenAsWritten(0xFFFF) == 3
  {
  }

  // ---------------------------------------------------------------------
  // Packet body

  /** What the body state makes of the bytes the link holds, after a preamble. */
  datatype BodyScan =
    | ShortHeader                // fewer than 3 bytes for id and length
    | NoRoom                     // the declared payload does not fit
    | ShortBody                  // fewer bytes than payload plus checksum
    | BadCrc(frame: Bytes)       // a whole packet whose checksum is wrong
    | Accepted(frame: Bytes)     // a whole packet whose checksum holds

  const HEADER_READ_LEN := PACK_MSGID_FIELD_LEN + PACK_LEN_FIELD_LEN

  /** The payload length declared by the 3 header bytes read after the preamble. */
  function DeclaredLen(input: Bytes): u16
    requires |input| >= HEADER_READ_LEN
  {
    FromLE16(input[PACK_MSGID_FIELD_LEN..HEADER_READ_LEN])
  }

  /**
   * The body state's verdict: the header is incomplete; or the declared
   * payload exceeds the default window; or a whole packet has arrived, the
   * preamble and the bytes up to its checksum, which then decides between
   * accepting and refusing it; or else the payload is still incomplete.
   */
  function ScanBody(crc: Checksum, input: Bytes): (r: BodyScan)
    ensures r.ShortHeader? <==> |input| < HEADER_READ_LEN
    ensures r.NoRoom? <==> |input| >= HEADER_READ_LEN && DeclaredLen(input) > DEFAULT_WINDOW_SIZE
    ensures r.ShortBody? ==> HEADER_READ_LEN <= |input| < HEADER_READ_LEN + DeclaredLen(input) + PACK_CRC_FIELD_LEN
    ensures (r.BadCrc? || r.Accepted?) ==>
      |input| >= HEADER_READ_LEN && DeclaredLen(input) <= DEFAULT_WINDOW_SIZE &&
      |r.frame| == PACK_OVERHEAD + DeclaredLen(input) && PACK_PREAM_FIELD_LEN <= |r.frame| <= |input| + PACK_PREAM_FIELD_LEN &&
      r.frame == PreambleBytes() + input[..|r.frame| - PACK_PREAM_FIELD_LEN]
    ensures r.Accepted? ==> CrcHolds(crc, r.frame)
    ensures r.BadCrc? ==> !CrcHolds(crc, r.frame)
  {
    if |input| < HEADER_READ_LEN then ShortHeader
    else
      var len := DeclaredLen(input);
      if !Fits(PACK_PAYLOAD_IND, len) then NoRoom
      else if |input| < HEADER_READ_LEN + len + PACK_CRC_FIELD_LEN then ShortBody
      else
        var frame := PreambleBytes() + input[..HEADER_READ_LEN + len + PACK_CRC_FIELD_LEN];
        if CrcHolds(crc, frame) then Accepted(frame) else BadCrc(frame)
  }

  /**
   * What one run of the body state does to the engine: the parse state it
   * leaves, whether the session falls back to IDLE, how many bytes it takes
   * from the link, and the replies it sends.
   */
  datatype BodyStep = BodyStep(next: ParseState, toIdle: bool, consumed: nat, replies: seq<Msg>)

  /**
   * A short read takes what the link held and drops the session; a payload
   * that does not fit is refused with NACK(NO_MEMORY) after its header; a
   * whole packet is taken, and then either processed or refused with
   * NACK(WRONG_CRC), the session kept.
   */
  function BodyStepOf(crc: Checksum, input: Bytes): (r: BodyStep)
    ensures r.consumed <= |input|
    ensures r.next == ProcessMsg <==> ScanBody(crc, input).Accepted?
    ensures r.next != WaitBody && (r.toIdle ==> r.next == WaitPreamble)
    ensures |r.replies| <= 1 && (r.replies != [] ==> r.replies[0].id == PACK_NACK && r.next == WaitPreamble)
  {
    match ScanBody(crc, input)
      case ShortHeader => BodyStep(WaitPreamble, true, |input|, [])
      case NoRoom => BodyStep(WaitPreamble, true, HEADER_READ_LEN, [NackMsg(NACK_ERR_NO_MEMORY)])
      case ShortBody => BodyStep(WaitPreamble, true, |input|, [])
      case BadCrc(f) => BodyStep(WaitPreamble, false, |f| - PACK_PREAM_FIELD_LEN, [NackMsg(NACK_ERR_WRONG_CRC)])
      case Accepted(f) => BodyStep(ProcessMsg, false, |f| - PACK_PREAM_FIELD_LEN, [])
  }

  /** The header is short: the body state gives up. */
  lemma ScanShortHeader(crc: Checksum, input: Bytes)
    requires |input| < HEADER_READ_LEN
    ensures ScanBody(crc, input) == ShortHeader
  {
  }

  /** The declared payload does not fit: the body state refuses it. */
  lemma ScanNoRoom(crc: Checksum, input: Bytes)
    requires |input| >= HEADER_READ_LEN && !Fits(PACK_PAYLOAD_IND, DeclaredLen(input))
    ensures ScanBody(crc, input) == NoRoom
  {
  }

  /** The payload fits but has not all arrived: the body state gives up. */
  lemma ScanShortBody(crc: Checksum, input: Bytes)
    requires |input| >= HEADER_READ_LEN && Fits(PACK_PAYLOAD_IND, DeclaredLen(input))
    requires |input| < HEADER_READ_LEN + DeclaredLen(input) + PACK_CRC_FIELD_LEN
    ensures ScanBody(crc, input) == ShortBody
  {
  }

  /** The whole packet has arrived: the body state judges its checksum. */
  lemma ScanWholeBody(crc: Checksum, input: Bytes)
    requires |input| >= HEADER_READ_LEN && Fits(PACK_PAYLOAD_IND, DeclaredLen(input))
    requires |input| >= HEADER_READ_LEN + DeclaredLen(input) + PACK_CRC_FIELD_LEN
    ensures var f := PreambleBytes() + input[..HEADER_READ_LEN + DeclaredLen(input) + PACK_CRC_FIELD_LEN];
      ScanBody(crc, input) == (if CrcHolds(crc, f) then Accepted(f) else BadCrc(f))
  {
  }

  /** The header read right after the preamble: the receive buffer's first 7 bytes, and the length they declare. */
  lemma HeaderBytes(buf: Bytes, input: Bytes)
    requires |input| >= HEADER_READ_LEN && buf == PreambleBytes() + input[..HEADER_READ_LEN]
    ensures |buf| == PACK_PAYLOAD_IND && FromLE16(buf[PACK_LEN_IND..PACK_PAYLOAD_IND]) == DeclaredLen(input)
  {
  }

  /** The second read appends payload and checksum to the header: the buffer then holds preamble and input up to there. */
  lemma PayloadBytes(buf: Bytes, input: Bytes, n: nat)
    requires HEADER_READ_LEN + n <= |input|
    requires buf == PreambleBytes() + input[..HEADER_READ_LEN] + input[HEADER_READ_LEN..][..n]
    ensures buf == PreambleBytes() + input[..HEADER_READ_LEN + n]
    ensures input[HEADER_READ_LEN..][n..] == input[HEADER_READ_LEN + n..]
  {
  }

  /** A packet built by the codec, arriving whole after its preamble, is accepted as it was built. */
  lemma EncodedPacketAccepted(crc: Checksum, m: Msg, rest: Bytes)
    requires |m.payload| <= DEFAULT_WINDOW_SIZE
    ensures ScanBody(crc, Encode(crc, m)[PACK_MSGID_IND..] + rest) == Accepted(Encode(crc, m))
  {
    var p := Encode(crc, m);
    var input := p[PACK_MSGID_IND..] + rest;
    EncodeLayout(crc, m);
    assert input[PACK_MSGID_FIELD_LEN..HEADER_READ_LEN] == p[PACK_LEN_IND..PACK_PAYLOAD_IND];
    assert input[..HEADER_READ_LEN + |m.payload| + PACK_CRC_FIELD_LEN] == p[PACK_MSGID_IND..];
    assert PreambleBytes() + p[PACK_MSGID_IND..] == p;
    assert p[|p| - PACK_CRC_FIELD_LEN..] == p[PACK_PAYLOAD_IND + |m.payload|..];
  }

  /** An accepted frame is a codec packet of a message that fits the receive buffer. */
  lemma AcceptedIsEncoded(crc: Checksum, input: Bytes)
    requires ScanBody(crc, input).Accepted?
    ensures var f := ScanBody(crc, input).frame;
      Decode(crc, f).Some? && |Decode(crc, f).value.payload| <= DEFAULT_WINDOW_SIZE &&
      Encode(crc, Decode(crc, f).value) == f
  {
    var f := ScanBody(crc, input).frame;
    assert f[..PACK_MSGID_IND] == PreambleBytes();
    assert f[PACK_LEN_IND..PACK_PAYLOAD_IND] == input[PACK_MSGID_FIELD_LEN..HEADER_READ_LEN];
    EncodeDecode(crc, f);
  }
}
