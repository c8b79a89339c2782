/**
 * The protocol engine itself (src/fileXfer.c): the status record, the
 * preamble counter and the two packet buffers, with the codec that builds
 * packets in the send buffer, the three parser states that reassemble
 * packets in the receive buffer, and the blocking request helpers.
 */
module Engine {
  import opened Bytes
  import opened Defines
  import opened Conf
  import opened XferTypes
  import opened Wire
  import opened Wrappers
  import opened Framing
  import opened Sessions
  import opened Requests
  import opened Segmentation
  import opened Sending

  class FileXfer {
    /** `crc32_compute_buf(0, ·)`. */
    const crc: Checksum
    /** `tx_buf`: outgoing packets are built here. */
    const tx: array<byte>
    /** `rx_buf`: incoming packets are reassembled here. */
    const rx: array<byte>

    // The fields of `fxfer_status`.
    var fileName: Bytes          // file_name_temp, FILE_NAME_LEN_MAX bytes
    var handshakeDone: bool
    var peerWindow: u16          // respondent_winsize
    var txFill: u16              // tx_buf_fill_size
    var rxFill: u16              // rx_buf_fill_size
    var parseState: ParseState
    var session: SessionState
    var lastError: byte

    /** `pream_ind`: how many preamble bytes are matched so far. */
    var preambleIndex: nat

    /** The bytes the link has delivered and the engine has not read yet. */
    var inbox: Bytes

    /** Every byte read while waiting for a preamble. */
    ghost var heard: Bytes
    /** The messages handed to `platform_send`, each sent as its codec packet. */
    ghost var sent: seq<Msg>
    /** The packet the body state accepted last: the one the receive buffer holds while it is processed. */
    ghost var frame: Bytes
    /** The host callbacks the handlers made. */
    ghost var upcalls: seq<Upcall>

    /** The handler-visible part of the status record. */
    function Current(): Status
      reads this`fileName, this`handshakeDone, this`peerWindow, this`session, this`lastError
    {
      Status(fileName, handshakeDone, peerWindow, session, lastError)
    }

    /** What holds at every step: buffer sizes, a status the handlers can produce, and the matcher's index. */
    ghost predicate Core()
      reads this`fileName, this`handshakeDone, this`peerWindow, this`session, this`lastError
      reads this`preambleIndex, this`heard, this`rxFill
    {
      Current().Valid() && Matching()
    }

    /** The buffers have their configured sizes, and the matcher's index is what the bytes heard so far leave. */
    ghost predicate Matching()
      reads this`preambleIndex, this`heard, this`rxFill
    {
      tx.Length == TX_BUF_SIZE && rx.Length == RX_BUF_SIZE &&
      preambleIndex == Resume(MatchState(heard)) &&
      rxFill <= RX_BUF_SIZE
    }

    /**
     * The body is awaited right after a preamble, and a message is processed
     * only once a whole packet with a good checksum is in the receive buffer.
     */
    ghost predicate Parsing()
      reads this`rxFill, this`parseState, this`frame, rx
    {
      rx.Length == RX_BUF_SIZE && rxFill <= RX_BUF_SIZE &&
      (parseState == WaitBody ==> rxFill == PACK_PREAM_FIELD_LEN && rx[..PACK_PREAM_FIELD_LEN] == PreambleBytes()) &&
      (parseState == ProcessMsg ==> rx[..rxFill] == frame && Decode(crc, frame).Some?)
    }

    /** What holds between parser steps. */
    ghost predicate Valid()
      reads this`fileName, this`handshakeDone, this`peerWindow, this`session, this`lastError
      reads this`preambleIndex, this`heard, this`rxFill, this`parseState, this`frame, rx
    {
      Core() && Parsing()
    }

    /** The engine as its static initialisers leave it: zeroed buffers, no handshake, waiting for a preamble. */
    constructor(crc: Checksum)
      ensures Valid() && fresh(tx) && fresh(rx)
      ensures this.crc == crc
      ensures Current() == Status(Zeros(FILE_NAME_LEN_MAX), false, 0, Idle, NO_ERROR)
      ensures parseState == WaitPreamble && preambleIndex == 0 && txFill == 0 && rxFill == 0
      ensures inbox == [] && sent == [] && upcalls == []
    {
      this.crc := crc;
      tx := new byte[TX_BUF_SIZE](_ => 0);
      rx := new byte[RX_BUF_SIZE](_ => 0);
      fileName := Zeros(FILE_NAME_LEN_MAX);
      handshakeDone := false;
      peerWindow := 0;
      txFill := 0;
      rxFill := 0;
      parseState := WaitPreamble;
      session := Idle;
      lastError := NO_ERROR;
      preambleIndex := 0;
      inbox := [];
      heard := [];
      sent := [];
      upcalls := [];
    }

    // -------------------------------------------------------------------
    // Packet codec

    /** `fill_preamble`: a packet always restarts at the beginning of the buffer. */
    method FillPreamble()
      requires tx.Length == TX_BUF_SIZE
      modifies this`txFill, tx
      ensures txFill == PACK_PREAM_FIELD_LEN
      ensures tx[..PACK_PREAM_FIELD_LEN] == PreambleBytes()
      ensures tx[PACK_PREAM_FIELD_LEN..] == old(tx[PACK_PREAM_FIELD_LEN..])
    {
      txFill := 0;
      var p := LE32(PACK_PREAMBLE);
      tx[0], tx[1], tx[2], tx[3] := p[0], p[1], p[2], p[3];
      txFill := txFill + PACK_PREAM_FIELD_LEN;
    }

    /** `fill_msg_id`. */
    method FillMsgId(id: byte)
      requires tx.Length == TX_BUF_SIZE
      modifies this`txFill, tx
      ensures txFill == Wrap16(old(txFill) + PACK_MSGID_FIELD_LEN)
      ensures tx[..] == old(tx[..])[PACK_MSGID_IND := id]
    {
      tx[PACK_MSGID_IND] := id;
      txFill := Wrap16(txFill + PACK_MSGID_FIELD_LEN);
    }

    /** `fill_len`. */
    method FillLen(n: u16)
      requires tx.Length == TX_BUF_SIZE
      modifies this`txFill, tx
      ensures txFill == Wrap16(old(txFill) + PACK_LEN_FIELD_LEN)
      ensures tx[..PACK_LEN_IND] == old(tx[..PACK_LEN_IND])
      ensures tx[PACK_LEN_IND..PACK_PAYLOAD_IND] == LE16(n)
      ensures tx[PACK_PAYLOAD_IND..] == old(tx[PACK_PAYLOAD_IND..])
    {
      var b := LE16(n);
      tx[PACK_LEN_IND], tx[PACK_LEN_IND + 1] := b[0], b[1];
      txFill := Wrap16(txFill + PACK_LEN_FIELD_LEN);
    }

    /** `fill_payload`: the copy must stay inside the buffer. */
    method FillPayload(data: Bytes)
      requires tx.Length == TX_BUF_SIZE && PACK_PAYLOAD_IND + |data| <= TX_BUF_SIZE
      modifies this`txFill, tx
      ensures txFill == Wrap16(old(txFill) + |data|)
      ensures tx[..PACK_PAYLOAD_IND] == old(tx[..PACK_PAYLOAD_IND])
      ensures tx[PACK_PAYLOAD_IND..PACK_PAYLOAD_IND + |data|] == data
      ensures tx[PACK_PAYLOAD_IND + |data|..] == old(tx[PACK_PAYLOAD_IND + |data|..])
    {
      forall i | 0 <= i < |data| {
        tx[PACK_PAYLOAD_IND + i] := data[i];
      }
      txFill := Wrap16(txFill + |data|);
    }

    /** `fill_msg_crc`: the checksum of everything filled so far goes right after it. */
    method FillMsgCrc()
      requires tx.Length == TX_BUF_SIZE && txFill + PACK_CRC_FIELD_LEN <= TX_BUF_SIZE
      modifies this`txFill, tx
      ensures txFill == old(txFill) + PACK_CRC_FIELD_LEN
      ensures tx[..txFill] == old(tx[..txFill]) + LE32(crc(old(tx[..txFill])))
    {
      var c := LE32(crc(tx[..txFill]));
      tx[txFill], tx[txFill + 1], tx[txFill + 2], tx[txFill + 3] := c[0], c[1], c[2], c[3];
      txFill := txFill + PACK_CRC_FIELD_LEN;
    }

    /** `send_msg`: hands the filled part of the buffer to the link. */
    method SendMsg(ghost m: Msg)
      requires Framable(m) && txFill <= tx.Length && tx[..txFill] == Encode(crc, m)
      modifies this`sent
      ensures sent == old(sent) + [m]
    {
      sent := sent + [m];
    }

    /**
     * The fill sequence every sender runs (preamble, id, length, payload,
     * checksum) followed by `send_msg`: the buffer then holds exactly the
     * codec packet of `m`.
     */
    method SendMessage(m: Msg)
      requires tx.Length == TX_BUF_SIZE && PACK_OVERHEAD + |m.payload| <= TX_BUF_SIZE
      modifies this`txFill, this`sent, tx
      ensures txFill == PACK_OVERHEAD + |m.payload|
      ensures tx[..txFill] == Encode(crc, m)
      ensures sent == old(sent) + [m]
    {
      var n := |m.payload|;
      FillPreamble();
      FillMsgId(m.id);
      assert tx[..PACK_LEN_IND] == PreambleBytes() + [m.id];
      FillLen(n);
      assert tx[..PACK_PAYLOAD_IND] == PreambleBytes() + [m.id] + LE16(n);
      FillPayload(m.payload);
      assert tx[..PACK_PAYLOAD_IND + n] == tx[..PACK_PAYLOAD_IND] + tx[PACK_PAYLOAD_IND..PACK_PAYLOAD_IND + n];
      assert tx[..txFill] == Head(m);
      FillMsgCrc();
      SendMsg(m);
    }

    /** `report_nack`. */
    method ReportNack(code: byte)
      requires tx.Length == TX_BUF_SIZE
      modifies this`txFill, this`sent, tx
      ensures sent == old(sent) + [NackMsg(code)]
      ensures txFill == PACK_OVERHEAD + 1 && tx[..txFill] == Encode(crc, NackMsg(code))
    {
      SendMessage(NackMsg(code));
    }

    /** `report_ack`. */
    method ReportAck()
      requires tx.Length == TX_BUF_SIZE
      modifies this`txFill, this`sent, tx
      ensures sent == old(sent) + [AckMsg()]
      ensures txFill == PACK_OVERHEAD && tx[..txFill] == Encode(crc, AckMsg())
    {
      SendMessage(AckMsg());
    }

    // -------------------------------------------------------------------
    // Parser

    /** `platform_read` of one byte: nothing when the link holds none (a short read). */
    method ReadByte() returns (b: Option<byte>)
      modifies this`inbox
      ensures old(inbox) == [] ==> b == None && inbox == []
      ensures old(inbox) != [] ==> b == Some(old(inbox)[0]) && inbox == old(inbox)[1..]
    {
      if inbox == [] {
        b := None;
      } else {
        b := Some(inbox[0]);
        inbox := inbox[1..];
      }
    }

    /**
     * `platform_read` of `n` bytes into the receive buffer at `at`: it takes
     * what the link holds, up to `n`, and returns how many bytes it read.
     */
    method ReadInto(at: nat, n: nat) returns (count: nat)
      requires at + n <= rx.Length
      modifies this`inbox, rx
      ensures count == if n <= |old(inbox)| then n else |old(inbox)|
      ensures inbox == old(inbox)[count..]
      ensures rx[..at + count] == old(rx[..at]) + old(inbox)[..count]
      ensures rx[at + count..] == old(rx[at + count..])
    {
      count := if n <= |inbox| then n else |inbox|;
      forall i | 0 <= i < count {
        rx[at + i] := inbox[i];
      }
      inbox := inbox[count..];
      assert rx[..at + count] == old(rx[..at]) + old(inbox)[..count];
    }

    /**
     * `parser_wait_preamble`: one byte is read and matched against the
     * preamble; the fourth matching byte in a row places the preamble in the
     * receive buffer and moves on to the body. A short read returns the
     * session to IDLE.
     */
    method MatchPreamble()
      requires Valid() && parseState == WaitPreamble
      modifies this`rxFill, this`inbox, this`heard, this`preambleIndex, this`parseState, this`session, rx
      ensures Valid()
      ensures old(inbox) == [] ==>
        parseState == WaitPreamble && session == Idle && inbox == [] && heard == old(heard)
      ensures old(inbox) != [] ==>
        inbox == old(inbox)[1..] && heard == old(heard) + [old(inbox)[0]] && session == old(session) &&
        (parseState == WaitBody <==> MatchState(heard) == PACK_PREAM_FIELD_LEN) &&
        (parseState == WaitPreamble <==> MatchState(heard) < PACK_PREAM_FIELD_LEN)
    {
      rxFill := 0;
      var b := ReadByte();
      if b.None? {
        parseState := WaitPreamble;
        session := Idle;
        return;
      }
      MatchByte(b.value);
    }

    /**
     * The comparison of a byte read with the preamble byte at the match
     * index: a match advances the index, the fourth match restarts it and
     * places the preamble in the receive buffer, a mismatch restarts it.
     */
    method MatchByte(data: byte)
      requires Valid() && parseState == WaitPreamble && rxFill == 0
      modifies this`rxFill, this`heard, this`preambleIndex, this`parseState, rx
      ensures Valid()
      ensures heard == old(heard) + [data]
      ensures parseState == WaitBody <==> MatchState(heard) == PACK_PREAM_FIELD_LEN
      ensures parseState == WaitPreamble <==> MatchState(heard) < PACK_PREAM_FIELD_LEN
    {
      var i := preambleIndex;
      MatchStateStep(heard, data);
      heard := heard + [data];
      assert MatchState(heard) == Advance(i, data);
      if data == PreambleBytes()[i] {
        if i < PACK_PREAM_FIELD_LEN - 1 {
          preambleIndex := i + 1;
        } else {
          preambleIndex := 0;
          var p := PreambleBytes();
          rx[0], rx[1], rx[2], rx[3] := p[0], p[1], p[2], p[3];
          assert rx[..PACK_PREAM_FIELD_LEN] == p;
          rxFill := rxFill + PACK_PREAM_FIELD_LEN;
          parseState := WaitBody;
        }
      } else {
        preambleIndex := 0;
      }
    }

    /**
     * `parser_wait_body`: reads the id and length, checks that payload and
     * checksum fit the receive buffer (NACK(NO_MEMORY) otherwise), reads
     * them and checks the checksum (NACK(WRONG_CRC) otherwise, the session
     * state kept). A short read returns the session to IDLE without a reply.
     * What happens is what `ScanBody` makes of the bytes the link held.
     */
    method ReadBody()
      requires Valid() && parseState == WaitBody
      modifies this`rxFill, this`inbox, this`parseState, this`session, this`txFill, this`sent, this`frame, rx, tx
      ensures Valid()
      ensures var step := BodyStepOf(crc, old(inbox));
        parseState == step.next && session == (if step.toIdle then Idle else old(session)) &&
        inbox == old(inbox)[step.consumed..] && sent == old(sent) + step.replies
      ensures ScanBody(crc, old(inbox)).Accepted? ==> frame == ScanBody(crc, old(inbox)).frame
    {
      ghost var input := inbox;
      var readLen := HEADER_READ_LEN;
      var res := ReadInto(rxFill, readLen);
      if res != readLen {
        ScanShortHeader(crc, input);
        parseState := WaitPreamble;
        session := Idle;
        return;
      }
      rxFill := rxFill + readLen;
      CheckRoom(input);
    }

    /** The room check of `parser_wait_body`, once the header is in the receive buffer. */
    method CheckRoom(ghost input: Bytes)
      requires Core() && parseState == WaitBody
      requires |input| >= HEADER_READ_LEN && inbox == input[HEADER_READ_LEN..]
      requires rxFill == PACK_PAYLOAD_IND && rx[..PACK_PAYLOAD_IND] == PreambleBytes() + input[..HEADER_READ_LEN]
      modifies this`rxFill, this`inbox, this`parseState, this`session, this`txFill, this`sent, this`frame, rx, tx
      ensures Valid()
      ensures var step := BodyStepOf(crc, input);
        parseState == step.next && session == (if step.toIdle then Idle else old(session)) &&
        inbox == input[step.consumed..] && sent == old(sent) + step.replies
      ensures ScanBody(crc, input).Accepted? ==> frame == ScanBody(crc, input).frame
    {
      HeaderBytes(rx[..PACK_PAYLOAD_IND], input);
      var len := FromLE16(rx[PACK_LEN_IND..PACK_PAYLOAD_IND]);
      var freeSpace := RX_BUF_SIZE - rxFill;
      var neededSpace := len + PACK_CRC_FIELD_LEN;
      if freeSpace < neededSpace {
        ScanNoRoom(crc, input);
        parseState := WaitPreamble;
        session := Idle;
        ReportNack(NACK_ERR_NO_MEMORY);
        return;
      }
      ReadPayload(input, len);
    }

    /** The second read of `parser_wait_body`: payload and checksum, after a header that fitted. */
    method ReadPayload(ghost input: Bytes, len: u16)
      requires Core() && parseState == WaitBody
      requires |input| >= HEADER_READ_LEN && inbox == input[HEADER_READ_LEN..]
      requires len == DeclaredLen(input) && Fits(PACK_PAYLOAD_IND, len)
      requires rxFill == PACK_PAYLOAD_IND && rx[..PACK_PAYLOAD_IND] == PreambleBytes() + input[..HEADER_READ_LEN]
      modifies this`rxFill, this`inbox, this`parseState, this`session, this`txFill, this`sent, this`frame, rx, tx
      ensures Valid()
      ensures var step := BodyStepOf(crc, input);
        parseState == step.next && session == (if step.toIdle then Idle else old(session)) &&
        inbox == input[step.consumed..] && sent == old(sent) + step.replies
      ensures ScanBody(crc, input).Accepted? ==> frame == ScanBody(crc, input).frame
    {
      var readLen := len + PACK_CRC_FIELD_LEN;
      var res := ReadInto(rxFill, readLen);
      if res != readLen {
        ScanShortBody(crc, input);
        parseState := WaitPreamble;
        session := Idle;
        return;
      }
      rxFill := rxFill + readLen;
      PayloadBytes(rx[..rxFill], input, readLen);
      CheckFrame(input, PreambleBytes() + input[..HEADER_READ_LEN + readLen]);
    }

    /** The checksum test closing `parser_wait_body`, on a whole packet in the receive buffer. */
    method CheckFrame(ghost input: Bytes, ghost frame: Bytes)
      requires Core() && parseState == WaitBody
      requires |input| >= HEADER_READ_LEN && Fits(PACK_PAYLOAD_IND, DeclaredLen(input))
      requires |input| >= HEADER_READ_LEN + DeclaredLen(input) + PACK_CRC_FIELD_LEN
      requires frame == PreambleBytes() + input[..HEADER_READ_LEN + DeclaredLen(input) + PACK_CRC_FIELD_LEN]
      requires inbox == input[HEADER_READ_LEN + DeclaredLen(input) + PACK_CRC_FIELD_LEN..]
      requires rxFill == |frame| && rx[..rxFill] == frame
      modifies this`parseState, this`txFill, this`sent, this`frame, tx
      ensures Valid()
      ensures var step := BodyStepOf(crc, input);
        parseState == step.next && session == (if step.toIdle then Idle else old(session)) &&
        inbox == input[step.consumed..] && sent == old(sent) + step.replies
      ensures ScanBody(crc, input).Accepted? ==> this.frame == ScanBody(crc, input).frame
    {
      ScanWholeBody(crc, input);
      assert inbox == input[|frame| - PACK_PREAM_FIELD_LEN..];
      var msgLen := rxFill - PACK_CRC_FIELD_LEN;
      var packCrc := FromLE32(rx[msgLen..rxFill]);
      var calcCrc := crc(rx[..msgLen]);
      assert packCrc == calcCrc <==> CrcHolds(crc, frame) by {
        assert frame[|frame| - PACK_CRC_FIELD_LEN..] == rx[msgLen..rxFill];
        assert frame[..|frame| - PACK_CRC_FIELD_LEN] == rx[..msgLen];
      }
      if packCrc != calcCrc {
        assert BodyStepOf(crc, input) == BodyStep(WaitPreamble, false, |frame| - PACK_PREAM_FIELD_LEN, [NackMsg(NACK_ERR_WRONG_CRC)]);
        parseState := WaitPreamble;
        ReportNack(NACK_ERR_WRONG_CRC);
        assert Valid();
        return;
      }
      assert BodyStepOf(crc, input) == BodyStep(ProcessMsg, false, |frame| - PACK_PREAM_FIELD_LEN, []);
      AcceptedIsEncoded(crc, input);
      this.frame := frame;
      parseState := ProcessMsg;
      assert Valid();
    }

    /**
     * `parser_process_message`: an id outside the known range drops the
     * session; otherwise the handler of the message's kind runs on the
     * payload region of the receive buffer, its reply (if any) is sent and
     * its callbacks made. Either way the parser waits for a preamble again.
     */
    method ProcessMessage(st: Storage)
      requires Valid() && parseState == ProcessMsg && st.Valid()
      modifies this`fileName, this`handshakeDone, this`peerWindow, this`session, this`lastError
      modifies this`parseState, this`txFill, this`sent, this`upcalls, tx
      ensures Valid() && parseState == WaitPreamble
      ensures var m := Decode(crc, old(frame)).value;
        match KindOf(m.id)
        case None =>
          Current() == old(Current()).(state := Idle) && sent == old(sent) && upcalls == old(upcalls)
        case Some(k) =>
          var e := Handle(k, old(Current()), rx[PACK_PAYLOAD_IND..], |m.payload|, st);
          Current() == e.next && sent == old(sent) + e.replies && upcalls == old(upcalls) + e.upcalls
    {
      ghost var m := Decode(crc, frame).value;
      assert rx[PACK_MSGID_IND] == frame[PACK_MSGID_IND] == m.id;
      var id := rx[PACK_MSGID_IND];
      var kind := KindOf(id);
      if kind.None? {
        parseState := WaitPreamble;
        session := Idle;
        assert Valid();
        return;
      }
      assert rx[PACK_LEN_IND..PACK_PAYLOAD_IND] == frame[PACK_LEN_IND..PACK_PAYLOAD_IND];
      var len := FromLE16(rx[PACK_LEN_IND..PACK_PAYLOAD_IND]);
      var body := rx[PACK_PAYLOAD_IND..];
      var e := Handle(kind.value, Current(), body, len, st);
      HandlersKeepStatusValid(kind.value, Current(), body, len, st);
      RepliesFitTxBuf(kind.value, Current(), body, len, st);
      Commit(e);
      parseState := WaitPreamble;
      assert Valid();
    }

    /** What a handler does to the engine: the status it leaves, the reply it sends through the codec, the callbacks it makes. */
    method Commit(e: Effect)
      requires Core() && e.next.Valid() && |e.replies| <= 1
      requires forall m :: m in e.replies ==> PACK_OVERHEAD + |m.payload| <= TX_BUF_SIZE
      modifies this`fileName, this`handshakeDone, this`peerWindow, this`session, this`lastError
      modifies this`txFill, this`sent, this`upcalls, tx
      ensures Core()
      ensures Current() == e.next && sent == old(sent) + e.replies && upcalls == old(upcalls) + e.upcalls
    {
      fileName, handshakeDone, peerWindow := e.next.fileName, e.next.handshakeDone, e.next.peerWindow;
      session, lastError := e.next.state, e.next.lastError;
      if |e.replies| == 1 {
        assert e.replies[0] in e.replies;
        SendMessage(e.replies[0]);
        assert e.replies == [e.replies[0]];
      }
      upcalls := upcalls + e.upcalls;
    }

    /**
     * `fxfer_parser`: one step of the parse state in force. Waiting for a
     * preamble, one byte is read and matched (a short read drops the
     * session), and nothing is sent; waiting for the body, the bytes the
     * link holds are judged as `BodyStepOf` says; processing, the handler
     * of the accepted message's kind runs, and the link is not read.
     */
    method ParserStep(st: Storage)
      requires Valid() && st.Valid()
      modifies this`fileName, this`handshakeDone, this`peerWindow, this`session, this`lastError
      modifies this`rxFill, this`inbox, this`heard, this`preambleIndex, this`parseState, this`frame
      modifies this`txFill, this`sent, this`upcalls, rx, tx
      ensures Valid()
      ensures old(parseState) == WaitPreamble ==>
        sent == old(sent) && upcalls == old(upcalls) && Current() == old(Current()).(state := session) &&
        (old(inbox) == [] ==> parseState == WaitPreamble && session == Idle && inbox == [] && heard == old(heard)) &&
        (old(inbox) != [] ==>
          inbox == old(inbox)[1..] && heard == old(heard) + [old(inbox)[0]] && session == old(session) &&
          (parseState == WaitBody <==> MatchState(heard) == PACK_PREAM_FIELD_LEN) &&
          (parseState == WaitPreamble <==> MatchState(heard) < PACK_PREAM_FIELD_LEN))
      ensures old(parseState) == WaitBody ==>
        var step := BodyStepOf(crc, old(inbox));
        parseState == step.next && Current() == old(Current()).(state := if step.toIdle then Idle else old(session)) &&
        inbox == old(inbox)[step.consumed..] && sent == old(sent) + step.replies &&
        heard == old(heard) && upcalls == old(upcalls)
      ensures old(parseState) == ProcessMsg ==>
        parseState == WaitPreamble && inbox == old(inbox) && heard == old(heard) &&
        var m := Decode(crc, old(frame)).value;
        match KindOf(m.id)
        case None =>
          Current() == old(Current()).(state := Idle) && sent == old(sent) && upcalls == old(upcalls)
        case Some(k) =>
          var e := Handle(k, old(Current()), old(rx[PACK_PAYLOAD_IND..]), |m.payload|, st);
          Current() == e.next && sent == old(sent) + e.replies && upcalls == old(upcalls) + e.upcalls
    {
      match parseState
      case WaitPreamble => MatchPreamble();
      case WaitBody => ReadBody();
      case ProcessMsg => ProcessMessage(st);
    }

    // -------------------------------------------------------------------
    // Blocking requests

    /**
     * The polling wait of the request helpers and `send_file`, given what it
     * observes: whether and when the parser, running meanwhile, moved the
     * session out of the awaited state, and the status it left. A timeout
     * or a NACK returns the session to IDLE with no error; a timeout keeps
     * the window, the handshake flag and the name the parser recorded while
     * the session waited. The handshake flag, once set, stays set.
     */
    method Await(o: WaitOutcome, ghost awaited: SessionState) returns (ok: bool)
      requires Current().Valid() && session == awaited && Plausible(handshakeDone, o, awaited)
      modifies this`fileName, this`handshakeDone, this`peerWindow, this`session, this`lastError
      ensures Current().Valid() && (old(handshakeDone) ==> handshakeDone)
      ensures Current() == Conclude(old(Current()), o) && ok == Answered(o)
    {
      if TimedOut(o) {
        if o.during.Some? {
          fileName, handshakeDone, peerWindow := o.during.value.fileName, o.during.value.handshakeDone, o.during.value.peerWindow;
        }
        session := Idle;
        lastError := NO_ERROR;
        return false;
      }
      fileName, handshakeDone, peerWindow := o.after.fileName, o.after.handshakeDone, o.after.peerWindow;
      session, lastError := o.after.state, o.after.lastError;
      if session == ErrReceived {
        session := Idle;
        lastError := NO_ERROR;
        return false;
      }
      return true;
    }

    /** What every request helper does before it waits: enter the awaited state, clear the error, send the request. */
    method SendRequest(m: Msg, awaited: SessionState)
      requires Valid() && PACK_OVERHEAD + |m.payload| <= TX_BUF_SIZE && awaited.Assignable()
      modifies this`session, this`lastError, this`txFill, this`sent, tx
      ensures Valid() && sent == old(sent) + [m]
      ensures Current() == old(Current()).(state := awaited, lastError := NO_ERROR)
    {
      assert tx != rx;
      session, lastError := awaited, NO_ERROR;
      SendMessage(m);
    }

    /** `make_handshake`: offers this end's window and waits for the peer's. */
    method MakeHandshake(window: u16, o: WaitOutcome) returns (ok: bool)
      requires Valid() && Plausible(handshakeDone, o, WaitHandshake)
      modifies this`fileName, this`handshakeDone, this`peerWindow, this`session, this`lastError
      modifies this`txFill, this`sent, tx
      ensures Valid() && sent == old(sent) + [HandshakeRequest(window)] && (old(handshakeDone) ==> handshakeDone)
      ensures Current() == Conclude(old(Current()).(state := WaitHandshake, lastError := NO_ERROR), o)
      ensures ok == Answered(o)
    {
      SendRequest(HandshakeRequest(window), WaitHandshake);
      ok := Await(o, WaitHandshake);
    }

    /** `request_files_list`: asks for the peer's listing and waits for it. */
    method RequestFilesList(o: WaitOutcome) returns (ok: bool)
      requires Valid() && Plausible(handshakeDone, o, WaitFilesList)
      modifies this`fileName, this`handshakeDone, this`peerWindow, this`session, this`lastError
      modifies this`txFill, this`sent, tx
      ensures Valid() && sent == old(sent) + [FilesListRequest()] && (old(handshakeDone) ==> handshakeDone)
      ensures Current() == Conclude(old(Current()).(state := WaitFilesList, lastError := NO_ERROR), o)
      ensures ok == Answered(o)
    {
      SendRequest(FilesListRequest(), WaitFilesList);
      ok := Await(o, WaitFilesList);
    }

    /** `request_file_hash`: asks for the hash of the named file and waits for it. */
    method RequestFileHash(name: Bytes, o: WaitOutcome) returns (ok: bool)
      requires Valid() && NameFits(name) && Plausible(handshakeDone, o, WaitFileHash)
      modifies this`fileName, this`handshakeDone, this`peerWindow, this`session, this`lastError
      modifies this`txFill, this`sent, tx
      ensures Valid() && sent == old(sent) + [FileHashRequest(name)] && (old(handshakeDone) ==> handshakeDone)
      ensures Current() == Conclude(old(Current()).(state := WaitFileHash, lastError := NO_ERROR), o)
      ensures ok == Answered(o)
    {
      SendRequest(FileHashRequest(name), WaitFileHash);
      ok := Await(o, WaitFileHash);
    }

    /**
     * `send_file`: requests the transfer and waits for its ACK, asks the
     * storage for the file's size, then sends the file segment by segment.
     * A failed request, an unknown size, a window that leaves no room for
     * data or more segments than the 16-bit index can number end the call
     * with false; the session ends IDLE whatever happens, in the status the
     * last answer left, with no error after a timeout or a NACK.
     */
    method SendFile(name: Bytes, file: FileSource, peer: Peer) returns (ok: bool)
      requires Valid() && NameFits(name) && file.Valid() && peer.Valid(handshakeDone)
      modifies this`fileName, this`handshakeDone, this`peerWindow, this`session, this`lastError
      modifies this`txFill, this`sent, tx
      ensures Valid() && session == Idle && (old(handshakeDone) ==> handshakeDone)
      ensures var r := SendFileRun(old(Current()), file, peer);
        ok == r.ok && sent == old(sent) + [FileSendRequest(name)] + r.msgs && Current() == r.status
    {
      assert tx != rx;  // their sizes differ: filling tx leaves the parser's buffer alone
      ok := RequestSend(name, peer.request);
      if ok {
        ok := SendAccepted(file, peer);
      }
    }

    /** The opening of `send_file`: the request for the transfer, and the wait for its ACK. */
    method RequestSend(name: Bytes, o: WaitOutcome) returns (ok: bool)
      requires Valid() && NameFits(name) && Plausible(handshakeDone, o, WaitAck)
      modifies this`fileName, this`handshakeDone, this`peerWindow, this`session, this`lastError
      modifies this`txFill, this`sent, tx
      ensures Valid() && sent == old(sent) + [FileSendRequest(name)] && (old(handshakeDone) ==> handshakeDone)
      ensures Current() == Conclude(old(Current()).(state := WaitAck, lastError := NO_ERROR), o)
      ensures ok == Answered(o)
    {
      SendRequest(FileSendRequest(name), WaitAck);
      ok := Await(o, WaitAck);
    }

    /**
     * The part of `send_file` after the peer accepted the request: an
     * unknown size, a window that leaves no room for data or more segments
     * than the 16-bit index can number give up, the session IDLE;
     * otherwise the loop runs.
     */
    method SendAccepted(file: FileSource, peer: Peer) returns (ok: bool)
      requires Core() && file.Valid() && AcksFrom(handshakeDone, peer.acks, 0)
      modifies this`fileName, this`handshakeDone, this`peerWindow, this`session, this`lastError
      modifies this`txFill, this`sent, tx
      ensures Core() && session == Idle && (old(handshakeDone) ==> handshakeDone)
      ensures var r := SendPlanned(old(Current()), file, peer);
        ok == r.ok && sent == old(sent) + r.msgs && Current() == r.status
    {
      PlannedRun(Current(), file, peer);
      var chunk := ChunkSize(peerWindow);
      if file.size.None? || chunk == 0 || SegmentCount(file.size.value, chunk) > SEG_LIMIT {
        session := Idle;
        ok := false;
      } else {
        ok := SendSegments(file, peer.acks, file.size.value, chunk);
      }
    }

    /**
     * The loop of `send_file` over the segments, on the bytes still to
     * send: each chunk is read into a FILE_DATA packet behind its index,
     * sent, and acknowledged before the next; the chunk is a full one while
     * the index is above 0, and the last takes the rest of the file. A
     * failed read, a timeout or a NACK ends the loop; the session ends IDLE.
     */
    method SendSegments(file: FileSource, acks: seq<WaitOutcome>, size: nat, chunk: nat) returns (ok: bool)
      requires Current().Valid() && tx.Length == TX_BUF_SIZE && file.Valid() && AcksFrom(handshakeDone, acks, 0)
      requires 0 < chunk && SEG_IND_LEN + chunk <= TX_PAYLOAD_ROOM && SegmentCount(size, chunk) <= SEG_LIMIT
      modifies this`fileName, this`handshakeDone, this`peerWindow, this`session, this`lastError
      modifies this`txFill, this`sent, tx
      ensures Current().Valid() && session == Idle && (old(handshakeDone) ==> handshakeDone)
      ensures var r := SendFrom(0, size, chunk, file, acks, 0, old(Current()));
        ok == r.ok && sent == old(sent) + r.msgs && Current() == r.status.(state := Idle)
    {
      var count := SegmentCount(size, chunk);
      var segInd: int := count - 1;
      var offset: nat := 0;
      var i: nat := 0;
      ghost var done: seq<Msg> := [];
      ghost var s0 := Current();
      SendingStart(size, chunk, file, acks, s0);
      ok := true;
      while i < count
        invariant InLoop(file, acks, size, chunk, s0, i, offset, segInd, done, old(sent))
        decreases count - i
      {
        var chunkLen;
        ok, chunkLen, done := SendStep(file, acks, size, chunk, s0, i, offset, segInd, done, old(sent));
        if !ok {
          break;
        }
        segInd := segInd - 1;
        offset := offset + chunkLen;
        i := i + 1;
      }
      session := Idle;
    }

    /**
     * The state of the loop of `send_file` before its `i`-th iteration: where
     * the run stands (`SendingAt`, with the status now), the messages sent
     * since `sent0`, and the waits still ahead plausible for the flag now,
     * which is set if it was at the start.
     */
    ghost predicate InLoop(file: FileSource, acks: seq<WaitOutcome>, size: nat, chunk: nat, s0: Status,
                           i: nat, offset: nat, segInd: int, done: seq<Msg>, sent0: seq<Msg>)
      requires 0 < chunk && SegmentCount(size, chunk) <= SEG_LIMIT
      reads this`fileName, this`handshakeDone, this`peerWindow, this`session, this`lastError, this`sent
    {
      SendingAt(size, chunk, file, acks, s0, i, offset, segInd, done, Current()) &&
      sent == sent0 + done && Current().Valid() && AcksFrom(handshakeDone, acks, i) &&
      (s0.handshakeDone ==> handshakeDone)
    }

    /**
     * One pass of the loop of `send_file`: the chunk is a full one while the
     * index is above 0, and the rest of the file at index 0; it is sent and
     * acknowledged as `SendSegment` does. After a failure the whole run has
     * ended, IDLE, in the status this pass left.
     */
    method SendStep(file: FileSource, acks: seq<WaitOutcome>, size: nat, chunk: nat, ghost s0: Status,
                    i: nat, offset: nat, segInd: int, ghost done: seq<Msg>, ghost sent0: seq<Msg>)
      returns (ok: bool, chunkLen: nat, ghost done': seq<Msg>)
      requires tx.Length == TX_BUF_SIZE && file.Valid()
      requires 0 < chunk && SEG_IND_LEN + chunk <= TX_PAYLOAD_ROOM && SegmentCount(size, chunk) <= SEG_LIMIT
      requires i < SegmentCount(size, chunk) && InLoop(file, acks, size, chunk, s0, i, offset, segInd, done, sent0)
      modifies this`fileName, this`handshakeDone, this`peerWindow, this`session, this`lastError
      modifies this`txFill, this`sent, tx
      ensures chunkLen == if segInd > 0 then chunk else size - offset
      ensures ok ==> InLoop(file, acks, size, chunk, s0, i + 1, offset + chunkLen, segInd - 1, done', sent0)
      ensures !ok ==>
        SendFrom(0, size, chunk, file, acks, 0, s0) == Run(false, done', Current()) && session == Idle &&
        sent == sent0 + done' && Current().Valid() && (s0.handshakeDone ==> handshakeDone)
    {
      chunkLen := if segInd > 0 then chunk else size - offset;
      var seg, ack := Segment(segInd, offset, chunkLen), AckAt(acks, i);
      SendingAdvance(size, chunk, file, acks, s0, i, offset, segInd, done, Current());
      ghost var first := SendOne(seg, file, ack, Current());
      ok := SendSegment(file, seg, ack);
      done' := done + first.msgs;
      if ok {
        assert AcksFrom(handshakeDone, acks, i + 1);  // the flag this answer left is the next wait's
      }
    }

    /**
     * One iteration of the loop of `send_file`: reads the segment's chunk
     * into a FILE_DATA packet behind its index, sends it and waits for its
     * ACK. A failed read ends the transfer IDLE without sending.
     */
    method SendSegment(file: FileSource, seg: Segment, ack: WaitOutcome) returns (ok: bool)
      requires Current().Valid() && tx.Length == TX_BUF_SIZE && file.Valid() && Plausible(handshakeDone, ack, WaitAck)
      requires seg.index < SEG_LIMIT && SEG_IND_LEN + seg.length <= TX_PAYLOAD_ROOM
      modifies this`fileName, this`handshakeDone, this`peerWindow, this`session, this`lastError
      modifies this`txFill, this`sent, tx
      ensures Current().Valid() && (old(handshakeDone) ==> handshakeDone)
      ensures var r := SendOne(seg, file, ack, old(Current()));
        ok == r.ok && sent == old(sent) + r.msgs && Current() == r.status
    {
      var data := file.Read(seg.offset, seg.length);
      if data.None? {
        session := Idle;
        return false;
      }
      session, lastError := WaitAck, NO_ERROR;
      SendMessage(DataMsg(seg, data.value));
      ok := Await(ack, WaitAck);
    }
  }
}
