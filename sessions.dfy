/**
 * The message handlers as transitions of the session status: what each
 * handler does to the status, which reply it sends and which host callback
 * it calls, given the payload region of the receive buffer.
 */
module Sessions {
  import opened Bytes
  import opened Defines
  import opened Conf
  import opened XferTypes
  import opened Wire
  import opened Wrappers

  /**
   * What `file_append_cb` reports: failure, or success with the end-of-file
   * flag as it leaves it (the flag is passed in and out by pointer).
   */
  datatype AppendReply = AppendFailed | Appended(eof: bool)

  /**
   * The storage callbacks a handler may call, as the host answers them
   * while one message is processed.
   */
  datatype Storage = Storage(
    formFilesList: u16 -> Bytes,                 // form_files_list_cb, given the free space
    fileHash: Bytes -> Option<u32>,              // get_file_hash_cb, given the file name
    appendChunk: (Bytes, Bytes, bool) -> AppendReply)  // file_append_cb, given name, chunk and the flag
  {
    /** The listing callback writes at most the free space it is given. */
    ghost predicate Valid() {
      forall room: u16 :: |formFilesList(room)| <= room
    }
  }

  /** Host callbacks that only receive data. */
  datatype Upcall =
    | FilesListGot(count: byte, names: Bytes)    // files_list_gotten_cb
    | FileHashGot(hash: u32)                     // file_hash_gotten_cb
    | ChunkAppended(name: Bytes, data: Bytes)    // file_append_cb was called

  /** A handler's outcome: the new status, the replies sent, the callbacks made. */
  datatype Effect = Effect(next: Status, replies: seq<Msg>, upcalls: seq<Upcall>)

  /** The receive buffer from the payload offset to its end, which a handler's argument points into. */
  const BODY_LEN := RX_BUF_SIZE - PACK_PAYLOAD_IND

  /** What the parser guarantees a handler: the whole payload region and a declared length that fitted. */
  predicate WellFramed(body: Bytes, len: nat) {
    |body| == BODY_LEN && len <= DEFAULT_WINDOW_SIZE
  }

  /** Payload room of a FILES_LIST_RES: the peer's window, capped by what the send buffer holds. */
  function ListRoom(window: u16): (room: u16)
    ensures room <= window && room <= TX_BUF_SIZE - PACK_OVERHEAD
    ensures room == window || room == TX_BUF_SIZE - PACK_OVERHEAD
  {
    if window > TX_BUF_SIZE - PACK_OVERHEAD then TX_BUF_SIZE - PACK_OVERHEAD else window
  }

  function Unexpected(s: Status): Effect {
    Effect(s, [NackMsg(NACK_ERR_UNEXPECTED_PACKET)], [])
  }

  function NoHandshake(s: Status): Effect {
    Effect(s, [NackMsg(NACK_ERR_NO_HANDSHAKE)], [])
  }

  /**
   * `handshake_req_handler`: records the peer's window, read little-endian
   * from the payload, and the handshake, and answers with this end's
   * default window. Nothing else changes.
   */
  function OnHandshakeReq(s: Status, body: Bytes): (e: Effect)
    requires |body| == BODY_LEN
    ensures e.next.handshakeDone && e.next.peerWindow == body[0] as int + body[1] as int * 0x100
    ensures e.next.(peerWindow := s.peerWindow, handshakeDone := s.handshakeDone) == s
    ensures |e.replies| == 1 && e.replies[0].id == PACK_HANDSHAKE_RES
    ensures |e.replies[0].payload| == 2 && FromLE16(e.replies[0].payload) == DEFAULT_WINDOW_SIZE
    ensures e.upcalls == []
  {
    LE16RoundTrip(DEFAULT_WINDOW_SIZE);
    Effect(s.(peerWindow := FromLE16(body[..2]), handshakeDone := true),
           [Msg(PACK_HANDSHAKE_RES, LE16(DEFAULT_WINDOW_SIZE))], [])
  }

  /**
   * `handshake_res_handler`: awaited, it records the peer's window and the
   * handshake and ends the wait; otherwise it is refused and changes nothing.
   */
  function OnHandshakeRes(s: Status, body: Bytes): (e: Effect)
    requires |body| == BODY_LEN
    ensures e.upcalls == []
    ensures s.state == WaitHandshake ==>
      e.replies == [] && e.next.state == Idle && e.next.handshakeDone &&
      e.next.peerWindow == body[0] as int + body[1] as int * 0x100 &&
      e.next.fileName == s.fileName && e.next.lastError == s.lastError
    ensures s.state != WaitHandshake ==> e.next == s && e.replies == [NackMsg(NACK_ERR_UNEXPECTED_PACKET)]
  {
    if s.state == WaitHandshake then
      Effect(s.(peerWindow := FromLE16(body[..2]), handshakeDone := true, state := Idle), [], [])
    else Unexpected(s)
  }

  /**
   * `files_list_req_handler`: after the handshake, answers with the listing
   * the storage writes, which then fits both the peer's window and the send
   * buffer; before it, refuses. The status never changes.
   */
  function OnFilesListReq(s: Status, st: Storage): (e: Effect)
    ensures e.next == s && e.upcalls == [] && |e.replies| == 1
    ensures !s.handshakeDone ==> e.replies[0] == NackMsg(NACK_ERR_NO_HANDSHAKE)
    ensures s.handshakeDone ==> e.replies[0].id == PACK_FILES_LIST_RES
    ensures s.handshakeDone && st.Valid() ==>
      |e.replies[0].payload| <= s.peerWindow && PACK_OVERHEAD + |e.replies[0].payload| <= TX_BUF_SIZE
  {
    if !s.handshakeDone then NoHandshake(s)
    else Effect(s, [Msg(PACK_FILES_LIST_RES, st.formFilesList(ListRoom(s.peerWindow)))], [])
  }

  /**
   * `files_list_res_handler`: awaited, it ends the wait and hands the host
   * the count byte and the names after it; otherwise it is refused and
   * changes nothing.
   */
  function OnFilesListRes(s: Status, body: Bytes, len: nat): (e: Effect)
    requires WellFramed(body, len)
    ensures s.state == WaitFilesList ==>
      e.next == s.(state := Idle) && e.replies == [] && |e.upcalls| == 1 &&
      e.upcalls[0].FilesListGot? && e.upcalls[0].count == body[0] &&
      |e.upcalls[0].names| == (if len == 0 then 0 else len - 1) && e.upcalls[0].names <= body[1..]
    ensures s.state != WaitFilesList ==>
      e.next == s && e.replies == [NackMsg(NACK_ERR_UNEXPECTED_PACKET)] && e.upcalls == []
  {
    if s.state == WaitFilesList then
      Effect(s.(state := Idle), [], [FilesListGot(body[0], if len == 0 then [] else body[1..len])])
    else Unexpected(s)
  }

  /**
   * `file_hash_req_handler`: after the handshake, answers with the hash the
   * storage gives for the requested name, little-endian, or refuses when it
   * gives none; before it, refuses. The status never changes.
   */
  function OnFileHashReq(s: Status, body: Bytes, st: Storage): (e: Effect)
    ensures e.next == s && e.upcalls == [] && |e.replies| == 1
    ensures !s.handshakeDone ==> e.replies[0] == NackMsg(NACK_ERR_NO_HANDSHAKE)
    ensures s.handshakeDone ==> (st.fileHash(CString(body)).None? <==> e.replies[0] == NackMsg(NACK_ERR_BAD_REQUEST))
    ensures s.handshakeDone && st.fileHash(CString(body)).Some? ==>
      e.replies[0].id == PACK_FILE_HASH_RES && |e.replies[0].payload| == 4 &&
      FromLE32(e.replies[0].payload) == st.fileHash(CString(body)).value
  {
    if !s.handshakeDone then NoHandshake(s)
    else match st.fileHash(CString(body))
      case None => Effect(s, [NackMsg(NACK_ERR_BAD_REQUEST)], [])
      case Some(h) =>
        LE32RoundTrip(h);
        Effect(s, [Msg(PACK_FILE_HASH_RES, LE32(h))], [])
  }

  /**
   * `file_hash_res_handler`: awaited, it ends the wait and hands the host
   * the hash, read little-endian; otherwise it is refused and changes nothing.
   */
  function OnFileHashRes(s: Status, body: Bytes): (e: Effect)
    requires |body| == BODY_LEN
    ensures s.state == WaitFileHash ==>
      e.next == s.(state := Idle) && e.replies == [] &&
      e.upcalls == [FileHashGot(body[0] as int + body[1] as int * 0x100 + body[2] as int * 0x1_0000 + body[3] as int * 0x100_0000)]
    ensures s.state != WaitFileHash ==>
      e.next == s && e.replies == [NackMsg(NACK_ERR_UNEXPECTED_PACKET)] && e.upcalls == []
  {
    if s.state == WaitFileHash then Effect(s.(state := Idle), [], [FileHashGot(FromLE32(body[..4]))])
    else Unexpected(s)
  }

  /**
   * `file_send_req_handler`: stores the requested name in the 16-byte field,
   * before the handshake check, so even when the request is refused. A name
   * shorter than the field reads back whole; a longer one is cut to the
   * field's 16 bytes, with no terminator. After the handshake the request is
   * acknowledged and the file session opens.
   */
  function OnFileSendReq(s: Status, body: Bytes): (e: Effect)
    requires |body| == BODY_LEN
    ensures |e.next.fileName| == FILE_NAME_LEN_MAX
    ensures |CString(body)| < FILE_NAME_LEN_MAX ==> CString(e.next.fileName) == CString(body)
    ensures |CString(body)| >= FILE_NAME_LEN_MAX ==> e.next.fileName == body[..FILE_NAME_LEN_MAX] && 0 !in e.next.fileName
    ensures e.next.(fileName := s.fileName, state := s.state) == s
    ensures e.upcalls == [] && |e.replies| == 1
    ensures s.handshakeDone ==> e.next.state == WaitFile && e.replies[0] == AckMsg()
    ensures !s.handshakeDone ==> e.next.state == s.state && e.replies[0] == NackMsg(NACK_ERR_NO_HANDSHAKE)
  {
    CStringPrefix(body, FILE_NAME_LEN_MAX);
    var named := s.(fileName := Strncpy(body, FILE_NAME_LEN_MAX));
    if !s.handshakeDone then NoHandshake(named)
    else Effect(named.(state := WaitFile), [AckMsg()], [])
  }

  /**
   * A chunk of an incoming file. A payload shorter than the segment index is
   * refused with NACK(BAD_REQUEST) (the source computes a wrapped chunk length
   * for it instead).
   */
  function OnFileData(s: Status, body: Bytes, len: nat, st: Storage): (e: Effect)
    requires WellFramed(body, len)
    ensures e.next.(state := s.state) == s && (e.next.state == s.state || e.next.state == Idle)
    ensures |e.replies| <= 1 && |e.upcalls| <= 1
    ensures !s.handshakeDone ==> e.replies == [NackMsg(NACK_ERR_NO_HANDSHAKE)]
    ensures s.handshakeDone && s.state != WaitFile ==> e.replies == [NackMsg(NACK_ERR_UNEXPECTED_PACKET)]
    ensures e.upcalls != [] <==> s.handshakeDone && s.state == WaitFile && len >= SEG_IND_LEN
    ensures e.upcalls != [] ==>
      e.upcalls[0].ChunkAppended? && e.upcalls[0].name == CString(s.fileName) &&
      |e.upcalls[0].data| == len - SEG_IND_LEN && e.upcalls[0].data <= body[SEG_IND_LEN..]
    ensures e.replies == [AckMsg()] ==> e.upcalls != []
  {
    if !s.handshakeDone then NoHandshake(s)
    else if s.state != WaitFile then Unexpected(s)
    else if len < SEG_IND_LEN then Effect(s, [NackMsg(NACK_ERR_BAD_REQUEST)], [])
    else
      var name, data := CString(s.fileName), body[SEG_IND_LEN..len];
      match st.appendChunk(name, data, FromLE16(body[..SEG_IND_LEN]) == 0)
      case AppendFailed => Effect(s.(state := Idle), [], [ChunkAppended(name, data)])
      case Appended(eof) => Effect(if eof then s.(state := Idle) else s, [AckMsg()], [ChunkAppended(name, data)])
  }

  /** The chunk length as the source computes it: the declared length less 2, on 16 bits. */
  function ChunkLenAsWritten(len: u16): u16 {
    Wrap16(len - SEG_IND_LEN)
  }

  /**
   * A FILE_DATA payload of 0 or 1 bytes makes the source hand the append
   * callback a chunk of 65534 or 65535 bytes, far past the receive buffer;
   * from 2 bytes on it is the payload less the segment index.
   */
  lemma ChunkLenUnderflowsAsWritten(len: u16)
    ensures ChunkLenAsWritten(0) == 0xFFFE && ChunkLenAsWritten(1) == 0xFFFF
    ensures len < SEG_IND_LEN ==> ChunkLenAsWritten(len) > BODY_LEN - SEG_IND_LEN
    ensures len >= SEG_IND_LEN ==> ChunkLenAsWritten(len) == len - SEG_IND_LEN
  {
  }

  /** `ack_handler`: awaited, it ends the wait; otherwise it is refused and changes nothing. */
  function OnAck(s: Status): (e: Effect)
    ensures e.upcalls == []
    ensures s.state == WaitAck <==> e.replies == []
    ensures s.state == WaitAck ==> e.next == s.(state := Idle)
    ensures s.state != WaitAck ==> e.next == s && e.replies == [NackMsg(NACK_ERR_UNEXPECTED_PACKET)]
  {
    if s.state == WaitAck then Effect(s.(state := Idle), [], []) else Unexpected(s)
  }

  /** `nack_handler`: from any state, records the error code it carries and is not answered. */
  function OnNack(s: Status, body: Bytes): (e: Effect)
    requires |body| == BODY_LEN
    ensures e.replies == [] && e.upcalls == []
    ensures e.next.state == ErrReceived && e.next.lastError == body[0]
    ensures e.next.(state := s.state, lastError := s.lastError) == s
  {
    Effect(s.(state := ErrReceived, lastError := body[0]), [], [])
  }

  /**
   * The dispatch table: the handler for each message kind. Each sends at
   * most one reply and makes at most one host call; only the three
   * responses that carry data call the host; the file-receive request does
   * nothing; only the handshake messages change the peer's window, and
   * only the send request the stored name.
   */
  function Handle(k: MsgKind, s: Status, body: Bytes, len: nat, st: Storage): (e: Effect)
    requires WellFramed(body, len)
    ensures |e.replies| <= 1 && |e.upcalls| <= 1
    ensures e.upcalls != [] ==> k.FilesListRes? || k.FileHashRes? || k.FileData?
    ensures k.FileReceiveReq? ==> e == Effect(s, [], [])
    ensures e.next.peerWindow != s.peerWindow ==> k.HandshakeReq? || k.HandshakeRes?
    ensures e.next.fileName != s.fileName ==> k.FileSendReq?
  {
    match k
    case HandshakeReq => OnHandshakeReq(s, body)
    case HandshakeRes => OnHandshakeRes(s, body)
    case FilesListReq => OnFilesListReq(s, st)
    case FilesListRes => OnFilesListRes(s, body, len)
    case FileHashReq => OnFileHashReq(s, body, st)
    case FileHashRes => OnFileHashRes(s, body)
    case FileSendReq => OnFileSendReq(s, body)
    case FileReceiveReq => Effect(s, [], [])
    case FileData => OnFileData(s, body, len, st)
    case Ack => OnAck(s)
    case Nack => OnNack(s, body)
  }

  // ---------------------------------------------------------------------
  // Properties of the session state machine

  /** The requests that need a completed handshake. */
  predicate Gated(k: MsgKind) {
    k.FilesListReq? || k.FileHashReq? || k.FileSendReq? || k.FileData?
  }

  /** Before the handshake, gated requests are answered NACK(NO_HANDSHAKE) and the session state stays. */
  lemma HandshakeGate(k: MsgKind, s: Status, body: Bytes, len: nat, st: Storage)
    requires WellFramed(body, len) && Gated(k) && !s.handshakeDone
    ensures var e := Handle(k, s, body, len, st);
      e.replies == [NackMsg(NACK_ERR_NO_HANDSHAKE)] && e.upcalls == [] &&
      e.next == (if k.FileSendReq? then s.(fileName := Strncpy(body, FILE_NAME_LEN_MAX)) else s)
  {
  }

  /** The handshake flag is only ever set, and only by the two handshake messages. */
  lemma HandshakeFlagOnlySet(k: MsgKind, s: Status, body: Bytes, len: nat, st: Storage)
    requires WellFramed(body, len)
    ensures var e := Handle(k, s, body, len, st);
      (s.handshakeDone ==> e.next.handshakeDone) &&
      (e.next.handshakeDone && !s.handshakeDone ==> k.HandshakeReq? || k.HandshakeRes?)
  {
  }

  /** The session state a response message is awaited in. */
  function Awaiting(k: MsgKind): SessionState
    requires k.HandshakeRes? || k.FilesListRes? || k.FileHashRes? || k.Ack?
  {
    match k
    case HandshakeRes => WaitHandshake
    case FilesListRes => WaitFilesList
    case FileHashRes => WaitFileHash
    case Ack => WaitAck
  }

  /**
   * A response ends its awaited state and sends nothing; in any other state
   * it is answered NACK(UNEXPECTED_PACKET) and changes nothing.
   */
  lemma AwaitedResponse(k: MsgKind, s: Status, body: Bytes, len: nat, st: Storage)
    requires WellFramed(body, len)
    requires k.HandshakeRes? || k.FilesListRes? || k.FileHashRes? || k.Ack?
    ensures var e := Handle(k, s, body, len, st);
      (s.state == Awaiting(k) ==> e.next.state == Idle && e.replies == []) &&
      (s.state != Awaiting(k) ==> e == Effect(s, [NackMsg(NACK_ERR_UNEXPECTED_PACKET)], []))
  {
  }

  /** A NACK is recorded from any state, with its code as the last error, and is not answered. */
  lemma NackRecorded(s: Status, body: Bytes, len: nat, st: Storage)
    requires WellFramed(body, len)
    ensures var e := Handle(Nack, s, body, len, st);
      e.next == s.(state := ErrReceived, lastError := body[0]) && e.replies == []
  {
  }

  /** A handshake request is answered with this end's default window, whatever the peer sent. */
  lemma HandshakeAnswer(s: Status, body: Bytes, len: nat, st: Storage)
    requires WellFramed(body, len)
    ensures var e := Handle(HandshakeReq, s, body, len, st);
      e.replies == [Msg(PACK_HANDSHAKE_RES, LE16(DEFAULT_WINDOW_SIZE))] &&
      e.next.handshakeDone && e.next.peerWindow == FromLE16(body[..2])
  {
  }

  /**
   * Receiver side: after the handshake a send request stores the name,
   * is acknowledged and opens the file session from any state.
   */
  lemma SendRequestOpensFile(s: Status, body: Bytes, len: nat, st: Storage)
    requires WellFramed(body, len) && s.handshakeDone
    ensures var e := Handle(FileSendReq, s, body, len, st);
      e.next == s.(fileName := Strncpy(body, FILE_NAME_LEN_MAX), state := WaitFile) &&
      e.replies == [AckMsg()]
  {
  }

  /**
   * Receiver side: inside a file session a chunk of `len - 2` bytes is
   * appended under the stored name; a failed append closes the session
   * without a reply, otherwise the chunk is acknowledged and the session
   * closes on end of file: the flag as the callback leaves it, handed to it
   * raised exactly for segment index 0. Outside
   * a file session the chunk is unexpected.
   */
  lemma DataChunkHandled(s: Status, body: Bytes, len: nat, st: Storage)
    requires WellFramed(body, len) && s.handshakeDone
    ensures var e := Handle(FileData, s, body, len, st);
      (s.state != WaitFile ==> e == Unexpected(s)) &&
      (s.state == WaitFile && len < SEG_IND_LEN ==>
        e == Effect(s, [NackMsg(NACK_ERR_BAD_REQUEST)], [])) &&
      (s.state == WaitFile && len >= SEG_IND_LEN ==>
        var name, data := CString(s.fileName), body[SEG_IND_LEN..len];
        |data| == len - SEG_IND_LEN &&
        e.upcalls == [ChunkAppended(name, data)] &&
        match st.appendChunk(name, data, FromLE16(body[..SEG_IND_LEN]) == 0)
        case AppendFailed => e.next == s.(state := Idle) && e.replies == []
        case Appended(eof) => e.replies == [AckMsg()] && e.next.state == (if eof then Idle else WaitFile))
  {
  }

  /** No handler assigns the two unused session states, nor changes the stored name's size. */
  lemma HandlersKeepStatusValid(k: MsgKind, s: Status, body: Bytes, len: nat, st: Storage)
    requires WellFramed(body, len) && s.Valid()
    ensures Handle(k, s, body, len, st).next.Valid()
  {
  }

  /** Every reply fits the send buffer, so the codec never writes past it. */
  lemma RepliesFitTxBuf(k: MsgKind, s: Status, body: Bytes, len: nat, st: Storage)
    requires WellFramed(body, len) && st.Valid()
    ensures var e := Handle(k, s, body, len, st);
      |e.replies| <= 1 &&
      forall m :: m in e.replies ==> PACK_OVERHEAD + |m.payload| <= TX_BUF_SIZE
  {
  }
}
