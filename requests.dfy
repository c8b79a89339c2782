/**
 * The blocking request helpers' common pattern: the request message, the
 * abstract wait for the answer, and how its outcome is classified.
 */
module Requests {
  import opened Bytes
  import opened Defines
  import opened Conf
  import opened XferTypes
  import opened Wire
  import opened Wrappers

  /**
   * What the polling wait observes. Either the session stayed in the
   * awaited state until the timeout budget ran out, `during` being the
   * status the parser (running meanwhile) had left by then, or None when it
   * changed nothing; or the session left that state `elapsed` ticks after
   * the wait started, the parser having left the status `after`. A reply
   * that comes once the budget has run out is seen as silence.
   */
  datatype WaitOutcome = Silence(during: Option<Status>) | Reply(elapsed: nat, after: Status)

  /** The wait gave up: the timeout budget elapsed with the session still in the awaited state. */
  predicate TimedOut(o: WaitOutcome) {
    o.Silence?
  }

  /**
   * Outcomes the parser can produce for a waiting helper whose handshake
   * flag was `flag`. A silent wait may still have seen handlers that keep
   * the session state (a HANDSHAKE_REQ records the window and the
   * handshake, a FILE_SEND_REQ before the handshake the name); a reply
   * leaves the awaited state within the budget. Either way the status has
   * no unused session state, a 16-byte name, and the flag never cleared
   * (the handlers only ever set it).
   */
  ghost predicate Plausible(flag: bool, o: WaitOutcome, awaited: SessionState) {
    match o
    case Silence(during) =>
      during.Some? ==> during.value.state == awaited && during.value.Valid() && (flag ==> during.value.handshakeDone)
    case Reply(elapsed, after) =>
      elapsed < RESPONSE_TIMEOUT_TICKS && after.state != awaited && after.Valid() && (flag ==> after.handshakeDone)
  }

  /** The request succeeded: answered in time, and not by a NACK. */
  predicate Answered(o: WaitOutcome) {
    !TimedOut(o) && o.after.state != ErrReceived
  }

  /** The status when a silent wait gives up: what the parser left meanwhile, or `s` unchanged. */
  function AtTimeout(s: Status, o: WaitOutcome): Status
    requires TimedOut(o)
  {
    if o.during.Some? then o.during.value else s
  }

  /**
   * The status a helper leaves behind after waiting with status `s`: on a
   * timeout the status the wait ended in, returned to IDLE; on a NACK the
   * status the parser left, returned to IDLE; otherwise the status the
   * parser left. Both failures clear the last error.
   */
  function Conclude(s: Status, o: WaitOutcome): (r: Status)
    ensures !Answered(o) ==> r.state == Idle && r.lastError == NO_ERROR
    ensures Answered(o) ==> r == o.after
  {
    if TimedOut(o) then AtTimeout(s, o).(state := Idle, lastError := NO_ERROR)
    else if o.after.state == ErrReceived then o.after.(state := Idle, lastError := NO_ERROR)
    else o.after
  }

  /**
   * Exactly one of three outcomes: a timeout fails and leaves IDLE with no
   * error, keeping the window, the handshake flag and the name the parser
   * recorded while the session waited; a NACK fails and leaves IDLE with no
   * error; anything else succeeds with the state the parser left, which is
   * not the awaited one.
   */
  lemma ThreeOutcomes(s: Status, o: WaitOutcome, awaited: SessionState)
    requires Plausible(s.handshakeDone, o, awaited)
    ensures TimedOut(o) ==> !Answered(o) && Conclude(s, o) == AtTimeout(s, o).(state := Idle, lastError := NO_ERROR)
    ensures TimedOut(o) && o.during.Some? ==>
      Conclude(s, o).peerWindow == o.during.value.peerWindow &&
      Conclude(s, o).handshakeDone == o.during.value.handshakeDone &&
      Conclude(s, o).fileName == o.during.value.fileName
    ensures !TimedOut(o) && o.after.state == ErrReceived ==>
      !Answered(o) && Conclude(s, o) == o.after.(state := Idle, lastError := NO_ERROR)
    ensures !TimedOut(o) && o.after.state != ErrReceived ==>
      Answered(o) && Conclude(s, o).state == o.after.state != awaited
  {
  }

  /** A helper never leaves an unused state behind, nor clears the handshake flag. */
  lemma ConcludeKeepsStatusValid(s: Status, o: WaitOutcome, awaited: SessionState)
    requires s.Valid() && Plausible(s.handshakeDone, o, awaited)
    ensures Conclude(s, o).Valid()
    ensures s.handshakeDone ==> Conclude(s, o).handshakeDone
  {
  }

  /** A handshake request offers the window, little-endian in two bytes. */
  function HandshakeRequest(window: u16): (m: Msg)
    ensures m.id == PACK_HANDSHAKE_REQ && |m.payload| == 2 && FromLE16(m.payload) == window
  {
    LE16RoundTrip(window);
    Msg(PACK_HANDSHAKE_REQ, LE16(window))
  }

  /** A files-list request carries nothing but its id. */
  function FilesListRequest(): (m: Msg)
    ensures m.id == PACK_FILES_LIST_REQ && |m.payload| == 0
  {
    Msg(PACK_FILES_LIST_REQ, [])
  }

  /** A C string sent with its terminator. */
  predicate NameFits(name: Bytes) {
    0 !in name && PACK_OVERHEAD + |name| + 1 <= TX_BUF_SIZE
  }

  /** A name with its terminator: one byte longer, and read back as the name when it holds no NUL. */
  function NulTerminated(name: Bytes): (r: Bytes)
    ensures |r| == |name| + 1 && r[|name|] == 0
    ensures CString(r) == CString(name)
    ensures 0 !in name ==> CString(r) == name
  {
    CStringNulTerminated(name);
    name + [0]
  }

  /** A hash request carries the NUL-terminated name, and fits the send buffer when the name does. */
  function FileHashRequest(name: Bytes): (m: Msg)
    ensures m.id == PACK_FILE_HASH_REQ && CString(m.payload) == CString(name)
    ensures NameFits(name) ==> CString(m.payload) == name && PACK_OVERHEAD + |m.payload| <= TX_BUF_SIZE
  {
    Msg(PACK_FILE_HASH_REQ, NulTerminated(name))
  }

  /** A send request carries the NUL-terminated name, and fits the send buffer when the name does. */
  function FileSendRequest(name: Bytes): (m: Msg)
    ensures m.id == PACK_FILE_SEND_REQ && CString(m.payload) == CString(name)
    ensures NameFits(name) ==> CString(m.payload) == name && PACK_OVERHEAD + |m.payload| <= TX_BUF_SIZE
  {
    Msg(PACK_FILE_SEND_REQ, NulTerminated(name))
  }

  /** The receiving end reads back the name a request carries. */
  lemma RequestNameReadBack(name: Bytes, rest: Bytes)
    requires NameFits(name)
    ensures CString(FileSendRequest(name).payload + rest) == name
    ensures CString(FileHashRequest(name).payload + rest) == name
  {
    assert name + [0] + rest == name + ([0] + rest);
    CStringStopsAtNul(name, [0] + rest);
  }
}
