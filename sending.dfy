/**
 * What `send_file` does as a whole: the request, the wait for its ACK, the
 * checks before the loop, and the loop over the segments, as a function of
 * this end's status, the file's callbacks and the peer's answers.
 */
module Sending {
  import opened Bytes
  import opened Defines
  import opened XferTypes
  import opened Wire
  import opened Wrappers
  import opened Requests
  import opened Segmentation
  import opened Sessions

  /**
   * How the peer answers a file transfer: the wait after the send request,
   * then the waits after the data messages, in order (silence past the last).
   */
  datatype Peer = Peer(request: WaitOutcome, acks: seq<WaitOutcome>)
  {
    /** Answers the parser can produce for a sender whose handshake flag is `flag` when it calls `send_file`. */
    ghost predicate Valid(flag: bool) {
      Plausible(flag, request, WaitAck) &&
      AcksFrom(if request.Reply? then request.after.handshakeDone else flag, acks, 0)
    }
  }

  /** The first `n` data-message waits. */
  function AckSeq(acks: seq<WaitOutcome>, n: nat): (r: seq<WaitOutcome>)
    ensures |r| == n && forall k :: 0 <= k < n ==> r[k] == AckAt(acks, k)
  {
    if n == 0 then [] else AckSeq(acks, n - 1) + [AckAt(acks, n - 1)]
  }

  /**
   * The segments the loop runs over, for the peer's window and the size the
   * storage reports; None when `send_file` gives up before the loop: the
   * size is unknown, the window leaves no room for data, or the segment
   * indices would not fit their 16-bit field.
   */
  function PlanSegments(window: u16, size: Option<u32>): (r: Option<seq<Segment>>)
    ensures r.Some? ==> (size.Some? && ChunkSize(window) > 0 &&
      r.value == Segments(size.value, ChunkSize(window)) && |r.value| <= SEG_LIMIT && IndicesFit(r.value))
  {
    if size.None? then None
    else
      var chunk := ChunkSize(window);
      if chunk == 0 || SegmentCount(size.value, chunk) > SEG_LIMIT then None
      else
        SegmentsCount(0, size.value, chunk);
        SegmentIndicesFit(size.value, chunk);
        Some(Segments(size.value, chunk))
  }

  /** The status `send_file` works with once its request was answered. */
  function Accepted(s: Status, peer: Peer): Status {
    Conclude(s.(state := WaitAck, lastError := NO_ERROR), peer.request)
  }

  /**
   * What `send_file` does once its request was answered, from the status
   * `s` the answer left: give up, or run the loop over the segments for the
   * peer's window. Either way the session ends IDLE; a loop that
   * completes keeps the last error its last ACK's wait left.
   */
  function SendPlanned(s: Status, file: FileSource, peer: Peer): (r: Run)
    ensures r.status.state == Idle
    ensures PlanSegments(s.peerWindow, file.size).None? ==> r == Run(false, [], s.(state := Idle))
    ensures PlanSegments(s.peerWindow, file.size).Some? ==> |r.msgs| <= |PlanSegments(s.peerWindow, file.size).value|
  {
    match PlanSegments(s.peerWindow, file.size)
      case None => Run(false, [], s.(state := Idle))
      case Some(segs) =>
        var r := Transfer(segs, file, AckSeq(peer.acks, |segs|), s);
        Run(r.ok, r.msgs, r.status.(state := Idle))
  }

  /**
   * Once the checks pass, the loop over the segments is the loop over the
   * bytes of the file from the first on, as `send_file` runs it.
   */
  lemma PlannedRun(s: Status, file: FileSource, peer: Peer)
    ensures var chunk := ChunkSize(s.peerWindow);
      SendPlanned(s, file, peer) ==
        if file.size.None? || chunk == 0 || SegmentCount(file.size.value, chunk) > SEG_LIMIT then Run(false, [], s.(state := Idle))
        else
          var r := SendFrom(0, file.size.value, chunk, file, peer.acks, 0, s);
          Run(r.ok, r.msgs, r.status.(state := Idle))
  {
    var chunk := ChunkSize(s.peerWindow);
    if file.size.Some? && chunk > 0 && SegmentCount(file.size.value, chunk) <= SEG_LIMIT {
      var size := file.size.value;
      var replies := AckSeq(peer.acks, SegmentCount(size, chunk));
      assert forall k :: 0 <= k < |replies| ==> replies[k] == AckAt(peer.acks, 0 + k);
      SegmentsCount(0, size, chunk);
      SendFromTransfers(0, size, chunk, file, peer.acks, 0, replies, s);
      assert PlanSegments(s.peerWindow, file.size) == Some(Segments(size, chunk));
    }
  }

  /**
   * Whether `send_file` returns true, the data messages it sends after its
   * request, and the status it leaves: the session is IDLE whatever
   * happens, and an unanswered request sends nothing and clears the last
   * error.
   */
  function SendFileRun(s: Status, file: FileSource, peer: Peer): (r: Run)
    ensures r.status.state == Idle
    ensures !Answered(peer.request) ==> !r.ok && r.msgs == [] && r.status.lastError == NO_ERROR
  {
    if !Answered(peer.request) then Run(false, [], Accepted(s, peer))
    else SendPlanned(Accepted(s, peer), file, peer)
  }

  /**
   * `send_file` succeeds exactly when its request is answered, the size is
   * known, the window leaves room for data, the indices fit, and every
   * chunk is read and acknowledged; a failure sends no data message past
   * the one whose wait failed.
   */
  lemma SendFileOutcome(s: Status, file: FileSource, peer: Peer)
    ensures var r, segs := SendFileRun(s, file, peer), PlanSegments(Accepted(s, peer).peerWindow, file.size);
      r.ok <==> (Answered(peer.request) && segs.Some? &&
        |r.msgs| == |segs.value| && forall k :: 0 <= k < |segs.value| ==> Answered(AckAt(peer.acks, k)))
  {
    var segs := PlanSegments(Accepted(s, peer).peerWindow, file.size);
    if Answered(peer.request) && segs.Some? {
      TransferOutcome(segs.value, file, AckSeq(peer.acks, |segs.value|), Accepted(s, peer));
    }
  }

  /**
   * The status `send_file` leaves: after a timeout or a NACK, on the request
   * or on a data message, IDLE with no error; after it gives up or a read
   * fails, the status the last answer left (the request's, or the last
   * ACK's), IDLE; after it completes, the last ACK's status, IDLE.
   */
  lemma SendFileStatus(s: Status, file: FileSource, peer: Peer)
    ensures var r := SendFileRun(s, file, peer);
      var n := |r.msgs|;
      var last := AckAt(peer.acks, if n > 0 then n - 1 else 0);
      (!Answered(peer.request) ==> r.status == Conclude(s.(state := WaitAck, lastError := NO_ERROR), peer.request)) &&
      (n > 0 && !Answered(last) ==> !r.ok && r.status.state == Idle && r.status.lastError == NO_ERROR) &&
      (Answered(peer.request) && (n == 0 || Answered(last)) ==>
        r.status == (if n == 0 then Accepted(s, peer) else last.after).(state := Idle)) &&
      (r.ok ==> n > 0 && Answered(last))
  {
    var a := Accepted(s, peer);
    var segs := PlanSegments(a.peerWindow, file.size);
    if Answered(peer.request) && segs.Some? {
      var replies := AckSeq(peer.acks, |segs.value|);
      TransferOutcome(segs.value, file, replies, a);
      TransferStatus(segs.value, file, replies, a);
      SegmentsCount(0, file.size.value, ChunkSize(a.peerWindow));
    }
  }

  /**
   * End to end: when the storage holds `content` and `send_file` succeeds,
   * it sent one data message per segment of the peer's window less 2
   * (capped to what the send buffer holds), with indices descending to 0,
   * and the chunks they carry, in order, are the whole file. The window is
   * the one in force when the request was accepted, kept for the whole
   * loop, whatever window the ACK waits leave.
   */
  lemma SendFileDelivers(s: Status, content: Bytes, file: FileSource, peer: Peer)
    requires file.Holds(content) && SendFileRun(s, file, peer).ok
    ensures var msgs, c := SendFileRun(s, file, peer).msgs, ChunkSize(Accepted(s, peer).peerWindow);
      c > 0 && |msgs| == SegmentCount(|content|, c) &&
      (forall k :: 0 <= k < |msgs| ==>
        msgs[k].id == PACK_FILE_DATA && |msgs[k].payload| >= SEG_IND_LEN &&
        FromLE16(msgs[k].payload[..SEG_IND_LEN]) == |msgs| - 1 - k) &&
      Chunks(msgs) == content
  {
    var c := ChunkSize(Accepted(s, peer).peerWindow);
    var segs := PlanSegments(Accepted(s, peer).peerWindow, file.size).value;
    SegmentsCount(0, |content|, c);
    TransferDeliversFile(content, c, file, AckSeq(peer.acks, |segs|), Accepted(s, peer));
  }

  /**
   * A HANDSHAKE_REQ handled while a helper waits leaves the session in the
   * awaited state; when the wait then times out, the helper fails, and the
   * window and the handshake the handler recorded stay.
   */
  lemma HandshakeDuringTimedOutWait(s: Status, body: Bytes, len: nat, st: Storage)
    requires s.Valid() && s.state.Assignable() && WellFramed(body, len)
    ensures var during := Handle(HandshakeReq, s, body, len, st).next;
      var o := Silence(Some(during));
      Plausible(s.handshakeDone, o, s.state) && !Answered(o) &&
      Conclude(s, o) == s.(peerWindow := during.peerWindow, handshakeDone := true, state := Idle, lastError := NO_ERROR) &&
      during.peerWindow == body[0] as int + body[1] as int * 0x100
  {
  }
}
