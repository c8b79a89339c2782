# fileXferLib protocol engine in Dafny

A model of the protocol engine of fileXferLib, a small C library through which two
embedded peers exchange files over a byte link. It covers src/fileXfer.c and the
three headers it is built from.

The engine frames every message as a packet:
`[preamble 0xDEADBEEF:4][msg id:1][payload length:2][payload][crc32:4]`, all fields
little-endian. It keeps one status record and one packet buffer in each direction.
It consists of:

- the codec that fills the send buffer (`fill_*`, `send_msg`, `report_ack`, `report_nack`);
- a three-state parser (preamble, body, message) that reassembles incoming packets in
  the receive buffer and dispatches each to its message handler;
- the handlers, which move the session state and answer with ACK, NACK or a response;
- the four blocking requests (`make_handshake`, `request_files_list`,
  `request_file_hash`, `send_file`), each of which sends a request and polls the
  session state until the parser changes it or the timeout expires.

`send_file` cuts the file into FILE_DATA segments, numbered downwards so that index 0
arrives last. It sends each segment and waits for its ACK before sending the next.

The project is organised as follows.

- `bytes.dfy`, `defines.dfy`, `conf.dfy`, `xfer_types.dfy`: machine integers,
  little-endian and C-string helpers, the packet constants, the configuration, and the
  state enumerations with the status record.
- `wire.dfy`: the codec as functions (`Encode`, `Decode`) with its round trips.
- `framing.dfy`: the parser's decisions as functions of the bytes the link holds.
  These are preamble matching, the room check, and the body and checksum check.
- `sessions.dfy`: every message handler as a transition of the status record, with
  the reply it sends and the callbacks it makes.
- `requests.dfy`: the request messages and the outcome of the polling wait.
- `segmentation.dfy`, `sending.dfy`: the segmentation of `send_file`, both as the
  source computes it on 16- and 32-bit integers and as the model sends it, and the
  loop's run.
- `engine.dfy`: the engine itself, a class `FileXfer`.
  - Its fields are the status record, the preamble index, the link's pending input,
    and the two buffers (arrays of 256 and 267 bytes).
  - Its methods are the fill functions, the parser states, the message processor and
    the blocking requests.
  - Each method is proved against the functions above.
  - The class invariant `Valid()` keeps the buffer sizes and the matcher index. It
    also keeps the packet the receive buffer holds while a message is processed.

Foreign code is modelled as follows.

- CRC32 is a function the model does not interpret.
- The storage callbacks are data: the answers the host gives.
- The link is the sequence of bytes it delivers.
- The peer's answers to a blocking request are the outcomes of its wait. An outcome
  is either silence until the timeout, with the status the parser left meanwhile in
  the awaited state (or none, when it changed nothing), or the status the parser
  left on leaving the awaited state within the timeout. A reply that comes later is
  silence. Such a status is taken to be one the parser can leave: silence keeps the
  awaited state, a reply leaves it, neither is an unused state, and the handshake
  flag stays set once it is set.

## Model

| member | source | states |
|---|---|---|
| Bytes.LE16 | src/fileXfer.c:221-222 | a 16-bit value is written as two bytes, low byte first |
| Bytes.LE16RoundTrip | src/fileXfer.c:138 | reading back a written 16-bit field gives the value |
| Bytes.LE16Injective | src/fileXfer.c:138 | two bytes are the encoding of the value read from them |
| Bytes.LE32 | src/fileXfer.c:692 | a 32-bit value is written as four bytes, low byte first |
| Bytes.LE32RoundTrip | src/fileXfer.c:167 | reading back a written 32-bit field gives the value |
| Bytes.LE32Injective | src/fileXfer.c:167 | four bytes are the encoding of the value read from them |
| Bytes.CString | src/fileXfer.c:581 | the string an argument pointer denotes: a prefix of the bytes, free of NUL, followed by NUL unless it reaches the end |
| Bytes.Zeros | src/fileXfer.c:13-18 | the zero bytes a static buffer starts with |
| Bytes.Strncpy | src/fileXfer.c:607 | `strncpy` into 16 bytes keeps the string cut to 16 bytes, pads the rest with NULs, and leaves no terminator exactly when the string fills all 16 |
| Bytes.CStringStopsAtNul | src/fileXfer.c:359-361 | a string written with its terminator reads back as itself, whatever follows |
| Bytes.CStringNulTerminated | src/fileXfer.c:312-314 | appending a terminator does not change the string a buffer holds |
| Bytes.CStringPrefix | src/fileXfer.c:607 | cutting a buffer past the end of its string keeps the string; cutting it inside the string leaves the bytes kept, with no terminator |
| Conf.RxHoldsOneFullPacket | inc/fileXferConf.h:11-15 | the receive buffer holds exactly one packet with a default-window payload (267 bytes) |
| Defines.OffsetsAreRunningSums | inc/fileXferDefines.h:6-15 | each field index is the sum of the lengths of the fields before it; the overhead is 11 bytes |
| Defines.MsgKind.Id | inc/fileXferDefines.h:21-31 | every message kind has an id between PACK_ID_MIN and PACK_ID_MAX |
| Defines.KindOf | src/fileXfer.c:184-196 | an id is dispatched exactly when it lies in 1..11, and then to the kind that carries it, within the 12-slot table |
| Defines.KindOfId | src/fileXfer.c:59-72 | the table maps each id back to its kind, so the ids are distinct |
| Defines.NackCodesDistinct | inc/fileXferDefines.h:34-38 | the five NACK codes are distinct |
| XferTypes.ParseState.Code | src/fileXfer.c:52-56 | every parse state indexes the 3-entry table of parser functions |
| XferTypes.ErrorStatesMatchNackCodes | inc/fileXfer.h:32-39 | a received NACK code stored as the last error reads as the matching error state, and none of them reads as NO_ERROR |
| Wire.PreambleBytes | src/fileXfer.c:690-694 | the preamble travels as EF BE AD DE |
| Wire.Head | src/fileXfer.c:711-716 | the bytes the checksum covers are 7 plus the payload length |
| Wire.Encode | src/fileXfer.c:690-720 | a built packet is the 11-byte overhead plus the payload, starts with the preamble and the id, and its trailing checksum holds |
| Wire.Decode | src/fileXfer.c:165-169 | only a frame that starts with the preamble, whose checksum holds and whose length field counts its payload decodes, and its message then fits the 16-bit length field |
| Wire.EncodeLayout | src/fileXfer.c:690-716 | a built packet is 11 bytes plus its payload, with preamble, id, length, payload and the checksum of the first 7+n bytes at their offsets |
| Wire.DecodeEncode | src/fileXfer.c:166-169 | a built packet decodes to its message |
| Wire.EncodeDecode | src/fileXfer.c:166-169 | every packet that decodes is the built packet of its message |
| Framing.Advance | src/fileXfer.c:97-120 | a matching byte advances the preamble index by one; any other byte restarts it at 0 |
| Framing.Resume | src/fileXfer.c:107-109 | after a completed preamble, matching restarts at 0 |
| Framing.MatchState | src/fileXfer.c:80-121 | the match index after any byte stream stays within the preamble length |
| Framing.MatchStateIsSuffix | src/fileXfer.c:97-120 | the bytes matched so far are the last bytes heard |
| Framing.MatchCompleteIsPreamble | src/fileXfer.c:107-116 | the parser moves to the body only when the last four bytes heard are the preamble |
| Framing.FalseStartHidesPreamble | src/fileXfer.c:118-120 | a byte that breaks a partial match is dropped, so a preamble that starts with it is missed |
| Framing.FitsAfterHeader | src/fileXfer.c:140-151 | after a header, a payload passes the room check exactly when it is at most 256 bytes |
| Framing.FitsAsWrittenBelowWrap | src/fileXfer.c:141-143 | the source's 16-bit room check agrees with the true one while `len + 4` does not wrap |
| Framing.FitsAsWrittenAdmitsHugeLength | src/fileXfer.c:141-143 | a declared length of 65535 passes the source's room check, and the second read asks for 3 bytes |
| Framing.ScanBody | src/fileXfer.c:124-180 | the header is incomplete exactly when fewer than 3 bytes follow the preamble; the payload is refused exactly when it declares more than 256 bytes; a whole packet is the preamble and the bytes up to its checksum, accepted exactly when that checksum holds |
| Framing.BodyStepOf | src/fileXfer.c:124-180 | the body state never stays in the body; only an accepted packet leads to processing; it never consumes more than the link held; any reply is a single NACK, after which it waits for a preamble |
| Framing.HeaderBytes | src/fileXfer.c:126-138 | after the header read, the buffer holds the preamble, id and length, and the length field declares the payload size |
| Framing.PayloadBytes | src/fileXfer.c:154-163 | the second read appends payload and checksum to the header |
| Framing.EncodedPacketAccepted | src/fileXfer.c:124-180 | a packet the codec built, arriving whole after its preamble, is accepted as built |
| Framing.AcceptedIsEncoded | src/fileXfer.c:165-179 | an accepted packet decodes, fits the window, and is the codec packet of its message |
| Requests.Conclude | src/fileXfer.c:232-260 | a failed wait leaves IDLE with no error; a successful wait leaves the status the parser produced |
| Requests.ThreeOutcomes | src/fileXfer.c:243-260 | timeout, NACK and answer are the only outcomes; a timeout fails, IDLE with no error, keeping the window, the handshake flag and the name the parser recorded during the wait; a NACK fails, IDLE with no error; an answer succeeds with the state the parser left, which is not the awaited one |
| Requests.ConcludeKeepsStatusValid | src/fileXfer.c:243-260 | a helper never leaves an unassigned session state behind, and never clears the handshake flag |
| Requests.HandshakeRequest | src/fileXfer.c:217-223 | a HANDSHAKE_REQ carries the offered window, read back little-endian from its two payload bytes |
| Requests.FilesListRequest | src/fileXfer.c:263-267 | a FILES_LIST_REQ carries no payload |
| Requests.NulTerminated | src/fileXfer.c:312-314 | a name sent with its terminator is one byte longer, ends in NUL, and reads back as the name when it holds no NUL |
| Requests.FileHashRequest | src/fileXfer.c:308-315 | a FILE_HASH_REQ reads back as the C string of the name, and fits the send buffer when the name does |
| Requests.FileSendRequest | src/fileXfer.c:355-362 | a FILE_SEND_REQ reads back as the C string of the name, and fits the send buffer when the name does |
| Requests.RequestNameReadBack | src/fileXfer.c:312-314 | the receiver reads back the name a FILE_HASH_REQ or FILE_SEND_REQ carries |
| Sessions.ListRoom | src/fileXfer.c:534-538 | the room offered to the listing callback is the peer's window, capped by the send buffer's payload room |
| Sessions.OnHandshakeReq | src/fileXfer.c:488-505 | records the peer's window read little-endian and the handshake, changes nothing else, and answers with the default window |
| Sessions.OnHandshakeRes | src/fileXfer.c:507-518 | awaited, records the peer's window and the handshake and returns to IDLE without a reply; otherwise answers NACK(UNEXPECTED_PACKET) and changes nothing |
| Sessions.OnFilesListReq | src/fileXfer.c:520-549 | never changes the status; before the handshake answers NACK(NO_HANDSHAKE); after it answers FILES_LIST_RES with a listing that fits the peer's window and the send buffer |
| Sessions.OnFilesListRes | src/fileXfer.c:551-564 | awaited, returns to IDLE and hands the host the count byte and the `len - 1` bytes after it; otherwise answers NACK(UNEXPECTED_PACKET) and changes nothing |
| Sessions.OnFileHashReq | src/fileXfer.c:566-591 | never changes the status; before the handshake answers NACK(NO_HANDSHAKE); after it answers the hash, read back little-endian, or NACK(BAD_REQUEST) exactly when the storage has none |
| Sessions.OnFileHashRes | src/fileXfer.c:593-603 | awaited, returns to IDLE and hands the host the hash read little-endian; otherwise answers NACK(UNEXPECTED_PACKET) and changes nothing |
| Sessions.OnFileSendReq | src/fileXfer.c:605-628 | stores the name, even before the handshake: a shorter name reads back whole, a name of 16 or more bytes is kept as its first 16 bytes with no terminator; after the handshake answers ACK and opens the file session, before it answers NACK(NO_HANDSHAKE) and keeps the state |
| Sessions.OnFileData | src/fileXfer.c:634-665 | changes only the session state, to IDLE or not at all; calls the append callback exactly after the handshake, in a file session, with a payload of at least 2 bytes, with the stored name and `len - 2` bytes; an ACK follows only an append; otherwise answers NACK(NO_HANDSHAKE) or NACK(UNEXPECTED_PACKET) |
| Sessions.OnAck | src/fileXfer.c:667-675 | awaited, returns to IDLE without a reply; otherwise answers NACK(UNEXPECTED_PACKET) and changes nothing |
| Sessions.OnNack | src/fileXfer.c:677-683 | records ERR_RECEIVED and the code, changes nothing else, and is not answered |
| Sessions.Handle | src/fileXfer.c:59-72 | every handler sends at most one reply and makes at most one host call; only the three data-carrying responses call the host; the file-receive request does nothing; only the handshake messages change the peer's window and only the send request the stored name |
| Sessions.ChunkLenUnderflowsAsWritten | src/fileXfer.c:637 | a FILE_DATA payload of 0 or 1 bytes makes the source's chunk length wrap past the receive buffer; from 2 bytes on it is the payload less the index |
| Sessions.HandshakeGate | src/fileXfer.c:520-528 | before the handshake, FILES_LIST_REQ, FILE_HASH_REQ, FILE_SEND_REQ and FILE_DATA are answered NACK(NO_HANDSHAKE) and change nothing except the stored name |
| Sessions.HandshakeFlagOnlySet | src/fileXfer.c:488-518 | the handshake flag is never cleared, and is set only by the two handshake messages |
| Sessions.AwaitedResponse | src/fileXfer.c:507-518 | a response in its awaited state returns to IDLE without a reply; in any other state it is answered NACK(UNEXPECTED_PACKET) and changes nothing |
| Sessions.NackRecorded | src/fileXfer.c:677-683 | a NACK in any state records its code and sets ERR_RECEIVED, without a reply |
| Sessions.HandshakeAnswer | src/fileXfer.c:488-505 | a handshake request stores the peer's window, completes the handshake and is answered with the default window |
| Sessions.SendRequestOpensFile | src/fileXfer.c:605-628 | after the handshake, a send request stores the name, is ACKed and opens a file session |
| Sessions.DataChunkHandled | src/fileXfer.c:634-665 | a chunk appends `len - 2` bytes under the stored name; a failed append closes the session silently; otherwise the chunk is ACKed and the session closes on the end-of-file flag, which starts raised for index 0; outside a file session it is unexpected |
| Sessions.HandlersKeepStatusValid | src/fileXfer.c:488-683 | no handler assigns the two unused session states or changes the stored name's size |
| Sessions.RepliesFitTxBuf | src/fileXfer.c:488-683 | every handler sends at most one reply, and every reply fits the send buffer |
| Segmentation.ChunkSize | src/fileXfer.c:422 | the chunk is the window less the index, capped so the packet fits the send buffer, and 0 when the window leaves no room |
| Segmentation.SegmentCount | src/fileXfer.c:413-415 | the segment count is at least one |
| Segmentation.SegmentCountIsCeiling | src/fileXfer.c:413-415 | the count is the least number of chunks that covers the file |
| Segmentation.SegmentCountStep | src/fileXfer.c:478-479 | sending one full chunk leaves one segment fewer and the same remainder |
| Segmentation.SegmentsFrom | src/fileXfer.c:420-480 | the segments of a range are never empty |
| Segmentation.Segments | src/fileXfer.c:413-480 | a file has ceil(size / chunk) segments (one for an empty file), numbered down to 0, each but the last a full chunk that the next follows, from byte 0 to the end of the file |
| Segmentation.SegmentsCount | src/fileXfer.c:413-420 | there are ceil(size / chunk) segments |
| Segmentation.SegmentsIndices | src/fileXfer.c:416 | indices descend from count-1 to 0 |
| Segmentation.SegmentsContiguous | src/fileXfer.c:478-479 | every chunk but the last is full, and the next one starts where it ends |
| Segmentation.SegmentsLast | src/fileXfer.c:422-423 | the last chunk ends at the end of the file, holds at most a chunk, and is empty only for an empty file |
| Segmentation.SegmentsOffsets | src/fileXfer.c:417 | the k-th segment starts k chunks into the file |
| Segmentation.SegmentsWithin | src/fileXfer.c:430-431 | every read stays inside the file |
| Segmentation.SegmentsReassemble | src/fileXfer.c:420-480 | the chunks, concatenated in sending order, are the file |
| Segmentation.DivisorAsWritten | src/fileXfer.c:413-415 | the source's divisor is 0 exactly for window 2, the window less 2 above it, and wraps to near 2^32 below it |
| Segmentation.SegNumAsWritten | src/fileXfer.c:413-415 | the source's count has no value exactly for window 2, and is 0 for an empty file |
| Segmentation.SegNumCountsSegments | src/fileXfer.c:413-415 | for a window over 2 and a non-empty file whose count fits 16 bits, the source's count is the model's |
| Segmentation.ChunkAsWrittenVersusChunkSize | src/fileXfer.c:422-423 | past index 0 the source's chunk is the model's while the window fits the send buffer, larger above that, and at least 65534 below window 2; at index 0 it is the size modulo the window less 2 |
| Segmentation.SegmentsAsWritten | src/fileXfer.c:413-440 | the source sends `seg_num` segments numbered down to 0, and none for window 2 (the division by zero) |
| Segmentation.SendLoopIndices | src/fileXfer.c:416-420 | the source's loop numbers its segments down to 0 |
| Segmentation.SendLoopOffsetAt | src/fileXfer.c:417 | the source's k-th read starts at the 16-bit wrapped sum of k chunks |
| Segmentation.SendLoopAsWritten | src/fileXfer.c:420-480 | the source's loop visits one segment per index from the first down to 0 |
| Segmentation.SendLoopAsWrittenAt | src/fileXfer.c:420-480 | the source's k-th segment has index first-k and starts at the 16-bit wrapped sum of k chunks |
| Segmentation.SendLoopAgrees | src/fileXfer.c:413-480 | for windows whose packets fit, files under 64 KiB and sizes that are not a multiple of the chunk, the source's loop sends the model's segments |
| Segmentation.AsWrittenAgreesInRange | src/fileXfer.c:413-480 | in that range the source's segmentation is the model's |
| Segmentation.ExactMultipleAsWritten | src/fileXfer.c:422-423 | for a size that is a multiple of the chunk, the source's index-0 chunk is empty and no read reaches the last chunk |
| Segmentation.EmptyFileAsWritten | src/fileXfer.c:413-420 | an empty file makes the source send no segment at all, while the model sends one empty index-0 segment |
| Segmentation.OffsetWrapsAsWritten | src/fileXfer.c:417 | a 70000-byte file over window 245: the source reads its 271st chunk at offset 74 instead of 65610 |
| Segmentation.SegNumTruncatedAsWritten | src/fileXfer.c:413 | 2^32-1 segments are counted as 65535 |
| Segmentation.SmallWindowAsWritten | src/fileXfer.c:413-415 | window 2 divides by zero; window 1 sends a 1000-byte file as one 1000-byte chunk; the model gives up on both |
| Segmentation.ReReadLoopAsWritten | src/fileXfer.c:420-480 | the source's loop reading the window again on every pass: one segment per index, from the first index down to 0 |
| Segmentation.ReReadLoopAt | src/fileXfer.c:420-423 | its k-th pass has index first - k and the chunk the source works out from the window in force at that pass |
| Segmentation.ReReadLoopSteady | src/fileXfer.c:420-423 | the source's loop, reading the window again on every pass, is the loop over a fixed window as long as the window stays put |
| Segmentation.WindowChangeCutsFileAsWritten | src/fileXfer.c:420-423 | a 300-byte file over window 200, whose window drops to 100 during the first ACK wait: the source's index-0 chunk is 6 bytes at offset 198, so bytes 204 to 299 are never sent; the fixed chunk sends the 102 bytes left |
| Segmentation.DataPacketOverflowsAsWritten | src/fileXfer.c:422-440 | with the default window, a full FILE_DATA packet is 267 bytes, 11 more than the send buffer; the capped chunk fills it exactly |
| Segmentation.SendOne | src/fileXfer.c:425-475 | one iteration sends at most one message, exactly one when it succeeds; a failed read ends IDLE; a success leaves the status the ACK's wait left |
| Segmentation.Transfer | src/fileXfer.c:420-480 | the loop sends no more messages than there are segments, and always ends in a status it computes from its waits |
| Segmentation.TransferOutcome | src/fileXfer.c:420-484 | the k-th message carries the k-th segment's chunk as read; every wait but the last succeeded; the loop succeeds exactly when every segment was sent and acknowledged |
| Segmentation.TransferStatus | src/fileXfer.c:420-484 | a completed loop leaves the status the last ACK's wait left (the entry status when there is no segment); a failed wait leaves IDLE with no error; a failed read leaves IDLE in the status the previous wait left |
| Segmentation.SendFromTransfers | src/fileXfer.c:420-480 | walking the bytes left with one fixed chunk, a full one past index 0 and the rest of the file at index 0, is the loop over the segments |
| Segmentation.SendingStart | src/fileXfer.c:416-420 | before the loop nothing is sent and the whole run is ahead |
| Segmentation.SendingAdvance | src/fileXfer.c:420-480 | one iteration reads a chunk inside the file at an index that fits 16 bits; it either stands before the next segment or ends the run with its own message |
| Segmentation.TransferDeliversFile | src/fileXfer.c:420-484 | a completed loop sends indices count-1 down to 0 whose chunks, in order, are the file |
| Sending.AckSeq | src/fileXfer.c:451-475 | the waits after the first n data messages, in order |
| Sending.PlanSegments | src/fileXfer.c:400-416 | the loop runs only when the size is known, the chunk is positive and the indices fit 16 bits, and then over the file's segments |
| Sending.SendPlanned | src/fileXfer.c:398-484 | after the accepted request the session ends IDLE; when the checks fail nothing is sent and the status is kept; otherwise no more messages are sent than there are segments |
| Sending.PlannedRun | src/fileXfer.c:400-480 | once the checks pass, the loop over the segments is the walk over the bytes from offset 0 |
| Sending.SendFileRun | src/fileXfer.c:382-396 | `send_file` always ends IDLE; an unanswered request sends no data, fails, and leaves no error |
| Sending.SendFileOutcome | src/fileXfer.c:355-485 | `send_file` succeeds exactly when the request is answered, the checks pass, and every segment is sent and acknowledged |
| Sending.SendFileDelivers | src/fileXfer.c:355-485 | a successful `send_file` sends ceil(size / chunk) FILE_DATA messages, indices descending to 0, whose chunks are the file; the chunk is the one of the window in force when the request was accepted, kept for the whole loop |
| Sending.SendFileStatus | src/fileXfer.c:355-485 | `send_file` leaves: after an unanswered request, IDLE with no error; after a failed ACK wait, IDLE with no error; after a give-up or a failed read, IDLE in the status of the last answer; after success, the status the last ACK's wait left |
| Sending.HandshakeDuringTimedOutWait | src/fileXfer.c:488-505 | a HANDSHAKE_REQ handled while a helper waits keeps the session waiting; if the wait then times out, the helper fails, IDLE with no error, and the window and the handshake the handler recorded stay |
| Engine.FileXfer.constructor | src/fileXfer.c:9-18 | the engine starts with zeroed buffers, no handshake, IDLE, and waiting for a preamble |
| Engine.FileXfer.FillPreamble | src/fileXfer.c:690-694 | the packet restarts at 0 and the preamble is in its first four bytes |
| Engine.FileXfer.FillMsgId | src/fileXfer.c:696-699 | the id is at index 4 and the fill grows by one, on 16 bits |
| Engine.FileXfer.FillLen | src/fileXfer.c:701-704 | the length is at index 5, little-endian |
| Engine.FileXfer.FillPayload | src/fileXfer.c:706-709 | the payload is copied to index 7, the bytes around it are unchanged, and the fill grows by its length |
| Engine.FileXfer.FillMsgCrc | src/fileXfer.c:711-716 | the checksum of the filled bytes is appended |
| Engine.FileXfer.SendMsg | src/fileXfer.c:718-720 | the filled bytes, the codec packet of the message, are handed to the link |
| Engine.FileXfer.SendMessage | src/fileXfer.c:219-230 | the fill sequence leaves exactly `Encode(m)` in the send buffer and sends it |
| Engine.FileXfer.ReportNack | src/fileXfer.c:200-207 | sends a NACK packet carrying the code |
| Engine.FileXfer.ReportAck | src/fileXfer.c:209-215 | sends an ACK packet with an empty payload |
| Engine.FileXfer.ReadByte | src/fileXfer.c:86-87 | a one-byte read takes the next byte, or reports a short read on an empty link |
| Engine.FileXfer.ReadInto | src/fileXfer.c:127 | a read of n bytes into the receive buffer takes what the link holds, up to n, and leaves the rest of the buffer unchanged |
| Engine.FileXfer.MatchPreamble | src/fileXfer.c:80-121 | a short read returns to IDLE; otherwise the byte is heard, and the body is awaited exactly when a preamble was completed |
| Engine.FileXfer.MatchByte | src/fileXfer.c:97-120 | the matcher's index follows `MatchState`, and a completed preamble is placed in the receive buffer |
| Engine.FileXfer.ReadBody | src/fileXfer.c:124-180 | the body state does what `BodyStepOf` makes of the link's bytes: parse state, session, bytes consumed and replies |
| Engine.FileXfer.CheckRoom | src/fileXfer.c:138-151 | the room check refuses exactly the payloads `ScanBody` refuses, with NACK(NO_MEMORY) |
| Engine.FileXfer.ReadPayload | src/fileXfer.c:153-163 | the second read follows `BodyStepOf` |
| Engine.FileXfer.CheckFrame | src/fileXfer.c:165-179 | a wrong checksum is refused with NACK(WRONG_CRC) and the session kept; a good one moves to processing with the packet recorded |
| Engine.FileXfer.ProcessMessage | src/fileXfer.c:182-198 | an unknown id returns to IDLE; a known one applies its handler's transition, reply and callbacks; the parser then waits for a preamble |
| Engine.FileXfer.Commit | src/fileXfer.c:488-683 | the engine takes the handler's status, sends its reply through the codec, and records its callbacks |
| Engine.FileXfer.ParserStep | src/fileXfer.c:74-77 | one parser step keeps the invariant and does what its state's function does: matching one byte as `MatchState` says, the body as `BodyStepOf` says, or the handler of the accepted message as `Handle` says, then waiting for a preamble |
| Engine.FileXfer.Await | src/fileXfer.c:232-260 | the polling wait leaves `Conclude` of the status: on a timeout what the parser recorded meanwhile, IDLE with no error; it succeeds exactly when answered, and keeps the handshake flag set |
| Engine.FileXfer.SendRequest | src/fileXfer.c:217-230 | a request enters the awaited state with no error, and the codec packet of its message is sent |
| Engine.FileXfer.MakeHandshake | src/fileXfer.c:217-261 | sends HANDSHAKE_REQ with the window, then waits in WAIT_HANDSHAKE; the status is `Conclude` of that wait |
| Engine.FileXfer.RequestFilesList | src/fileXfer.c:263-306 | sends FILES_LIST_REQ, then waits in WAIT_FILESLIST; the status is `Conclude` of that wait |
| Engine.FileXfer.RequestFileHash | src/fileXfer.c:308-353 | sends FILE_HASH_REQ with the name and its terminator, then waits in WAIT_FILEHASH; the status is `Conclude` of that wait |
| Engine.FileXfer.SendFile | src/fileXfer.c:355-485 | sends FILE_SEND_REQ, then the data messages of `SendFileRun`, returns its outcome and leaves its status, IDLE |
| Engine.FileXfer.RequestSend | src/fileXfer.c:355-396 | sends FILE_SEND_REQ with the name and its terminator, then waits in WAIT_ACK; the status is `Conclude` of that wait |
| Engine.FileXfer.SendAccepted | src/fileXfer.c:398-484 | after the accepted request, gives up or runs the loop as `SendPlanned` says: its messages, its outcome and its status |
| Engine.FileXfer.SendSegments | src/fileXfer.c:412-484 | the loop's messages, outcome and status (then IDLE) are `SendFrom` over the whole file |
| Engine.FileXfer.SendStep | src/fileXfer.c:420-480 | one turn of the loop takes the full chunk, or the rest of the file at index 0, and either stands before the next segment or ends the run as `SendFrom` says |
| Engine.FileXfer.SendSegment | src/fileXfer.c:421-475 | one iteration: a failed read ends IDLE without sending; otherwise it sends the chunk and the wait decides; the status is `SendOne`'s |

## Left out

- CRC32 (`crc32_compute_buf`) is left uninterpreted. The properties hold for any checksum function.
- `platform_send` is recorded as the message it carries. `SendMessage` proves that the
  bytes handed over are the codec packet.
- `platform_read` returns what the link holds, up to the amount asked. A link that
  returns fewer bytes while more are pending is not modelled.
- Logging is left out, along with the little-endian helpers' host dependence. The host is taken to be little-endian.
- Engine.FileXfer.Await: ticks, sleeps and the parser running during the wait are one
  step, given as the outcome the wait observes. This step changes only the status. It
  does not cover messages the parser sends, or callbacks it makes, during the wait.
- The callbacks (storage, listing, hash, append, size, read) are the answers they give, taken as data.
  The buffer writes they make are not modelled.
- Engine.FileXfer.SendFile: requires the name and its terminator to fit the send
  buffer, as does Engine.FileXfer.RequestFileHash. The source copies any name, wraps
  `strlen` to 16 bits and writes past the buffer for names over 244 bytes.
- Engine.FileXfer.SendSegment: does not model the header bytes a failed read leaves in the send buffer.
  It also does not model the order of the fill and the state change.
- Sessions.OnFileHashReq: the name is read up to the end of the receive buffer. The
  source's `strlen`-style read can run past it when no terminator arrives.
- The FILES_LIST_RES handler fills the packet in a different order: the payload first, then the length.
  The model builds the same packet with the common fill sequence.
- Concurrency between the parser and the blocking requests is not modelled. In the
  source they share the status record without synchronisation.
- `default_handler` (table slot 0) is left out: the range check in the message processor makes it unreachable.
  `file_receive_req_handler` is modelled as a handler that does nothing.
- Sessions.OnFileData: hands the append callback the stored name read as a C string, cut at 16 bytes.
  The source passes the raw 16-byte `file_name_temp` (src/fileXfer.c:651). After a name of 16 or more
  bytes, `strncpy` (src/fileXfer.c:607) leaves it unterminated, and a string read of it runs on into
  the fields after it in the status record (inc/fileXfer.h:41-50). The model does not capture that over-read.
  It also answers a payload under 2 bytes with NACK(BAD_REQUEST), the correction in the Findings row for src/fileXfer.c:637.
- Sessions.DataChunkHandled: states the same corrected behaviour as Sessions.OnFileData, with the same cut name.
- Engine.FileXfer.CheckRoom: refuses declared lengths 65532 to 65535 with NACK(NO_MEMORY), which the source's
  wrapping room check lets through; this is the correction in the Findings row for src/fileXfer.c:141-143.
- Engine.FileXfer.ReadBody: follows Engine.FileXfer.CheckRoom, so it refuses the same lengths 65532 to 65535
  (Findings row for src/fileXfer.c:141-143).
- Engine.FileXfer.SendFile: sends the corrected segments, not the source's. The chunk is capped to what the
  send buffer holds: 243 bytes at window 256, where the source uses 254 (Findings row for src/fileXfer.c:422-440).
  A 0-byte file sends one empty index-0 segment, where the source sends none (row for src/fileXfer.c:413-420).
  A size that is an exact multiple of the chunk gets a full index-0 chunk (row for src/fileXfer.c:422-423).
  A window of 2 or less, or a file of more than 65536 segments, makes it give up after the accepted
  request (rows for src/fileXfer.c:413-415 and src/fileXfer.c:413).
  The chunk is fixed from the window in force once the request is accepted. The source reads
  `respondent_winsize` again for every segment, and a HANDSHAKE_REQ handled during an ACK wait
  (src/fileXfer.c:493) changes it under a count already worked out (row for src/fileXfer.c:420-423).
- Engine.FileXfer.SendAccepted: carries the same corrections as Engine.FileXfer.SendFile (Findings rows for
  src/fileXfer.c:422-440, :413-420, :422-423, :413-415 and :413). It also fixes the chunk from the window
  in force at acceptance, where the source reads the window again for every segment (row for src/fileXfer.c:420-423).
- Engine.FileXfer.SendSegments: runs the corrected segments of Engine.FileXfer.SendFile: the capped chunk,
  the rest of the file at index 0, and one empty segment for an empty file (Findings rows for
  src/fileXfer.c:422-440, :422-423 and :413-420). Its `chunk` stays the same for the whole loop, whatever
  window the ACK waits leave; the source reads the window again for every segment (row for src/fileXfer.c:420-423).
- The split of `parser_wait_body` and `send_file` into several methods follows their steps.
  No behaviour is added by it.

## Findings

| source | as written | input that shows it | evidently intended | confidence | as-written member | corrected member |
|---|---|---|---|---|---|---|
| src/fileXfer.c:141-143 | the room check compares 16-bit values, so `len + 4` wraps | declared payload length 65535: needed space wraps to 3, the check passes and the second read asks for 3 bytes | refuse any payload over 256 bytes with NACK(NO_MEMORY) | not executed | Framing.FitsAsWrittenAdmitsHugeLength | Framing.FitsAfterHeader |
| src/fileXfer.c:422-440 | a chunk is the peer's window less 2, uncapped | a peer advertising the default window 256 and a file over 254 bytes: the FILE_DATA packet is 267 bytes in a 256-byte buffer | cap the chunk so the packet fits the send buffer | not executed | Segmentation.DataPacketOverflowsAsWritten | Segmentation.ChunkSize |
| src/fileXfer.c:637 | the chunk length is the declared length less 2, on 16 bits | a FILE_DATA packet with a 0- or 1-byte payload: the append callback gets 65534 or 65535 bytes | refuse a payload shorter than the segment index with NACK(BAD_REQUEST) | not executed | Sessions.ChunkLenUnderflowsAsWritten | Sessions.DataChunkHandled |
| src/fileXfer.c:417 | the read offset is a 16-bit counter | a 70000-byte file over window 245: the 271st chunk is read at 74 instead of 65610 | offsets as wide as the 32-bit file size | not executed | Segmentation.OffsetWrapsAsWritten | Segmentation.SegmentsOffsets |
| src/fileXfer.c:413 | the segment count is a 16-bit counter | a 2^32-1-byte file over window 3: 65535 segments are counted instead of 2^32-1 | refuse a file whose segments cannot all be numbered | not executed | Segmentation.SegNumTruncatedAsWritten | Sending.PlanSegments |
| src/fileXfer.c:413-415 | the divisor is the peer's window less 2, unchecked | window 2 divides by zero; window 1 sends a 1000-byte file as one 1000-byte chunk | give up when the window leaves no room for data | not executed | Segmentation.SmallWindowAsWritten | Segmentation.ChunkSize |
| src/fileXfer.c:422-423 | the index-0 chunk is `file_size % chunk` | a 486-byte file over window 245: index 0 carries 0 bytes and bytes 243-485 are never sent | the index-0 chunk is the rest of the file | not executed | Segmentation.ExactMultipleAsWritten | Segmentation.SegmentsReassemble |
| src/fileXfer.c:413-420 | an empty file has no segments | a 0-byte file: no FILE_DATA is sent, so the receiver never sees index 0 and stays in WAIT_FILE | one empty index-0 segment, which ends the receiver's session | not executed | Segmentation.EmptyFileAsWritten | Segmentation.Segments |
| src/fileXfer.c:420-423 | the chunk is worked out from `respondent_winsize` on every pass, while `seg_num` was worked out once | window 200 and a 300-byte file (2 segments), with a HANDSHAKE_REQ offering 100 handled during the first ACK wait: index 0 carries 6 bytes at offset 198 and the file arrives cut short | keep the chunk of the window the count was worked out from for the whole file | not executed | Segmentation.WindowChangeCutsFileAsWritten | Sending.SendFileDelivers |
