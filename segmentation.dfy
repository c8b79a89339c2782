/**
 * Segmented file transfer: how the sender cuts a file into FILE_DATA
 * chunks tagged with a descending segment index (0 = last), both as the
 * source computes it on machine-width integers and as the model sends it,
 * and the sequence of messages the sending loop produces.
 */
module Segmentation {
  import opened Bytes
  import opened Defines
  import opened Conf
  import opened XferTypes
  import opened Wire
  import opened Wrappers
  import opened Requests

  /** Payload bytes a packet built in the send buffer can carry. */
  const TX_PAYLOAD_ROOM := TX_BUF_SIZE - PACK_OVERHEAD

  /** Segment indices travel as 16-bit values. */
  const SEG_LIMIT := 0x1_0000

  /** One FILE_DATA chunk: its segment index and the byte range of the file it carries. */
  datatype Segment = Segment(index: nat, offset: nat, length: nat)

  // ---------------------------------------------------------------------
  // Segmentation as the model sends it

  /**
   * Chunk size for a peer window: the window less the segment index, capped
   * so that the packet fits the send buffer; 0 when the window leaves no
   * room for data.
   */
  function ChunkSize(window: u16): (c: nat)
    ensures SEG_IND_LEN + c <= TX_PAYLOAD_ROOM
    ensures window > SEG_IND_LEN ==> 0 < c && SEG_IND_LEN + c <= window
    ensures window <= SEG_IND_LEN ==> c == 0
  {
    if window <= SEG_IND_LEN then 0
    else if window > TX_PAYLOAD_ROOM then TX_PAYLOAD_ROOM - SEG_IND_LEN
    else window - SEG_IND_LEN
  }

  /** Number of segments: the source's ceiling division, and one empty segment for an empty file. */
  function SegmentCount(size: nat, chunk: nat): (n: nat)
    requires chunk > 0
    ensures n >= 1
  {
    if size == 0 then 1
    else if size % chunk > 0 then size / chunk + 1
    else size / chunk
  }

  /** The count is the least number of chunks that covers the file. */
  lemma SegmentCountIsCeiling(size: nat, chunk: nat)
    requires chunk > 0 && size > 0
    ensures var n := SegmentCount(size, chunk);
      (n - 1) * chunk < size <= n * chunk
  {
  }

  /** Quotient and remainder are the only ones: `x == q * c + r` with `0 <= r < c` fixes both. */
  lemma DivModUnique(x: nat, c: nat, q: nat, r: nat)
    requires c > 0 && x == q * c + r && r < c
    ensures x % c == r && x / c == q
  {
    var q', r' := x / c, x % c;
    assert x == q' * c + r';
    if q' > q {
      MulMono(q + 1, q', c);
      assert false;
    } else if q' < q {
      MulMono(q' + 1, q, c);
      assert false;
    }
  }

  /** Taking one full chunk off a file larger than a chunk leaves one segment fewer. */
  lemma SegmentCountStep(rest: nat, chunk: nat)
    requires chunk > 0 && rest > chunk
    ensures SegmentCount(rest - chunk, chunk) == SegmentCount(rest, chunk) - 1
    ensures (rest - chunk) % chunk == rest % chunk
  {
    var q, r := rest / chunk, rest % chunk;
    assert rest - chunk == (q - 1) * chunk + r;
    DivModUnique(rest - chunk, chunk, q - 1, r);
  }

  /**
   * The segments of the `rest` bytes from `offset` on, in sending order:
   * a full chunk and the segments after it, or one last (possibly short)
   * chunk with index 0. A segment's index is the number of segments still
   * to come after it.
   */
  function SegmentsFrom(offset: nat, rest: nat, chunk: nat): (segs: seq<Segment>)
    requires chunk > 0
    ensures |segs| >= 1
    decreases rest
  {
    if rest <= chunk then [Segment(0, offset, rest)]
    else
      var tail := SegmentsFrom(offset + chunk, rest - chunk, chunk);
      [Segment(|tail|, offset, chunk)] + tail
  }

  /**
   * The segments of a whole file: ceil(size / chunk) of them (one for an
   * empty file), numbered down to 0, each but the last a full chunk that the
   * next follows, from the first byte to the last.
   */
  function Segments(size: nat, chunk: nat): (segs: seq<Segment>)
    requires chunk > 0
    ensures |segs| == SegmentCount(size, chunk)
    ensures IndicesDescend(segs) && FullAndContiguous(segs, chunk)
    ensures segs[0].offset == 0 && segs[|segs| - 1].offset + segs[|segs| - 1].length == size
    ensures segs[|segs| - 1].length <= chunk && (segs[|segs| - 1].length == 0 <==> size == 0)
  {
    SegmentsCount(0, size, chunk);
    SegmentsIndices(0, size, chunk);
    SegmentsContiguous(0, size, chunk);
    SegmentsLast(0, size, chunk);
    SegmentsFrom(0, size, chunk)
  }

  /** There are ceil(size / chunk) segments (one for an empty file). */
  lemma {:induction false} SegmentsCount(offset: nat, rest: nat, chunk: nat)
    requires chunk > 0
    ensures |SegmentsFrom(offset, rest, chunk)| == SegmentCount(rest, chunk)
    decreases rest
  {
    if rest <= chunk {
      if rest < chunk {
        DivModUnique(rest, chunk, 0, rest);
      } else {
        DivModUnique(rest, chunk, 1, 0);
      }
    } else {
      SegmentsCount(offset + chunk, rest - chunk, chunk);
      SegmentCountStep(rest, chunk);
    }
  }

  /** Indices run from count-1 down to 0: each segment's index is the number of segments after it. */
  predicate IndicesDescend(segs: seq<Segment>) {
    forall k :: 0 <= k < |segs| ==> segs[k].index == |segs| - 1 - k
  }

  /** Every chunk but the last is full, and each next one starts where it ends. */
  predicate FullAndContiguous(segs: seq<Segment>, chunk: nat) {
    forall k :: 0 <= k < |segs| - 1 ==> segs[k].length == chunk && segs[k].offset + chunk == segs[k + 1].offset
  }

  lemma {:induction false} SegmentsIndices(offset: nat, rest: nat, chunk: nat)
    requires chunk > 0
    ensures IndicesDescend(SegmentsFrom(offset, rest, chunk))
    decreases rest
  {
    if rest > chunk {
      var segs := SegmentsFrom(offset, rest, chunk);
      var tail := SegmentsFrom(offset + chunk, rest - chunk, chunk);
      SegmentsIndices(offset + chunk, rest - chunk, chunk);
      assert segs == [Segment(|tail|, offset, chunk)] + tail;
      forall k | 0 < k < |segs|
        ensures segs[k].index == |segs| - 1 - k
      {
        assert segs[k] == tail[k - 1];
        assert tail[k - 1].index == |tail| - 1 - (k - 1);
      }
    }
  }

  lemma {:induction false} SegmentsContiguous(offset: nat, rest: nat, chunk: nat)
    requires chunk > 0
    ensures FullAndContiguous(SegmentsFrom(offset, rest, chunk), chunk)
    decreases rest
  {
    if rest > chunk {
      var segs := SegmentsFrom(offset, rest, chunk);
      var tail := SegmentsFrom(offset + chunk, rest - chunk, chunk);
      SegmentsContiguous(offset + chunk, rest - chunk, chunk);
      assert segs == [Segment(|tail|, offset, chunk)] + tail;
      forall k | 0 < k < |segs| - 1
        ensures segs[k].length == chunk && segs[k].offset + chunk == segs[k + 1].offset
      {
        assert segs[k] == tail[k - 1] && segs[k + 1] == tail[(k - 1) + 1];
        assert tail[k - 1].length == chunk && tail[k - 1].offset + chunk == tail[(k - 1) + 1].offset;
      }
    }
  }

  /** The last chunk ends at the end of the range, holds at most a chunk, and is empty only for an empty range. */
  lemma {:induction false} SegmentsLast(offset: nat, rest: nat, chunk: nat)
    requires chunk > 0
    ensures var segs := SegmentsFrom(offset, rest, chunk);
      segs[|segs| - 1].offset + segs[|segs| - 1].length == offset + rest &&
      segs[|segs| - 1].length <= chunk &&
      (segs[|segs| - 1].length == 0 <==> rest == 0)
    decreases rest
  {
    if rest > chunk {
      var segs := SegmentsFrom(offset, rest, chunk);
      var tail := SegmentsFrom(offset + chunk, rest - chunk, chunk);
      SegmentsLast(offset + chunk, rest - chunk, chunk);
      assert segs == [Segment(|tail|, offset, chunk)] + tail;
      assert segs[|segs| - 1] == tail[|tail| - 1];
    }
  }

  /** The k-th segment starts k chunks into the range. */
  lemma {:induction false} SegmentsOffsets(offset: nat, rest: nat, chunk: nat, k: nat)
    requires chunk > 0 && k < |SegmentsFrom(offset, rest, chunk)|
    ensures SegmentsFrom(offset, rest, chunk)[k].offset == offset + k * chunk
    decreases rest
  {
    if k > 0 {
      assert rest > chunk;
      SegmentsOffsets(offset + chunk, rest - chunk, chunk, k - 1);
      assert (offset + chunk) + (k - 1) * chunk == offset + k * chunk;
    }
  }

  /** Every segment ends by `limit`. */
  predicate Within(segs: seq<Segment>, limit: nat) {
    forall k :: 0 <= k < |segs| ==> segs[k].offset + segs[k].length <= limit
  }

  /** The bytes of `content` the segments select, in sending order. */
  function Gather(content: Bytes, segs: seq<Segment>): Bytes
  {
    if |segs| == 0 then []
    else Slice(content, segs[0]) + Gather(content, segs[1..])
  }

  /** The bytes of `content` one segment selects (none when it reaches past the end). */
  function Slice(content: Bytes, s: Segment): Bytes {
    if s.offset + s.length <= |content| then content[s.offset..s.offset + s.length] else []
  }

  /** Every segment of a range lies inside it. */
  lemma {:induction false} SegmentsWithin(offset: nat, rest: nat, chunk: nat)
    requires chunk > 0
    ensures Within(SegmentsFrom(offset, rest, chunk), offset + rest)
    decreases rest
  {
    var segs := SegmentsFrom(offset, rest, chunk);
    if rest > chunk {
      var tail := SegmentsFrom(offset + chunk, rest - chunk, chunk);
      SegmentsWithin(offset + chunk, rest - chunk, chunk);
      assert segs == [Segment(|tail|, offset, chunk)] + tail;
      forall k | 0 <= k < |segs|
        ensures segs[k].offset + segs[k].length <= offset + rest
      {
        if k > 0 { assert segs[k] == tail[k - 1]; }
      }
    }
  }

  /** Reading the segments of a range in order and concatenating them gives back the range. */
  lemma {:induction false} SegmentsReassemble(content: Bytes, offset: nat, rest: nat, chunk: nat)
    requires chunk > 0 && offset + rest <= |content|
    ensures Gather(content, SegmentsFrom(offset, rest, chunk)) == content[offset..offset + rest]
    decreases rest
  {
    if rest <= chunk {
      GatherLast(content, offset, rest, chunk);
    } else {
      SegmentsReassemble(content, offset + chunk, rest - chunk, chunk);
      GatherStep(content, offset, rest, chunk);
    }
  }

  /** A range of at most one chunk is a single segment. */
  lemma GatherLast(content: Bytes, offset: nat, rest: nat, chunk: nat)
    requires 0 < chunk && rest <= chunk && offset + rest <= |content|
    ensures Gather(content, SegmentsFrom(offset, rest, chunk)) == content[offset..offset + rest]
  {
  }

  /** One full chunk in front of the gathered rest of the range gives the whole range. */
  lemma GatherStep(content: Bytes, offset: nat, rest: nat, chunk: nat)
    requires 0 < chunk < rest && offset + rest <= |content|
    requires Gather(content, SegmentsFrom(offset + chunk, rest - chunk, chunk)) ==
      content[offset + chunk..(offset + chunk) + (rest - chunk)]
    ensures Gather(content, SegmentsFrom(offset, rest, chunk)) == content[offset..offset + rest]
  {
  }

  lemma SplitSlice(s: Bytes, a: nat, b: nat, c: nat)
    requires a <= b <= c <= |s|
    ensures s[a..b] + s[b..c] == s[a..c]
  {
  }

  // ---------------------------------------------------------------------
  // Segmentation as the source computes it

  /**
   * `respondent_winsize - 2` converted to the unsigned type of `file_size`:
   * the window less 2 from a window of 2 on, 0 exactly at 2, and wrapped to
   * near 2^32 below it.
   */
  function DivisorAsWritten(window: u16): (d: u32)
    ensures d == 0 <==> window == SEG_IND_LEN
    ensures SEG_IND_LEN <= window ==> d == window - SEG_IND_LEN
    ensures window < SEG_IND_LEN ==> d == 0x1_0000_0000 + window - SEG_IND_LEN
  {
    Wrap32(window - SEG_IND_LEN)
  }

  /**
   * `seg_num`, a 16-bit counter; no value when the divisor is 0 (a division
   * by zero), which happens for a window of exactly 2; 0 for an empty file.
   */
  function SegNumAsWritten(size: u32, window: u16): (r: Option<u16>)
    ensures r.None? <==> window == SEG_IND_LEN
    ensures size == 0 && window != SEG_IND_LEN ==> r == Some(0)
  {
    var d := DivisorAsWritten(window);
    if d == 0 then None
    else
      DivOfZero(d);
      Some(Wrap16(if size % d > 0 then size / d + 1 else size / d))
  }

  /** Nothing divided by anything is nothing, with nothing left over. */
  lemma DivOfZero(d: nat)
    requires d > 0
    ensures 0 / d == 0 && 0 % d == 0
  {
  }

  /**
   * For a window over 2 and a non-empty file whose count fits 16 bits,
   * `seg_num` is the number of segments the file needs.
   */
  lemma SegNumCountsSegments(size: u32, window: u16)
    requires SEG_IND_LEN < window && 0 < size && SegmentCount(size, window - SEG_IND_LEN) < 0x1_0000
    ensures SegNumAsWritten(size, window) == Some(SegmentCount(size, window - SEG_IND_LEN))
  {
    assert DivisorAsWritten(window) == window - SEG_IND_LEN;
  }

  /** `current_chunc_size` for a segment index: the window less 2, or the remainder for index 0, cut to 16 bits. */
  function ChunkAsWritten(size: u32, window: u16, segInd: nat): u16
    requires DivisorAsWritten(window) != 0
  {
    if segInd > 0 then Wrap16(window - SEG_IND_LEN) else Wrap16(size % DivisorAsWritten(window))
  }

  /**
   * The source's chunk against the model's: past index 0 it is the model's
   * chunk while the window fits the send buffer, more than that for a larger
   * window, and at least 65534 for a window under 2; at index 0 it is the
   * remainder of the size, uncut, for any window over 2.
   */
  lemma ChunkAsWrittenVersusChunkSize(size: u32, window: u16, segInd: nat)
    requires window != SEG_IND_LEN
    ensures DivisorAsWritten(window) != 0
    ensures var c := ChunkAsWritten(size, window, segInd);
      (segInd > 0 && SEG_IND_LEN < window <= TX_PAYLOAD_ROOM ==> c == ChunkSize(window)) &&
      (segInd > 0 && TX_PAYLOAD_ROOM < window ==> c > ChunkSize(window)) &&
      (segInd > 0 && window < SEG_IND_LEN ==> c >= 0xFFFE) &&
      (segInd == 0 && SEG_IND_LEN < window ==> c == size % (window - SEG_IND_LEN))
  {
    if segInd > 0 {
      if window < SEG_IND_LEN {
        assert Wrap16(window - SEG_IND_LEN) == 0x1_0000 + window - SEG_IND_LEN;
      } else {
        assert Wrap16(window - SEG_IND_LEN) == window - SEG_IND_LEN;
      }
    } else if SEG_IND_LEN < window {
      var d := window - SEG_IND_LEN;
      assert DivisorAsWritten(window) == d;
      assert size % d < d < 0x1_0000;
    }
  }

  /**
   * The source's loop from segment index `segInd` down to 0: each chunk is
   * read at the 16-bit offset that the previous chunk sizes added up to.
   */
  function SendLoopAsWritten(size: u32, window: u16, segInd: nat, offset: u16): (segs: seq<Segment>)
    requires DivisorAsWritten(window) != 0
    ensures |segs| == segInd + 1
    decreases segInd
  {
    var seg := Segment(segInd, offset, ChunkAsWritten(size, window, segInd));
    if segInd == 0 then [seg]
    else [seg] + SendLoopAsWritten(size, window, segInd - 1, Wrap16(offset + seg.length))
  }

  /**
   * The segments the source sends for a file: `seg_num` of them (none when
   * it is 0), numbered down to 0; no value for the window that divides by
   * zero.
   */
  function SegmentsAsWritten(size: u32, window: u16): (r: Option<seq<Segment>>)
    ensures r.None? <==> window == SEG_IND_LEN
    ensures r.Some? ==> |r.value| == SegNumAsWritten(size, window).value && IndicesDescend(r.value)
  {
    match SegNumAsWritten(size, window)
    case None => None
    case Some(n) =>
      if n == 0 then Some([])
      else
        SendLoopIndices(size, window, n - 1, 0);
        Some(SendLoopAsWritten(size, window, n - 1, 0))
  }

  /** The source's loop numbers its segments down to 0. */
  lemma SendLoopIndices(size: u32, window: u16, segInd: nat, offset: u16)
    requires DivisorAsWritten(window) != 0
    ensures IndicesDescend(SendLoopAsWritten(size, window, segInd, offset))
  {
    var segs := SendLoopAsWritten(size, window, segInd, offset);
    forall k | 0 <= k < |segs|
      ensures segs[k].index == |segs| - 1 - k
    {
      SendLoopAsWrittenAt(size, window, segInd, offset, k);
    }
  }

  /** The k-th step of the source's loop, in closed form. */
  lemma {:induction false} SendLoopAsWrittenAt(size: u32, window: u16, segInd: nat, offset: u16, k: nat)
    requires DivisorAsWritten(window) != 0 && k <= segInd
    ensures SendLoopAsWritten(size, window, segInd, offset)[k] ==
      Segment(segInd - k, Wrap16(offset + k * Wrap16(window - SEG_IND_LEN)), ChunkAsWritten(size, window, segInd - k))
    decreases k
  {
    if k > 0 {
      var c := Wrap16(window - SEG_IND_LEN);
      SendLoopTail(size, window, segInd, offset, k);
      SendLoopAsWrittenAt(size, window, segInd - 1, Wrap16(offset + c), k - 1);
      WrapOffsetStep(offset, c, k);
    }
  }

  /** The k-th offset of the source's loop: k chunks on from the start, on 16 bits. */
  lemma SendLoopOffsetAt(size: u32, window: u16, segInd: nat, offset: u16, k: nat)
    requires DivisorAsWritten(window) != 0 && k <= segInd
    ensures SendLoopAsWritten(size, window, segInd, offset)[k].offset == Wrap16(offset + k * Wrap16(window - SEG_IND_LEN))
  {
    SendLoopAsWrittenAt(size, window, segInd, offset, k);
  }

  /** Past its first segment, the source's loop goes on from the next index at the advanced offset. */
  lemma SendLoopTail(size: u32, window: u16, segInd: nat, offset: u16, k: nat)
    requires DivisorAsWritten(window) != 0 && 0 < k <= segInd
    ensures SendLoopAsWritten(size, window, segInd, offset)[k] ==
      SendLoopAsWritten(size, window, segInd - 1, Wrap16(offset + Wrap16(window - SEG_IND_LEN)))[k - 1]
  {
  }

  lemma WrapOffsetStep(offset: int, c: int, k: nat)
    requires k > 0
    ensures Wrap16(Wrap16(offset + c) + (k - 1) * c) == Wrap16(offset + k * c)
  {
  }

  lemma MulSucc(k: nat, c: nat)
    ensures (k + 1) * c == k * c + c
  {
  }

  lemma Wrap16Add(a: int, b: int)
    ensures Wrap16(Wrap16(a) + b) == Wrap16(a + b)
  {
  }

  /**
   * For a window whose packets fit the send buffer, a file below 64 KiB and
   * a size that is not a multiple of the chunk, the source's loop sends the
   * model's segments.
   */
  lemma {:induction false} SendLoopAgrees(size: u32, window: u16, offset: nat, rest: nat)
    requires SEG_IND_LEN < window <= TX_PAYLOAD_ROOM && size < 0x1_0000
    requires rest > 0 && offset + rest == size
    requires rest % ChunkSize(window) == size % ChunkSize(window) != 0
    ensures var c := ChunkSize(window);
      SendLoopAsWritten(size, window, SegmentCount(rest, c) - 1, offset) == SegmentsFrom(offset, rest, c)
    decreases rest
  {
    var c := ChunkSize(window);
    assert DivisorAsWritten(window) == c && Wrap16(window - SEG_IND_LEN) == c;
    if rest <= c {
      LastSegmentAgrees(size, window, offset, rest);
    } else {
      var j := SegmentCount(rest, c) - 1;
      var tail := SegmentsFrom(offset + c, rest - c, c);
      SegmentCountStep(rest, c);
      SegmentsCount(offset + c, rest - c, c);
      SendLoopAgrees(size, window, offset + c, rest - c);
      SendLoopFullStep(size, window, j, offset);
      assert SegmentsFrom(offset, rest, c) == [Segment(|tail|, offset, c)] + tail;
    }
  }

  /** A step of the source's loop before index 0 sends a full chunk and moves the offset by it. */
  lemma SendLoopFullStep(size: u32, window: u16, segInd: nat, offset: nat)
    requires SEG_IND_LEN < window <= TX_PAYLOAD_ROOM && segInd > 0
    requires offset + ChunkSize(window) < 0x1_0000
    ensures SendLoopAsWritten(size, window, segInd, offset) ==
      [Segment(segInd, offset, ChunkSize(window))] + SendLoopAsWritten(size, window, segInd - 1, offset + ChunkSize(window))
  {
    var c := ChunkSize(window);
    assert Wrap16(window - SEG_IND_LEN) == c;
    assert ChunkAsWritten(size, window, segInd) == c;
    assert Wrap16(offset + c) == offset + c;
  }

  lemma LastSegmentAgrees(size: u32, window: u16, offset: nat, rest: nat)
    requires SEG_IND_LEN < window <= TX_PAYLOAD_ROOM && size < 0x1_0000
    requires 0 < rest <= ChunkSize(window) && offset + rest == size
    requires rest % ChunkSize(window) == size % ChunkSize(window) != 0
    ensures SegmentCount(rest, ChunkSize(window)) == 1
    ensures SendLoopAsWritten(size, window, 0, offset) == SegmentsFrom(offset, rest, ChunkSize(window))
  {
    var c := ChunkSize(window);
    assert DivisorAsWritten(window) == c;
    if rest == c {
      DivModUnique(rest, c, 1, 0);
      assert false;
    }
    DivModUnique(rest, c, 0, rest);
  }

  lemma AsWrittenAgreesInRange(size: u32, window: u16)
    requires SEG_IND_LEN < window <= TX_PAYLOAD_ROOM && size < 0x1_0000
    requires size % (window - SEG_IND_LEN) != 0
    ensures SegmentsAsWritten(size, window) == Some(Segments(size, ChunkSize(window)))
  {
    var c := ChunkSize(window);
    assert DivisorAsWritten(window) == c;
    var n := SegmentCount(size, c);
    CountBelowSize(size, c);
    assert SegNumAsWritten(size, window) == Some(n);
    SendLoopAgrees(size, window, 0, size);
  }

  /** A size that is not a multiple of the chunk needs no more segments than it has bytes. */
  lemma CountBelowSize(size: nat, chunk: nat)
    requires chunk > 0 && size % chunk != 0
    ensures SegmentCount(size, chunk) <= size
  {
    var n := SegmentCount(size, chunk);
    SegmentCountIsCeiling(size, chunk);
    MulMono(1, chunk, n - 1);
  }

  lemma MulMono(a: nat, b: nat, c: nat)
    requires a <= b
    ensures a * c <= b * c
  {
  }

  /**
   * Exact multiple: the index-0 chunk is empty, so the file's last full
   * chunk is never read: every segment ends by `size - chunk`.
   */
  lemma ExactMultipleAsWritten(size: u32, window: u16)
    requires SEG_IND_LEN < window && size < 0x1_0000 && size > 0
    requires size % (window - SEG_IND_LEN) == 0
    ensures SegmentsAsWritten(size, window).Some?
    ensures var segs, c := SegmentsAsWritten(size, window).value, window - SEG_IND_LEN;
      |segs| == size / c &&
      segs[|segs| - 1].index == 0 && segs[|segs| - 1].length == 0 &&
      forall k :: 0 <= k < |segs| ==> segs[k].offset + segs[k].length <= size - c
  {
    var c := window - SEG_IND_LEN;
    var q := size / c;
    DivModUnique(size, c, q, 0);
    assert DivisorAsWritten(window) == c && Wrap16(c) == c;
    MulMono(1, c, q);
    MulSucc(q - 1, c);
    assert SegNumAsWritten(size, window) == Some(q);
    var segs := SendLoopAsWritten(size, window, q - 1, 0);
    forall k | 0 <= k < q
      ensures segs[k].offset + segs[k].length <= size - c
    {
      ExactMultipleSegment(size, window, q, k);
    }
    SendLoopAsWrittenAt(size, window, q - 1, 0, q - 1);
  }

  lemma ExactMultipleSegment(size: u32, window: u16, q: nat, k: nat)
    requires SEG_IND_LEN < window && size < 0x1_0000
    requires q * (window - SEG_IND_LEN) == size && k < q
    ensures DivisorAsWritten(window) != 0
    ensures var seg := SendLoopAsWritten(size, window, q - 1, 0)[k];
      seg.offset + seg.length <= size - (window - SEG_IND_LEN)
  {
    var c := window - SEG_IND_LEN;
    ExactMultipleBounds(size, c, q, k);
    ExactMultipleSegmentAt(size, window, c, q, k);
  }

  /** The k-th segment of the source's loop over q equal chunks: it starts at `k * c`, and only the last is empty. */
  lemma ExactMultipleSegmentAt(size: u32, window: u16, c: nat, q: nat, k: nat)
    requires SEG_IND_LEN < window && c == window - SEG_IND_LEN
    requires q * c == size && k * c + c <= size < 0x1_0000 && k < q
    ensures DivisorAsWritten(window) == c
    ensures var seg := SendLoopAsWritten(size, window, q - 1, 0)[k];
      seg.offset == k * c && seg.length == (if k + 1 == q then 0 else c)
  {
    assert DivisorAsWritten(window) == c && Wrap16(c) == c;
    assert Wrap16(k * c) == k * c;
    SendLoopAsWrittenAt(size, window, q - 1, 0, k);
    if k + 1 == q {
      DivModUnique(size, c, q, 0);
    }
  }

  /** Where the k-th of q equal chunks of a file of `q * c` bytes starts, relative to its end. */
  lemma ExactMultipleBounds(size: nat, c: nat, q: nat, k: nat)
    requires q * c == size && k < q
    ensures k * c + c <= size
    ensures k + 1 < q ==> k * c + c + c <= size
    ensures k + 1 == q ==> k * c + c == size
  {
    MulSucc(k, c);
    MulMono(k + 1, q, c);
    if k + 1 < q {
      MulSucc(k + 1, c);
      MulMono(k + 2, q, c);
    }
  }

  /** An empty file gives no segments at all, so no index-0 chunk ever closes the receiver's session. */
  lemma EmptyFileAsWritten(window: u16)
    requires window > SEG_IND_LEN
    ensures SegmentsAsWritten(0, window) == Some([])
    ensures |Segments(0, ChunkSize(window))| == 1
  {
  }

  /**
   * A 70000-byte file over window 245 (chunks of 243): the 271st chunk
   * (k = 270) should be read at 65610, but the 16-bit offset has wrapped to 74.
   */
  lemma OffsetWrapsAsWritten(size: u32, window: u16, k: nat)
    requires size == 70000 && window == 245 && k == 270
    ensures SegmentsAsWritten(size, window).Some? && |SegmentsAsWritten(size, window).value| == 289
    ensures SegmentsAsWritten(size, window).value[k].offset == 74
    ensures |Segments(size, ChunkSize(window))| == 289
    ensures Segments(size, ChunkSize(window))[k].offset == 65610
  {
    WrappedOffset(size, window, k);
    CorrectedOffset(size, window, k);
  }

  lemma WrappedOffset(size: u32, window: u16, k: nat)
    requires size == 70000 && window == 245 && k == 270
    ensures SegmentsAsWritten(size, window).Some?
    ensures |SegmentsAsWritten(size, window).value| == 289
    ensures SegmentsAsWritten(size, window).value[k].offset == 74
  {
    WrappedSegNum(size, window);
    var n := SegNumAsWritten(size, window).value;
    assert SegmentsAsWritten(size, window) == Some(SendLoopAsWritten(size, window, n - 1, 0));
    WrappedLoopOffset(size, window, n - 1, k);
  }

  lemma WrappedSegNum(size: u32, window: u16)
    requires size == 70000 && window == 245
    ensures SegNumAsWritten(size, window) == Some(289)
  {
  }

  lemma WrappedLoopOffset(size: u32, window: u16, last: nat, k: nat)
    requires window == 245 && last == 288 && k == 270
    ensures DivisorAsWritten(window) != 0
    ensures SendLoopAsWritten(size, window, last, 0)[k].offset == 74
  {
    assert DivisorAsWritten(window) == 243;
    var c := Wrap16(window - SEG_IND_LEN);
    SendLoopOffsetAt(size, window, last, 0, k);
    var p := 0 + k * c;
    WrappedOffsetArithmetic(window, k, c, p);
  }

  lemma WrappedOffsetArithmetic(window: u16, k: nat, c: int, p: int)
    requires window == 245 && k == 270 && c == Wrap16(window - SEG_IND_LEN) && p == 0 + k * c
    ensures Wrap16(p) == 74
  {
  }

  lemma CorrectedOffset(size: u32, window: u16, k: nat)
    requires size == 70000 && window == 245 && k == 270
    ensures |Segments(size, ChunkSize(window))| == 289
    ensures Segments(size, ChunkSize(window))[k].offset == 65610
  {
    var c := ChunkSize(window);
    OffsetWrapArithmetic(size, window, k);
    assert SegmentCount(size, c) == 289;
    SegmentsCount(0, size, c);
    SegmentsOffsets(0, size, c, k);
  }

  lemma OffsetWrapArithmetic(size: u32, window: u16, k: nat)
    requires size == 70000 && window == 245 && k == 270
    ensures ChunkSize(window) == DivisorAsWritten(window) == Wrap16(window - SEG_IND_LEN) == 243
    ensures size % 243 == 16 && size / 243 == 288
    ensures 0 + k * ChunkSize(window) == 65610
  {
  }

  /** A file of 2^32 - 1 bytes over window 3 needs 2^32 - 1 segments; the 16-bit count keeps 65535. */
  lemma SegNumTruncatedAsWritten()
    ensures SegNumAsWritten(0xFFFF_FFFF, 3) == Some(0xFFFF)
    ensures SegmentCount(0xFFFF_FFFF, ChunkSize(3)) == 0xFFFF_FFFF
  {
  }

  /**
   * Windows of 2 or less: 2 divides by zero; 1 makes the divisor 2^32 - 1,
   * so a 1000-byte file goes as one 1000-byte chunk.
   */
  lemma SmallWindowAsWritten()
    ensures SegNumAsWritten(1000, 2) == None
    ensures DivisorAsWritten(1) == 0xFFFF_FFFF
    ensures SegNumAsWritten(1000, 1) == Some(1) && ChunkAsWritten(1000, 1, 0) == 1000
    ensures ChunkSize(1) == 0 && ChunkSize(2) == 0
  {
  }

  /** With the default window of 256, a full FILE_DATA packet is 267 bytes, 11 more than the send buffer. */
  lemma DataPacketOverflowsAsWritten(size: u32)
    requires size > 0
    ensures DivisorAsWritten(DEFAULT_WINDOW_SIZE) != 0
    ensures PACK_OVERHEAD + SEG_IND_LEN + ChunkAsWritten(size, DEFAULT_WINDOW_SIZE, 1) == 267 > TX_BUF_SIZE
    ensures PACK_OVERHEAD + SEG_IND_LEN + ChunkSize(DEFAULT_WINDOW_SIZE) == TX_BUF_SIZE
  {
  }

  /**
   * The source's loop as it reads the peer's window again on every pass:
   * `windows[k]` is the window in force when pass k works out its chunk (a
   * HANDSHAKE_REQ handled during an ACK wait replaces it), while the count
   * and the indices stay as they were first worked out.
   */
  function ReReadLoopAsWritten(size: u32, windows: seq<u16>, segInd: nat, offset: u16): (segs: seq<Segment>)
    requires |windows| == segInd + 1
    requires forall k :: 0 <= k < |windows| ==> DivisorAsWritten(windows[k]) != 0
    ensures |segs| == segInd + 1
    decreases segInd
  {
    var seg := Segment(segInd, offset, ChunkAsWritten(size, windows[0], segInd));
    if segInd == 0 then [seg]
    else
      assert forall k :: 0 <= k < |windows[1..]| ==> windows[1..][k] == windows[k + 1];
      [seg] + ReReadLoopAsWritten(size, windows[1..], segInd - 1, Wrap16(offset + seg.length))
  }

  /** The k-th pass of the re-reading loop: the index counts down, and the chunk is worked out from the k-th window. */
  lemma {:induction false} ReReadLoopAt(size: u32, windows: seq<u16>, segInd: nat, offset: u16, k: nat)
    requires |windows| == segInd + 1 && k <= segInd
    requires forall j :: 0 <= j < |windows| ==> DivisorAsWritten(windows[j]) != 0
    ensures var seg := ReReadLoopAsWritten(size, windows, segInd, offset)[k];
      seg.index == segInd - k && seg.length == ChunkAsWritten(size, windows[k], segInd - k)
    decreases k
  {
    if k > 0 {
      var rest := windows[1..];
      var next := Wrap16(offset + ChunkAsWritten(size, windows[0], segInd));
      assert forall j :: 0 <= j < |rest| ==> rest[j] == windows[j + 1];
      ReReadLoopAt(size, rest, segInd - 1, next, k - 1);
      assert ReReadLoopAsWritten(size, windows, segInd, offset)[k] == ReReadLoopAsWritten(size, rest, segInd - 1, next)[k - 1];
    }
  }

  /** While the window stays put, reading it again on every pass is the loop over a fixed window. */
  lemma {:induction false} ReReadLoopSteady(size: u32, windows: seq<u16>, segInd: nat, offset: u16)
    requires |windows| == segInd + 1 && DivisorAsWritten(windows[0]) != 0
    requires forall k :: 0 <= k < |windows| ==> windows[k] == windows[0]
    ensures ReReadLoopAsWritten(size, windows, segInd, offset) == SendLoopAsWritten(size, windows[0], segInd, offset)
    decreases segInd
  {
    if segInd > 0 {
      var rest := windows[1..];
      assert forall k :: 0 <= k < |rest| ==> rest[k] == windows[k + 1] == rest[0];
      ReReadLoopSteady(size, rest, segInd - 1, Wrap16(offset + ChunkAsWritten(size, windows[0], segInd)));
    }
  }

  /**
   * Window 200 (chunks of 198) and a 300-byte file: two segments. When a
   * HANDSHAKE_REQ offering window 100 is handled during the first ACK wait,
   * the index-0 chunk becomes 300 % 98 = 6 bytes at offset 198, so bytes 204
   * to 299 are never sent; the model keeps the chunk of the accepted window
   * and sends the 102 bytes left.
   */
  lemma WindowChangeCutsFileAsWritten()
    ensures SegNumAsWritten(300, 200) == Some(2)
    ensures ReReadLoopAsWritten(300, [200, 100], 1, 0) == [Segment(1, 0, 198), Segment(0, 198, 6)]
    ensures Segments(300, ChunkSize(200)) == [Segment(1, 0, 198), Segment(0, 198, 102)]
  {
  }

  // ---------------------------------------------------------------------
  // The sending loop

  /**
   * What the sender's storage callbacks report for the file being sent:
   * the size `get_file_size_cb` gives, if any, and for each read
   * `file_read_partial_cb` serves (offset and chunk size) the bytes it
   * fills in; any other read fails.
   */
  datatype FileSource = FileSource(size: Option<u32>, served: map<(nat, nat), Bytes>)
  {
    function Read(offset: nat, count: nat): Option<Bytes> {
      if (offset, count) in served then Some(served[(offset, count)]) else None
    }

    /** A read fills exactly the chunk it was asked for, or fails. */
    ghost predicate Valid() {
      forall offset: nat, count: nat :: Read(offset, count).Some? ==> |Read(offset, count).value| == count
    }

    /** The reads return the bytes of `content`. */
    ghost predicate Holds(content: Bytes) {
      size == Some(|content|) &&
      forall offset: nat, count: nat :: offset + count <= |content| ==> Read(offset, count) == Some(content[offset..offset + count])
    }
  }

  /** The wait after the k-th data message, given the answers the peer makes: past them, it stays silent and nothing changes. */
  function AckAt(acks: seq<WaitOutcome>, k: nat): WaitOutcome {
    if k < |acks| then acks[k] else Silence(None)
  }

  function DataMsg(s: Segment, data: Bytes): Msg
    requires s.index < SEG_LIMIT
  {
    Msg(PACK_FILE_DATA, LE16(s.index) + data)
  }

  predicate IndicesFit(segs: seq<Segment>) {
    forall k :: 0 <= k < |segs| ==> segs[k].index < SEG_LIMIT
  }

  /**
   * The waits after the data messages from the `i`-th on are plausible for
   * a sender whose handshake flag is `flag` before the `i`-th: each answer
   * keeps the flag it finds, and hands the next wait the flag it leaves.
   */
  ghost predicate AcksFrom(flag: bool, acks: seq<WaitOutcome>, i: nat)
    decreases |acks| - i
  {
    i >= |acks| ||
    (Plausible(flag, acks[i], WaitAck) &&
     AcksFrom(if acks[i].Reply? then acks[i].after.handshakeDone else flag, acks, i + 1))
  }

  /** Whether the loop completed, the data messages it sent, and the status it leaves. */
  datatype Run = Run(ok: bool, msgs: seq<Msg>, status: Status)

  /**
   * One iteration of the loop, from status `st`: read the segment's chunk
   * (a failed read stops before sending, the session IDLE and the last
   * error kept), send it with the session WAIT_ACK and no error, and wait
   * for its ACK (a timeout or a NACK stops after sending, IDLE with no
   * error).
   */
  function SendOne(s: Segment, file: FileSource, reply: WaitOutcome, st: Status): (r: Run)
    requires s.index < SEG_LIMIT
    ensures |r.msgs| <= 1 && (r.ok ==> |r.msgs| == 1)
    ensures !r.ok ==> r.status.state == Idle
    ensures r.ok ==> Answered(reply) && r.status == reply.after
  {
    match file.Read(s.offset, s.length)
      case None => Run(false, [], st.(state := Idle))
      case Some(data) => Run(Answered(reply), [DataMsg(s, data)], Conclude(st.(state := WaitAck, lastError := NO_ERROR), reply))
  }

  /**
   * The loop over the segments, one iteration each until one fails.
   * `replies[k]` is what the wait after the k-th message observes.
   */
  function Transfer(segs: seq<Segment>, file: FileSource, replies: seq<WaitOutcome>, st: Status): (r: Run)
    requires IndicesFit(segs) && |replies| == |segs|
    ensures |r.msgs| <= |segs|
  {
    if |segs| == 0 then Run(true, [], st)
    else
      var first := SendOne(segs[0], file, replies[0], st);
      if !first.ok then first
      else
        var rest := Transfer(segs[1..], file, replies[1..], first.status);
        Run(rest.ok, first.msgs + rest.msgs, rest.status)
  }

  /**
   * The loop sends one message per segment in order, the k-th carrying the
   * k-th chunk as read, and stops at the first failed read, timeout or NACK;
   * it completes exactly when every chunk was sent and acknowledged.
   */
  lemma {:induction false} TransferOutcome(segs: seq<Segment>, file: FileSource, replies: seq<WaitOutcome>, st: Status)
    requires IndicesFit(segs) && |replies| == |segs|
    ensures var r := Transfer(segs, file, replies, st);
      (forall k :: 0 <= k < |r.msgs| ==>
        file.Read(segs[k].offset, segs[k].length).Some? &&
        r.msgs[k] == DataMsg(segs[k], file.Read(segs[k].offset, segs[k].length).value)) &&
      (forall k :: 0 <= k < |r.msgs| - 1 ==> Answered(replies[k])) &&
      (r.ok <==> |r.msgs| == |segs| && forall k :: 0 <= k < |segs| ==> Answered(replies[k]))
  {
    if |segs| > 0 {
      var r := Transfer(segs, file, replies, st);
      var data := file.Read(segs[0].offset, segs[0].length);
      if data.Some? && Answered(replies[0]) {
        var next := SendOne(segs[0], file, replies[0], st).status;
        var rest := Transfer(segs[1..], file, replies[1..], next);
        TransferOutcome(segs[1..], file, replies[1..], next);
        assert r.msgs == [DataMsg(segs[0], data.value)] + rest.msgs;
        forall k | 0 <= k < |r.msgs|
          ensures file.Read(segs[k].offset, segs[k].length).Some? &&
                  r.msgs[k] == DataMsg(segs[k], file.Read(segs[k].offset, segs[k].length).value)
        {
          if k > 0 { assert r.msgs[k] == rest.msgs[k - 1] && segs[k] == segs[1..][k - 1]; }
        }
        forall k | 0 <= k < |r.msgs| - 1
          ensures Answered(replies[k])
        {
          if k > 0 { assert replies[k] == replies[1..][k - 1]; }
        }
        if |r.msgs| == |segs| && forall k :: 0 <= k < |segs| ==> Answered(replies[k]) {
          forall k | 0 <= k < |segs| - 1
            ensures Answered(replies[1..][k])
          {
            assert replies[1..][k] == replies[k + 1];
          }
        }
      }
    }
  }

  /**
   * The status the loop leaves, started from `st`: once it completes, the
   * one the last ACK's wait left; after a timeout or a NACK, IDLE with no
   * error; after a failed read, the status it stood in before that read
   * (the last ACK's, or `st`), with the session IDLE.
   */
  lemma {:induction false} TransferStatus(segs: seq<Segment>, file: FileSource, replies: seq<WaitOutcome>, st: Status)
    requires IndicesFit(segs) && |replies| == |segs|
    ensures var r := Transfer(segs, file, replies, st);
      var n := |r.msgs|;
      (r.ok ==> if |segs| == 0 then r.status == st else Answered(replies[|segs| - 1]) && r.status == replies[|segs| - 1].after) &&
      (!r.ok && n > 0 && !Answered(replies[n - 1]) ==> r.status.state == Idle && r.status.lastError == NO_ERROR) &&
      (!r.ok && (n == 0 || Answered(replies[n - 1])) ==>
        r.status == (if n == 0 then st else replies[n - 1].after).(state := Idle))
  {
    if |segs| > 0 {
      var first := SendOne(segs[0], file, replies[0], st);
      if first.ok {
        var rest := Transfer(segs[1..], file, replies[1..], first.status);
        TransferStatus(segs[1..], file, replies[1..], first.status);
        assert |rest.msgs| > 0 ==> replies[1..][|rest.msgs| - 1] == replies[|rest.msgs|];
        assert |segs| > 1 ==> replies[1..][|segs| - 2] == replies[|segs| - 1];
      }
    }
  }

  /**
   * The loop of `send_file` over one fixed `chunk`, on the `rest` bytes
   * still to send from `offset` on: the segment there has index
   * SegmentCount(rest) - 1 and is a full chunk unless it is the last;
   * `acks(i)` is the wait after it.
   */
  function SendFrom(offset: nat, rest: nat, chunk: nat, file: FileSource, acks: seq<WaitOutcome>, i: nat, st: Status): Run
    requires 0 < chunk && SegmentCount(rest, chunk) <= SEG_LIMIT
    decreases rest
  {
    var last := rest <= chunk;
    var first := SendOne(Segment(SegmentCount(rest, chunk) - 1, offset, if last then rest else chunk), file, AckAt(acks, i), st);
    if !first.ok || last then first
    else
      SegmentCountStep(rest, chunk);
      var more := SendFrom(offset + chunk, rest - chunk, chunk, file, acks, i + 1, first.status);
      Run(more.ok, first.msgs + more.msgs, more.status)
  }

  /** Walking the bytes left is walking their segments: both loops send the same messages and end the same way. */
  lemma {:induction false} SendFromTransfers(offset: nat, rest: nat, chunk: nat, file: FileSource,
                                             acks: seq<WaitOutcome>, i: nat, replies: seq<WaitOutcome>, st: Status)
    requires 0 < chunk && SegmentCount(rest, chunk) <= SEG_LIMIT
    requires |replies| == SegmentCount(rest, chunk) && forall k :: 0 <= k < |replies| ==> replies[k] == AckAt(acks, i + k)
    ensures var segs := SegmentsFrom(offset, rest, chunk);
      |segs| == |replies| && IndicesFit(segs) &&
      Transfer(segs, file, replies, st) == SendFrom(offset, rest, chunk, file, acks, i, st)
    decreases rest
  {
    var segs := SegmentsFrom(offset, rest, chunk);
    SegmentsCount(offset, rest, chunk);
    SegmentsIndices(offset, rest, chunk);
    if rest > chunk {
      SegmentCountStep(rest, chunk);
      var next := SendOne(segs[0], file, replies[0], st).status;
      SendFromTransfers(offset + chunk, rest - chunk, chunk, file, acks, i + 1, replies[1..], next);
    } else {
      assert segs[1..] == [];
    }
  }

  /**
   * The state of the sending loop over a file of `size` bytes, started from
   * status `s0`, before its `i`-th iteration: `offset` bytes covered,
   * `segInd` the index of the next segment, `done` the messages sent so
   * far, `cur` the status now; what is still to come, sent after `done`,
   * makes up the loop's whole run and leaves its final status.
   */
  ghost predicate SendingAt(size: nat, chunk: nat, file: FileSource, acks: seq<WaitOutcome>, s0: Status,
                            i: nat, offset: nat, segInd: int, done: seq<Msg>, cur: Status)
    requires 0 < chunk && SegmentCount(size, chunk) <= SEG_LIMIT
  {
    var count, whole := SegmentCount(size, chunk), SendFrom(0, size, chunk, file, acks, 0, s0);
    offset <= size && i <= count &&
    if i < count then
      i + SegmentCount(size - offset, chunk) == count && segInd == count - 1 - i &&
      var ahead := SendFrom(offset, size - offset, chunk, file, acks, i, cur);
      whole.ok == ahead.ok && whole.msgs == done + ahead.msgs && whole.status == ahead.status
    else
      whole == Run(true, done, cur)
  }

  /** Before the first iteration nothing is sent and the whole run is ahead. */
  lemma SendingStart(size: nat, chunk: nat, file: FileSource, acks: seq<WaitOutcome>, s0: Status)
    requires 0 < chunk && SegmentCount(size, chunk) <= SEG_LIMIT
    ensures SendingAt(size, chunk, file, acks, s0, 0, 0, SegmentCount(size, chunk) - 1, [], s0)
  {
  }

  /**
   * One iteration: the chunk is a full one while the index is above 0 and
   * the rest of the file at index 0; after it the loop either stands before
   * the next segment, or the whole run ends with this chunk's message.
   */
  lemma SendingAdvance(size: nat, chunk: nat, file: FileSource, acks: seq<WaitOutcome>, s0: Status,
                       i: nat, offset: nat, segInd: int, done: seq<Msg>, cur: Status)
    requires 0 < chunk && SegmentCount(size, chunk) <= SEG_LIMIT && i < SegmentCount(size, chunk)
    requires SendingAt(size, chunk, file, acks, s0, i, offset, segInd, done, cur)
    ensures var len := if segInd > 0 then chunk else size - offset;
      var first, whole := SendOne(Segment(segInd, offset, len), file, AckAt(acks, i), cur), SendFrom(0, size, chunk, file, acks, 0, s0);
      0 <= segInd < SEG_LIMIT && len <= chunk && offset + len <= size &&
      (first.ok ==> SendingAt(size, chunk, file, acks, s0, i + 1, offset + len, segInd - 1, done + first.msgs, first.status)) &&
      (!first.ok ==> whole == Run(false, done + first.msgs, first.status))
  {
    var rest := size - offset;
    var len := if segInd > 0 then chunk else rest;
    var first := SendOne(Segment(segInd, offset, len), file, AckAt(acks, i), cur);
    if rest > chunk {
      SegmentCountStep(rest, chunk);
      if first.ok {
        var more := SendFrom(offset + chunk, rest - chunk, chunk, file, acks, i + 1, first.status);
        assert size - (offset + len) == rest - chunk;
        assert done + (first.msgs + more.msgs) == (done + first.msgs) + more.msgs;
      }
    } else {
      if rest < chunk {
        DivModUnique(rest, chunk, 0, rest);
      } else {
        DivModUnique(rest, chunk, 1, 0);
      }
    }
  }

  /** The chunk a data message carries, after its segment index. */
  function ChunkOf(m: Msg): Bytes {
    if |m.payload| < SEG_IND_LEN then [] else m.payload[SEG_IND_LEN..]
  }

  function Chunks(msgs: seq<Msg>): Bytes {
    if |msgs| == 0 then [] else ChunkOf(msgs[0]) + Chunks(msgs[1..])
  }

  lemma {:induction false} ChunksGather(content: Bytes, segs: seq<Segment>, msgs: seq<Msg>)
    requires IndicesFit(segs) && |msgs| == |segs|
    requires forall k :: 0 <= k < |segs| ==> msgs[k] == DataMsg(segs[k], Slice(content, segs[k]))
    ensures Chunks(msgs) == Gather(content, segs)
  {
    if |segs| > 0 {
      assert ChunkOf(msgs[0]) == Slice(content, segs[0]);
      ChunksGather(content, segs[1..], msgs[1..]);
    }
  }

  /** Segment indices fit the 16-bit field when there are at most 65536 segments. */
  lemma SegmentIndicesFit(size: nat, chunk: nat)
    requires chunk > 0 && |Segments(size, chunk)| <= SEG_LIMIT
    ensures IndicesFit(Segments(size, chunk))
  {
    SegmentsIndices(0, size, chunk);
  }

  /**
   * End to end: when the file is read from `content` and the loop completes,
   * the messages carry indices count-1 down to 0 and their chunks, in
   * order, are exactly the file.
   */
  lemma TransferDeliversFile(content: Bytes, chunk: nat, file: FileSource, replies: seq<WaitOutcome>, st: Status)
    requires chunk > 0 && IndicesFit(Segments(|content|, chunk))
    requires |replies| == |Segments(|content|, chunk)|
    requires file.Holds(content)
    requires Transfer(Segments(|content|, chunk), file, replies, st).ok
    ensures var msgs, n := Transfer(Segments(|content|, chunk), file, replies, st).msgs, |Segments(|content|, chunk)|;
      |msgs| == n &&
      (forall k :: 0 <= k < n ==>
        msgs[k].id == PACK_FILE_DATA && |msgs[k].payload| >= SEG_IND_LEN &&
        FromLE16(msgs[k].payload[..SEG_IND_LEN]) == n - 1 - k) &&
      Chunks(msgs) == content
  {
    var segs := Segments(|content|, chunk);
    var msgs := Transfer(segs, file, replies, st).msgs;
    TransferOutcome(segs, file, replies, st);
    DeliveredChunks(content, chunk, file, msgs);
    ChunksGather(content, segs, msgs);
    SegmentsReassemble(content, 0, |content|, chunk);
  }

  lemma DeliveredChunks(content: Bytes, chunk: nat, file: FileSource, msgs: seq<Msg>)
    requires chunk > 0 && IndicesFit(Segments(|content|, chunk))
    requires file.Holds(content)
    requires |msgs| == |Segments(|content|, chunk)|
    requires var segs := Segments(|content|, chunk);
      forall k :: 0 <= k < |msgs| ==>
        file.Read(segs[k].offset, segs[k].length).Some? &&
        msgs[k] == DataMsg(segs[k], file.Read(segs[k].offset, segs[k].length).value)
    ensures var segs := Segments(|content|, chunk);
      forall k :: 0 <= k < |segs| ==>
        msgs[k] == DataMsg(segs[k], Slice(content, segs[k])) &&
        |msgs[k].payload| >= SEG_IND_LEN && FromLE16(msgs[k].payload[..SEG_IND_LEN]) == |segs| - 1 - k
  {
    var segs := Segments(|content|, chunk);
    SegmentsIndices(0, |content|, chunk);
    SegmentsWithin(0, |content|, chunk);
    forall k | 0 <= k < |segs|
      ensures msgs[k] == DataMsg(segs[k], Slice(content, segs[k]))
      ensures |msgs[k].payload| >= SEG_IND_LEN && FromLE16(msgs[k].payload[..SEG_IND_LEN]) == |segs| - 1 - k
    {
      assert segs[k].offset + segs[k].length <= |content|;
      assert msgs[k].payload[..SEG_IND_LEN] == LE16(segs[k].index);
      LE16RoundTrip(segs[k].index);
    }
  }
}
