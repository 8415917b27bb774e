// The writer side of a revert snapshot generation (CRevertSnapshot in
// revertsnapshot.cxx): the active buffer that ErrCaptureRec fills in place,
// the FIFO of full buffers waiting to be written, and the three segment
// watermarks m_cNextActiveSegment, m_cNextWriteSegment and m_cNextFlushSegment.
//
// Every segment the writer finishes is sealed (checksum, ordinal, time stamp)
// with one record area. The bookkeeping sequence `areas` lists those areas
// in segment order from the writer's first segment on; the class invariant says
// where each finished segment sits (written to the file, in a queued buffer, or
// in the active buffer) and that it carries its area. CaptureRec is proved to
// add exactly the areas RbsFormat.PackRecord lays out, so the round trip of
// RbsRoundTrip applies to the file the writer leaves (RbsWriterReadBack).
module RbsWriterState {
  import opened Jet
  import opened Bytes
  import opened RbsFormat
  import opened RbsRoundTrip
  import RbsRead
  import RbsGen

  /** ULONG arithmetic wraps modulo 2^32. */
  const Ulong: nat := 0x1_0000_0000

  /** A buffer handed to the write queue: its first segment (m_cStartSegment) and its m_cbValidData bytes. */
  datatype Buffer = Buffer(start: nat, data: seq<byte>)

  /**
   * IbRBSFileOffsetOfSegment: segment j starts j segments in, counted one
   * segment at a time (SegmentStartIsProduct gives the product).
   */
  function SegmentStart(g: Geometry, j: nat): nat
  {
    if j == 0 then 0 else SegmentStart(g, j - 1) + g.cbSegment
  }

  /** Segment j of a buffer's bytes. */
  function SegOf(g: Geometry, data: seq<byte>, j: nat): seq<byte>
  {
    var o := SegmentStart(g, j);
    if o + g.cbSegment <= |data| then data[o..o + g.cbSegment] else []
  }

  /** Segment s is sealed as segment number k and carries the record area a. */
  predicate Finished(g: Geometry, ck: Checksum, s: seq<byte>, k: nat, a: seq<byte>)
  {
    SegmentOk(g, ck, s, k) && g.cbSegHdr <= |s| && PayloadOf(g, s) == a
  }

  /**
   * The first n segments of data, a buffer whose first segment is start, are
   * sealed and carry the areas that areas lists for them (areas[0] belongs to
   * segment base).
   */
  predicate BufferHolds(g: Geometry, ck: Checksum, data: seq<byte>, start: nat, n: nat, base: nat, areas: seq<seq<byte>>)
  {
    && base <= start && start - base + n <= |areas|
    && forall j :: 0 <= j < n ==> SegmentHolds(g, ck, data, start, base, areas, j)
  }

  /** Segment j of a buffer whose first segment is start is sealed and carries its area. */
  predicate SegmentHolds(g: Geometry, ck: Checksum, data: seq<byte>, start: nat, base: nat, areas: seq<seq<byte>>, j: nat)
  {
    && base <= start && start - base + j < |areas|
    && SegmentStart(g, j) + g.cbSegment <= |data| && Finished(g, ck, SegOf(g, data, j), start + j, areas[start - base + j])
  }

  /** Segments base .. upTo - 1 of the file are sealed and carry their areas. */
  predicate FileHolds(g: Geometry, ck: Checksum, file: map<nat, seq<byte>>, base: nat, upTo: nat, areas: seq<seq<byte>>)
  {
    && base <= upTo && upTo - base <= |areas|
    && forall k :: base <= k < upTo ==> FileSegmentHolds(g, ck, file, base, areas, k)
  }

  /** Segment k of the file is sealed and carries its area. */
  predicate FileSegmentHolds(g: Geometry, ck: Checksum, file: map<nat, seq<byte>>, base: nat, areas: seq<seq<byte>>, k: nat)
  {
    base <= k && k - base < |areas| && k in file && Finished(g, ck, file[k], k, areas[k - base])
  }

  /** The number of segments in a queued buffer (CsegRBSCountSegmentOfOffset of m_cbValidData). */
  function Segments(g: Geometry, b: Buffer): nat
  {
    if g.cbSegment == 0 then 0 else |b.data| / g.cbSegment
  }

  /**
   * The write queue, from its head on: each buffer starts where the one before
   * it ends, the head at segment from, and holds whole sealed segments.
   */
  predicate QueueOk(g: Geometry, ck: Checksum, q: seq<Buffer>, from: nat, base: nat, areas: seq<seq<byte>>)
    decreases |q|
  {
    q != [] ==>
      && q[0].start == from && g.cbSegment > 0 && |q[0].data| == SegmentStart(g, Segments(g, q[0]))
      && BufferHolds(g, ck, q[0].data, from, Segments(g, q[0]), base, areas)
      && QueueOk(g, ck, q[1..], from + Segments(g, q[0]), base, areas)
  }

  /** The segment after the last buffer of the queue, the head starting at segment from. */
  function QueueEnd(g: Geometry, q: seq<Buffer>, from: nat): nat
    decreases |q|
  {
    if q == [] then from else QueueEnd(g, q[1..], from + Segments(g, q[0]))
  }

  /**
   * The active buffer: sealed segments first, then the open segment whose
   * record area holds cur; m_ibNextRecord points just past cur. A buffer whose
   * every segment is sealed has m_ibNextRecord one segment header past its end.
   */
  predicate ActiveOk(g: Geometry, ck: Checksum, buf: seq<byte>, start: nat, ib: nat, sealed: nat, cur: seq<byte>,
                     base: nat, areas: seq<seq<byte>>)
  {
    && |buf| == SegmentStart(g, g.cSegmentsPerBuffer) && sealed <= g.cSegmentsPerBuffer
    && ib == SegmentStart(g, sealed) + g.cbSegHdr + |cur|
    && BufferHolds(g, ck, buf, start, sealed, base, areas)
    && (sealed == g.cSegmentsPerBuffer ==> cur == [])
    && (sealed < g.cSegmentsPerBuffer ==> |cur| <= g.Payload() && ib <= |buf| && buf[ib - |cur|..ib] == cur)
  }

  /** Writing a buffer at the file offset of its first segment. */
  function Write(g: Geometry, file: map<nat, seq<byte>>, b: Buffer): map<nat, seq<byte>>
  {
    file + map k: nat | b.start <= k < b.start + Segments(g, b) :: FileSegmentOf(g, b, k)
  }

  /** The bytes of a buffer that land in file segment k. */
  function FileSegmentOf(g: Geometry, b: Buffer, k: nat): seq<byte>
    requires b.start <= k
  {
    SegOf(g, b.data, k - b.start)
  }

  /** Writing the queued buffers in order. */
  function WriteAll(g: Geometry, file: map<nat, seq<byte>>, q: seq<Buffer>): map<nat, seq<byte>>
    decreases |q|
  {
    if q == [] then file else WriteAll(g, Write(g, file, q[0]), q[1..])
  }

  /**
   * The flush trigger of ErrWriteBuffers: m_cNextFlushSegment minus
   * m_cNextWriteSegment, computed in ULONG arithmetic, against two buffers' worth
   * of segments.
   */
  predicate FlushDue(g: Geometry, nextFlush: nat, nextWrite: nat)
  {
    (nextFlush - nextWrite) % Ulong >= 2 * g.cSegmentsPerBuffer
  }

  /**
   * Since the flush watermark never passes the write watermark, the unsigned
   * subtraction wraps whenever anything is unflushed: the trigger fires as soon
   * as one segment has been written past the flush point (unless nearly 2^32
   * segments are), and never when everything written is flushed.
   */
  lemma FlushDueWhenBehind(g: Geometry, nextFlush: nat, nextWrite: nat)
    requires g.Valid() && nextFlush <= nextWrite && nextWrite - nextFlush < Ulong
    ensures FlushDue(g, nextFlush, nextWrite) <==>
      nextFlush < nextWrite && nextWrite - nextFlush <= Ulong - 2 * g.cSegmentsPerBuffer
  {
    var d := nextWrite - nextFlush;
    if d > 0 {
      assert nextFlush - nextWrite == (Ulong - d) - (Ulong as int);
      assert (nextFlush - nextWrite) % Ulong == Ulong - d;
    }
  }

  lemma {:induction false} SegmentStartIsProduct(g: Geometry, j: nat)
    ensures SegmentStart(g, j) == j * g.cbSegment
  {
    if j > 0 {
      SegmentStartIsProduct(g, j - 1);
    }
  }

  /** A segment ends at or before the start of every later segment. */
  lemma {:induction false} SegmentWithin(g: Geometry, j: nat, n: nat)
    requires j < n
    ensures SegmentStart(g, j) + g.cbSegment <= SegmentStart(g, n)
    decreases n
  {
    if j < n - 1 {
      SegmentWithin(g, j, n - 1);
    }
  }

  /** An offset t into segment n: its segment is n and its offset within the segment is t. */
  lemma SegmentOffset(g: Geometry, n: nat, t: nat)
    requires t < g.cbSegment
    ensures (SegmentStart(g, n) + t) % g.cbSegment == t && (SegmentStart(g, n) + t) / g.cbSegment == n
  {
    SegmentStartIsProduct(g, n);
    RbsGen.DivModUnique(n * g.cbSegment + t, g.cbSegment, n, t);
  }

  /** IsegRBSSegmentOfFileOffset: the segment that holds file offset x. */
  lemma SegmentOfOffset(g: Geometry, x: nat)
    requires g.cbSegment > 0
    ensures SegmentStart(g, x / g.cbSegment) <= x < SegmentStart(g, x / g.cbSegment) + g.cbSegment
  {
    SegmentStartIsProduct(g, x / g.cbSegment);
  }

  /** An offset in segment n: CsegRBSCountSegmentOfOffset gives n back. */
  lemma OffsetInSegment(g: Geometry, n: nat, x: nat)
    requires g.cbSegment > 0 && SegmentStart(g, n) <= x < SegmentStart(g, n) + g.cbSegment
    ensures x / g.cbSegment == n
  {
    SegmentOffset(g, n, x - SegmentStart(g, n));
  }

  /** cbRBSBufferSize is the start of the segment after the buffer's last. */
  lemma BufferSizeSegments(g: Geometry)
    ensures g.BufferSize() == SegmentStart(g, g.cSegmentsPerBuffer)
  {
    SegmentStartIsProduct(g, g.cSegmentsPerBuffer);
  }

  /** Writing bytes at or after the end of the first n segments keeps them. */
  lemma SpliceKeeps(g: Geometry, ck: Checksum, buf: seq<byte>, o: nat, x: seq<byte>, start: nat, n: nat, base: nat, areas: seq<seq<byte>>)
    requires BufferHolds(g, ck, buf, start, n, base, areas) && SegmentStart(g, n) <= o && o + |x| <= |buf|
    ensures BufferHolds(g, ck, buf[..o] + x + buf[o + |x|..], start, n, base, areas)
  {
    var buf' := buf[..o] + x + buf[o + |x|..];
    forall j | 0 <= j < n ensures SegmentHolds(g, ck, buf', start, base, areas, j) {
      assert SegmentHolds(g, ck, buf, start, base, areas, j);
      SegmentWithin(g, j, n);
      SegOfSplice(g, buf, o, x, j);
    }
  }

  lemma SegOfSplice(g: Geometry, buf: seq<byte>, o: nat, x: seq<byte>, j: nat)
    requires SegmentStart(g, j) + g.cbSegment <= o && o + |x| <= |buf|
    ensures SegOf(g, buf[..o] + x + buf[o + |x|..], j) == SegOf(g, buf, j)
  {
    var buf' := buf[..o] + x + buf[o + |x|..];
    var a := SegmentStart(g, j);
    assert buf'[a..a + g.cbSegment] == buf[a..a + g.cbSegment];
  }

  /** Finished segments keep their areas when more areas are added. */
  lemma BufferHoldsGrow(g: Geometry, ck: Checksum, data: seq<byte>, start: nat, n: nat, base: nat, areas: seq<seq<byte>>, more: seq<seq<byte>>)
    requires BufferHolds(g, ck, data, start, n, base, areas)
    ensures BufferHolds(g, ck, data, start, n, base, areas + more)
  {
    forall j | 0 <= j < n ensures SegmentHolds(g, ck, data, start, base, areas + more, j) {
      assert SegmentHolds(g, ck, data, start, base, areas, j);
      assert (areas + more)[start - base + j] == areas[start - base + j];
    }
  }

  lemma {:induction false} QueueOkGrow(g: Geometry, ck: Checksum, q: seq<Buffer>, from: nat, base: nat, areas: seq<seq<byte>>, more: seq<seq<byte>>)
    requires QueueOk(g, ck, q, from, base, areas)
    ensures QueueOk(g, ck, q, from, base, areas + more)
    decreases |q|
  {
    if q != [] {
      BufferHoldsGrow(g, ck, q[0].data, from, Segments(g, q[0]), base, areas, more);
      QueueOkGrow(g, ck, q[1..], from + Segments(g, q[0]), base, areas, more);
    }
  }

  lemma FileHoldsGrow(g: Geometry, ck: Checksum, file: map<nat, seq<byte>>, base: nat, upTo: nat, areas: seq<seq<byte>>, more: seq<seq<byte>>)
    requires FileHolds(g, ck, file, base, upTo, areas)
    ensures FileHolds(g, ck, file, base, upTo, areas + more)
  {
    forall k | base <= k < upTo ensures FileSegmentHolds(g, ck, file, base, areas + more, k) {
      assert FileSegmentHolds(g, ck, file, base, areas, k);
      assert (areas + more)[k - base] == areas[k - base];
    }
  }

  /** Appending a buffer that starts where the queue ends. */
  lemma {:induction false} QueuePush(g: Geometry, ck: Checksum, q: seq<Buffer>, from: nat, base: nat, areas: seq<seq<byte>>, b: Buffer)
    requires QueueOk(g, ck, q, from, base, areas)
    requires b.start == QueueEnd(g, q, from) && g.cbSegment > 0 && |b.data| == SegmentStart(g, Segments(g, b))
    requires BufferHolds(g, ck, b.data, b.start, Segments(g, b), base, areas)
    ensures QueueOk(g, ck, q + [b], from, base, areas)
    ensures QueueEnd(g, q + [b], from) == QueueEnd(g, q, from) + Segments(g, b)
    decreases |q|
  {
    if q == [] {
      assert [b][1..] == [];
    } else {
      assert (q + [b])[1..] == q[1..] + [b];
      QueuePush(g, ck, q[1..], from + Segments(g, q[0]), base, areas, b);
    }
  }

  lemma {:induction false} QueueEndAtLeast(g: Geometry, q: seq<Buffer>, from: nat)
    ensures from <= QueueEnd(g, q, from)
    decreases |q|
  {
    if q != [] {
      QueueEndAtLeast(g, q[1..], from + Segments(g, q[0]));
    }
  }

  /** Writing the head of the queue extends the sealed part of the file by its segments. */
  lemma WriteHolds(g: Geometry, ck: Checksum, file: map<nat, seq<byte>>, base: nat, upTo: nat, areas: seq<seq<byte>>, b: Buffer)
    requires FileHolds(g, ck, file, base, upTo, areas) && b.start == upTo
    requires BufferHolds(g, ck, b.data, b.start, Segments(g, b), base, areas)
    ensures FileHolds(g, ck, Write(g, file, b), base, upTo + Segments(g, b), areas)
    ensures forall k :: k in file && !(upTo <= k < upTo + Segments(g, b)) ==> k in Write(g, file, b) && Write(g, file, b)[k] == file[k]
  {
    var file' := Write(g, file, b);
    forall k | base <= k < upTo + Segments(g, b) ensures FileSegmentHolds(g, ck, file', base, areas, k) {
      if k >= upTo {
        WrittenSegment(g, ck, file, base, areas, b, k);
      } else {
        assert FileSegmentHolds(g, ck, file, base, areas, k);
      }
    }
  }

  /** A segment of a written buffer lands in the file sealed and carrying its area. */
  lemma WrittenSegment(g: Geometry, ck: Checksum, file: map<nat, seq<byte>>, base: nat, areas: seq<seq<byte>>, b: Buffer, k: nat)
    requires BufferHolds(g, ck, b.data, b.start, Segments(g, b), base, areas) && b.start <= k < b.start + Segments(g, b)
    ensures FileSegmentHolds(g, ck, Write(g, file, b), base, areas, k)
  {
    assert SegmentHolds(g, ck, b.data, b.start, base, areas, k - b.start);
    assert Write(g, file, b)[k] == FileSegmentOf(g, b, k);
  }


  /**
   * Sealing the open segment at offset o of the buffer: the record area is
   * cur zero filled to the payload size, the header takes the ordinal, the
   * time stamp and the checksum, and the reserved header bytes are whatever the
   * buffer held there.
   */
  function SealAt(g: Geometry, ck: Checksum, buf: seq<byte>, o: nat, ordinal: nat, logtime: seq<byte>): (b: seq<byte>)
    requires g.Valid() && o + g.cbSegment <= |buf| && |logtime| == 8
    ensures |b| == |buf|
  {
    var seg := Seal(g, ck, ordinal, logtime, buf[o + 20..o + g.cbSegHdr], buf[o + g.cbSegHdr..o + g.cbSegment]);
    buf[..o] + seg + buf[o + g.cbSegment..]
  }

  /** Sealing segment n of a buffer whose first n segments are finished finishes n + 1 of them. */
  lemma SealAtHolds(g: Geometry, ck: Checksum, buf: seq<byte>, start: nat, n: nat, base: nat, areas: seq<seq<byte>>,
                    logtime: seq<byte>, a: seq<byte>, o: nat, ordinal: nat)
    requires g.Valid() && |logtime| == 8 && o == SegmentStart(g, n) && ordinal == start + n && o + g.cbSegment <= |buf|
    requires BufferHolds(g, ck, buf, start, n, base, areas) && start - base + n == |areas|
    requires buf[o + g.cbSegHdr..o + g.cbSegment] == a
    ensures BufferHolds(g, ck, SealAt(g, ck, buf, o, ordinal, logtime), start, n + 1, base, areas + [a])
  {
    var seg := Seal(g, ck, start + n, logtime, buf[o + 20..o + g.cbSegHdr], a);
    var buf' := SealAt(g, ck, buf, o, start + n, logtime);
    assert buf' == buf[..o] + seg + buf[o + g.cbSegment..];
    SpliceKeeps(g, ck, buf, o, seg, start, n, base, areas);
    BufferHoldsGrow(g, ck, buf', start, n, base, areas, [a]);
    assert SegOf(g, buf', n) == seg by {
      assert buf'[o..o + g.cbSegment] == seg;
    }
    assert (areas + [a])[start - base + n] == a;
    assert SegmentHolds(g, ck, buf', start, base, areas + [a], n);
    forall j | 0 <= j < n + 1 ensures SegmentHolds(g, ck, buf', start, base, areas + [a], j) {
      if j < n {
        assert BufferHolds(g, ck, buf', start, n, base, areas + [a]);
      }
    }
  }


  /** The writer's fields and its bookkeeping, as one value. */
  datatype WriterState = WriterState(
    active: bool, start: nat, buf: seq<byte>, ib: nat, queue: seq<Buffer>,
    nextActive: nat, nextWrite: nat, nextFlush: nat, file: map<nat, seq<byte>>, logicalSize: nat,
    areas: seq<seq<byte>>, sealed: nat, cur: seq<byte>)

  /**
   * Everything the writer keeps except room for a FragBegin header in the open
   * segment: the watermarks are ordered flush <= write <= active, the logical
   * file size lies in the flush segment, the file holds the sealed segments
   * below the write watermark, the queue runs from the write watermark to the
   * active one, and the active buffer holds the sealed segments after that.
   */
  predicate Framed(g: Geometry, ck: Checksum, base: nat, s: WriterState)
  {
    match s
    case WriterState(active, start, buf, ib, queue, nextActive, nextWrite, nextFlush, file, logicalSize, areas, sealed, cur) =>
      && g.Valid() && 1 <= base <= nextFlush <= nextWrite <= nextActive
      && SegmentStart(g, nextFlush) <= logicalSize < SegmentStart(g, nextFlush) + g.cbSegment
      && FileHolds(g, ck, file, base, nextWrite, areas)
      && QueueOk(g, ck, queue, nextWrite, base, areas) && QueueEnd(g, queue, nextWrite) == nextActive
      && |areas| == nextActive - base + sealed
      && (active ==> start == nextActive && ActiveOk(g, ck, buf, start, ib, sealed, cur, base, areas))
      && (!active ==> sealed == 0 && cur == [])
  }

  /** The writer's invariant: Framed, and the open segment has room for a FragBegin header. */
  predicate WriterOk(g: Geometry, ck: Checksum, base: nat, s: WriterState)
  {
    Framed(g, ck, base, s) && OpenOk(g, s.cur)
  }

  /** UtilMemCpy of x into the active buffer at m_ibNextRecord, which then moves past it. */
  function PutIn(s: WriterState, x: seq<byte>): WriterState
    requires s.ib + |x| <= |s.buf|
  {
    s.(buf := s.buf[..s.ib] + x + s.buf[s.ib + |x|..], ib := s.ib + |x|, cur := s.cur + x)
  }

  /** Copying x into the open segment keeps the invariant (all but the room for a FragBegin). */
  lemma PutKeeps(g: Geometry, ck: Checksum, base: nat, s: WriterState, x: seq<byte>)
    requires Framed(g, ck, base, s) && s.active && s.sealed < g.cSegmentsPerBuffer && |s.cur| + |x| <= g.Payload()
    ensures s.ib + |x| <= |s.buf|
    ensures Framed(g, ck, base, PutIn(s, x))
  {
    SegmentWithin(g, s.sealed, g.cSegmentsPerBuffer);
    SpliceKeeps(g, ck, s.buf, s.ib, x, s.start, s.sealed, base, s.areas);
    var buf' := s.buf[..s.ib] + x + s.buf[s.ib + |x|..];
    assert buf'[s.ib - |s.cur|..s.ib + |x|] == s.cur + x by {
      assert buf'[s.ib - |s.cur|..s.ib] == s.buf[s.ib - |s.cur|..s.ib];
    }
  }

  /** The tail of the open segment zero filled: the segment's payload is the open area zero filled. */
  lemma ZeroTail(g: Geometry, buf: seq<byte>, n: nat, ib: nat, cur: seq<byte>)
    requires g.Valid() && SegmentStart(g, n) + g.cbSegment <= |buf| && |cur| <= g.Payload()
    requires ib == SegmentStart(g, n) + g.cbSegHdr + |cur| && buf[ib - |cur|..ib] == cur
    ensures var space := g.Payload() - |cur|;
      && ib + space == SegmentStart(g, n) + g.cbSegment
      && var zeroed := buf[..ib] + Zeros(space) + buf[ib + space..];
      && |zeroed| == |buf|
      && zeroed[SegmentStart(g, n) + g.cbSegHdr..SegmentStart(g, n) + g.cbSegment] == cur + Zeros(space)
  {
    var space := g.Payload() - |cur|;
    var zeroed := buf[..ib] + Zeros(space) + buf[ib + space..];
    var o := SegmentStart(g, n);
    assert zeroed[o + g.cbSegHdr..ib] == buf[ib - |cur|..ib];
    assert zeroed[ib..ib + space] == Zeros(space);
    assert zeroed[o + g.cbSegHdr..o + g.cbSegment] == zeroed[o + g.cbSegHdr..ib] + zeroed[ib..ib + space];
  }

  /**
   * Closing the open segment at the level of the active buffer: b, the buffer
   * with the open segment's tail zero filled and the segment sealed, holds
   * one more sealed segment and an empty open area after it.
   */
  lemma CloseActive(g: Geometry, ck: Checksum, buf: seq<byte>, start: nat, ib: nat, sealed: nat, cur: seq<byte>,
                    base: nat, areas: seq<seq<byte>>, logtime: seq<byte>, space: nat, o: nat, b: seq<byte>)
    requires g.Valid() && ActiveOk(g, ck, buf, start, ib, sealed, cur, base, areas) && sealed < g.cSegmentsPerBuffer
    requires start - base + sealed == |areas| && |logtime| == 8
    requires space == g.Payload() - |cur| && o == SegmentStart(g, sealed) && ib + space == o + g.cbSegment <= |buf|
    requires b == SealAt(g, ck, ZeroFill(buf, ib, space), o, start + sealed, logtime)
    ensures ActiveOk(g, ck, b, start, ib + space + g.cbSegHdr, sealed + 1, [], base, areas + [cur + Zeros(space)])
  {
    SealOpenHolds(g, ck, buf, start, ib, sealed, cur, base, areas, logtime, space, o);
    var ib' := ib + space + g.cbSegHdr;
    assert ib' == SegmentStart(g, sealed + 1) + g.cbSegHdr;
    if sealed + 1 < g.cSegmentsPerBuffer {
      SegmentWithin(g, sealed + 1, g.cSegmentsPerBuffer);
      assert b[ib'..ib'] == [];
    }
  }

  /** Zero filling and sealing the open segment of the active buffer finishes one more segment. */
  lemma SealOpenHolds(g: Geometry, ck: Checksum, buf: seq<byte>, start: nat, ib: nat, sealed: nat, cur: seq<byte>,
                      base: nat, areas: seq<seq<byte>>, logtime: seq<byte>, space: nat, o: nat)
    requires g.Valid() && ActiveOk(g, ck, buf, start, ib, sealed, cur, base, areas) && sealed < g.cSegmentsPerBuffer
    requires start - base + sealed == |areas| && |logtime| == 8
    requires space == g.Payload() - |cur| && o == SegmentStart(g, sealed) && ib + space == o + g.cbSegment <= |buf|
    ensures var b := SealAt(g, ck, ZeroFill(buf, ib, space), o, start + sealed, logtime);
      |b| == |buf| && BufferHolds(g, ck, b, start, sealed + 1, base, areas + [cur + Zeros(space)])
  {
    ZeroTail(g, buf, sealed, ib, cur);
    var zeroed := ZeroFill(buf, ib, space);
    SpliceKeeps(g, ck, buf, ib, Zeros(space), start, sealed, base, areas);
    SealAtHolds(g, ck, zeroed, start, sealed, base, areas, logtime, cur + Zeros(space), o, start + sealed);
  }

  /** The memset of ErrCaptureRec: zero the space bytes at ib, when there are any. */
  function ZeroFill(buf: seq<byte>, ib: nat, space: nat): (z: seq<byte>)
    requires ib + space <= |buf|
    ensures z == buf[..ib] + Zeros(space) + buf[ib + space..]
  {
    if space > 0 then buf[..ib] + Zeros(space) + buf[ib + space..]
    else assert buf[..ib] + Zeros(space) + buf[ib + space..] == buf; buf
  }

  /**
   * The state after closing the open segment of the active buffer: its tail
   * is zero filled, the segment is sealed as segment start + its index, and
   * the open area zero filled becomes the next sealed area. The invariant
   * holds again, with room for a FragBegin header in the fresh open segment.
   */
  function Close(g: Geometry, ck: Checksum, base: nat, s: WriterState, space: nat, logtime: seq<byte>): (s': WriterState)
    requires Framed(g, ck, base, s) && s.active && s.sealed < g.cSegmentsPerBuffer && |logtime| == 8
    requires space == g.Payload() - |s.cur|
    ensures s.ib + space <= |s.buf| && s.ib + space >= g.cbSegment
    ensures s'.areas == s.areas + [s.cur + Zeros(space)] && s'.cur == []
    ensures SameFrame(s, s')
    ensures WriterOk(g, ck, base, s')
  {
    CloseSetup(g, ck, base, s, space);
    var o := s.ib + space - g.cbSegment;
    var b := SealAt(g, ck, ZeroFill(s.buf, s.ib, space), o, s.start + o / g.cbSegment, logtime);
    CloseKeeps(g, ck, base, s, space, logtime, o, b);
    s.(buf := b, ib := s.ib + space + g.cbSegHdr, areas := s.areas + [s.cur + Zeros(space)], sealed := s.sealed + 1, cur := [])
  }

  /** Where the open segment of a framed writer ends. */
  lemma CloseSetup(g: Geometry, ck: Checksum, base: nat, s: WriterState, space: nat)
    requires Framed(g, ck, base, s) && s.active && s.sealed < g.cSegmentsPerBuffer
    requires space == g.Payload() - |s.cur|
    ensures s.ib + space == SegmentStart(g, s.sealed) + g.cbSegment <= |s.buf|
    ensures (s.ib + space - g.cbSegment) / g.cbSegment == s.sealed
  {
    CloseFacts(g, s.ib, s.sealed, s.cur, |s.buf|);
  }

  /** The writer with its open segment closed into b keeps the invariant. */
  lemma CloseKeeps(g: Geometry, ck: Checksum, base: nat, s: WriterState, space: nat, logtime: seq<byte>, o: nat, b: seq<byte>)
    requires Framed(g, ck, base, s) && s.active && s.sealed < g.cSegmentsPerBuffer && |logtime| == 8
    requires space == g.Payload() - |s.cur| && o == SegmentStart(g, s.sealed) && s.ib + space == o + g.cbSegment <= |s.buf|
    requires b == SealAt(g, ck, ZeroFill(s.buf, s.ib, space), o, s.start + s.sealed, logtime)
    ensures WriterOk(g, ck, base, s.(buf := b, ib := s.ib + space + g.cbSegHdr, areas := s.areas + [s.cur + Zeros(space)],
                                     sealed := s.sealed + 1, cur := []))
  {
    var a := s.cur + Zeros(space);
    CloseActive(g, ck, s.buf, s.start, s.ib, s.sealed, s.cur, base, s.areas, logtime, space, o, b);
    QueueOkGrow(g, ck, s.queue, s.nextWrite, base, s.areas, [a]);
    FileHoldsGrow(g, ck, s.file, base, s.nextWrite, s.areas, [a]);
    Refill(g, ck, base, s, b, s.ib + space + g.cbSegHdr, s.areas + [a], s.sealed + 1);
  }

  /** The active buffer replaced by one with an empty open area, the rest of the writer holding the same areas. */
  lemma Refill(g: Geometry, ck: Checksum, base: nat, s: WriterState, b: seq<byte>, ib: nat, areas: seq<seq<byte>>, sealed: nat)
    requires Framed(g, ck, base, s) && s.active
    requires FileHolds(g, ck, s.file, base, s.nextWrite, areas) && QueueOk(g, ck, s.queue, s.nextWrite, base, areas)
    requires |areas| == s.nextActive - base + sealed && ActiveOk(g, ck, b, s.start, ib, sealed, [], base, areas)
    ensures WriterOk(g, ck, base, s.(buf := b, ib := ib, areas := areas, sealed := sealed, cur := []))
  {
  }

  /** A full active buffer has every segment sealed and an empty open area. */
  lemma FullBuffer(g: Geometry, ck: Checksum, base: nat, s: WriterState)
    requires WriterOk(g, ck, base, s) && s.active && s.ib >= g.BufferSize()
    ensures s.sealed == g.cSegmentsPerBuffer && s.cur == []
    ensures Segments(g, Buffer(s.start, s.buf)) == g.cSegmentsPerBuffer
  {
    BufferSizeSegments(g);
    if s.sealed < g.cSegmentsPerBuffer {
      SegmentWithin(g, s.sealed, g.cSegmentsPerBuffer);
    }
    SegmentOffset(g, g.cSegmentsPerBuffer, 0);
  }

  /** Queueing the full active buffer: it joins the tail of the queue and the active watermark moves past it. */
  lemma QueueKeeps(g: Geometry, ck: Checksum, base: nat, s: WriterState)
    requires WriterOk(g, ck, base, s) && s.active && s.ib >= g.BufferSize()
    ensures var n := s.nextActive + |s.buf| / g.cbSegment;
      && n == s.nextActive + g.cSegmentsPerBuffer
      && WriterOk(g, ck, base, s.(queue := s.queue + [Buffer(s.start, s.buf)], nextActive := n, active := false, sealed := 0))
  {
    FullBuffer(g, ck, base, s);
    QueuePush(g, ck, s.queue, s.nextWrite, base, s.areas, Buffer(s.start, s.buf));
  }

  /** A fresh, empty active buffer at the active watermark. */
  lemma AllocKeeps(g: Geometry, ck: Checksum, base: nat, s: WriterState)
    requires WriterOk(g, ck, base, s) && !s.active
    ensures WriterOk(g, ck, base, s.(active := true, start := s.nextActive, buf := Zeros(g.BufferSize()), ib := g.cbSegHdr))
  {
    BufferSizeSegments(g);
  }

  /** Writing the head of the queue: the write watermark moves past it and the file holds its segments. */
  lemma WriteHeadKeeps(g: Geometry, ck: Checksum, base: nat, s: WriterState)
    requires WriterOk(g, ck, base, s) && s.queue != []
    ensures var b := s.queue[0];
      && b.start == s.nextWrite && g.cbSegment > 0
      && WriterOk(g, ck, base, s.(file := Write(g, s.file, b), queue := s.queue[1..],
                                  nextWrite := s.nextWrite + |b.data| / g.cbSegment))
  {
    var b := s.queue[0];
    WriteHolds(g, ck, s.file, base, s.nextWrite, s.areas, b);
    QueueEndAtLeast(g, s.queue[1..], s.nextWrite + Segments(g, b));
  }

  /** ErrFlush when flush < write: the logical size becomes the offset of the write watermark. */
  lemma FlushKeeps(g: Geometry, ck: Checksum, base: nat, s: WriterState)
    requires WriterOk(g, ck, base, s)
    ensures WriterOk(g, ck, base, s.(logicalSize := s.nextWrite * g.cbSegment, nextFlush := s.nextWrite))
  {
    SegmentStartIsProduct(g, s.nextWrite);
  }

  /** Where the open segment of the active buffer ends. */
  lemma CloseFacts(g: Geometry, ib: nat, sealed: nat, cur: seq<byte>, size: nat)
    requires g.Valid() && sealed < g.cSegmentsPerBuffer && size == SegmentStart(g, g.cSegmentsPerBuffer)
    requires ib == SegmentStart(g, sealed) + g.cbSegHdr + |cur| && |cur| <= g.Payload()
    ensures var space := g.Payload() - |cur|;
      && ib + space == SegmentStart(g, sealed) + g.cbSegment <= size
      && (ib + space - g.cbSegment) / g.cbSegment == sealed
  {
    SegmentWithin(g, sealed, g.cSegmentsPerBuffer);
    SegmentOffset(g, sealed, 0);
  }

  /** An active buffer with room left has a segment still open. */
  lemma NotFull(g: Geometry, ck: Checksum, base: nat, s: WriterState)
    requires Framed(g, ck, base, s) && s.active && s.ib < g.BufferSize()
    ensures s.sealed < g.cSegmentsPerBuffer
  {
    BufferSizeSegments(g);
  }

  /**
   * What ErrCaptureRec still has to lay out for record r: before the first
   * pass, the whole packing of r after the open area cur; on later passes with
   * bytes of r still owed, the FragContinue pieces that carry them; at the end,
   * nothing but the open area.
   */
  function Remaining(g: Geometry, cur: seq<byte>, r: seq<byte>, first: bool, remaining: nat): Packed
    requires g.Valid() && Packable(g, r) && remaining <= |r| && (first ==> OpenOk(g, cur))
  {
    if first then PackRecord(g, cur, r)
    else if remaining > 0 then PackContinue(g, r, |r| - remaining)
    else Packed([], cur)
  }

  /**
   * Where a capture pass starts: `space` bytes are left in the open segment,
   * and the segment is the one after the areas sealed so far.
   */
  lemma PassStart(g: Geometry, ck: Checksum, base: nat, s: WriterState, space: nat)
    requires WriterOk(g, ck, base, s) && s.active && s.sealed < g.cSegmentsPerBuffer
    requires space == g.cbSegment - s.ib % g.cbSegment
    ensures space == g.Payload() - |s.cur|
    ensures s.start + (s.ib + space) / g.cbSegment - 1 == base + |s.areas|
  {
    SegmentOffset(g, s.sealed, g.cbSegHdr + |s.cur|);
    SegmentOffset(g, s.sealed + 1, 0);
  }

  /** A record that fits the open segment goes in whole; the segment closes if too little is left. */
  lemma FitPacking(g: Geometry, cur: seq<byte>, r: seq<byte>, space: nat)
    requires g.Valid() && OpenOk(g, cur) && Packable(g, r)
    requires space == g.Payload() - |cur| && |r| <= space
    ensures space - |r| < g.cbFragBegin ==>
      PackRecord(g, cur, r).closed == [cur + r + Zeros(space - |r|)] && PackRecord(g, cur, r).open == []
    ensures space - |r| >= g.cbFragBegin ==>
      PackRecord(g, cur, r).closed == [] && PackRecord(g, cur, r).open == cur + r
  {
  }

  /** A record that does not fit starts with a FragBegin piece filling the open segment. */
  lemma BeginPacking(g: Geometry, cur: seq<byte>, r: seq<byte>, space: nat)
    requires g.Valid() && OpenOk(g, cur) && Packable(g, r)
    requires space == g.Payload() - |cur| && space < |r|
    ensures var n := space - g.cbFragBegin; var rest := PackContinue(g, r, n);
      && PackRecord(g, cur, r).closed == [cur + FragBeginHeader(g, space, |r|) + r[..n] + Zeros(0)] + rest.closed
      && PackRecord(g, cur, r).open == rest.open
  {
    var a := cur + FragBeginHeader(g, space, |r|) + r[..space - g.cbFragBegin];
    PackRecordBegins(g, cur, r, space, a);
    assert a + Zeros(0) == a;
  }

  /** The FragBegin branch of PackRecord. */
  lemma PackRecordBegins(g: Geometry, cur: seq<byte>, r: seq<byte>, space: nat, a: seq<byte>)
    requires g.Valid() && OpenOk(g, cur) && Packable(g, r)
    requires space == g.Payload() - |cur| && space < |r|
    requires a == cur + FragBeginHeader(g, space, |r|) + r[..space - g.cbFragBegin]
    ensures PackRecord(g, cur, r) == Packed([a] + PackContinue(g, r, space - g.cbFragBegin).closed,
                                            PackContinue(g, r, space - g.cbFragBegin).open)
  {
  }

  /**
   * A FragContinue piece at the start of a fresh segment: the last one closes
   * its segment only when too little is left; any other fills it.
   */
  lemma ContinuePacking(g: Geometry, r: seq<byte>, done: nat)
    requires g.Valid() && done < |r|
    ensures var n := ContinueData(g, r, done); var piece := ContinuePiece(g, r, done);
      var space := g.Payload() - |piece|;
      && (done + n == |r| && space < g.cbFragBegin ==>
          PackContinue(g, r, done).closed == [piece + Zeros(space)] && PackContinue(g, r, done).open == [])
      && (done + n == |r| && space >= g.cbFragBegin ==>
          PackContinue(g, r, done).closed == [] && PackContinue(g, r, done).open == piece)
      && (done + n < |r| ==>
          && space == 0
          && PackContinue(g, r, done).closed == [piece + Zeros(space)] + PackContinue(g, r, done + n).closed
          && PackContinue(g, r, done).open == PackContinue(g, r, done + n).open)
  {
    var n := ContinueData(g, r, done);
    var piece := ContinuePiece(g, r, done);
    if done + n < |r| {
      assert |piece| == g.Payload();
      assert piece + Zeros(0) == piece;
    }
  }

  /**
   * The outcome of one pass of ErrCaptureRec: the writer's state, how many
   * bytes of the record are still owed, and the segment where the pass ended.
   */
  datatype Pass = Pass(state: WriterState, remaining: nat, seg: nat)

  /** The fields a capture pass leaves alone. */
  predicate SameFrame(s: WriterState, t: WriterState)
  {
    && t.active == s.active && t.start == s.start && t.queue == s.queue && t.nextActive == s.nextActive
    && t.nextWrite == s.nextWrite && t.nextFlush == s.nextFlush && t.file == s.file && t.logicalSize == s.logicalSize
  }

  /**
   * What a pass from state s achieves when `owed` was still to be laid out:
   * the invariant holds again, the areas sealed so far plus what is still to
   * be laid out equal the areas before plus `owed`, and when nothing of the
   * record is owed any more, the segment the pass reports is the one that
   * holds the record's end.
   */
  predicate PassOk(g: Geometry, ck: Checksum, base: nat, s: WriterState, owed: Packed, r: seq<byte>, p: Pass)
    requires g.Valid() && Packable(g, r)
  {
    && WriterOk(g, ck, base, p.state) && SameFrame(s, p.state) && p.remaining <= |r|
    && s.areas + owed.closed == p.state.areas + Remaining(g, p.state.cur, r, false, p.remaining).closed
    && owed.open == Remaining(g, p.state.cur, r, false, p.remaining).open
    && (p.remaining > 0 ==> p.state.cur == [])
    && (p.remaining == 0 ==> p.seg == base + |p.state.areas| - (if p.state.cur == [] then 1 else 0))
  }

  /** A pass that ends by closing its segment. */
  lemma ClosedPassOk(g: Geometry, ck: Checksum, base: nat, s: WriterState, s2: WriterState, left: nat, logtime: seq<byte>,
                     owed: Packed, r: seq<byte>, rem: nat, seg: nat)
    requires Framed(g, ck, base, s2) && s2.active && s2.sealed < g.cSegmentsPerBuffer && |logtime| == 8
    requires left == g.Payload() - |s2.cur| && SameFrame(s, s2) && s2.areas == s.areas && Packable(g, r) && rem <= |r|
    requires owed.closed == [s2.cur + Zeros(left)] + Remaining(g, [], r, false, rem).closed
    requires owed.open == Remaining(g, [], r, false, rem).open
    requires rem == 0 ==> seg == base + |s.areas|
    ensures PassOk(g, ck, base, s, owed, r, Pass(Close(g, ck, base, s2, left, logtime), rem, seg))
  {
    var c := Close(g, ck, base, s2, left, logtime);
    assert SameFrame(s, c) && c.cur == [];
    assert s.areas + owed.closed == c.areas + Remaining(g, [], r, false, rem).closed;
  }

  /** A pass that ends with the record's end in the still open segment. */
  lemma OpenPassOk(g: Geometry, ck: Checksum, base: nat, s: WriterState, s2: WriterState, owed: Packed, r: seq<byte>, seg: nat)
    requires WriterOk(g, ck, base, s2) && SameFrame(s, s2) && s2.areas == s.areas && Packable(g, r)
    requires owed.closed == [] && owed.open == s2.cur != [] && seg == base + |s.areas|
    ensures PassOk(g, ck, base, s, owed, r, Pass(s2, 0, seg))
  {
  }

  /**
   * The first pass when record r fits the `space` bytes left in the open
   * segment: copy it, and close the segment if fewer than
   * sizeof(RBSFragBegin) bytes remain. The pass lays out all of PackRecord.
   */
  function FitPassOf(g: Geometry, ck: Checksum, base: nat, s: WriterState, r: seq<byte>, space: nat, seg: nat, logtime: seq<byte>): (p: Pass)
    requires WriterOk(g, ck, base, s) && s.active && s.sealed < g.cSegmentsPerBuffer && Packable(g, r) && |logtime| == 8
    requires space == g.Payload() - |s.cur| && |r| <= space && seg == base + |s.areas|
    ensures PassOk(g, ck, base, s, PackRecord(g, s.cur, r), r, p)
  {
    PutKeeps(g, ck, base, s, r);
    FitPacking(g, s.cur, r, space);
    var s1 := PutIn(s, r);
    if space - |r| < g.cbFragBegin then
      ClosedPassOk(g, ck, base, s, s1, space - |r|, logtime, PackRecord(g, s.cur, r), r, 0, seg);
      Pass(Close(g, ck, base, s1, space - |r|, logtime), 0, seg)
    else
      OpenPassOk(g, ck, base, s, s1, PackRecord(g, s.cur, r), r, seg);
      Pass(s1, 0, seg)
  }

  /** The two copies of a FragBegin pass, which fill the open segment. */
  lemma BeginPuts(g: Geometry, ck: Checksum, base: nat, s: WriterState, r: seq<byte>, space: nat)
    requires Framed(g, ck, base, s) && s.active && s.sealed < g.cSegmentsPerBuffer
    requires space == g.Payload() - |s.cur| && g.cbFragBegin <= space < |r|
    ensures var h := FragBeginHeader(g, space, |r|); var n := space - g.cbFragBegin;
      && s.ib + |h| <= |s.buf| && PutIn(s, h).ib + n <= |PutIn(s, h).buf|
      && var s2 := PutIn(PutIn(s, h), r[..n]);
      && Framed(g, ck, base, s2) && SameFrame(s, s2) && s2.sealed == s.sealed && s2.areas == s.areas
      && s2.cur == s.cur + h + r[..n] && |s2.cur| == g.Payload()
  {
    var h := FragBeginHeader(g, space, |r|);
    var n := space - g.cbFragBegin;
    PutKeeps(g, ck, base, s, h);
    PutKeeps(g, ck, base, PutIn(s, h), r[..n]);
  }

  /**
   * The first pass when record r does not fit: a FragBegin piece whose length
   * is the space left and whose total is the record's length, then the head
   * of the record up to the end of the segment, which is closed. What is
   * still owed is the FragContinue pieces of the rest.
   */
  function BeginPassOf(g: Geometry, ck: Checksum, base: nat, s: WriterState, r: seq<byte>, space: nat, seg: nat, logtime: seq<byte>): (p: Pass)
    requires WriterOk(g, ck, base, s) && s.active && s.sealed < g.cSegmentsPerBuffer && Packable(g, r) && |logtime| == 8
    requires space == g.Payload() - |s.cur| && space < |r|
    ensures PassOk(g, ck, base, s, PackRecord(g, s.cur, r), r, p)
  {
    var h := FragBeginHeader(g, space, |r|);
    var n := space - g.cbFragBegin;
    BeginCopies(g, ck, base, s, r, space);
    var s2 := PutIn(PutIn(s, h), r[..n]);
    ClosedPassOk(g, ck, base, s, s2, 0, logtime, PackRecord(g, s.cur, r), r, |r| - n, seg);
    Pass(Close(g, ck, base, s2, 0, logtime), |r| - n, seg)
  }

  /** After the two copies of a FragBegin pass the segment is full, and what it closes starts the packing of r. */
  lemma BeginCopies(g: Geometry, ck: Checksum, base: nat, s: WriterState, r: seq<byte>, space: nat)
    requires WriterOk(g, ck, base, s) && s.active && s.sealed < g.cSegmentsPerBuffer && Packable(g, r)
    requires space == g.Payload() - |s.cur| && space < |r|
    ensures var h := FragBeginHeader(g, space, |r|); var n := space - g.cbFragBegin;
      && s.ib + |h| <= |s.buf| && PutIn(s, h).ib + n <= |PutIn(s, h).buf| && 0 < |r| - n <= |r|
      && var s2 := PutIn(PutIn(s, h), r[..n]);
      && Framed(g, ck, base, s2) && s2.active && s2.sealed < g.cSegmentsPerBuffer
      && 0 == g.Payload() - |s2.cur| && SameFrame(s, s2) && s2.areas == s.areas
      && PackRecord(g, s.cur, r).closed == [s2.cur + Zeros(0)] + Remaining(g, [], r, false, |r| - n).closed
      && PackRecord(g, s.cur, r).open == Remaining(g, [], r, false, |r| - n).open
  {
    var n := space - g.cbFragBegin;
    BeginPuts(g, ck, base, s, r, space);
    BeginPacking(g, s.cur, r, space);
    assert |r| - (|r| - n) == n;
  }

  /** The header and the bytes of a FragContinue pass at the start of a fresh segment make up the packing's piece. */
  lemma ContinueParts(g: Geometry, r: seq<byte>, remaining: nat, space: nat)
    requires g.Valid() && space == g.Payload() && 0 < remaining <= |r|
    ensures var done := |r| - remaining;
      var h := FragContinueHeader(g, Min(g.cbFragContinue + remaining, space));
      var n := Min(remaining, space - g.cbFragContinue);
      && done + n <= |r| && n == ContinueData(g, r, done)
      && h + r[done..done + n] == ContinuePiece(g, r, done)
      && space - g.cbFragContinue - n == g.Payload() - |ContinuePiece(g, r, done)|
  {
    var done := |r| - remaining;
    assert Min(g.cbFragContinue + remaining, space) == Min(g.cbFragContinue + |r| - done, g.Payload());
  }

  /** The two copies of a FragContinue pass. */
  lemma ContinuePuts(g: Geometry, ck: Checksum, base: nat, s: WriterState, r: seq<byte>, remaining: nat, space: nat)
    requires Framed(g, ck, base, s) && s.active && s.sealed < g.cSegmentsPerBuffer && s.cur == []
    requires space == g.Payload() - |s.cur| && 0 < remaining <= |r|
    ensures var done := |r| - remaining;
      var h := FragContinueHeader(g, Min(g.cbFragContinue + remaining, space));
      var n := Min(remaining, space - g.cbFragContinue);
      && done + n <= |r| && s.ib + |h| <= |s.buf| && PutIn(s, h).ib + n <= |PutIn(s, h).buf|
      && var s2 := PutIn(PutIn(s, h), r[done..done + n]);
      && s2.cur == h + r[done..done + n]
      && Framed(g, ck, base, s2) && SameFrame(s, s2) && s2.sealed == s.sealed && s2.areas == s.areas
  {
    var done := |r| - remaining;
    var h := FragContinueHeader(g, Min(g.cbFragContinue + remaining, space));
    var n := Min(remaining, space - g.cbFragContinue);
    PutKeeps(g, ck, base, s, h);
    PutKeeps(g, ck, base, PutIn(s, h), r[done..done + n]);
  }

  /**
   * A later pass, at the start of a fresh segment, over the `remaining` bytes
   * of r still owed: a FragContinue piece whose length is min(header + bytes
   * owed, space left) and the bytes that fit after it; the segment is closed
   * when fewer than sizeof(RBSFragBegin) bytes are left. The pass lays out
   * the first FragContinue piece of what is owed.
   */
  function ContinuePassOf(g: Geometry, ck: Checksum, base: nat, s: WriterState, r: seq<byte>, remaining: nat,
                          space: nat, seg: nat, logtime: seq<byte>): (p: Pass)
    requires WriterOk(g, ck, base, s) && s.active && s.sealed < g.cSegmentsPerBuffer && s.cur == []
    requires space == g.Payload() - |s.cur| && 0 < remaining <= |r| && Packable(g, r) && |logtime| == 8
    requires seg == base + |s.areas|
    ensures PassOk(g, ck, base, s, PackContinue(g, r, |r| - remaining), r, p) && p.remaining < remaining
  {
    var done := |r| - remaining;
    var h := FragContinueHeader(g, Min(g.cbFragContinue + remaining, space));
    var n := Min(remaining, space - g.cbFragContinue);
    ContinueCopies(g, ck, base, s, r, remaining, space, seg);
    var s2 := PutIn(PutIn(s, h), r[done..done + n]);
    var left := space - g.cbFragContinue - n;
    if left < g.cbFragBegin then
      ClosedPassOk(g, ck, base, s, s2, left, logtime, PackContinue(g, r, done), r, remaining - n, seg);
      Pass(Close(g, ck, base, s2, left, logtime), remaining - n, seg)
    else
      OpenPassOk(g, ck, base, s, s2, PackContinue(g, r, done), r, seg);
      Pass(s2, remaining - n, seg)
  }

  /**
   * After the two copies of a FragContinue pass: when too little is left the
   * segment closes what the packing closes next, otherwise the open area is
   * all the packing leaves open.
   */
  lemma ContinueCopies(g: Geometry, ck: Checksum, base: nat, s: WriterState, r: seq<byte>, remaining: nat, space: nat, seg: nat)
    requires WriterOk(g, ck, base, s) && s.active && s.sealed < g.cSegmentsPerBuffer && s.cur == []
    requires space == g.Payload() - |s.cur| && 0 < remaining <= |r| && Packable(g, r)
    requires seg == base + |s.areas|
    ensures var done := |r| - remaining;
      var h := FragContinueHeader(g, Min(g.cbFragContinue + remaining, space));
      var n := Min(remaining, space - g.cbFragContinue);
      && done + n <= |r| && s.ib + |h| <= |s.buf| && PutIn(s, h).ib + n <= |PutIn(s, h).buf| && n > 0
      && var s2 := PutIn(PutIn(s, h), r[done..done + n]);
      var left := space - g.cbFragContinue - n;
      && Framed(g, ck, base, s2) && s2.active && s2.sealed < g.cSegmentsPerBuffer
      && left == g.Payload() - |s2.cur| && SameFrame(s, s2) && s2.areas == s.areas
      && (left < g.cbFragBegin ==>
          && PackContinue(g, r, done).closed == [s2.cur + Zeros(left)] + Remaining(g, [], r, false, remaining - n).closed
          && PackContinue(g, r, done).open == Remaining(g, [], r, false, remaining - n).open)
      && (left >= g.cbFragBegin ==>
          && WriterOk(g, ck, base, s2) && PackContinue(g, r, done).closed == [] && PackContinue(g, r, done).open == s2.cur != [])
  {
    var done := |r| - remaining;
    var n := Min(remaining, space - g.cbFragContinue);
    ContinuePuts(g, ck, base, s, r, remaining, space);
    ContinueParts(g, r, remaining, space);
    ContinuePacking(g, r, done);
    assert remaining - n > 0 ==> |r| - (remaining - n) == done + n;
  }

  /** A prefix of a buffer that keeps its first n segments still holds them. */
  lemma PrefixHolds(g: Geometry, ck: Checksum, data: seq<byte>, start: nat, n: nat, base: nat, areas: seq<seq<byte>>, m: nat)
    requires BufferHolds(g, ck, data, start, n, base, areas) && SegmentStart(g, n) <= m <= |data|
    ensures BufferHolds(g, ck, data[..m], start, n, base, areas)
  {
    forall j | 0 <= j < n ensures SegmentHolds(g, ck, data[..m], start, base, areas, j) {
      assert SegmentHolds(g, ck, data, start, base, areas, j);
      SegmentWithin(g, j, n);
      assert SegOf(g, data[..m], j) == SegOf(g, data, j);
    }
  }

  /**
   * Where ErrFlushAll finds m_ibNextRecord: at least a segment header into its
   * segment, exactly one header in when the open area is empty, and the
   * segments before it are the sealed ones.
   */
  lemma FlushOffset(g: Geometry, ck: Checksum, base: nat, s: WriterState)
    requires WriterOk(g, ck, base, s) && s.active
    ensures s.ib % g.cbSegment >= g.cbSegHdr && s.ib >= s.ib % g.cbSegment
    ensures s.ib % g.cbSegment == g.cbSegHdr <==> s.cur == []
    ensures s.cur != [] ==> s.sealed < g.cSegmentsPerBuffer && g.cbSegment - s.ib % g.cbSegment == g.Payload() - |s.cur|
    ensures s.cur == [] ==> s.ib - g.cbSegHdr == SegmentStart(g, s.sealed)
  {
    if s.sealed < g.cSegmentsPerBuffer {
      SegmentOffset(g, s.sealed, g.cbSegHdr + |s.cur|);
    } else {
      SegmentOffset(g, s.sealed, g.cbSegHdr);
    }
  }

  /** The valid prefix of a buffer whose n sealed segments end at offset valid is n whole segments. */
  lemma ValidPrefix(g: Geometry, data: seq<byte>, start: nat, n: nat, valid: nat)
    requires g.Valid() && valid == SegmentStart(g, n) && n <= g.cSegmentsPerBuffer
    requires |data| == SegmentStart(g, g.cSegmentsPerBuffer)
    ensures valid <= |data| && valid / g.cbSegment == n
    ensures Segments(g, Buffer(start, data[..valid])) == n && |data[..valid]| == SegmentStart(g, n)
  {
    SegmentOffset(g, n, 0);
    if n < g.cSegmentsPerBuffer {
      SegmentWithin(g, n, g.cSegmentsPerBuffer);
    }
  }

  /**
   * ErrFlushAll queueing the active buffer with its sealed segments valid:
   * it joins the tail of the queue, the active watermark moves past the
   * segments, and there is no active buffer any more.
   */
  lemma QueueActiveKeeps(g: Geometry, ck: Checksum, base: nat, s: WriterState, valid: nat)
    requires WriterOk(g, ck, base, s) && s.active && s.cur == [] && valid == s.ib - g.cbSegHdr
    ensures valid == SegmentStart(g, s.sealed) && valid <= |s.buf| && valid / g.cbSegment == s.sealed
    ensures WriterOk(g, ck, base, s.(queue := s.queue + [Buffer(s.start, s.buf[..valid])],
                                      nextActive := s.nextActive + valid / g.cbSegment, active := false, sealed := 0))
  {
    ValidPrefix(g, s.buf, s.start, s.sealed, valid);
    PrefixHolds(g, ck, s.buf, s.start, s.sealed, base, s.areas, valid);
    QueuePush(g, ck, s.queue, s.nextWrite, base, s.areas, Buffer(s.start, s.buf[..valid]));
  }
}
