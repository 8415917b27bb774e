// The writer of a revert snapshot generation as a class: CRevertSnapshot's
// active buffer, write queue and watermarks, with the invariant and the step
// lemmas of RbsWriterState.
module RbsWriter {
  import opened Jet
  import opened Bytes
  import opened RbsFormat
  import opened RbsWriterState
  import RbsGen

  /**
   * CRevertSnapshot's writer state. The fields mirror the members of the
   * source: the active buffer (m_pActiveBuffer with its m_cStartSegment,
   * bytes and m_ibNextRecord), the FIFO of buffers to write, the three
   * watermarks, the file's segments and the header's logical file size.
   * The last three fields are bookkeeping the source keeps implicit: the
   * record area of every segment sealed so far, how many segments of the
   * active buffer are sealed, and the open segment's record area.
   */
  class SnapshotWriter {
    const g: Geometry
    const ck: Checksum
    const generation: int
    /** The writer's first segment: the one after the file's logical size when it was opened. */
    const base: nat

    var active: bool
    var start: nat
    var buf: seq<byte>
    var ib: nat
    var queue: seq<Buffer>
    var nextActive: nat
    var nextWrite: nat
    var nextFlush: nat
    var file: map<nat, seq<byte>>
    var logicalSize: nat

    var areas: seq<seq<byte>>
    var sealed: nat
    var cur: seq<byte>

    function State(): WriterState
      reads this
    {
      WriterState(active, start, buf, ib, queue, nextActive, nextWrite, nextFlush, file, logicalSize, areas, sealed, cur)
    }

    ghost predicate Valid()
      reads this
    {
      WriterOk(g, ck, base, State())
    }

    /**
     * ErrRBSInitFromRstmap / ErrRBSInit: all three watermarks start at the
     * segment that holds the header's logical file size, and an empty active
     * buffer is allocated there.
     */
    constructor (g: Geometry, ck: Checksum, generation: int, logicalSize: nat, file: map<nat, seq<byte>>)
      requires g.Valid() && logicalSize >= g.cbSegment
      ensures Valid() && this.g == g && this.ck == ck && this.generation == generation
      ensures nextActive == nextWrite == nextFlush == base == logicalSize / g.cbSegment
      ensures active && start == base && ib == g.cbSegHdr && queue == []
      ensures this.file == file && this.logicalSize == logicalSize
      ensures areas == [] && cur == []
    {
      var seg := logicalSize / g.cbSegment;
      SegmentOfOffset(g, logicalSize);
      BufferSizeSegments(g);
      this.g := g;
      this.ck := ck;
      this.generation := generation;
      base := seg;
      active := true;
      start := seg;
      buf := Zeros(g.BufferSize());
      ib := g.cbSegHdr;
      queue := [];
      nextActive := seg;
      nextWrite := seg;
      nextFlush := seg;
      this.file := file;
      this.logicalSize := logicalSize;
      areas := [];
      sealed := 0;
      cur := [];
    }

    /**
     * ErrQueueCurrentAndAllocBuffer: a full active buffer joins the tail of
     * the queue with all its bytes valid and the active watermark moves past
     * it; past cRBSSegmentMax that is JET_errOutOfRBSSpace, with no active
     * buffer. Otherwise a fresh buffer starts at the active watermark.
     */
    method QueueCurrentAndAllocBuffer() returns (err: Code)
      requires Valid() && (active ==> ib >= g.BufferSize())
      modifies this
      ensures Valid()
      ensures queue == old(if active then queue + [Buffer(start, buf)] else queue)
      ensures nextActive == old(nextActive) + (if old(active) then g.cSegmentsPerBuffer else 0)
      ensures err == (if old(active) && nextActive > g.cSegmentMax then OutOfRBSSpace else Success)
      ensures active <==> err == Success
      ensures active ==> start == nextActive && ib == g.cbSegHdr && buf == Zeros(g.BufferSize())
      ensures areas == old(areas) && cur == [] && sealed == 0
      ensures file == old(file) && nextWrite == old(nextWrite) && nextFlush == old(nextFlush) && logicalSize == old(logicalSize)
    {
      if active {
        ghost var s := State();
        QueueKeeps(g, ck, base, s);
        queue := queue + [Buffer(start, buf)];
        nextActive := nextActive + |buf| / g.cbSegment;
        active := false;
        sealed := 0;
        assert State() == s.(queue := s.queue + [Buffer(s.start, s.buf)], nextActive := nextActive, active := false, sealed := 0);
        if nextActive > g.cSegmentMax {
          return OutOfRBSSpace;
        }
      }
      ghost var s := State();
      AllocKeeps(g, ck, base, s);
      active := true;
      start := nextActive;
      buf := Zeros(g.BufferSize());
      ib := g.cbSegHdr;
      assert State() == s.(active := true, start := s.nextActive, buf := Zeros(g.BufferSize()), ib := g.cbSegHdr);
      err := Success;
    }

    /** Write back the fields that closing a segment or a capture pass changes. */
    method Store(t: WriterState)
      requires SameFrame(State(), t)
      modifies this`buf, this`ib, this`areas, this`sealed, this`cur
      ensures State() == t
    {
      buf, ib, areas, sealed, cur := t.buf, t.ib, t.areas, t.sealed, t.cur;
    }

    /**
     * The end of an ErrCaptureRec pass when fewer than sizeof(RBSFragBegin)
     * bytes are left in the segment: zero the rest, stamp the header with the
     * segment's ordinal and the time, checksum it, and move m_ibNextRecord past
     * the next segment's header.
     */
    method CloseSegment(space: nat, logtime: seq<byte>)
      requires Framed(g, ck, base, State()) && active && sealed < g.cSegmentsPerBuffer && |logtime| == 8
      requires space == g.Payload() - |cur|
      modifies this`buf, this`ib, this`areas, this`sealed, this`cur
      ensures Valid() && areas == old(areas) + [old(cur) + Zeros(space)] && cur == []
      ensures buf == Close(g, ck, base, old(State()), space, logtime).buf
      ensures ib == old(ib) + space + g.cbSegHdr && sealed == old(sealed) + 1
    {
      var c := Close(g, ck, base, State(), space, logtime);
      Store(c);
    }

    /**
     * The first pass of ErrCaptureRec when record r fits the `space` bytes
     * left in the open segment, which is the writer's segment `end`: copy it
     * at m_ibNextRecord; the segment is closed if fewer than
     * sizeof(RBSFragBegin) bytes are left. The pass lays out all of PackRecord.
     */
    method FitPass(r: seq<byte>, space: nat, end: nat, logtime: seq<byte>) returns (rem: nat, seg: nat)
      requires Valid() && active && sealed < g.cSegmentsPerBuffer && Packable(g, r) && |logtime| == 8
      requires space == g.Payload() - |cur| && |r| <= space && end == base + |areas|
      modifies this`buf, this`ib, this`areas, this`sealed, this`cur
      ensures PassOk(g, ck, base, old(State()), PackRecord(g, old(cur), r), r, Pass(State(), rem, seg))
    {
      var p := FitPassOf(g, ck, base, State(), r, space, end, logtime);
      Store(p.state);
      rem, seg := p.remaining, p.seg;
    }

    /**
     * The first pass of ErrCaptureRec when record r does not fit: a FragBegin
     * piece and the head of the record fill the open segment, which is closed.
     * What is still owed afterwards is the FragContinue pieces of the rest.
     */
    method BeginPass(r: seq<byte>, space: nat, end: nat, logtime: seq<byte>) returns (rem: nat, seg: nat)
      requires Valid() && active && sealed < g.cSegmentsPerBuffer && Packable(g, r) && |logtime| == 8
      requires space == g.Payload() - |cur| && space < |r|
      modifies this`buf, this`ib, this`areas, this`sealed, this`cur
      ensures PassOk(g, ck, base, old(State()), PackRecord(g, old(cur), r), r, Pass(State(), rem, seg))
    {
      var p := BeginPassOf(g, ck, base, State(), r, space, end, logtime);
      Store(p.state);
      rem, seg := p.remaining, p.seg;
    }

    /**
     * A later pass of ErrCaptureRec, at the start of a fresh segment: the
     * next FragContinue piece of the `remaining` bytes of r still owed.
     */
    method ContinuePass(r: seq<byte>, remaining: nat, space: nat, end: nat, logtime: seq<byte>) returns (rem: nat, seg: nat)
      requires Valid() && active && sealed < g.cSegmentsPerBuffer && Packable(g, r) && |logtime| == 8
      requires 0 < remaining <= |r| && cur == [] && space == g.Payload() - |cur| && end == base + |areas|
      modifies this`buf, this`ib, this`areas, this`sealed, this`cur
      ensures PassOk(g, ck, base, old(State()), PackContinue(g, r, |r| - remaining), r, Pass(State(), rem, seg))
      ensures rem < remaining
    {
      var p := ContinuePassOf(g, ck, base, State(), r, remaining, space, end, logtime);
      Store(p.state);
      rem, seg := p.remaining, p.seg;
    }

    /**
     * The head of each ErrCaptureRec pass: with no active buffer, or a full
     * one, queue it and allocate a fresh one (ErrQueueCurrentAndAllocBuffer).
     * The record areas are untouched; a full buffer had no open area.
     */
    method EnsureActive() returns (err: Code)
      requires Valid()
      modifies this
      ensures Valid() && (err == Success || err == OutOfRBSSpace)
      ensures err == Success ==> active && ib < g.BufferSize() && areas == old(areas) && cur == old(cur)
      ensures err == OutOfRBSSpace ==> !active && nextActive > g.cSegmentMax
      ensures |old(queue)| <= |queue| && queue[..|old(queue)|] == old(queue)
      ensures file == old(file) && nextWrite == old(nextWrite) && nextFlush == old(nextFlush) && logicalSize == old(logicalSize)
    {
      if !active || ib >= g.BufferSize() {
        if active {
          FullBuffer(g, ck, base, State());
        }
        BufferSizeSegments(g);
        err := QueueCurrentAndAllocBuffer();
      } else {
        err := Success;
      }
    }

    /**
     * One pass of the ErrCaptureRec loop over record r, in an active buffer
     * with a segment left: the first pass, or a later one over the
     * `remaining` bytes still owed. Returns how many bytes are still owed and
     * the segment the pass ended in.
     */
    method CapturePass(r: seq<byte>, first: bool, remaining: nat, logtime: seq<byte>) returns (rem: nat, seg: nat)
      requires Valid() && active && ib < g.BufferSize() && Packable(g, r) && |logtime| == 8 && remaining <= |r|
      requires first ==> remaining == |r|
      requires !first ==> remaining > 0 && cur == []
      modifies this`buf, this`ib, this`areas, this`sealed, this`cur
      ensures PassOk(g, ck, base, old(State()), Remaining(g, old(cur), r, first, remaining), r, Pass(State(), rem, seg))
      ensures !first ==> rem < remaining
    {
      NotFull(g, ck, base, State());
      var space := g.cbSegment - ib % g.cbSegment;
      PassStart(g, ck, base, State(), space);
      var end := start + (ib + space) / g.cbSegment - 1;
      if first {
        if space >= remaining {
          rem, seg := FitPass(r, space, end, logtime);
        } else {
          rem, seg := BeginPass(r, space, end, logtime);
        }
      } else {
        rem, seg := ContinuePass(r, remaining, space, end, logtime);
      }
    }

    /**
     * ErrCaptureRec: lay record r out in the active buffer, in place when the
     * open segment has room for it, otherwise as a FragBegin piece filling the
     * segment and FragContinue pieces at the start of fresh segments; a
     * segment left with less than a FragBegin header of space is closed.
     * Returns the segment that holds the record's end. On success the sealed
     * areas grow by exactly what RbsFormat.PackRecord lays out; on
     * JET_errOutOfRBSSpace the active buffer is gone.
     */
    method CaptureRec(r: seq<byte>, logtime: seq<byte>) returns (err: Code, pos: RbsGen.RbsPos)
      requires Valid() && Packable(g, r) && |logtime| == 8
      modifies this
      ensures Valid()
      ensures err == Success || err == OutOfRBSSpace
      ensures err == Success ==>
        var p := PackRecord(g, old(cur), r);
        && areas == old(areas) + p.closed && cur == p.open
        && pos == RbsGen.RbsPos(base + |areas| - (if cur == [] then 1 else 0), generation)
      ensures err == OutOfRBSSpace ==> !active && nextActive > g.cSegmentMax
      ensures |old(queue)| <= |queue| && queue[..|old(queue)|] == old(queue)
      ensures file == old(file) && nextWrite == old(nextWrite) && nextFlush == old(nextFlush) && logicalSize == old(logicalSize)
    {
      ghost var p0 := State();
      ghost var p := PackRecord(g, cur, r);
      ghost var areas0 := areas;
      ghost var queue0 := queue;
      var remaining: nat := |r|;
      var first := true;
      pos := RbsGen.RbsPos(0, generation);
      while first || remaining > 0
        invariant Valid() && remaining <= |r|
        invariant first ==> remaining == |r| && cur == p0.cur && areas == areas0
        invariant !first && remaining > 0 ==> cur == []
        invariant !first ==> areas0 + p.closed == areas + Remaining(g, cur, r, false, remaining).closed
        invariant !first ==> p.open == Remaining(g, cur, r, false, remaining).open
        invariant !first && remaining == 0 ==> pos == RbsGen.RbsPos(base + |areas| - (if cur == [] then 1 else 0), generation)
        invariant |queue0| <= |queue| && queue[..|queue0|] == queue0
        invariant file == old(file) && nextWrite == old(nextWrite) && nextFlush == old(nextFlush) && logicalSize == old(logicalSize)
        decreases remaining + (if first then 1 else 0)
      {
        err := EnsureActive();
        if err != Success {
          return;
        }
        var seg: nat;
        remaining, seg := CapturePass(r, first, remaining, logtime);
        first := false;
        if remaining == 0 {
          pos := RbsGen.RbsPos(seg, generation);
        }
      }
      err := Success;
    }

    /**
     * One iteration of the ErrWriteBuffers loop: the head of the queue is
     * written at the file offset of its first segment, leaves the queue, and
     * the write watermark moves past its segments.
     */
    method WriteHead()
      requires Valid() && queue != []
      modifies this`file, this`queue, this`nextWrite
      ensures Valid()
      ensures file == Write(g, old(file), old(queue[0])) && queue == old(queue[1..])
      ensures nextWrite == old(nextWrite) + old(|queue[0].data|) / g.cbSegment
    {
      ghost var s := State();
      WriteHeadKeeps(g, ck, base, s);
      var b := queue[0];
      file := Write(g, file, b);
      queue := queue[1..];
      nextWrite := nextWrite + |b.data| / g.cbSegment;
      assert State() == s.(file := file, queue := queue, nextWrite := nextWrite);
    }

    /**
     * ErrWriteBuffers: write every queued buffer in order, then flush when
     * the ULONG difference of the flush and write watermarks reaches two
     * buffers' worth of segments. The write watermark catches up with the
     * active one.
     */
    method WriteBuffers()
      requires Valid()
      modifies this`file, this`queue, this`nextWrite, this`nextFlush, this`logicalSize
      ensures Valid() && queue == [] && nextWrite == nextActive
      ensures file == WriteAll(g, old(file), old(queue))
      ensures FlushDue(g, old(nextFlush), nextWrite) ==> nextFlush == nextWrite && logicalSize == SegmentStart(g, nextWrite)
      ensures !FlushDue(g, old(nextFlush), nextWrite) ==> nextFlush == old(nextFlush) && logicalSize == old(logicalSize)
    {
      while queue != []
        invariant Valid()
        invariant WriteAll(g, file, queue) == WriteAll(g, old(file), old(queue))
        invariant nextFlush == old(nextFlush) && logicalSize == old(logicalSize)
        decreases |queue|
      {
        WriteHead();
      }
      if FlushDue(g, nextFlush, nextWrite) {
        Flush();
      }
    }

    /**
     * ErrFlush: when segments were written past the flush watermark, the
     * header's logical file size becomes the write watermark's file offset
     * and the flush watermark catches up with the write watermark.
     */
    method Flush()
      requires Valid()
      modifies this`nextFlush, this`logicalSize
      ensures Valid() && nextFlush == nextWrite
      ensures old(nextFlush) < nextWrite ==> logicalSize == SegmentStart(g, nextWrite)
      ensures old(nextFlush) == nextWrite ==> logicalSize == old(logicalSize)
    {
      if nextFlush < nextWrite {
        ghost var s := State();
        FlushKeeps(g, ck, base, s);
        SegmentStartIsProduct(g, nextWrite);
        logicalSize := SegmentStart(g, nextWrite);
        nextFlush := nextWrite;
        assert State() == s.(logicalSize := s.nextWrite * g.cbSegment, nextFlush := s.nextWrite);
      }
    }

    /**
     * ErrFlushAll queueing the active buffer, all of whose segments are
     * sealed: its `valid` bytes join the tail of the queue, the active
     * watermark moves past them and there is no active buffer any more.
     */
    method QueueActive(valid: nat)
      requires Valid() && active && cur == [] && valid == ib - g.cbSegHdr
      modifies this`queue, this`nextActive, this`active, this`sealed
      ensures Valid() && !active && sealed == 0
      ensures valid == SegmentStart(g, old(sealed)) && valid <= |buf|
      ensures queue == old(queue) + [Buffer(start, buf[..valid])] && nextActive == old(nextActive) + old(sealed)
    {
      ghost var s := State();
      QueueActiveKeeps(g, ck, base, s, valid);
      queue := queue + [Buffer(start, buf[..valid])];
      nextActive := nextActive + valid / g.cbSegment;
      active := false;
      sealed := 0;
      assert State() == s.(queue := s.queue + [Buffer(s.start, s.buf[..valid])],
                           nextActive := s.nextActive + valid / g.cbSegment, active := false, sealed := 0);
    }

    /**
     * ErrFlushAll's treatment of the open segment: when m_ibNextRecord is
     * past the segment header, the rest of the segment is zero-filled and the
     * segment sealed.
     */
    method SealOpen(logtime: seq<byte>)
      requires Valid() && active && |logtime| == 8
      modifies this`buf, this`ib, this`areas, this`sealed, this`cur
      ensures Valid() && cur == [] && areas == old(areas) + CloseOpen(g, old(cur))
      ensures ib == g.cbSegHdr + SegmentStart(g, sealed)
    {
      FlushOffset(g, ck, base, State());
      var off := ib % g.cbSegment;
      if off != g.cbSegHdr {
        assert CloseOpen(g, cur) == [cur + Zeros(g.cbSegment - off)];
        CloseSegment(g.cbSegment - off, logtime);
      }
    }

    /**
     * The first half of ErrFlushAll: an open segment is zero-filled and
     * sealed, and the active buffer is queued when it has a sealed segment.
     * Afterwards no record area is open.
     */
    method RetireActive(logtime: seq<byte>)
      requires Valid() && |logtime| == 8
      modifies this
      ensures Valid() && sealed == 0 && cur == []
      ensures areas == old(areas) + CloseOpen(g, old(cur))
      ensures nextWrite == old(nextWrite) && nextFlush == old(nextFlush) && logicalSize == old(logicalSize)
    {
      if active {
        SealOpen(logtime);
        var valid := ib - g.cbSegHdr;
        if valid > 0 {
          QueueActive(valid);
        } else {
          QueueActiveKeeps(g, ck, base, State(), valid);
        }
      }
    }

    /**
     * ErrFlushAll: retire the active buffer, then write everything and
     * flush. Every record captured so far is then in a sealed segment of the
     * file below the flush watermark.
     */
    method FlushAll(logtime: seq<byte>)
      requires Valid() && |logtime| == 8
      modifies this
      ensures Valid() && queue == [] && sealed == 0 && cur == []
      ensures areas == old(areas) + CloseOpen(g, old(cur))
      ensures nextFlush == nextWrite == nextActive && |areas| == nextFlush - base
      ensures old(nextFlush) < nextWrite ==> logicalSize == SegmentStart(g, nextWrite)
      ensures old(nextFlush) == nextWrite ==> logicalSize == old(logicalSize)
    {
      RetireActive(logtime);
      WriteBuffers();
      Flush();
    }
  }
}
