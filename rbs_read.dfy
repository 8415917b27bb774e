// The record reader of an RBS generation file, CRevertSnapshot::ErrGetNextRecord
// (dev/ese/src/ese/revertsnapshot.cxx:2111-2288), stated over the segments of
// the file. A cursor names a segment and an offset in it; offset 0 means the
// segment header has not been checked yet. One call skips NOP padding at the
// cursor, then runs the loop of Step until a whole record has been found, the
// file ends or a segment turns out to be corrupt.
module RbsRead {
  import opened Bytes
  import opened RbsFormat

  datatype Cursor = Cursor(seg: nat, off: nat)

  /** The reasons ErrGetNextRecord reports with JET_errRBSFileCorrupt. */
  datatype Corruption =
    | BadChecksum
    | BadSegmentNumber
    | RecordTooLong
    | FragBeginTooLong
    | FragContinueTooLong
    | UnknownRecType

  /**
   * The result of one call: a record (its bytes, its type byte and the segment
   * reported as its start), JET_wrnNoMoreRecords, or JET_errRBSFileCorrupt.
   */
  datatype Outcome =
    | Record(rec: seq<byte>, recType: byte, start: nat)
    | NoMoreRecords
    | FileCorrupt(reason: Corruption)

  datatype ReadResult = ReadResult(outcome: Outcome, next: Cursor)

  /**
   * The reassembly state of one call: whether a record start has been seen
   * (fValidRecFound), the bytes assembled so far, the bytes still owed
   * (cbRemaining) and the start segment to report.
   */
  datatype Assembly = Assembly(found: bool, data: seq<byte>, remaining: nat, start: nat)

  const NoAssembly := Assembly(false, [], 0, 0)

  datatype Iteration = Done(outcome: Outcome, next: Cursor) | Again(next: Cursor, asm: Assembly)

  /** Segments of the file as loaded, each of the segment size; segment 0 is the header region. */
  predicate Image(g: Geometry, segs: seq<seq<byte>>)
  {
    forall i :: 0 <= i < |segs| ==> |segs[i]| == g.cbSegment
  }

  /** A cursor the reader can stand on: inside a loaded segment, or at the start of one past the end. */
  predicate InImage(g: Geometry, segs: seq<seq<byte>>, c: Cursor)
  {
    c.off < g.cbSegment && (c.seg < |segs| || c.off == 0)
  }

  /** Moving past a piece of len bytes at offset o of segment k. */
  function Advance(g: Geometry, k: nat, o: nat, len: nat): (c: Cursor)
    requires o + len <= g.cbSegment
    ensures c.off < g.cbSegment || g.cbSegment == 0
  {
    if o + len == g.cbSegment then Cursor(k + 1, 0) else Cursor(k, o + len)
  }

  /** Handing back a whole record, unless its type is not one the reader knows. */
  function Finish(g: Geometry, t: byte, rec: seq<byte>, start: nat, next: Cursor): Iteration
  {
    if t as nat >= g.typeMax then Done(FileCorrupt(UnknownRecType), next)
    else Done(Record(rec, t, start), next)
  }

  /** The loop condition: go on while bytes are owed or no record start has been seen. */
  function Continue(g: Geometry, next: Cursor, a: Assembly): Iteration
  {
    if a.found && a.remaining == 0 then Finish(g, ByteAt(a.data, 0), a.data, a.start, next)
    else Again(next, a)
  }

  /**
   * One iteration of the do-while loop of ErrGetNextRecord. At the start of a
   * segment: the end of the file, then the checksum and the ordinal; then the
   * record after the segment header. rejectShortOrphan selects what a
   * FragContinue shorter than its own header does when no FragBegin has been
   * seen: false is the code as written (it is skipped), true the corrected reader
   * (it is corrupt).
   */
  function StepWith(g: Geometry, ck: Checksum, segs: seq<seq<byte>>, c: Cursor, a: Assembly, rejectShortOrphan: bool): (r: Iteration)
    requires g.Valid() && Image(g, segs) && InImage(g, segs, c)
  {
    if c.off == 0 && c.seg >= |segs| then Done(NoMoreRecords, c)
    else
      var s := segs[c.seg];
      if c.off == 0 && !ChecksumOk(ck, s, c.seg) then Done(FileCorrupt(BadChecksum), c)
      else if c.off == 0 && !OrdinalOk(s, c.seg) then Done(FileCorrupt(BadSegmentNumber), c)
      else RecordStep(g, s, c.seg, if c.off == 0 then g.cbSegHdr else c.off, a, rejectShortOrphan)
  }

  /**
   * The record at offset o of segment s (ordinal k): its length must stay
   * within the segment, a FragBegin must leave bytes owed, a FragContinue must
   * not bring more than is owed, and any other type is a whole record in place.
   */
  function RecordStep(g: Geometry, s: seq<byte>, k: nat, o: nat, a: Assembly, rejectShortOrphan: bool): (r: Iteration)
    requires g.Valid() && |s| == g.cbSegment && o < |s|
  {
    var at := Cursor(k, o);
    var t := s[o];
    var len := U16At(s, o + 1);
    if len + o > g.cbSegment then Done(FileCorrupt(RecordTooLong), at)
    else if t == g.typeFragBegin then
      var total := U16At(s, o + 3);
      if len < g.cbFragBegin || total <= len - g.cbFragBegin then Done(FileCorrupt(FragBeginTooLong), at)
      else
        var start := if o + g.cbFragBegin == g.cbSegment then k + 1 else k;
        Continue(g, Advance(g, k, o, len),
          Assembly(true, s[o + g.cbFragBegin..o + len], total - (len - g.cbFragBegin), start))
    else if t == g.typeFragContinue then
      if !a.found then
        if rejectShortOrphan && len < g.cbFragContinue then Done(FileCorrupt(FragContinueTooLong), at)
        else Again(Advance(g, k, o, len), a)
      else if len < g.cbFragContinue || a.remaining < len - g.cbFragContinue then Done(FileCorrupt(FragContinueTooLong), at)
      else
        Continue(g, Advance(g, k, o, len),
          a.(data := a.data + s[o + g.cbFragContinue..o + len], remaining := a.remaining - (len - g.cbFragContinue)))
    else Finish(g, t, s[o..o + len], k, Advance(g, k, o, len))
  }

  /** The loop iteration as the source is written. */
  function StepAsWritten(g: Geometry, ck: Checksum, segs: seq<seq<byte>>, c: Cursor, a: Assembly): Iteration
    requires g.Valid() && Image(g, segs) && InImage(g, segs, c)
  {
    StepWith(g, ck, segs, c, a, false)
  }

  /** How far the cursor is from the end of the file, segment by segment. */
  function Rank(segs: seq<seq<byte>>, c: Cursor): nat
  {
    if c.seg < |segs| then |segs| - c.seg else 0
  }

  /**
   * The loop iteration of the corrected reader. Every iteration that does not
   * finish moves the cursor forward, and every cursor it returns can be read
   * from again.
   */
  function Step(g: Geometry, ck: Checksum, segs: seq<seq<byte>>, c: Cursor, a: Assembly): (r: Iteration)
    requires g.Valid() && Image(g, segs) && InImage(g, segs, c)
    ensures InImage(g, segs, r.next)
    ensures r.Again? ==> Rank(segs, r.next) < Rank(segs, c) || (Rank(segs, r.next) == Rank(segs, c) && r.next.off > c.off)
  {
    StepWith(g, ck, segs, c, a, true)
  }

  /** The do-while loop of the corrected reader. */
  function ReadLoop(g: Geometry, ck: Checksum, segs: seq<seq<byte>>, c: Cursor, a: Assembly): (r: ReadResult)
    requires g.Valid() && Image(g, segs) && InImage(g, segs, c)
    ensures InImage(g, segs, r.next)
    decreases Rank(segs, c), g.cbSegment - c.off
  {
    match Step(g, ck, segs, c, a)
    case Done(outcome, next) => ReadResult(outcome, next)
    case Again(next, a') => ReadLoop(g, ck, segs, next, a')
  }

  /** The NOP skip on entry: a zero type byte inside a segment means the rest of the segment is padding. */
  function SkipNop(g: Geometry, segs: seq<seq<byte>>, c: Cursor): (d: Cursor)
    requires Image(g, segs) && InImage(g, segs, c)
    ensures InImage(g, segs, d)
  {
    if c.off != 0 && segs[c.seg][c.off] == TypeNop then Cursor(c.seg + 1, 0) else c
  }

  /** One call of ErrGetNextRecord on a fresh reassembly state. */
  function ReadNext(g: Geometry, ck: Checksum, segs: seq<seq<byte>>, c: Cursor): (r: ReadResult)
    requires g.Valid() && Image(g, segs) && InImage(g, segs, c)
    ensures InImage(g, segs, r.next)
  {
    ReadLoop(g, ck, segs, SkipNop(g, segs, c), NoAssembly)
  }

  /** The outcomes of n calls in a row, each starting where the previous one stopped. */
  function ReadMany(g: Geometry, ck: Checksum, segs: seq<seq<byte>>, c: Cursor, n: nat): (r: seq<Outcome>)
    requires g.Valid() && Image(g, segs) && InImage(g, segs, c)
    ensures |r| == n
    decreases n
  {
    if n == 0 then []
    else
      var first := ReadNext(g, ck, segs, c);
      [first.outcome] + ReadMany(g, ck, segs, first.next, n - 1)
  }

  /** The reader never hands back a record whose type is rbsrectypeMax or above. */
  lemma {:induction false} ReadLoopKnownType(g: Geometry, ck: Checksum, segs: seq<seq<byte>>, c: Cursor, a: Assembly)
    requires g.Valid() && Image(g, segs) && InImage(g, segs, c)
    ensures var r := ReadLoop(g, ck, segs, c, a);
      r.outcome.Record? ==> (r.outcome.recType as nat) < g.typeMax
    decreases Rank(segs, c), g.cbSegment - c.off
  {
    var st := Step(g, ck, segs, c, a);
    if st.Again? {
      ReadLoopKnownType(g, ck, segs, st.next, st.asm);
    }
  }

  /** NoMoreRecords is reported only at the start of a segment at or past the end of the file. */
  lemma {:induction false} ReadLoopEnd(g: Geometry, ck: Checksum, segs: seq<seq<byte>>, c: Cursor, a: Assembly)
    requires g.Valid() && Image(g, segs) && InImage(g, segs, c)
    ensures var r := ReadLoop(g, ck, segs, c, a);
      r.outcome.NoMoreRecords? ==> r.next.off == 0 && r.next.seg >= |segs|
    decreases Rank(segs, c), g.cbSegment - c.off
  {
    var st := Step(g, ck, segs, c, a);
    if st.Again? {
      ReadLoopEnd(g, ck, segs, st.next, st.asm);
    }
  }

  /**
   * A call that starts at the start of a loaded segment whose checksum or
   * ordinal is wrong reports the file corrupt, with that reason.
   */
  lemma ReadNextBadHeader(g: Geometry, ck: Checksum, segs: seq<seq<byte>>, k: nat)
    requires g.Valid() && Image(g, segs) && k < |segs|
    ensures var r := ReadNext(g, ck, segs, Cursor(k, 0));
      && (!ChecksumOk(ck, segs[k], k) ==> r.outcome == FileCorrupt(BadChecksum))
      && (ChecksumOk(ck, segs[k], k) && !OrdinalOk(segs[k], k) ==> r.outcome == FileCorrupt(BadSegmentNumber))
  {
  }

  /**
   * A call at a cursor inside a segment whose record claims more bytes than
   * the segment has left reports RecordTooLong (when the byte at the cursor
   * is not a NOP).
   */
  lemma ReadNextTooLong(g: Geometry, ck: Checksum, segs: seq<seq<byte>>, c: Cursor)
    requires g.Valid() && Image(g, segs) && InImage(g, segs, c) && c.off != 0 && c.seg < |segs|
    requires segs[c.seg][c.off] != TypeNop
    requires U16At(segs[c.seg], c.off + 1) + c.off > g.cbSegment
    ensures ReadNext(g, ck, segs, c).outcome == FileCorrupt(RecordTooLong)
  {
  }

  /**
   * The code as written: a FragContinue of length 0 met before any FragBegin
   * leaves the cursor and the reassembly state exactly as they were, so the
   * loop runs the same iteration again forever.
   */
  lemma OrphanEmptyContinueRepeats(g: Geometry, ck: Checksum, segs: seq<seq<byte>>, c: Cursor, a: Assembly)
    requires g.Valid() && Image(g, segs) && InImage(g, segs, c) && c.off != 0 && c.seg < |segs|
    requires !a.found && segs[c.seg][c.off] == g.typeFragContinue && U16At(segs[c.seg], c.off + 1) == 0
    ensures StepAsWritten(g, ck, segs, c, a) == Again(c, a)
    ensures Step(g, ck, segs, c, a) == Done(FileCorrupt(FragContinueTooLong), c)
  {
  }

  /** Iterating the as-written loop body n times from such a state. */
  function IterateAsWritten(g: Geometry, ck: Checksum, segs: seq<seq<byte>>, c: Cursor, a: Assembly, n: nat): Iteration
    requires g.Valid() && Image(g, segs) && InImage(g, segs, c)
    decreases n
  {
    var st := StepAsWritten(g, ck, segs, c, a);
    if n == 0 || st.Done? || !InImage(g, segs, st.next) then st
    else IterateAsWritten(g, ck, segs, st.next, st.asm, n - 1)
  }

  /** However many iterations run, the as-written loop never finishes on such a state. */
  lemma {:induction false} OrphanEmptyContinueNeverFinishes(g: Geometry, ck: Checksum, segs: seq<seq<byte>>, c: Cursor, a: Assembly, n: nat)
    requires g.Valid() && Image(g, segs) && InImage(g, segs, c) && c.off != 0 && c.seg < |segs|
    requires !a.found && segs[c.seg][c.off] == g.typeFragContinue && U16At(segs[c.seg], c.off + 1) == 0
    ensures IterateAsWritten(g, ck, segs, c, a, n) == Again(c, a)
    decreases n
  {
    OrphanEmptyContinueRepeats(g, ck, segs, c, a);
    if n > 0 {
      OrphanEmptyContinueNeverFinishes(g, ck, segs, c, a, n - 1);
    }
  }
}
