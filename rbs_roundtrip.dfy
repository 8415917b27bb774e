// Capture/read round trip: the segments that ErrCaptureRec and ErrFlushAll
// produce (RbsFormat.PackAll, then the final close) are read back by
// ErrGetNextRecord (RbsRead.ReadNext) as exactly the captured records, in order,
// wherever the segment boundaries fall, followed by JET_wrnNoMoreRecords.
module RbsRoundTrip {
  import opened Bytes
  import opened RbsFormat
  import opened RbsRead

  /**
   * A record as callers hand it to ErrCaptureRec: at least the type byte and
   * the USHORT length, a length field equal to its size, and a type that is
   * neither NOP nor a fragment type and is below rbsrectypeMax.
   */
  predicate RecordOk(g: Geometry, r: seq<byte>)
  {
    && Packable(g, r) && |r| >= 3 && U16At(r, 1) == |r|
    && r[0] != TypeNop && r[0] != g.typeFragBegin && r[0] != g.typeFragContinue
    && (r[0] as nat) < g.typeMax
  }

  /** Segment k of the image is finished with ordinal k and its record area begins with x. */
  predicate Carries(g: Geometry, ck: Checksum, segs: seq<seq<byte>>, k: nat, x: seq<byte>)
    requires g.Valid()
  {
    && k < |segs| && SegmentOk(g, ck, segs[k], k) && |x| <= g.Payload()
    && segs[k][g.cbSegHdr..g.cbSegHdr + |x|] == x
  }

  /** The image holds the closed segments of p from segment k on, and the open one after them. */
  predicate Holds(g: Geometry, ck: Checksum, segs: seq<seq<byte>>, k: nat, p: Packed)
    requires g.Valid()
  {
    && (forall j :: 0 <= j < |p.closed| ==> CarriesAt(g, ck, segs, k, p.closed, j))
    && (p.open != [] ==> Carries(g, ck, segs, k + |p.closed|, p.open))
  }

  /** Area j of xs is carried by segment k + j. */
  predicate CarriesAt(g: Geometry, ck: Checksum, segs: seq<seq<byte>>, k: nat, xs: seq<seq<byte>>, j: nat)
    requires g.Valid()
  {
    j < |xs| && Carries(g, ck, segs, k + j, xs[j])
  }

  /** Where a reader stands once it has read everything the writer put in the open segment k. */
  function WriterCursor(g: Geometry, k: nat, cur: seq<byte>): Cursor
  {
    if cur == [] then Cursor(k, 0) else Cursor(k, g.cbSegHdr + |cur|)
  }

  /** The rest of a call of ErrGetNextRecord from cursor c with the reassembly state a. */
  function Resume(g: Geometry, ck: Checksum, segs: seq<seq<byte>>, c: Cursor, a: Assembly): ReadResult
    requires g.Valid() && Image(g, segs) && InImage(g, segs, c)
  {
    ReadLoop(g, ck, segs, c, a)
  }

  lemma CarriesByte(g: Geometry, ck: Checksum, segs: seq<seq<byte>>, k: nat, x: seq<byte>, i: nat)
    requires g.Valid() && Carries(g, ck, segs, k, x) && i < |x|
    ensures segs[k][g.cbSegHdr + i] == x[i]
  {
    assert segs[k][g.cbSegHdr..g.cbSegHdr + |x|][i] == x[i];
  }

  lemma CarriesSlice(g: Geometry, ck: Checksum, segs: seq<seq<byte>>, k: nat, x: seq<byte>, i: nat, j: nat)
    requires g.Valid() && Carries(g, ck, segs, k, x) && i <= j <= |x|
    ensures segs[k][g.cbSegHdr + i..g.cbSegHdr + j] == x[i..j]
  {
    var H := g.cbSegHdr;
    forall t | 0 <= t < j - i ensures segs[k][H + i..H + j][t] == x[i..j][t] {
      CarriesByte(g, ck, segs, k, x, i + t);
    }
  }

  lemma CarriesPrefix(g: Geometry, ck: Checksum, segs: seq<seq<byte>>, k: nat, x: seq<byte>, y: seq<byte>)
    requires g.Valid() && Carries(g, ck, segs, k, x) && |y| <= |x| && x[..|y|] == y
    ensures Carries(g, ck, segs, k, y)
  {
    CarriesSlice(g, ck, segs, k, x, 0, |y|);
  }

  /** A USHORT field read from the segment is the one the carried bytes hold. */
  lemma CarriesU16(g: Geometry, ck: Checksum, segs: seq<seq<byte>>, k: nat, x: seq<byte>, i: nat)
    requires g.Valid() && Carries(g, ck, segs, k, x) && i + 2 <= |x|
    ensures U16At(segs[k], g.cbSegHdr + i) == U16At(x, i)
  {
    CarriesByte(g, ck, segs, k, x, i);
    CarriesByte(g, ck, segs, k, x, i + 1);
  }

  lemma U16OfLE(x: seq<byte>, i: nat, v: nat)
    requires v < 0x1_0000 && i + 2 <= |x| && x[i..i + 2] == LE(v, 2)
    ensures U16At(x, i) == v
  {
    Pow256Widths();
    U16AtLE(v, x, i);
  }

  /** The first record area of a packing starts with the open segment it began from. */
  lemma PackRecordPrefix(g: Geometry, cur: seq<byte>, r: seq<byte>)
    requires g.Valid() && OpenOk(g, cur) && Packable(g, r)
    ensures var p := PackRecord(g, cur, r);
      var x := if p.closed != [] then p.closed[0] else p.open;
      |cur| <= |x| && x[..|cur|] == cur
  {
  }

  /** The record areas a generation leaves: the records rs packed after cur, then the open segment closed. */
  function Areas(g: Geometry, cur: seq<byte>, rs: seq<seq<byte>>): seq<seq<byte>>
    requires g.Valid() && OpenOk(g, cur)
    requires forall i :: 0 <= i < |rs| ==> Packable(g, rs[i])
  {
    var pa := PackAll(g, cur, rs);
    pa.closed + CloseOpen(g, pa.open)
  }

  lemma {:induction false} PackAllPrefix(g: Geometry, cur: seq<byte>, rs: seq<seq<byte>>)
    requires g.Valid() && OpenOk(g, cur)
    requires forall i :: 0 <= i < |rs| ==> Packable(g, rs[i])
    ensures var f := Areas(g, cur, rs);
      cur != [] ==> |f| > 0 && |cur| <= |f[0]| && f[0][..|cur|] == cur
    decreases |rs|
  {
    if rs != [] {
      var p := PackRecord(g, cur, rs[0]);
      PackedShape(g, cur, rs[0]);
      PackRecordPrefix(g, cur, rs[0]);
      PackAllPrefix(g, p.open, rs[1..]);
    }
  }

  /** At a loaded segment whose header is right, a step is the step of the record at the cursor. */
  lemma StepAt(g: Geometry, ck: Checksum, segs: seq<seq<byte>>, c: Cursor, a: Assembly)
    requires g.Valid() && Image(g, segs) && InImage(g, segs, c) && c.seg < |segs|
    requires c.off == 0 ==> SegmentOk(g, ck, segs[c.seg], c.seg)
    ensures Step(g, ck, segs, c, a)
      == RecordStep(g, segs[c.seg], c.seg, if c.off == 0 then g.cbSegHdr else c.off, a, true)
  {
  }

  /** A loop iteration that goes on leaves the rest of the call to the next iteration. */
  lemma LoopTo(g: Geometry, ck: Checksum, segs: seq<seq<byte>>, c: Cursor, a: Assembly, next: Cursor, a': Assembly, x: ReadResult)
    requires g.Valid() && Image(g, segs) && InImage(g, segs, c)
    requires Step(g, ck, segs, c, a) == Again(next, a') && InImage(g, segs, next) && Resume(g, ck, segs, next, a') == x
    ensures Resume(g, ck, segs, c, a) == x
  {
  }

  /** A record in place is handed back whole. */
  lemma InPlaceStep(g: Geometry, s: seq<byte>, k: nat, o: nat, a: Assembly, r: seq<byte>)
    requires g.Valid() && |s| == g.cbSegment && o < |s| && o + |r| <= |s|
    requires RecordOk(g, r) && s[o..o + |r|] == r
    ensures RecordStep(g, s, k, o, a, true) == Done(Record(r, r[0], k), Advance(g, k, o, |r|))
  {
    assert s[o] == r[0] && s[o + 1] == r[1] && s[o + 2] == r[2];
    assert U16At(s, o + 1) == U16At(r, 1);
  }

  /** A FragBegin filling the rest of the segment starts an assembly. */
  lemma FragBeginStep(g: Geometry, s: seq<byte>, k: nat, o: nat, a: Assembly, total: nat)
    requires g.Valid() && |s| == g.cbSegment && o < |s|
    requires s[o] == g.typeFragBegin && o + g.cbFragBegin <= |s|
    requires U16At(s, o + 1) == |s| - o && U16At(s, o + 3) == total && total > |s| - o - g.cbFragBegin
    ensures RecordStep(g, s, k, o, a, true) == Again(Cursor(k + 1, 0),
      Assembly(true, s[o + g.cbFragBegin..], total - (|s| - o - g.cbFragBegin),
               if o + g.cbFragBegin == g.cbSegment then k + 1 else k))
  {
  }

  /** A FragContinue after the segment header adds its bytes to the assembly. */
  lemma ContinueStep(g: Geometry, s: seq<byte>, k: nat, a: Assembly, len: nat)
    requires g.Valid() && |s| == g.cbSegment && g.cbSegHdr < |s|
    requires s[g.cbSegHdr] == g.typeFragContinue && U16At(s, g.cbSegHdr + 1) == len
    requires g.cbFragContinue <= len && g.cbSegHdr + len <= |s|
    requires a.found && len - g.cbFragContinue <= a.remaining
    ensures RecordStep(g, s, k, g.cbSegHdr, a, true) == Continue(g, Advance(g, k, g.cbSegHdr, len),
      a.(data := a.data + s[g.cbSegHdr + g.cbFragContinue..g.cbSegHdr + len],
         remaining := a.remaining - (len - g.cbFragContinue)))
  {
  }

  /** A loop iteration that finishes is the result of the call. */
  lemma LoopDone(g: Geometry, ck: Checksum, segs: seq<seq<byte>>, c: Cursor, a: Assembly, o: Outcome, next: Cursor)
    requires g.Valid() && Image(g, segs) && InImage(g, segs, c)
    requires Step(g, ck, segs, c, a) == Done(o, next)
    ensures Resume(g, ck, segs, c, a) == ReadResult(o, next)
  {
  }

  /** The header fields and the data of the FragContinue piece that carries r[done..]. */
  lemma ContinuePieceFacts(g: Geometry, r: seq<byte>, done: nat)
    requires g.Valid() && done < |r|
    ensures var piece := ContinuePiece(g, r, done);
      var len := g.cbFragContinue + ContinueData(g, r, done);
      && len == Min(g.cbFragContinue + |r| - done, g.Payload())
      && piece[0] == g.typeFragContinue && U16At(piece, 1) == len
      && piece[g.cbFragContinue..] == r[done..done + ContinueData(g, r, done)]
  {
    var len := g.cbFragContinue + ContinueData(g, r, done);
    var piece := ContinuePiece(g, r, done);
    assert piece[1..3] == LE(len, 2);
    U16OfLE(piece, 1, len);
  }

  /** The FragContinue pieces of r[done..] as PackContinue lays them out. */
  function Pieces(g: Geometry, r: seq<byte>, done: nat): Packed
    requires g.Valid() && done < |r|
  {
    PackContinue(g, r, done)
  }

  /** The first piece of the continuation, and what follows it. */
  lemma PackContinueHead(g: Geometry, r: seq<byte>, done: nat)
    requires g.Valid() && done < |r|
    ensures var n := ContinueData(g, r, done);
      && (done + n == |r| ==> Pieces(g, r, done) == CloseIfShort(g, ContinuePiece(g, r, done)))
      && (done + n < |r| ==>
            && |ContinuePiece(g, r, done)| == g.Payload()
            && Pieces(g, r, done) == Packed([ContinuePiece(g, r, done)] + Pieces(g, r, done + n).closed,
                                                  Pieces(g, r, done + n).open))
  {
  }

  /** An image holding a packing whose first closed area is x holds x, and the rest after it. */
  lemma HoldsFirst(g: Geometry, ck: Checksum, segs: seq<seq<byte>>, k: nat, x: seq<byte>, rest: Packed)
    requires g.Valid() && Holds(g, ck, segs, k, Packed([x] + rest.closed, rest.open))
    ensures Carries(g, ck, segs, k, x) && Holds(g, ck, segs, k + 1, rest)
  {
    var p := Packed([x] + rest.closed, rest.open);
    assert CarriesAt(g, ck, segs, k, p.closed, 0);
    var k1 := k + 1;
    forall i | 0 <= i < |rest.closed| ensures CarriesAt(g, ck, segs, k1, rest.closed, i) {
      assert CarriesAt(g, ck, segs, k, p.closed, i + 1);
      assert p.closed[i + 1] == rest.closed[i];
    }
  }

  /** An image holding a last piece y, closed or left open, holds y. */
  lemma CloseIfShortCarries(g: Geometry, ck: Checksum, segs: seq<seq<byte>>, k: nat, y: seq<byte>)
    requires g.Valid() && 0 < |y| <= g.Payload()
    requires Holds(g, ck, segs, k, CloseIfShort(g, y))
    ensures Carries(g, ck, segs, k, y)
  {
    var p := CloseIfShort(g, y);
    if p.closed != [] {
      assert CarriesAt(g, ck, segs, k, p.closed, 0);
      assert p.closed[0][..|y|] == y;
      CarriesPrefix(g, ck, segs, k, p.closed[0], y);
    }
  }

  /**
   * An image holding a last piece y (closed or left open): y is there, and the
   * reader that has just read y stands, up to NOP padding, where the writer does.
   */
  lemma CloseIfShortEnd(g: Geometry, ck: Checksum, segs: seq<seq<byte>>, k: nat, y: seq<byte>)
    requires g.Valid() && Image(g, segs) && 0 < |y| <= g.Payload()
    requires Holds(g, ck, segs, k, CloseIfShort(g, y))
    ensures Carries(g, ck, segs, k, y)
    ensures var p := CloseIfShort(g, y);
      var d := Advance(g, k, 0, g.cbSegHdr + |y|);
      && InImage(g, segs, WriterCursor(g, k + |p.closed|, p.open)) && InImage(g, segs, d)
      && SkipNop(g, segs, d) == SkipNop(g, segs, WriterCursor(g, k + |p.closed|, p.open))
  {
    var p := CloseIfShort(g, y);
    if p.closed != [] {
      var x := p.closed[0];
      assert CarriesAt(g, ck, segs, k, p.closed, 0);
      assert x[..|y|] == y;
      CarriesPrefix(g, ck, segs, k, x, y);
      if g.cbSegHdr + |y| < g.cbSegment {
        CarriesByte(g, ck, segs, k, x, |y|);
      }
    }
  }

  /** The fields of the FragContinue piece of r[done..] as segment j holds them. */
  lemma PieceInSegment(g: Geometry, ck: Checksum, segs: seq<seq<byte>>, j: nat, r: seq<byte>, done: nat)
    requires g.Valid() && done < |r|
    requires Carries(g, ck, segs, j, ContinuePiece(g, r, done))
    ensures var H, FC, n := g.cbSegHdr, g.cbFragContinue, ContinueData(g, r, done);
      var s := segs[j];
      && SegmentOk(g, ck, s, j)
      && s[H] == g.typeFragContinue && U16At(s, H + 1) == FC + n
      && s[H + FC..H + FC + n] == r[done..done + n]
  {
    var FC, n := g.cbFragContinue, ContinueData(g, r, done);
    var piece := ContinuePiece(g, r, done);
    ContinuePieceFacts(g, r, done);
    CarriesByte(g, ck, segs, j, piece, 0);
    CarriesU16(g, ck, segs, j, piece, 1);
    CarriesSlice(g, ck, segs, j, piece, FC, FC + n);
  }

  /** The loop iteration at a segment whose first piece is that FragContinue. */
  lemma PieceStepAt(g: Geometry, ck: Checksum, segs: seq<seq<byte>>, j: nat, r: seq<byte>, done: nat, start: nat)
    requires g.Valid() && Image(g, segs) && done < |r| && j < |segs|
    requires var H, FC, n := g.cbSegHdr, g.cbFragContinue, ContinueData(g, r, done);
      var s := segs[j];
      && SegmentOk(g, ck, s, j)
      && s[H] == g.typeFragContinue && U16At(s, H + 1) == FC + n
      && s[H + FC..H + FC + n] == r[done..done + n]
    ensures var n := ContinueData(g, r, done);
      && InImage(g, segs, Cursor(j, 0))
      && Step(g, ck, segs, Cursor(j, 0), Assembly(true, r[..done], |r| - done, start))
         == Continue(g, Advance(g, j, g.cbSegHdr, g.cbFragContinue + n), Assembly(true, r[..done + n], |r| - (done + n), start))
  {
    var n := ContinueData(g, r, done);
    var a := Assembly(true, r[..done], |r| - done, start);
    StepAt(g, ck, segs, Cursor(j, 0), a);
    ContinueStep(g, segs[j], j, a, g.cbFragContinue + n);
    assert r[..done] + r[done..done + n] == r[..done + n];
  }

  /** Where the reader stops after the FragContinue pieces of r[done..], the first at segment j. */
  function ContinueEnd(g: Geometry, j: nat, r: seq<byte>, done: nat): Cursor
    requires g.Valid() && done < |r|
    decreases |r| - done
  {
    var n := ContinueData(g, r, done);
    if done + n == |r| then Advance(g, j, 0, g.cbSegHdr + g.cbFragContinue + n)
    else ContinueEnd(g, j + 1, r, done + n)
  }

  /** The last FragContinue piece of r completes the record. */
  lemma LastPieceStep(g: Geometry, ck: Checksum, segs: seq<seq<byte>>, j: nat, r: seq<byte>, done: nat, start: nat)
    requires g.Valid() && Image(g, segs) && RecordOk(g, r) && done < |r| && done + ContinueData(g, r, done) == |r|
    requires Carries(g, ck, segs, j, ContinuePiece(g, r, done))
    ensures InImage(g, segs, Cursor(j, 0))
    ensures Step(g, ck, segs, Cursor(j, 0), Assembly(true, r[..done], |r| - done, start))
      == Done(Record(r, r[0], start), ContinueEnd(g, j, r, done))
  {
    var n := ContinueData(g, r, done);
    PieceInSegment(g, ck, segs, j, r, done);
    PieceStepAt(g, ck, segs, j, r, done, start);
    assert r[..done + n] == r;
  }

  /** A FragContinue piece of r that is not the last fills its segment; the reader goes on at the next one. */
  lemma MiddlePieceStep(g: Geometry, ck: Checksum, segs: seq<seq<byte>>, j: nat, r: seq<byte>, done: nat, start: nat)
    requires g.Valid() && Image(g, segs) && done < |r| && done + ContinueData(g, r, done) < |r|
    requires Carries(g, ck, segs, j, ContinuePiece(g, r, done))
    ensures var n := ContinueData(g, r, done);
      && InImage(g, segs, Cursor(j, 0))
      && Step(g, ck, segs, Cursor(j, 0), Assembly(true, r[..done], |r| - done, start))
         == Again(Cursor(j + 1, 0), Assembly(true, r[..done + n], |r| - (done + n), start))
  {
    PieceInSegment(g, ck, segs, j, r, done);
    PieceStepAt(g, ck, segs, j, r, done, start);
  }

  /** An image holding the last piece of r holds it as the first area of segment j. */
  lemma LastPieceHeld(g: Geometry, ck: Checksum, segs: seq<seq<byte>>, j: nat, r: seq<byte>, done: nat)
    requires g.Valid() && done < |r| && done + ContinueData(g, r, done) == |r|
    requires Holds(g, ck, segs, j, Pieces(g, r, done))
    ensures Carries(g, ck, segs, j, ContinuePiece(g, r, done))
  {
    PackContinueHead(g, r, done);
    CloseIfShortCarries(g, ck, segs, j, ContinuePiece(g, r, done));
  }

  /** An image holding a middle piece of r holds it in segment j, and the rest of the pieces after it. */
  lemma MiddlePieceHeld(g: Geometry, ck: Checksum, segs: seq<seq<byte>>, j: nat, r: seq<byte>, done: nat)
    requires g.Valid() && done < |r| && done + ContinueData(g, r, done) < |r|
    requires Holds(g, ck, segs, j, Pieces(g, r, done))
    ensures Carries(g, ck, segs, j, ContinuePiece(g, r, done))
    ensures Holds(g, ck, segs, j + 1, Pieces(g, r, done + ContinueData(g, r, done)))
  {
    PackContinueHead(g, r, done);
    HoldsFirst(g, ck, segs, j, ContinuePiece(g, r, done), Pieces(g, r, done + ContinueData(g, r, done)));
  }

  /**
   * Reading the FragContinue pieces of r[done..]: starting at the start of
   * segment j with r[..done] assembled, the reader completes r.
   */
  lemma {:induction false} ReadContinue(g: Geometry, ck: Checksum, segs: seq<seq<byte>>, j: nat, r: seq<byte>, done: nat, start: nat)
    requires g.Valid() && Image(g, segs) && RecordOk(g, r) && done < |r|
    requires Holds(g, ck, segs, j, Pieces(g, r, done))
    ensures InImage(g, segs, Cursor(j, 0))
    ensures Resume(g, ck, segs, Cursor(j, 0), Assembly(true, r[..done], |r| - done, start))
      == ReadResult(Record(r, r[0], start), ContinueEnd(g, j, r, done))
    decreases |r| - done, 2
  {
    if done + ContinueData(g, r, done) == |r| {
      LastPieceHeld(g, ck, segs, j, r, done);
      LastPieceStep(g, ck, segs, j, r, done, start);
      LoopDone(g, ck, segs, Cursor(j, 0), Assembly(true, r[..done], |r| - done, start),
        Record(r, r[0], start), ContinueEnd(g, j, r, done));
    } else {
      ReadMiddle(g, ck, segs, j, r, done, start);
    }
  }

  /** ReadContinue when the piece at segment j is not the last. */
  lemma {:induction false} ReadMiddle(g: Geometry, ck: Checksum, segs: seq<seq<byte>>, j: nat, r: seq<byte>, done: nat, start: nat)
    requires g.Valid() && Image(g, segs) && RecordOk(g, r) && done < |r| && done + ContinueData(g, r, done) < |r|
    requires Holds(g, ck, segs, j, Pieces(g, r, done))
    ensures InImage(g, segs, Cursor(j, 0))
    ensures Resume(g, ck, segs, Cursor(j, 0), Assembly(true, r[..done], |r| - done, start))
      == ReadResult(Record(r, r[0], start), ContinueEnd(g, j, r, done))
    decreases |r| - done, 1
  {
    var n := ContinueData(g, r, done);
    assert ContinueEnd(g, j, r, done) == ContinueEnd(g, j + 1, r, done + n);
    MiddlePieceHeld(g, ck, segs, j, r, done);
    ReadContinue(g, ck, segs, j + 1, r, done + n, start);
    MiddlePieceLoop(g, ck, segs, j, r, done, start, ReadResult(Record(r, r[0], start), ContinueEnd(g, j + 1, r, done + n)));
  }

  /** After a middle piece the call goes on at the next segment with the piece's bytes added. */
  lemma MiddlePieceLoop(g: Geometry, ck: Checksum, segs: seq<seq<byte>>, j: nat, r: seq<byte>, done: nat, start: nat, x: ReadResult)
    requires g.Valid() && Image(g, segs) && done < |r| && done + ContinueData(g, r, done) < |r|
    requires Carries(g, ck, segs, j, ContinuePiece(g, r, done))
    requires var n := ContinueData(g, r, done);
      && InImage(g, segs, Cursor(j + 1, 0))
      && Resume(g, ck, segs, Cursor(j + 1, 0), Assembly(true, r[..done + n], |r| - (done + n), start)) == x
    ensures InImage(g, segs, Cursor(j, 0))
    ensures Resume(g, ck, segs, Cursor(j, 0), Assembly(true, r[..done], |r| - done, start)) == x
  {
    var n := ContinueData(g, r, done);
    MiddlePieceStep(g, ck, segs, j, r, done, start);
    LoopTo(g, ck, segs, Cursor(j, 0), Assembly(true, r[..done], |r| - done, start),
      Cursor(j + 1, 0), Assembly(true, r[..done + n], |r| - (done + n), start), x);
  }

  /** The reader is where the writer is, up to NOP padding. */
  predicate Meets(g: Geometry, segs: seq<seq<byte>>, e: Cursor, w: Cursor)
    requires Image(g, segs)
  {
    InImage(g, segs, e) && InImage(g, segs, w) && SkipNop(g, segs, e) == SkipNop(g, segs, w)
  }

  /** Where the writer stands once the packing p has been placed from segment k on. */
  function After(g: Geometry, k: nat, p: Packed): Cursor
  {
    WriterCursor(g, k + |p.closed|, p.open)
  }

  lemma LastPieceEnd(g: Geometry, ck: Checksum, segs: seq<seq<byte>>, j: nat, r: seq<byte>, done: nat)
    requires g.Valid() && Image(g, segs) && done < |r| && done + ContinueData(g, r, done) == |r|
    requires Holds(g, ck, segs, j, Pieces(g, r, done))
    ensures Meets(g, segs, ContinueEnd(g, j, r, done), After(g, j, Pieces(g, r, done)))
  {
    var piece := ContinuePiece(g, r, done);
    PackContinueHead(g, r, done);
    CloseIfShortEnd(g, ck, segs, j, piece);
    assert ContinueEnd(g, j, r, done) == Advance(g, j, 0, g.cbSegHdr + |piece|);
  }

  lemma MiddlePieceEnd(g: Geometry, segs: seq<seq<byte>>, j: nat, r: seq<byte>, done: nat)
    requires g.Valid() && Image(g, segs) && done < |r|
    requires var n := ContinueData(g, r, done);
      && done + n < |r|
      && Meets(g, segs, ContinueEnd(g, j + 1, r, done + n), After(g, j + 1, Pieces(g, r, done + n)))
    ensures Meets(g, segs, ContinueEnd(g, j, r, done), After(g, j, Pieces(g, r, done)))
  {
    PackContinueHead(g, r, done);
  }

  /** Where the reader stops after the pieces of r[done..] is, up to NOP padding, where the writer stands. */
  lemma {:induction false} ContinueEndAtWriter(g: Geometry, ck: Checksum, segs: seq<seq<byte>>, j: nat, r: seq<byte>, done: nat)
    requires g.Valid() && Image(g, segs) && done < |r|
    requires Holds(g, ck, segs, j, Pieces(g, r, done))
    ensures Meets(g, segs, ContinueEnd(g, j, r, done), After(g, j, Pieces(g, r, done)))
    decreases |r| - done
  {
    var n := ContinueData(g, r, done);
    if done + n == |r| {
      LastPieceEnd(g, ck, segs, j, r, done);
    } else {
      PackContinueHead(g, r, done);
      HoldsFirst(g, ck, segs, j, ContinuePiece(g, r, done), Pieces(g, r, done + n));
      ContinueEndAtWriter(g, ck, segs, j + 1, r, done + n);
      MiddlePieceEnd(g, segs, j, r, done);
    }
  }

  /** The first record area of PackRecord, and what follows it. */
  lemma PackRecordHead(g: Geometry, cur: seq<byte>, r: seq<byte>)
    requires g.Valid() && OpenOk(g, cur) && Packable(g, r)
    ensures var space := g.Payload() - |cur|;
      && (space >= |r| ==> PackRecord(g, cur, r) == CloseIfShort(g, cur + r))
      && (space < |r| ==>
            var n := space - g.cbFragBegin;
            PackRecord(g, cur, r) == Packed([cur + FragBeginHeader(g, space, |r|) + r[..n]] + Pieces(g, r, n).closed,
                                            Pieces(g, r, n).open))
  {
  }

  /** Reading a record that lies whole at the cursor. */
  lemma ReadInPlaceAt(g: Geometry, ck: Checksum, segs: seq<seq<byte>>, c: Cursor, r: seq<byte>)
    requires g.Valid() && Image(g, segs) && InImage(g, segs, c) && c.seg < |segs| && RecordOk(g, r)
    requires c.off == 0 ==> SegmentOk(g, ck, segs[c.seg], c.seg)
    requires var o := if c.off == 0 then g.cbSegHdr else c.off;
      o + |r| <= g.cbSegment && segs[c.seg][o..o + |r|] == r
    ensures var o := if c.off == 0 then g.cbSegHdr else c.off;
      ReadNext(g, ck, segs, c) == ReadResult(Record(r, r[0], c.seg), Advance(g, c.seg, o, |r|))
  {
    var o := if c.off == 0 then g.cbSegHdr else c.off;
    assert segs[c.seg][o] == r[0];
    assert SkipNop(g, segs, c) == c;
    StepAt(g, ck, segs, c, NoAssembly);
    InPlaceStep(g, segs[c.seg], c.seg, o, NoAssembly, r);
  }

  /** The fields of the segment area that holds cur and then the FragBegin piece of r. */
  lemma BeginFields(g: Geometry, cur: seq<byte>, r: seq<byte>)
    requires g.Valid() && OpenOk(g, cur) && Packable(g, r) && g.Payload() - |cur| < |r|
    ensures var space := g.Payload() - |cur|;
      var n := space - g.cbFragBegin;
      var x := cur + FragBeginHeader(g, space, |r|) + r[..n];
      && |x| == g.Payload() && x[|cur|] == g.typeFragBegin
      && U16At(x, |cur| + 1) == space && U16At(x, |cur| + 3) == |r|
      && x[|cur| + g.cbFragBegin..] == r[..n]
  {
    var space := g.Payload() - |cur|;
    var n := space - g.cbFragBegin;
    var x := cur + FragBeginHeader(g, space, |r|) + r[..n];
    assert x[|cur| + 1..|cur| + 3] == LE(space, 2);
    U16OfLE(x, |cur| + 1, space);
    assert x[|cur| + 3..|cur| + 5] == LE(|r|, 2);
    U16OfLE(x, |cur| + 3, |r|);
  }

  /** A FragBegin piece at offset i of a carried area that fills the payload, as segment k holds it. */
  lemma BeginInSegment(g: Geometry, ck: Checksum, segs: seq<seq<byte>>, k: nat, x: seq<byte>, i: nat, total: nat, d: seq<byte>)
    requires g.Valid() && Carries(g, ck, segs, k, x) && |x| == g.Payload() && i + g.cbFragBegin <= |x|
    requires x[i] == g.typeFragBegin && U16At(x, i + 1) == |x| - i && U16At(x, i + 3) == total
    requires total > |x| - i - g.cbFragBegin && x[i + g.cbFragBegin..] == d
    ensures var o, s := g.cbSegHdr + i, segs[k];
      && |s| == g.cbSegment && o < |s| && o + g.cbFragBegin <= |s|
      && s[o] == g.typeFragBegin && U16At(s, o + 1) == |s| - o && U16At(s, o + 3) == total
      && total > |s| - o - g.cbFragBegin
      && s[o + g.cbFragBegin..] == d
  {
    BeginHeaderInSegment(g, ck, segs, k, x, i, |x| - i, total);
    BeginDataInSegment(g, ck, segs, k, x, i + g.cbFragBegin, d);
  }

  /** The FragBegin piece that the writer put after cur, as segment k holds it. */
  lemma BeginPieceInSegment(g: Geometry, ck: Checksum, segs: seq<seq<byte>>, k: nat, cur: seq<byte>, r: seq<byte>)
    requires g.Valid() && OpenOk(g, cur) && Packable(g, r) && g.Payload() - |cur| < |r|
    requires var space := g.Payload() - |cur|;
      Carries(g, ck, segs, k, cur + FragBeginHeader(g, space, |r|) + r[..space - g.cbFragBegin])
    ensures var o, s, n := g.cbSegHdr + |cur|, segs[k], g.Payload() - |cur| - g.cbFragBegin;
      && |s| == g.cbSegment && o < |s| && o + g.cbFragBegin <= |s|
      && s[o] == g.typeFragBegin && U16At(s, o + 1) == |s| - o && U16At(s, o + 3) == |r|
      && |r| > |s| - o - g.cbFragBegin
      && s[o + g.cbFragBegin..] == r[..n]
  {
    var space := g.Payload() - |cur|;
    var n := space - g.cbFragBegin;
    BeginFields(g, cur, r);
    BeginInSegment(g, ck, segs, k, cur + FragBeginHeader(g, space, |r|) + r[..n], |cur|, |r|, r[..n]);
  }

  lemma BeginHeaderInSegment(g: Geometry, ck: Checksum, segs: seq<seq<byte>>, k: nat, x: seq<byte>, i: nat, len: nat, total: nat)
    requires g.Valid() && Carries(g, ck, segs, k, x) && i + 5 <= |x|
    requires x[i] == g.typeFragBegin && U16At(x, i + 1) == len && U16At(x, i + 3) == total
    ensures var s, o := segs[k], g.cbSegHdr + i;
      s[o] == g.typeFragBegin && U16At(s, o + 1) == len && U16At(s, o + 3) == total
  {
    CarriesByte(g, ck, segs, k, x, i);
    CarriesU16(g, ck, segs, k, x, i + 1);
    CarriesU16(g, ck, segs, k, x, i + 3);
  }

  /** A carried area that fills the payload: its tail from offset i is the segment's tail. */
  lemma BeginDataInSegment(g: Geometry, ck: Checksum, segs: seq<seq<byte>>, k: nat, x: seq<byte>, i: nat, d: seq<byte>)
    requires g.Valid() && Carries(g, ck, segs, k, x) && |x| == g.Payload() && i <= |x| && x[i..] == d
    ensures segs[k][g.cbSegHdr + i..] == d
  {
    CarriesSlice(g, ck, segs, k, x, i, |x|);
  }

  /** Reading the FragBegin piece that the writer put after cur in segment k. */
  lemma BeginStep(g: Geometry, ck: Checksum, segs: seq<seq<byte>>, k: nat, cur: seq<byte>, r: seq<byte>)
    requires g.Valid() && Image(g, segs) && OpenOk(g, cur) && RecordOk(g, r)
    requires g.Payload() - |cur| < |r|
    requires var space := g.Payload() - |cur|;
      Carries(g, ck, segs, k, cur + FragBeginHeader(g, space, |r|) + r[..space - g.cbFragBegin])
    ensures var c := WriterCursor(g, k, cur);
      var n := g.Payload() - |cur| - g.cbFragBegin;
      var start := if |cur| + g.cbFragBegin == g.Payload() then k + 1 else k;
      && InImage(g, segs, c) && SkipNop(g, segs, c) == c
      && Step(g, ck, segs, c, NoAssembly) == Again(Cursor(k + 1, 0), Assembly(true, r[..n], |r| - n, start))
  {
    var c := WriterCursor(g, k, cur);
    var o := g.cbSegHdr + |cur|;
    assert o == if c.off == 0 then g.cbSegHdr else c.off;
    BeginRecordStep(g, ck, segs, k, cur, r);
    StepAt(g, ck, segs, c, NoAssembly);
  }

  /** The FragBegin piece after cur in segment k, as one record step of the reader. */
  lemma BeginRecordStep(g: Geometry, ck: Checksum, segs: seq<seq<byte>>, k: nat, cur: seq<byte>, r: seq<byte>)
    requires g.Valid() && OpenOk(g, cur) && Packable(g, r) && g.Payload() - |cur| < |r|
    requires var space := g.Payload() - |cur|;
      Carries(g, ck, segs, k, cur + FragBeginHeader(g, space, |r|) + r[..space - g.cbFragBegin])
    ensures k < |segs| && g.cbSegHdr + |cur| < |segs[k]|
    ensures var n := g.Payload() - |cur| - g.cbFragBegin;
      var start := if |cur| + g.cbFragBegin == g.Payload() then k + 1 else k;
      RecordStep(g, segs[k], k, g.cbSegHdr + |cur|, NoAssembly, true) == Again(Cursor(k + 1, 0), Assembly(true, r[..n], |r| - n, start))
  {
    BeginPieceInSegment(g, ck, segs, k, cur, r);
    FragBeginStep(g, segs[k], k, g.cbSegHdr + |cur|, NoAssembly, |r|);
  }

  /** The segment ErrGetNextRecord reports as the start of r, written after cur in segment k. */
  function OneStart(g: Geometry, k: nat, cur: seq<byte>, r: seq<byte>): nat
  {
    if g.Payload() - |cur| >= |r| || |cur| + g.cbFragBegin != g.Payload() then k else k + 1
  }

  /** Where the reader stops after reading r, written after cur in segment k. */
  function OneEnd(g: Geometry, k: nat, cur: seq<byte>, r: seq<byte>): Cursor
    requires g.Valid() && OpenOk(g, cur) && Packable(g, r)
  {
    var space := g.Payload() - |cur|;
    if space >= |r| then Advance(g, k, 0, g.cbSegHdr + |cur| + |r|)
    else ContinueEnd(g, k + 1, r, space - g.cbFragBegin)
  }

  lemma OneEndSplit(g: Geometry, k: nat, cur: seq<byte>, r: seq<byte>)
    requires g.Valid() && OpenOk(g, cur) && Packable(g, r) && g.Payload() - |cur| < |r|
    ensures OneEnd(g, k, cur, r) == ContinueEnd(g, k + 1, r, g.Payload() - |cur| - g.cbFragBegin)
  {
  }

  lemma ReadOneInPlace(g: Geometry, ck: Checksum, segs: seq<seq<byte>>, k: nat, cur: seq<byte>, r: seq<byte>)
    requires g.Valid() && Image(g, segs) && OpenOk(g, cur) && RecordOk(g, r) && g.Payload() - |cur| >= |r|
    requires Holds(g, ck, segs, k, PackRecord(g, cur, r))
    ensures InImage(g, segs, WriterCursor(g, k, cur))
    ensures ReadNext(g, ck, segs, WriterCursor(g, k, cur)) == ReadResult(Record(r, r[0], OneStart(g, k, cur, r)), OneEnd(g, k, cur, r))
  {
    var c := WriterCursor(g, k, cur);
    var o := g.cbSegHdr + |cur|;
    assert o == if c.off == 0 then g.cbSegHdr else c.off;
    assert OneEnd(g, k, cur, r) == Advance(g, k, o, |r|) && OneStart(g, k, cur, r) == k;
    PackRecordHead(g, cur, r);
    var y := cur + r;
    CloseIfShortCarries(g, ck, segs, k, y);
    CarriesSlice(g, ck, segs, k, y, |cur|, |cur| + |r|);
    assert y[|cur|..|cur| + |r|] == r;
    ReadInPlaceAt(g, ck, segs, c, r);
  }

  /** Reading the FragBegin piece of r, then the rest of r from segment k + 1, gives what the rest gives. */
  lemma BeginRead(g: Geometry, ck: Checksum, segs: seq<seq<byte>>, k: nat, cur: seq<byte>, r: seq<byte>, n: nat, x: ReadResult)
    requires g.Valid() && Image(g, segs) && OpenOk(g, cur) && RecordOk(g, r) && g.Payload() - |cur| < |r|
    requires n == g.Payload() - |cur| - g.cbFragBegin
    requires Carries(g, ck, segs, k, cur + FragBeginHeader(g, g.Payload() - |cur|, |r|) + r[..n])
    requires InImage(g, segs, Cursor(k + 1, 0))
    requires Resume(g, ck, segs, Cursor(k + 1, 0), Assembly(true, r[..n], |r| - n, OneStart(g, k, cur, r))) == x
    ensures InImage(g, segs, WriterCursor(g, k, cur))
    ensures ReadNext(g, ck, segs, WriterCursor(g, k, cur)) == x
  {
    var c := WriterCursor(g, k, cur);
    BeginStep(g, ck, segs, k, cur, r);
    var a := Assembly(true, r[..n], |r| - n, OneStart(g, k, cur, r));
    LoopTo(g, ck, segs, c, NoAssembly, Cursor(k + 1, 0), a, x);
  }

  lemma ReadOneSplit(g: Geometry, ck: Checksum, segs: seq<seq<byte>>, k: nat, cur: seq<byte>, r: seq<byte>)
    requires g.Valid() && Image(g, segs) && OpenOk(g, cur) && RecordOk(g, r) && g.Payload() - |cur| < |r|
    requires var space := g.Payload() - |cur|;
      var n := space - g.cbFragBegin;
      && Carries(g, ck, segs, k, cur + FragBeginHeader(g, space, |r|) + r[..n])
      && Holds(g, ck, segs, k + 1, Pieces(g, r, n))
    ensures InImage(g, segs, WriterCursor(g, k, cur))
    ensures ReadNext(g, ck, segs, WriterCursor(g, k, cur)) == ReadResult(Record(r, r[0], OneStart(g, k, cur, r)), OneEnd(g, k, cur, r))
  {
    var n := g.Payload() - |cur| - g.cbFragBegin;
    var start := OneStart(g, k, cur, r);
    ReadContinue(g, ck, segs, k + 1, r, n, start);
    OneEndSplit(g, k, cur, r);
    BeginRead(g, ck, segs, k, cur, r, n, ReadResult(Record(r, r[0], start), OneEnd(g, k, cur, r)));
  }

  /** After reading r the reader stands, up to NOP padding, where the writer's open segment is after packing r. */
  lemma ReadOneEnd(g: Geometry, ck: Checksum, segs: seq<seq<byte>>, k: nat, cur: seq<byte>, r: seq<byte>)
    requires g.Valid() && Image(g, segs) && OpenOk(g, cur) && RecordOk(g, r)
    requires Holds(g, ck, segs, k, PackRecord(g, cur, r))
    ensures Meets(g, segs, OneEnd(g, k, cur, r), After(g, k, PackRecord(g, cur, r)))
  {
    if g.Payload() - |cur| >= |r| {
      ReadOneEndInPlace(g, ck, segs, k, cur, r);
    } else {
      ReadOneEndSplit(g, ck, segs, k, cur, r);
    }
  }

  lemma ReadOneEndInPlace(g: Geometry, ck: Checksum, segs: seq<seq<byte>>, k: nat, cur: seq<byte>, r: seq<byte>)
    requires g.Valid() && Image(g, segs) && OpenOk(g, cur) && RecordOk(g, r) && g.Payload() - |cur| >= |r|
    requires Holds(g, ck, segs, k, PackRecord(g, cur, r))
    ensures Meets(g, segs, OneEnd(g, k, cur, r), After(g, k, PackRecord(g, cur, r)))
  {
    PackRecordHead(g, cur, r);
    assert OneEnd(g, k, cur, r) == Advance(g, k, 0, g.cbSegHdr + |cur + r|);
    CloseIfShortEnd(g, ck, segs, k, cur + r);
  }

  lemma ReadOneEndSplit(g: Geometry, ck: Checksum, segs: seq<seq<byte>>, k: nat, cur: seq<byte>, r: seq<byte>)
    requires g.Valid() && Image(g, segs) && OpenOk(g, cur) && RecordOk(g, r) && g.Payload() - |cur| < |r|
    requires Holds(g, ck, segs, k, PackRecord(g, cur, r))
    ensures Meets(g, segs, OneEnd(g, k, cur, r), After(g, k, PackRecord(g, cur, r)))
  {
    var space := g.Payload() - |cur|;
    var n := space - g.cbFragBegin;
    var rest := Pieces(g, r, n);
    PackRecordHead(g, cur, r);
    assert After(g, k, PackRecord(g, cur, r)) == After(g, k + 1, rest);
    HoldsFirst(g, ck, segs, k, cur + FragBeginHeader(g, space, |r|) + r[..n], rest);
    ContinueEndAtWriter(g, ck, segs, k + 1, r, n);
    assert OneEnd(g, k, cur, r) == ContinueEnd(g, k + 1, r, n);
  }

  /** From where the writer's open segment k held cur, the reader returns exactly r. */
  lemma ReadOneAt(g: Geometry, ck: Checksum, segs: seq<seq<byte>>, k: nat, cur: seq<byte>, r: seq<byte>)
    requires g.Valid() && Image(g, segs) && OpenOk(g, cur) && RecordOk(g, r)
    requires Holds(g, ck, segs, k, PackRecord(g, cur, r))
    ensures InImage(g, segs, WriterCursor(g, k, cur))
    ensures ReadNext(g, ck, segs, WriterCursor(g, k, cur)) == ReadResult(Record(r, r[0], OneStart(g, k, cur, r)), OneEnd(g, k, cur, r))
  {
    var space := g.Payload() - |cur|;
    if space >= |r| {
      ReadOneInPlace(g, ck, segs, k, cur, r);
    } else {
      var n := space - g.cbFragBegin;
      var rest := Pieces(g, r, n);
      PackRecordHead(g, cur, r);
      HoldsFirst(g, ck, segs, k, cur + FragBeginHeader(g, space, |r|) + r[..n], rest);
      ReadOneSplit(g, ck, segs, k, cur, r);
    }
  }

  /**
   * Reading one record: from where the writer's open segment k held cur, the
   * reader returns exactly r, and then stands (up to NOP padding) where the
   * writer's open segment is after packing r.
   */
  lemma ReadOne(g: Geometry, ck: Checksum, segs: seq<seq<byte>>, k: nat, cur: seq<byte>, r: seq<byte>)
    requires g.Valid() && Image(g, segs) && OpenOk(g, cur) && RecordOk(g, r)
    requires Holds(g, ck, segs, k, PackRecord(g, cur, r))
    ensures InImage(g, segs, WriterCursor(g, k, cur))
    ensures ReadNext(g, ck, segs, WriterCursor(g, k, cur)) == ReadResult(Record(r, r[0], OneStart(g, k, cur, r)), OneEnd(g, k, cur, r))
    ensures Meets(g, segs, OneEnd(g, k, cur, r), After(g, k, PackRecord(g, cur, r)))
  {
    ReadOneEnd(g, ck, segs, k, cur, r);
    ReadOneAt(g, ck, segs, k, cur, r);
  }

  /** Two cursors that meet are read alike. */
  lemma MeetsRead(g: Geometry, ck: Checksum, segs: seq<seq<byte>>, c: Cursor, w: Cursor, x: ReadResult)
    requires g.Valid() && Image(g, segs) && Meets(g, segs, c, w) && ReadNext(g, ck, segs, w) == x
    ensures ReadNext(g, ck, segs, c) == x
  {
  }

  /** With nothing left to read, a reader where the writer stands reports no more records. */
  lemma ReadAtEnd(g: Geometry, ck: Checksum, segs: seq<seq<byte>>, k: nat, cur: seq<byte>, c: Cursor)
    requires g.Valid() && Image(g, segs) && OpenOk(g, cur)
    requires Holds(g, ck, segs, k, Packed(CloseOpen(g, cur), [])) && |segs| == k + |CloseOpen(g, cur)|
    requires Meets(g, segs, c, WriterCursor(g, k, cur))
    ensures ReadNext(g, ck, segs, c).outcome == NoMoreRecords
  {
    var w := WriterCursor(g, k, cur);
    if cur != [] {
      var f := CloseOpen(g, cur);
      assert f[0] == cur + Zeros(g.Payload() - |cur|);
      assert CarriesAt(g, ck, segs, k, f, 0);
      CarriesByte(g, ck, segs, k, f[0], |cur|);
      assert SkipNop(g, segs, w) == Cursor(k + 1, 0);
    }
    assert SkipNop(g, segs, c) == Cursor(k + |CloseOpen(g, cur)|, 0);
  }

  /** The closed areas of a packing followed by those packed after it. */
  lemma HoldsSplit(g: Geometry, ck: Checksum, segs: seq<seq<byte>>, k: nat, f: seq<seq<byte>>, fq: seq<seq<byte>>, p: Packed)
    requires g.Valid() && Holds(g, ck, segs, k, Packed(f, [])) && f == p.closed + fq
    requires p.open != [] ==> |fq| > 0 && |p.open| <= |fq[0]| && fq[0][..|p.open|] == p.open
    ensures Holds(g, ck, segs, k, p)
    ensures Holds(g, ck, segs, k + |p.closed|, Packed(fq, []))
  {
    forall i | 0 <= i < |p.closed| ensures CarriesAt(g, ck, segs, k, p.closed, i) {
      assert CarriesAt(g, ck, segs, k, f, i);
      assert f[i] == p.closed[i];
    }
    var kq := k + |p.closed|;
    forall i | 0 <= i < |fq| ensures CarriesAt(g, ck, segs, kq, fq, i) {
      assert CarriesAt(g, ck, segs, k, f, |p.closed| + i);
      assert f[|p.closed| + i] == fq[i];
    }
    if p.open != [] {
      assert CarriesAt(g, ck, segs, k + |p.closed|, fq, 0);
      CarriesPrefix(g, ck, segs, k + |p.closed|, fq[0], p.open);
    }
  }

  /** One record and the rest of the packing. */
  lemma PackAllHead(g: Geometry, cur: seq<byte>, rs: seq<seq<byte>>)
    requires g.Valid() && OpenOk(g, cur) && rs != []
    requires forall i :: 0 <= i < |rs| ==> Packable(g, rs[i])
    ensures var p := PackRecord(g, cur, rs[0]);
      && OpenOk(g, p.open)
      && var fq := Areas(g, p.open, rs[1..]);
      && Areas(g, cur, rs) == p.closed + fq
      && (p.open != [] ==>
            |fq| > 0 && |p.open| <= |fq[0]| && fq[0][..|p.open|] == p.open)
  {
    var p := PackRecord(g, cur, rs[0]);
    PackedShape(g, cur, rs[0]);
    PackAllPrefix(g, p.open, rs[1..]);
  }

  /**
   * Round trip over a whole generation from segment k on: the records rs packed
   * after cur, with the open segment closed at the end, are read back in order
   * by |rs| calls, and the next call reports that there are no more records.
   */
  lemma {:induction false} ReadAllBack(g: Geometry, ck: Checksum, segs: seq<seq<byte>>, k: nat, cur: seq<byte>, rs: seq<seq<byte>>, c: Cursor)
    requires g.Valid() && Image(g, segs) && OpenOk(g, cur)
    requires forall i :: 0 <= i < |rs| ==> RecordOk(g, rs[i]) && Packable(g, rs[i])
    requires var f := Areas(g, cur, rs);
      Holds(g, ck, segs, k, Packed(f, [])) && |segs| == k + |f|
    requires Meets(g, segs, c, WriterCursor(g, k, cur))
    ensures ReadsBack(ReadMany(g, ck, segs, c, |rs| + 1), rs)
    decreases |rs|
  {
    if rs == [] {
      assert PackAll(g, cur, rs) == Packed([], cur);
      assert Areas(g, cur, rs) == CloseOpen(g, cur);
      ReadAtEnd(g, ck, segs, k, cur, c);
      assert ReadMany(g, ck, segs, c, 1)[0] == ReadNext(g, ck, segs, c).outcome;
    } else {
      ReadAllBackStep(g, ck, segs, k, cur, rs, c);
    }
  }

  lemma {:induction false} ReadAllBackStep(g: Geometry, ck: Checksum, segs: seq<seq<byte>>, k: nat, cur: seq<byte>, rs: seq<seq<byte>>, c: Cursor)
    requires g.Valid() && Image(g, segs) && OpenOk(g, cur) && rs != []
    requires forall i :: 0 <= i < |rs| ==> RecordOk(g, rs[i]) && Packable(g, rs[i])
    requires var f := Areas(g, cur, rs);
      Holds(g, ck, segs, k, Packed(f, [])) && |segs| == k + |f|
    requires Meets(g, segs, c, WriterCursor(g, k, cur))
    ensures ReadsBack(ReadMany(g, ck, segs, c, |rs| + 1), rs)
    decreases |rs|, 1
  {
    StepPacking(g, ck, segs, k, cur, rs);
    ReadAllBackTail(g, ck, segs, k, cur, rs, c);
  }

  /** The step of ReadAllBack once packing has been split after rs[0]. */
  lemma {:induction false} ReadAllBackTail(g: Geometry, ck: Checksum, segs: seq<seq<byte>>, k: nat, cur: seq<byte>, rs: seq<seq<byte>>, c: Cursor)
    requires g.Valid() && Image(g, segs) && OpenOk(g, cur) && rs != [] && RecordOk(g, rs[0])
    requires Meets(g, segs, c, WriterCursor(g, k, cur))
    requires OpenOk(g, PackRecord(g, cur, rs[0]).open)
    requires forall i :: 0 <= i < |rs[1..]| ==> RecordOk(g, rs[1..][i]) && Packable(g, rs[1..][i])
    requires var p := PackRecord(g, cur, rs[0]);
      var fq := Areas(g, p.open, rs[1..]);
      && Holds(g, ck, segs, k, p)
      && Holds(g, ck, segs, k + |p.closed|, Packed(fq, [])) && |segs| == k + |p.closed| + |fq|
      && Meets(g, segs, OneEnd(g, k, cur, rs[0]), WriterCursor(g, k + |p.closed|, p.open))
    ensures ReadsBack(ReadMany(g, ck, segs, c, |rs| + 1), rs)
    decreases |rs|, 0
  {
    var p := PackRecord(g, cur, rs[0]);
    var e := OneEnd(g, k, cur, rs[0]);
    ReadAllBack(g, ck, segs, k + |p.closed|, p.open, rs[1..], e);
    assert InImage(g, segs, e);
    ReadAllBackCons(g, ck, segs, k, cur, rs, c);
  }

  /**
   * Packing rs after cur is packing rs[0], then the rest after what that
   * leaves open: the image holds both parts, and the reader's stop after
   * rs[0] meets where the writer stands before the rest.
   */
  lemma StepPacking(g: Geometry, ck: Checksum, segs: seq<seq<byte>>, k: nat, cur: seq<byte>, rs: seq<seq<byte>>)
    requires g.Valid() && Image(g, segs) && OpenOk(g, cur) && rs != []
    requires forall i :: 0 <= i < |rs| ==> RecordOk(g, rs[i]) && Packable(g, rs[i])
    requires var f := Areas(g, cur, rs);
      Holds(g, ck, segs, k, Packed(f, [])) && |segs| == k + |f|
    ensures OpenOk(g, PackRecord(g, cur, rs[0]).open)
    ensures |rs[1..]| + 1 == |rs| && forall i :: 0 <= i < |rs[1..]| ==> RecordOk(g, rs[1..][i]) && Packable(g, rs[1..][i])
    ensures var p := PackRecord(g, cur, rs[0]);
      var fq := Areas(g, p.open, rs[1..]);
      && Holds(g, ck, segs, k, p)
      && Holds(g, ck, segs, k + |p.closed|, Packed(fq, [])) && |segs| == k + |p.closed| + |fq|
      && Meets(g, segs, OneEnd(g, k, cur, rs[0]), WriterCursor(g, k + |p.closed|, p.open))
  {
    RecordsTail(g, rs);
    var f := Areas(g, cur, rs);
    var p := PackRecord(g, cur, rs[0]);
    PackAllHead(g, cur, rs);
    var fq := Areas(g, p.open, rs[1..]);
    HoldsSplit(g, ck, segs, k, f, fq, p);
    ReadOneEnd(g, ck, segs, k, cur, rs[0]);
    assert After(g, k, p) == WriterCursor(g, k + |p.closed|, p.open);
  }

  /** The first record read where the writer stood, followed by the reads of the rest of rs from OneEnd. */
  lemma ReadAllBackCons(g: Geometry, ck: Checksum, segs: seq<seq<byte>>, k: nat, cur: seq<byte>, rs: seq<seq<byte>>, c: Cursor)
    requires g.Valid() && Image(g, segs) && OpenOk(g, cur) && rs != [] && RecordOk(g, rs[0])
    requires Holds(g, ck, segs, k, PackRecord(g, cur, rs[0]))
    requires Meets(g, segs, c, WriterCursor(g, k, cur))
    requires InImage(g, segs, OneEnd(g, k, cur, rs[0]))
    requires ReadsBack(ReadMany(g, ck, segs, OneEnd(g, k, cur, rs[0]), |rs[1..]| + 1), rs[1..])
    ensures ReadsBack(ReadMany(g, ck, segs, c, |rs| + 1), rs)
  {
    var e := OneEnd(g, k, cur, rs[0]);
    ReadHead(g, ck, segs, k, cur, rs[0], c);
    ReadManyCons(g, ck, segs, c, |rs[1..]| + 1, rs[0], e);
    OutcomesCons(ReadMany(g, ck, segs, c, |rs[1..]| + 1 + 1), ReadMany(g, ck, segs, e, |rs[1..]| + 1), rs);
  }

  lemma RecordsTail(g: Geometry, rs: seq<seq<byte>>)
    requires rs != [] && forall i :: 0 <= i < |rs| ==> RecordOk(g, rs[i]) && Packable(g, rs[i])
    ensures |rs[1..]| + 1 == |rs|
    ensures forall i :: 0 <= i < |rs[1..]| ==> RecordOk(g, rs[1..][i]) && Packable(g, rs[1..][i])
  {
  }

  /** A reader where the writer stood before packing r reads r and stops at OneEnd. */
  lemma ReadHead(g: Geometry, ck: Checksum, segs: seq<seq<byte>>, k: nat, cur: seq<byte>, r: seq<byte>, c: Cursor)
    requires g.Valid() && Image(g, segs) && OpenOk(g, cur) && RecordOk(g, r)
    requires Holds(g, ck, segs, k, PackRecord(g, cur, r))
    requires Meets(g, segs, c, WriterCursor(g, k, cur))
    ensures ReadNext(g, ck, segs, c) == ReadResult(Record(r, r[0], OneStart(g, k, cur, r)), OneEnd(g, k, cur, r))
  {
    ReadOneAt(g, ck, segs, k, cur, r);
    MeetsRead(g, ck, segs, c, WriterCursor(g, k, cur), ReadResult(Record(r, r[0], OneStart(g, k, cur, r)), OneEnd(g, k, cur, r)));
  }

  /** The outcomes are the records rs in order, then NoMoreRecords. */
  predicate ReadsBack(out: seq<Outcome>, rs: seq<seq<byte>>)
  {
    && |out| == |rs| + 1
    && (forall i :: 0 <= i < |rs| ==> out[i].Record? && out[i].rec == rs[i])
    && out[|rs|] == NoMoreRecords
  }

  /** Outcomes whose first is rs[0] and whose rest are the records rs[1..] and then NoMoreRecords. */
  lemma OutcomesCons(out: seq<Outcome>, tail: seq<Outcome>, rs: seq<seq<byte>>)
    requires rs != [] && |out| == |rs| + 1 && out[0].Record? && out[0].rec == rs[0] && out[1..] == tail
    requires ReadsBack(tail, rs[1..])
    ensures ReadsBack(out, rs)
  {
    forall i | 0 < i < |rs| ensures out[i].Record? && out[i].rec == rs[i] {
      assert out[i] == out[1..][i - 1];
      assert rs[i] == rs[1..][i - 1];
    }
  }

  /** Unfolding n + 1 reads whose first one returns a record and stops at e. */
  lemma ReadManyCons(g: Geometry, ck: Checksum, segs: seq<seq<byte>>, c: Cursor, n: nat, r: seq<byte>, e: Cursor)
    requires g.Valid() && Image(g, segs) && InImage(g, segs, c) && InImage(g, segs, e)
    requires ReadNext(g, ck, segs, c).outcome.Record? && ReadNext(g, ck, segs, c).outcome.rec == r
    requires ReadNext(g, ck, segs, c).next == e
    ensures var out := ReadMany(g, ck, segs, c, n + 1);
      && out[0].Record? && out[0].rec == r && out[1..] == ReadMany(g, ck, segs, e, n)
  {
  }

  /** The sizes Sealed needs: one time stamp and one reserved header per record area, of the sizes a segment holds. */
  predicate SealSizes(g: Geometry, f: seq<seq<byte>>, times: seq<seq<byte>>, reserved: seq<seq<byte>>)
    requires g.Valid()
  {
    && |times| == |f| && |reserved| == |f|
    && (forall i :: 0 <= i < |f| ==> |times[i]| == 8 && |reserved[i]| == g.cbSegHdr - 20 && |f[i]| == g.Payload())
  }

  /** The file the writer leaves: the header segment, then record area i sealed as segment i + 1. */
  function Sealed(g: Geometry, ck: Checksum, header: seq<byte>, f: seq<seq<byte>>,
                  times: seq<seq<byte>>, reserved: seq<seq<byte>>): (segs: seq<seq<byte>>)
    requires g.Valid() && SealSizes(g, f, times, reserved)
    ensures |segs| == |f| + 1 && segs[0] == header
  {
    [header] + seq(|f|, i requires 0 <= i < |f| => Seal(g, ck, i + 1, times[i], reserved[i], f[i]))
  }

  lemma SealedAt(g: Geometry, ck: Checksum, header: seq<byte>, f: seq<seq<byte>>,
                 times: seq<seq<byte>>, reserved: seq<seq<byte>>, j: nat)
    requires g.Valid() && SealSizes(g, f, times, reserved) && j < |f|
    ensures Sealed(g, ck, header, f, times, reserved)[j + 1] == Seal(g, ck, j + 1, times[j], reserved[j], f[j])
  {
  }

  lemma SealedImage(g: Geometry, ck: Checksum, header: seq<byte>, f: seq<seq<byte>>,
                    times: seq<seq<byte>>, reserved: seq<seq<byte>>)
    requires g.Valid() && SealSizes(g, f, times, reserved) && |header| == g.cbSegment
    ensures Image(g, Sealed(g, ck, header, f, times, reserved))
  {
    var segs := Sealed(g, ck, header, f, times, reserved);
    forall i | 0 <= i < |segs| ensures |segs[i]| == g.cbSegment {
      if i > 0 {
        SealedAt(g, ck, header, f, times, reserved, i - 1);
      }
    }
  }

  lemma SealedHolds(g: Geometry, ck: Checksum, header: seq<byte>, f: seq<seq<byte>>,
                    times: seq<seq<byte>>, reserved: seq<seq<byte>>)
    requires g.Valid() && SealSizes(g, f, times, reserved)
    ensures Holds(g, ck, Sealed(g, ck, header, f, times, reserved), 1, Packed(f, []))
  {
    var segs := Sealed(g, ck, header, f, times, reserved);
    forall j | 0 <= j < |f| ensures CarriesAt(g, ck, segs, 1, f, j) {
      SealedAt(g, ck, header, f, times, reserved, j);
    }
  }

  /**
   * A fresh generation: the writer starts at segment 1 with an empty open
   * segment, packs rs, closes the open segment, and seals every closed record
   * area i as segment i + 1 (any time stamps and reserved header bytes). Reading
   * the file from the start returns rs in order, then NoMoreRecords.
   */
  lemma CaptureThenRead(g: Geometry, ck: Checksum, header: seq<byte>, rs: seq<seq<byte>>,
                        times: seq<seq<byte>>, reserved: seq<seq<byte>>)
    requires g.Valid() && |header| == g.cbSegment && OpenOk(g, [])
    requires forall i :: 0 <= i < |rs| ==> RecordOk(g, rs[i]) && Packable(g, rs[i])
    requires SealSizes(g, Areas(g, [], rs), times, reserved)
    ensures var segs := Sealed(g, ck, header, Areas(g, [], rs), times, reserved);
      && Image(g, segs)
      && var out := ReadMany(g, ck, segs, Cursor(1, 0), |rs| + 1);
      && (forall i :: 0 <= i < |rs| ==> out[i].Record? && out[i].rec == rs[i])
      && out[|rs|] == NoMoreRecords
  {
    var f := Areas(g, [], rs);
    var segs := Sealed(g, ck, header, f, times, reserved);
    SealedImage(g, ck, header, f, times, reserved);
    SealedHolds(g, ck, header, f, times, reserved);
    ReadAllBack(g, ck, segs, 1, [], rs, Cursor(1, 0));
  }
}
