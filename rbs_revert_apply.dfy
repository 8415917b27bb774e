// Applying the records of one snapshot generation to the databases being
// reverted (ErrApplyRBSRecord, ErrAddPageRecord, ErrFlushPages and the record
// loop of ErrRBSGenApply), as functions over the revert context's state. The
// revert context (RbsRevert.RevertContext) is proved to do what they say.
module RbsRevertApply {
  import opened Jet
  import opened Bytes
  import opened RbsRevertDb
  import opened RbsRevertRange

  /**
   * The records the revert acts on, as ErrGetNextRecord hands them over:
   * a database header, an attach of a database under a dbid, a page's
   * before-image (flags say how it was compressed), a page that was new, or
   * a record of any other type.
   */
  datatype RbsRecord =
    | DbHdrRec(dbid: int, hdr: DbHeader)
    | DbAttachRec(dbid: int, name: seq<char>)
    | DbPageRec(dbid: int, pgno: int, flags: nat, data: seq<byte>)
    | DbNewPageRec(dbid: int, pgno: int)
    | OtherRec(recType: nat)

  /**
   * Where page images come from: ErrRBSDecompressPreimage (page, flags,
   * data), the image after CPAGE::PreparePageForWrite, and the page
   * CPAGE::GetRevertedNewPage builds for a page that was new.
   */
  datatype PageSource = PageSource(
    decompress: (int, nat, seq<byte>) -> Result<seq<byte>>,
    prepare: (int, seq<byte>) -> seq<byte>,
    newPage: int -> seq<byte>)

  /**
   * The state record application works on: the per-database contexts
   * (m_rgprbsdbrcAttached), the dbid-to-context map m_mpdbidirbsdbrc (a dbid
   * absent from the map is irbsdbrcInvalid), the pages staged since the
   * last flush (m_cpgCached) and the pages flushed in the current
   * generation (m_cPagesRevertedCurRBSGen).
   */
  datatype Engine = Engine(dbs: seq<DbRevert>, dbidMap: map<int, nat>, cpgCached: nat, cPagesRevertedCurGen: nat)

  /** The pages staged over all contexts. */
  function TotalStaged(dbs: seq<DbRevert>): nat
    decreases |dbs|
  {
    if |dbs| == 0 then 0 else TotalStaged(dbs[..|dbs| - 1]) + |dbs[|dbs| - 1].staged|
  }

  /**
   * The invariant record application keeps: the map only routes dbids
   * below dbidMax to existing contexts, each context keeps the staging
   * invariant and a dbid up to dbidMax (dbidMax meaning none), and
   * m_cpgCached counts the staged pages. That the contexts name distinct
   * databases is kept by the revert context (RbsRevert.RevertContext.Valid).
   */
  predicate EngineOk(e: Engine, dbidMax: nat)
  {
    && (forall d :: d in e.dbidMap ==> 0 <= d < dbidMax && e.dbidMap[d] < |e.dbs|)
    && (forall i :: 0 <= i < |e.dbs| ==> Staging(e.dbs[i]) && 0 <= e.dbs[i].dbidCurrent <= dbidMax)
    && e.cpgCached == TotalStaged(e.dbs)
  }

  /** The contexts of two states are for the same databases, in the same order. */
  predicate SameDbs(dbs: seq<DbRevert>, dbs': seq<DbRevert>)
  {
    |dbs'| == |dbs| && forall j :: 0 <= j < |dbs| ==> NameAt(dbs', j) == NameAt(dbs, j)
  }

  lemma TotalStagedUpdate(dbs: seq<DbRevert>, i: nat, db: DbRevert)
    requires i < |dbs|
    ensures TotalStaged(dbs[i := db]) + |dbs[i].staged| == TotalStaged(dbs) + |db.staged|
    decreases |dbs|
  {
    var n := |dbs| - 1;
    if i < n {
      TotalStagedUpdate(dbs[..n], i, db);
      assert dbs[i := db][..n] == dbs[..n][i := db];
    } else {
      assert dbs[i := db][..n] == dbs[..n];
    }
  }

  // ---------------------------------------------------------------------
  // The rbsrectypeDbAttach case: re-routing a dbid
  // ---------------------------------------------------------------------

  /**
   * A database attached under dbid: the context i now answers for dbid. A
   * context with no dbid yet takes it; otherwise its old dbid stops routing
   * to it (the source leaves the context's own dbid field as it was). A
   * context that held dbid before gives it up. A record for the dbid the
   * context already has only restores a lost route.
   */
  function Attach(e: Engine, dbid: int, i: nat, dbidMax: nat): (r: Engine)
    requires i < |e.dbs|
    requires forall d :: d in e.dbidMap ==> e.dbidMap[d] < |e.dbs|
    ensures dbid in r.dbidMap && r.dbidMap[dbid] == i
    ensures forall d :: d in r.dbidMap && d != dbid ==> d in e.dbidMap && r.dbidMap[d] == e.dbidMap[d]
    ensures forall d :: d in e.dbidMap && d != dbid && e.dbidMap[d] != i ==> d in r.dbidMap
    ensures |r.dbs| == |e.dbs|
    ensures forall j :: 0 <= j < |e.dbs| ==> r.dbs[j] == e.dbs[j].(dbidCurrent := r.dbs[j].dbidCurrent)
    ensures forall j :: 0 <= j < |e.dbs| ==>
              r.dbs[j].dbidCurrent == e.dbs[j].dbidCurrent || r.dbs[j].dbidCurrent == dbid || r.dbs[j].dbidCurrent == dbidMax
    ensures r.cpgCached == e.cpgCached && r.cPagesRevertedCurGen == e.cPagesRevertedCurGen
  {
    var cur := e.dbs[i].dbidCurrent;
    if dbid != cur then
      var dbs1 := if cur == dbidMax then e.dbs[i := e.dbs[i].(dbidCurrent := dbid)] else e.dbs;
      var map1 := if cur != dbidMax && cur in e.dbidMap && e.dbidMap[cur] == i then e.dbidMap - {cur} else e.dbidMap;
      var dbs2 := if dbid in map1 then dbs1[map1[dbid] := dbs1[map1[dbid]].(dbidCurrent := dbidMax)] else dbs1;
      e.(dbs := dbs2, dbidMap := map1[dbid := i])
    else if !(cur in e.dbidMap && e.dbidMap[cur] == i) then
      e.(dbidMap := e.dbidMap[dbid := i])
    else e
  }

  // ---------------------------------------------------------------------
  // ErrApplyRBSRecord
  // ---------------------------------------------------------------------

  /** The outcome of one record: the error, the new state, and whether the given header was captured. */
  datatype Applied = Applied(err: Code, e: Engine, given: bool)

  /** ErrAddPageRecord: stage the page in the context dbid routes to, and count it. */
  function StagePage(e: Engine, dbid: int, pgno: int, image: seq<byte>, dbidMax: nat): (r: Engine)
    requires EngineOk(e, dbidMax) && dbid in e.dbidMap
    requires !PageAlreadyCaptured(e.dbs[e.dbidMap[dbid]], pgno)
    ensures EngineOk(r, dbidMax) && SameDbs(e.dbs, r.dbs)
    ensures r == e.(dbs := r.dbs, cpgCached := e.cpgCached + 1)
    ensures r.dbs == e.dbs[e.dbidMap[dbid] := AddPage(e.dbs[e.dbidMap[dbid]], pgno, image)]
  {
    var i := e.dbidMap[dbid];
    var db := AddPage(e.dbs[i], pgno, image);
    TotalStagedUpdate(e.dbs, i, db);
    e.(dbs := e.dbs[i := db], cpgCached := e.cpgCached + 1)
  }

  /** ErrRBSCaptureDbHdrFromRBS on the context dbid routes to. */
  function CaptureHeader(e: Engine, dbid: int, hdr: DbHeader, dbidMax: nat): (r: Applied)
    requires EngineOk(e, dbidMax) && dbid in e.dbidMap
    ensures EngineOk(r.e, dbidMax) && SameDbs(e.dbs, r.e.dbs) && r.err == Success
    ensures var i := e.dbidMap[dbid];
      && r.e == e.(dbs := e.dbs[i := CaptureDbHdrFromRbs(e.dbs[i], hdr).db])
      && r.given == CaptureDbHdrFromRbs(e.dbs[i], hdr).given
  {
    var i := e.dbidMap[dbid];
    var c := CaptureDbHdrFromRbs(e.dbs[i], hdr);
    TotalStagedUpdate(e.dbs, i, c.db);
    Applied(Success, e.(dbs := e.dbs[i := c.db]), c.given)
  }

  /** The attach case keeps the invariant. */
  function AttachNamed(e: Engine, dbid: int, i: nat, dbidMax: nat): (r: Engine)
    requires EngineOk(e, dbidMax) && i < |e.dbs| && 0 <= dbid < dbidMax
    ensures EngineOk(r, dbidMax) && SameDbs(e.dbs, r.dbs)
    ensures r == Attach(e, dbid, i, dbidMax)
  {
    var r := Attach(e, dbid, i, dbidMax);
    StagedKept(e.dbs, r.dbs);
    r
  }

  /** The image a page record stages (prepared for writing), or the error decompressing it gave. */
  function PageImage(rec: RbsRecord, src: PageSource): Result<seq<byte>>
    requires rec.DbPageRec?
  {
    var image := if rec.flags != 0 then src.decompress(rec.pgno, rec.flags, rec.data) else Ok(rec.data);
    if image.Fail? then image else Ok(src.prepare(rec.pgno, image.value))
  }

  /**
   * ErrApplyRBSRecord. fCapture says the generation is the oldest to apply,
   * the only one whose database headers are taken; fDbHeaderOnly skips
   * pages. A record whose dbid routes to no context, or an attach naming a
   * database with no context, is one the source asserts never to meet; the
   * model leaves the state as it is for it.
   */
  function ApplyRecord(e: Engine, rec: RbsRecord, fCapture: bool, fDbHeaderOnly: bool, src: PageSource, dbidMax: nat): (r: Applied)
    requires EngineOk(e, dbidMax)
    ensures EngineOk(r.e, dbidMax) && SameDbs(e.dbs, r.e.dbs)
    ensures r.err != Success ==> r.e == e && !r.given
    ensures r.err != Success ==> rec.OtherRec? || (rec.DbPageRec? && rec.flags != 0)
    ensures rec.OtherRec? ==> r.err == RBSInvalidRecord
    ensures r.given ==> rec.DbHdrRec? && fCapture
  {
    match rec
    case DbHdrRec(dbid, hdr) =>
      if !fCapture || dbid !in e.dbidMap then Applied(Success, e, false)
      else CaptureHeader(e, dbid, hdr, dbidMax)
    case DbAttachRec(dbid, name) =>
      var i := FindDb(e.dbs, name);
      if i == |e.dbs| || !(0 <= dbid < dbidMax) then Applied(Success, e, false)
      else Applied(Success, AttachNamed(e, dbid, i, dbidMax), false)
    case DbPageRec(dbid, pgno, _, _) =>
      if fDbHeaderOnly || dbid !in e.dbidMap || PageAlreadyCaptured(e.dbs[e.dbidMap[dbid]], pgno) then Applied(Success, e, false)
      else
        var image := PageImage(rec, src);
        if image.Fail? then Applied(image.error, e, false)
        else Applied(Success, StagePage(e, dbid, pgno, image.value, dbidMax), false)
    case DbNewPageRec(dbid, pgno) =>
      if fDbHeaderOnly || dbid !in e.dbidMap || PageAlreadyCaptured(e.dbs[e.dbidMap[dbid]], pgno) then Applied(Success, e, false)
      else Applied(Success, StagePage(e, dbid, pgno, src.newPage(pgno), dbidMax), false)
    case OtherRec(_) => Applied(RBSInvalidRecord, e, false)
  }

  /** Contexts whose page arrays are the same stage the same number of pages. */
  lemma {:induction false} StagedKept(dbs: seq<DbRevert>, dbs': seq<DbRevert>)
    requires |dbs'| == |dbs|
    requires forall j :: 0 <= j < |dbs| ==> dbs'[j].staged == dbs[j].staged
    ensures TotalStaged(dbs') == TotalStaged(dbs)
    decreases |dbs|
  {
    if |dbs| > 0 {
      var n := |dbs| - 1;
      StagedKept(dbs[..n], dbs'[..n]);
    }
  }

  // ---------------------------------------------------------------------
  // What one record does to each context
  // ---------------------------------------------------------------------

  /**
   * A database header taken from the snapshot is taken only while applying
   * the oldest generation, only from a header record, and only the first
   * one per database: once a context holds a header, it keeps it.
   */
  lemma ApplyRecordHeader(e: Engine, rec: RbsRecord, fCapture: bool, fDbHeaderOnly: bool, src: PageSource, dbidMax: nat)
    requires EngineOk(e, dbidMax)
    ensures var r := ApplyRecord(e, rec, fCapture, fDbHeaderOnly, src, dbidMax).e;
      forall j :: 0 <= j < |e.dbs| ==>
        r.dbs[j].hdrFromRbs == e.dbs[j].hdrFromRbs
        || (fCapture && rec.DbHdrRec? && e.dbs[j].hdrFromRbs.None? && r.dbs[j].hdrFromRbs == Some(rec.hdr))
  {
  }

  /**
   * What a record may do to one context's pages: the bitmap never loses a
   * page, the database file and header are not touched, and a page is
   * staged only if the bitmap did not mark it, which staging then does.
   */
  predicate StagingStep(db: DbRevert, db': DbRevert, rec: RbsRecord, fDbHeaderOnly: bool)
  {
    && db.captured <= db'.captured
    && db'.written == db.written && db'.hdr == db.hdr && db'.hdrOnDisk == db.hdrOnDisk
    && (db'.staged == db.staged ==> db'.captured == db.captured)
    && (db'.staged != db.staged ==>
          && !fDbHeaderOnly && (rec.DbPageRec? || rec.DbNewPageRec?)
          && rec.pgno !in db.captured
          && |db'.staged| == |db.staged| + 1
          && db'.staged[..|db.staged|] == db.staged
          && db'.staged[|db.staged|].pgno == rec.pgno
          && db'.captured == db.captured + {rec.pgno})
  }

  lemma AddPageStep(db: DbRevert, rec: RbsRecord, image: seq<byte>, fDbHeaderOnly: bool)
    requires !fDbHeaderOnly && (rec.DbPageRec? || rec.DbNewPageRec?) && rec.pgno !in db.captured
    ensures StagingStep(db, AddPage(db, rec.pgno, image), rec, fDbHeaderOnly)
  {
    assert AddPage(db, rec.pgno, image).staged[..|db.staged|] == db.staged;
  }

  /**
   * A page is staged only if its context's bitmap did not mark it, and
   * staging marks it; so within one generation no page is staged twice.
   */
  lemma ApplyRecordStaging(e: Engine, rec: RbsRecord, fCapture: bool, fDbHeaderOnly: bool, src: PageSource, dbidMax: nat)
    requires EngineOk(e, dbidMax)
    ensures var r := ApplyRecord(e, rec, fCapture, fDbHeaderOnly, src, dbidMax).e;
      forall j :: 0 <= j < |e.dbs| ==> StagingStep(e.dbs[j], r.dbs[j], rec, fDbHeaderOnly)
  {
    var r := ApplyRecord(e, rec, fCapture, fDbHeaderOnly, src, dbidMax).e;
    if (rec.DbPageRec? || rec.DbNewPageRec?) && r != e {
      var i := e.dbidMap[rec.dbid];
      var img := r.dbs[i].staged[|r.dbs[i].staged| - 1].image;
      assert r.dbs == e.dbs[i := AddPage(e.dbs[i], rec.pgno, img)];
      AddPageStep(e.dbs[i], rec, img, fDbHeaderOnly);
    }
  }

  /**
   * After a database is attached under a dbid, a before-image for that dbid
   * of a page not yet captured is staged in that database's context, and
   * pages staged there are counted.
   */
  lemma AttachThenPage(e: Engine, dbid: int, name: seq<char>, pgno: int, data: seq<byte>, src: PageSource, dbidMax: nat)
    requires EngineOk(e, dbidMax)
    requires Known(e.dbs, name) && 0 <= dbid < dbidMax
    requires pgno !in e.dbs[FindDb(e.dbs, name)].captured
    ensures var a := ApplyRecord(e, DbAttachRec(dbid, name), false, false, src, dbidMax).e;
            var r := ApplyRecord(a, DbPageRec(dbid, pgno, 0, data), false, false, src, dbidMax).e;
            var i := FindDb(e.dbs, name);
      && r.dbs[i].staged == e.dbs[i].staged + [StagedPage(pgno, src.prepare(pgno, data))]
      && pgno in r.dbs[i].captured
      && r.cpgCached == e.cpgCached + 1
  {
  }

  // ---------------------------------------------------------------------
  // ErrFlushPages, ErrResetSbmDbPages on every context
  // ---------------------------------------------------------------------

  /**
   * ErrFlushPages: every context's staged pages written (ErrFlushDBPages),
   * the pages counted into the current generation's total, and the staged
   * count cleared.
   */
  function FlushAll(e: Engine, fFlushDbHdr: bool): (r: Engine)
    ensures |r.dbs| == |e.dbs| && forall j :: 0 <= j < |e.dbs| ==> r.dbs[j] == Flushed(e.dbs[j], fFlushDbHdr)
    ensures r.dbidMap == e.dbidMap
  {
    Engine(seq(|e.dbs|, j requires 0 <= j < |e.dbs| => Flushed(e.dbs[j], fFlushDbHdr)),
           e.dbidMap, 0, e.cPagesRevertedCurGen + e.cpgCached)
  }

  /** Flushed contexts stage nothing. */
  lemma {:induction false} NoneStaged(dbs: seq<DbRevert>)
    requires forall j :: 0 <= j < |dbs| ==> dbs[j].staged == []
    ensures TotalStaged(dbs) == 0
    decreases |dbs|
  {
    if |dbs| > 0 {
      NoneStaged(dbs[..|dbs| - 1]);
    }
  }

  /**
   * A flush keeps the invariant, leaves nothing staged, moves every staged
   * page into the generation's count, keeps the bitmaps and the headers
   * taken from the snapshot, and writes every staged page to its database.
   */
  lemma FlushAllKeeps(e: Engine, fFlushDbHdr: bool, dbidMax: nat)
    requires EngineOk(e, dbidMax)
    ensures var r := FlushAll(e, fFlushDbHdr);
      && EngineOk(r, dbidMax) && SameDbs(e.dbs, r.dbs)
      && r.cpgCached == 0
      && r.cPagesRevertedCurGen == e.cPagesRevertedCurGen + TotalStaged(e.dbs)
      && forall j :: 0 <= j < |e.dbs| ==>
           && r.dbs[j].staged == [] && r.dbs[j].captured == e.dbs[j].captured
           && r.dbs[j].hdrFromRbs == e.dbs[j].hdrFromRbs
           && (forall k :: 0 <= k < |e.dbs[j].staged| ==>
                 e.dbs[j].staged[k].pgno in r.dbs[j].written
                 && r.dbs[j].written[e.dbs[j].staged[k].pgno] == e.dbs[j].staged[k].image)
  {
    var r := FlushAll(e, fFlushDbHdr);
    forall j | 0 <= j < |e.dbs|
      ensures Staging(r.dbs[j]) && r.dbs[j].staged == [] && r.dbs[j].captured == e.dbs[j].captured
      ensures r.dbs[j].name == e.dbs[j].name && r.dbs[j].dbidCurrent == e.dbs[j].dbidCurrent
      ensures r.dbs[j].hdrFromRbs == e.dbs[j].hdrFromRbs
      ensures forall k :: 0 <= k < |e.dbs[j].staged| ==>
                e.dbs[j].staged[k].pgno in r.dbs[j].written && r.dbs[j].written[e.dbs[j].staged[k].pgno] == e.dbs[j].staged[k].image
    {
      FlushedContents(e.dbs[j], fFlushDbHdr);
    }
    NoneStaged(r.dbs);
  }

  /** ErrResetSbmDbPages on every context. */
  function ResetAll(e: Engine): (r: Engine)
    ensures |r.dbs| == |e.dbs| && forall j :: 0 <= j < |e.dbs| ==> r.dbs[j] == ResetSbmDbPages(e.dbs[j])
    ensures r.dbidMap == e.dbidMap && r.cpgCached == e.cpgCached && r.cPagesRevertedCurGen == e.cPagesRevertedCurGen
  {
    e.(dbs := seq(|e.dbs|, j requires 0 <= j < |e.dbs| => ResetSbmDbPages(e.dbs[j])))
  }

  /** Resetting the bitmaps after a flushed generation keeps the invariant and leaves every page uncaptured. */
  lemma ResetAllKeeps(e: Engine, dbidMax: nat)
    requires EngineOk(e, dbidMax)
    requires forall j :: 0 <= j < |e.dbs| ==> e.dbs[j].staged == []
    ensures EngineOk(ResetAll(e), dbidMax) && SameDbs(e.dbs, ResetAll(e).dbs)
    ensures forall j, p :: 0 <= j < |e.dbs| ==> p !in ResetAll(e).dbs[j].captured
  {
    StagedKept(e.dbs, ResetAll(e).dbs);
  }

  /** Whether every context holds a header taken from the snapshot (PDbfilehdrFromRBS). */
  predicate AllCaptured(dbs: seq<DbRevert>)
  {
    forall j :: 0 <= j < |dbs| ==> dbs[j].hdrFromRbs.Some?
  }

  // ---------------------------------------------------------------------
  // The record loop of ErrRBSGenApply
  // ---------------------------------------------------------------------

  /**
   * What reading one generation yields: the records ErrGetNextRecord returns,
   * in order, how reading ended (JET_wrnNoMoreRecords, or the error it gave)
   * and after which records the cancel flag is found set.
   */
  datatype GenRecords = GenRecords(recs: seq<RbsRecord>, readEnd: EndOfRecords, cancelled: nat -> bool)

  /**
   * How reading a generation ends: with JET_wrnNoMoreRecords or an error.
   * ErrGetNextRecord succeeds only with a record, so the loop over the
   * records never ends on success.
   */
  type EndOfRecords = c: Code | c != Success witness NoMoreRecords

  datatype Stream = Stream(err: Code, e: Engine)

  /** The loop either stops with an outcome or goes on to the next record. */
  datatype Step = Stop(s: Stream) | Go(e: Engine)

  /**
   * One pass of the loop body on record i: apply it (an error ends the
   * loop), flush when the staged pages reach cacheMax, stop if cancelled,
   * and in header-only mode stop once the header record just applied
   * completed the set of headers.
   */
  function RecordStep(e: Engine, g: GenRecords, i: nat, fCapture: bool, fDbHeaderOnly: bool,
                      src: PageSource, cacheMax: int, dbidMax: nat): (r: Step)
    requires EngineOk(e, dbidMax) && i < |g.recs|
    ensures r.Stop? ==> EngineOk(r.s.e, dbidMax) && SameDbs(e.dbs, r.s.e.dbs)
    ensures r.Go? ==> EngineOk(r.e, dbidMax) && SameDbs(e.dbs, r.e.dbs)
  {
    var a := ApplyRecord(e, g.recs[i], fCapture, fDbHeaderOnly, src, dbidMax);
    if a.err != Success then Stop(Stream(a.err, a.e))
    else
      FlushAllKeeps(a.e, false, dbidMax);
      var e1 := if a.e.cpgCached >= cacheMax then FlushAll(a.e, false) else a.e;
      if g.cancelled(i) then Stop(Stream(RBSRCRevertCancelled, e1))
      else if fDbHeaderOnly && a.given && AllCaptured(e1.dbs) then Stop(Stream(Success, e1))
      else Go(e1)
  }

  /**
   * The end of the records: when reading ran out, all pages and headers are
   * flushed and the generation succeeds; header-only mode returns the
   * reader's warning instead, and a read error is returned as it is.
   */
  function ReadEnd(e: Engine, g: GenRecords, fDbHeaderOnly: bool, dbidMax: nat): (r: Stream)
    requires EngineOk(e, dbidMax)
    ensures EngineOk(r.e, dbidMax) && SameDbs(e.dbs, r.e.dbs)
  {
    if g.readEnd == NoMoreRecords && !fDbHeaderOnly then
      FlushAllKeeps(e, true, dbidMax);
      Stream(Success, FlushAll(e, true))
    else Stream(g.readEnd, e)
  }

  /** The record loop of ErrRBSGenApply from record i. */
  function RecordsFrom(e: Engine, g: GenRecords, i: nat, fCapture: bool, fDbHeaderOnly: bool,
                       src: PageSource, cacheMax: int, dbidMax: nat): (r: Stream)
    requires EngineOk(e, dbidMax) && i <= |g.recs|
    ensures EngineOk(r.e, dbidMax) && SameDbs(e.dbs, r.e.dbs)
    decreases |g.recs| - i, 1
  {
    if i == |g.recs| then ReadEnd(e, g, fDbHeaderOnly, dbidMax)
    else RecordIteration(e, g, i, fCapture, fDbHeaderOnly, src, cacheMax, dbidMax)
  }

  /**
   * One iteration of the record loop. It is a layer of its own so that the
   * step's definition sits two unfoldings below RecordsFrom: reasoning
   * about the loop then does not expand the record being applied.
   */
  function RecordIteration(e: Engine, g: GenRecords, i: nat, fCapture: bool, fDbHeaderOnly: bool,
                           src: PageSource, cacheMax: int, dbidMax: nat): (r: Stream)
    requires EngineOk(e, dbidMax) && i < |g.recs|
    ensures EngineOk(r.e, dbidMax) && SameDbs(e.dbs, r.e.dbs)
    decreases |g.recs| - i, 0
  {
    StepThenRest(e, g, i, fCapture, fDbHeaderOnly, src, cacheMax, dbidMax)
  }

  /** The step on record i, then the records after it unless the step ended the loop. */
  function StepThenRest(e: Engine, g: GenRecords, i: nat, fCapture: bool, fDbHeaderOnly: bool,
                        src: PageSource, cacheMax: int, dbidMax: nat): (r: Stream)
    requires EngineOk(e, dbidMax) && i < |g.recs|
    ensures EngineOk(r.e, dbidMax) && SameDbs(e.dbs, r.e.dbs)
    decreases |g.recs| - i, -1
  {
    match RecordStep(e, g, i, fCapture, fDbHeaderOnly, src, cacheMax, dbidMax)
    case Stop(s) => s
    case Go(e1) => RecordsFrom(e1, g, i + 1, fCapture, fDbHeaderOnly, src, cacheMax, dbidMax)
  }

  /** The record loop one record further on: a pass that stops gives the outcome, one that goes on hands its state to the next record. */
  lemma RecordsFromStep(e: Engine, g: GenRecords, i: nat, fCapture: bool, fDbHeaderOnly: bool,
                        src: PageSource, cacheMax: int, dbidMax: nat)
    requires EngineOk(e, dbidMax) && i < |g.recs|
    ensures var st := RecordStep(e, g, i, fCapture, fDbHeaderOnly, src, cacheMax, dbidMax);
      && (st.Stop? ==> RecordsFrom(e, g, i, fCapture, fDbHeaderOnly, src, cacheMax, dbidMax) == st.s)
      && (st.Go? ==> RecordsFrom(e, g, i, fCapture, fDbHeaderOnly, src, cacheMax, dbidMax)
                     == RecordsFrom(st.e, g, i + 1, fCapture, fDbHeaderOnly, src, cacheMax, dbidMax))
  {
    assert RecordsFrom(e, g, i, fCapture, fDbHeaderOnly, src, cacheMax, dbidMax)
        == RecordIteration(e, g, i, fCapture, fDbHeaderOnly, src, cacheMax, dbidMax)
        == StepThenRest(e, g, i, fCapture, fDbHeaderOnly, src, cacheMax, dbidMax);
  }

  /**
   * A context's header from the snapshot changes only while applying the
   * oldest generation and only while it has none; bitmaps only grow; the
   * database's state is left alone.
   */
  ghost predicate HeadersAndBitmaps(e: Engine, e': Engine, fCapture: bool)
  {
    && |e'.dbs| == |e.dbs|
    && forall j :: 0 <= j < |e.dbs| ==>
         && (e'.dbs[j].hdrFromRbs == e.dbs[j].hdrFromRbs || (fCapture && e.dbs[j].hdrFromRbs.None?))
         && e.dbs[j].captured <= e'.dbs[j].captured
         && e'.dbs[j].hdr.dbstate == e.dbs[j].hdr.dbstate
  }

  lemma ApplyRecordKeeps(e: Engine, rec: RbsRecord, fCapture: bool, fDbHeaderOnly: bool, src: PageSource, dbidMax: nat)
    requires EngineOk(e, dbidMax)
    ensures HeadersAndBitmaps(e, ApplyRecord(e, rec, fCapture, fDbHeaderOnly, src, dbidMax).e, fCapture)
  {
    var r := ApplyRecord(e, rec, fCapture, fDbHeaderOnly, src, dbidMax).e;
    ApplyRecordHeader(e, rec, fCapture, fDbHeaderOnly, src, dbidMax);
    ApplyRecordStaging(e, rec, fCapture, fDbHeaderOnly, src, dbidMax);
    forall j | 0 <= j < |e.dbs|
      ensures e.dbs[j].captured <= r.dbs[j].captured
    {
      assert StagingStep(e.dbs[j], r.dbs[j], rec, fDbHeaderOnly);
    }
  }

  /** The state a step leaves, whether it stops or goes on. */
  function StepState(st: Step): Engine
  {
    if st.Stop? then st.s.e else st.e
  }

  lemma StepHeadersAndBitmaps(e: Engine, g: GenRecords, i: nat, fCapture: bool, fDbHeaderOnly: bool,
                              src: PageSource, cacheMax: int, dbidMax: nat)
    requires EngineOk(e, dbidMax) && i < |g.recs|
    ensures HeadersAndBitmaps(e, StepState(RecordStep(e, g, i, fCapture, fDbHeaderOnly, src, cacheMax, dbidMax)), fCapture)
  {
    var a := ApplyRecord(e, g.recs[i], fCapture, fDbHeaderOnly, src, dbidMax);
    ApplyRecordKeeps(e, g.recs[i], fCapture, fDbHeaderOnly, src, dbidMax);
    if a.err == Success {
      FlushAllMarks(a.e, false, fCapture);
      var e1 := if a.e.cpgCached >= cacheMax then FlushAll(a.e, false) else a.e;
      assert HeadersAndBitmaps(a.e, e1, fCapture);
      HeadersAndBitmapsTrans(e, a.e, e1, fCapture);
      assert StepState(RecordStep(e, g, i, fCapture, fDbHeaderOnly, src, cacheMax, dbidMax)) == e1;
    } else {
      assert StepState(RecordStep(e, g, i, fCapture, fDbHeaderOnly, src, cacheMax, dbidMax)) == a.e;
    }
  }

  /**
   * Over a generation's records, a context's header from the snapshot
   * changes only while applying the oldest generation and only while it
   * has none; and the bitmaps only grow.
   */
  lemma {:induction false} RecordsHeadersAndBitmaps(e: Engine, g: GenRecords, i: nat, fCapture: bool, fDbHeaderOnly: bool,
                                                     src: PageSource, cacheMax: int, dbidMax: nat)
    requires EngineOk(e, dbidMax) && i <= |g.recs|
    ensures HeadersAndBitmaps(e, RecordsFrom(e, g, i, fCapture, fDbHeaderOnly, src, cacheMax, dbidMax).e, fCapture)
    decreases |g.recs| - i
  {
    if i == |g.recs| {
      ReadEndFacts(e, g, fCapture, fDbHeaderOnly, src, cacheMax, dbidMax);
    } else {
      var stop, s, e1 := RecordStepFacts(e, g, i, fCapture, fDbHeaderOnly, src, cacheMax, dbidMax);
      if !stop {
        var r := RecordsFrom(e1, g, i + 1, fCapture, fDbHeaderOnly, src, cacheMax, dbidMax);
        RecordsHeadersAndBitmaps(e1, g, i + 1, fCapture, fDbHeaderOnly, src, cacheMax, dbidMax);
        HeadersAndBitmapsTrans(e, e1, r.e, fCapture);
      }
    }
  }

  /** Only header-only mode stops early with success. */
  lemma StepStopsSuccess(e: Engine, g: GenRecords, i: nat, fCapture: bool, fDbHeaderOnly: bool,
                         src: PageSource, cacheMax: int, dbidMax: nat)
    requires EngineOk(e, dbidMax) && i < |g.recs|
    ensures var st := RecordStep(e, g, i, fCapture, fDbHeaderOnly, src, cacheMax, dbidMax);
      st.Stop? && st.s.err == Success ==> fDbHeaderOnly
  {
  }

  /**
   * A generation applied in full (not header-only) that succeeds has
   * written every staged page and every database header: nothing is left
   * staged. Reading never ends with success: a successful read yields a record.
   */
  lemma {:induction false} RecordsSuccessFlushed(e: Engine, g: GenRecords, i: nat, fCapture: bool,
                                                  src: PageSource, cacheMax: int, dbidMax: nat)
    requires EngineOk(e, dbidMax) && i <= |g.recs|
    ensures var r := RecordsFrom(e, g, i, fCapture, false, src, cacheMax, dbidMax);
      r.err == Success ==>
        && r.e.cpgCached == 0
        && forall j :: 0 <= j < |r.e.dbs| ==> r.e.dbs[j].staged == [] && r.e.dbs[j].hdrOnDisk == r.e.dbs[j].hdr
    decreases |g.recs| - i
  {
    if i == |g.recs| {
      ReadEndFacts(e, g, fCapture, false, src, cacheMax, dbidMax);
    } else {
      var stop, s, e1 := RecordStepFacts(e, g, i, fCapture, false, src, cacheMax, dbidMax);
      if !stop {
        RecordsSuccessFlushed(e1, g, i + 1, fCapture, src, cacheMax, dbidMax);
      }
    }
  }

  /** No page staged beyond the count and no bitmap changed. */
  ghost predicate PagesKept(e: Engine, e': Engine)
  {
    && e'.cpgCached <= e.cpgCached
    && |e'.dbs| == |e.dbs|
    && forall j :: 0 <= j < |e.dbs| ==> e'.dbs[j].captured == e.dbs[j].captured
  }

  /** In header-only mode a step stages no page and changes no bitmap. */
  lemma StepHeaderOnly(e: Engine, g: GenRecords, i: nat, fCapture: bool, src: PageSource, cacheMax: int, dbidMax: nat)
    requires EngineOk(e, dbidMax) && i < |g.recs|
    ensures PagesKept(e, StepState(RecordStep(e, g, i, fCapture, true, src, cacheMax, dbidMax)))
  {
    var a := ApplyRecord(e, g.recs[i], fCapture, true, src, dbidMax);
    ApplyRecordStaging(e, g.recs[i], fCapture, true, src, dbidMax);
    StagedKept(e.dbs, a.e.dbs);
    assert PagesKept(e, a.e);
    if a.err == Success {
      FlushAllMarks(a.e, false, fCapture);
      var e1 := if a.e.cpgCached >= cacheMax then FlushAll(a.e, false) else a.e;
      assert PagesKept(a.e, e1);
      PagesKeptTrans(e, a.e, e1);
      assert StepState(RecordStep(e, g, i, fCapture, true, src, cacheMax, dbidMax)) == e1;
    } else {
      assert StepState(RecordStep(e, g, i, fCapture, true, src, cacheMax, dbidMax)) == a.e;
    }
  }

  /**
   * What one step of the record loop does, with its result named so that
   * the lemmas over the whole loop need not expand the step: it either
   * stops with s or goes on from e1; it keeps the rule on headers and
   * bitmaps; it stops with success only in header-only mode; and in
   * header-only mode it stages no page.
   */
  lemma RecordStepFacts(e: Engine, g: GenRecords, i: nat, fCapture: bool, fDbHeaderOnly: bool,
                        src: PageSource, cacheMax: int, dbidMax: nat)
    returns (stop: bool, s: Stream, e1: Engine)
    requires EngineOk(e, dbidMax) && i < |g.recs|
    ensures !stop ==> EngineOk(e1, dbidMax)
    ensures stop ==> RecordsFrom(e, g, i, fCapture, fDbHeaderOnly, src, cacheMax, dbidMax) == s
    ensures !stop ==> RecordsFrom(e, g, i, fCapture, fDbHeaderOnly, src, cacheMax, dbidMax)
                      == RecordsFrom(e1, g, i + 1, fCapture, fDbHeaderOnly, src, cacheMax, dbidMax)
    ensures HeadersAndBitmaps(e, if stop then s.e else e1, fCapture)
    ensures stop && s.err == Success ==> fDbHeaderOnly
    ensures fDbHeaderOnly ==> PagesKept(e, if stop then s.e else e1)
  {
    var st := RecordStep(e, g, i, fCapture, fDbHeaderOnly, src, cacheMax, dbidMax);
    RecordsFromStep(e, g, i, fCapture, fDbHeaderOnly, src, cacheMax, dbidMax);
    StepHeadersAndBitmaps(e, g, i, fCapture, fDbHeaderOnly, src, cacheMax, dbidMax);
    StepStopsSuccess(e, g, i, fCapture, fDbHeaderOnly, src, cacheMax, dbidMax);
    if fDbHeaderOnly {
      StepHeaderOnly(e, g, i, fCapture, src, cacheMax, dbidMax);
    }
    if st.Stop? {
      stop, s, e1 := true, st.s, st.s.e;
    } else {
      stop, s, e1 := false, Stream(Success, st.e), st.e;
    }
  }

  /**
   * What the end of the records does: it keeps the rule on headers and
   * bitmaps, and outside header-only mode a success leaves every page and
   * header written.
   */
  lemma ReadEndFacts(e: Engine, g: GenRecords, fCapture: bool, fDbHeaderOnly: bool,
                     src: PageSource, cacheMax: int, dbidMax: nat)
    requires EngineOk(e, dbidMax)
    ensures var r := RecordsFrom(e, g, |g.recs|, fCapture, fDbHeaderOnly, src, cacheMax, dbidMax);
      && HeadersAndBitmaps(e, r.e, fCapture)
      && (r.err == Success && !fDbHeaderOnly ==>
            && r.e.cpgCached == 0
            && forall j :: 0 <= j < |r.e.dbs| ==> r.e.dbs[j].staged == [] && r.e.dbs[j].hdrOnDisk == r.e.dbs[j].hdr)
  {
    if g.readEnd == NoMoreRecords && !fDbHeaderOnly {
      var f := FlushAll(e, true);
      assert RecordsFrom(e, g, |g.recs|, fCapture, fDbHeaderOnly, src, cacheMax, dbidMax) == Stream(Success, f);
      FlushAllMarks(e, true, fCapture);
      forall j | 0 <= j < |f.dbs| ensures f.dbs[j].staged == [] && f.dbs[j].hdrOnDisk == f.dbs[j].hdr {
        assert f.dbs[j] == Flushed(e.dbs[j], true);
      }
    } else {
      assert RecordsFrom(e, g, |g.recs|, fCapture, fDbHeaderOnly, src, cacheMax, dbidMax) == Stream(g.readEnd, e);
    }
  }

  /** A flush keeps the headers from the snapshot and the bitmaps, and clears the staged count. */
  lemma FlushAllMarks(e: Engine, fFlushDbHdr: bool, fCapture: bool)
    ensures HeadersAndBitmaps(e, FlushAll(e, fFlushDbHdr), fCapture)
    ensures PagesKept(e, FlushAll(e, fFlushDbHdr))
  {
  }

  lemma PagesKeptTrans(a: Engine, b: Engine, c: Engine)
    requires PagesKept(a, b) && PagesKept(b, c)
    ensures PagesKept(a, c)
  {
  }

  lemma HeadersAndBitmapsTrans(a: Engine, b: Engine, c: Engine, fCapture: bool)
    requires HeadersAndBitmaps(a, b, fCapture) && HeadersAndBitmaps(b, c, fCapture)
    ensures HeadersAndBitmaps(a, c, fCapture)
  {
  }

  /** In header-only mode no page is staged and no bitmap changes. */
  lemma {:induction false} RecordsHeaderOnlyStagesNothing(e: Engine, g: GenRecords, i: nat, fCapture: bool,
                                                           src: PageSource, cacheMax: int, dbidMax: nat)
    requires EngineOk(e, dbidMax) && i <= |g.recs|
    ensures PagesKept(e, RecordsFrom(e, g, i, fCapture, true, src, cacheMax, dbidMax).e)
    decreases |g.recs| - i
  {
    if i == |g.recs| {
      assert RecordsFrom(e, g, i, fCapture, true, src, cacheMax, dbidMax) == Stream(g.readEnd, e);
    } else {
      var stop, s, e1 := RecordStepFacts(e, g, i, fCapture, true, src, cacheMax, dbidMax);
      if !stop {
        var r := RecordsFrom(e1, g, i + 1, fCapture, true, src, cacheMax, dbidMax);
        RecordsHeaderOnlyStagesNothing(e1, g, i + 1, fCapture, src, cacheMax, dbidMax);
        PagesKeptTrans(e, e1, r.e);
      }
    }
  }
}
