// The per-database revert context (CRBSDatabaseRevertContext): the database
// header it holds, the bitmap of pages already captured in the generation
// being applied, the pages staged for writing, and the operations the revert
// applies to one database at a time. A context is a value here; the revert
// context (RbsRevert.RevertContext) owns a sequence of them.
module RbsRevertDb {
  import opened Jet
  import opened Bytes
  import opened RbsGen

  /** ULONG counters of the database header wrap at 2^32. */
  const U32: nat := 0x1_0000_0000

  /** JET_revertstate*: how far a revert got, as its checkpoint file records it. */
  datatype RevertState = StateNone | InProgress | CopyingLogs | Completed

  /**
   * The DBFILEHDR fields the revert reads or writes. revertFormatOk says
   * whether the database format version has the apply-revert-snapshot feature.
   */
  datatype DbHeader = DbHeader(
    signDb: Signature,
    signDbHdrFlush: Signature,
    signRBSHdrFlush: Signature,
    dbstate: DbState,
    revertFormatOk: bool,
    revertCount: nat,
    revertPageCount: nat,
    logtimeRevertFrom: LogTime,
    logtimeRevertTo: LogTime,
    lGenMinRequired: int,
    lGenMaxRequired: int,
    lGenLastConsistent: int)

  /** What a context holds before its header was read. */
  const BlankHeader := DbHeader(NullSignature, NullSignature, NullSignature, OtherState(0), false,
                                0, 0, LogTime(0), LogTime(0), 0, 0, 0)

  /** A CPagePointer: a page number and the page image staged for it. */
  datatype StagedPage = StagedPage(pgno: int, image: seq<byte>)

  /**
   * One database being reverted. captured is the sparse bitmap m_psbmDbPages,
   * staged the page array m_rgRBSDbPage, hdrFromRbs the header taken from the
   * snapshot (m_pdbfilehdrFromRBS), hdrOnDisk the header as last written to
   * the database file, and written the page images the revert wrote there.
   */
  datatype DbRevert = DbRevert(
    name: seq<char>,
    hdr: DbHeader,
    hdrOnDisk: DbHeader,
    hdrFromRbs: Option<DbHeader>,
    dbidCurrent: int,
    dbtimePrevDirtied: int,
    captured: set<int>,
    staged: seq<StagedPage>,
    written: map<int, seq<byte>>)

  /**
   * The database the j-th context is for. Facts comparing the names of two
   * context sequences go through it, so that they are used only where a
   * proof names NameAt.
   */
  function NameAt(dbs: seq<DbRevert>, j: int): seq<char>
    requires 0 <= j < |dbs|
  {
    dbs[j].name
  }

  /**
   * The page number of the i-th page of s. Distinct compares page numbers
   * through it, so that its two-index quantifier is used only where a proof
   * names PgnoAt.
   */
  function PgnoAt(s: seq<StagedPage>, i: int): int
    requires 0 <= i < |s|
  {
    s[i].pgno
  }

  /** No page number is staged twice. */
  predicate Distinct(s: seq<StagedPage>)
  {
    forall i, j :: 0 <= i < j < |s| ==> PgnoAt(s, i) != PgnoAt(s, j)
  }

  /** Two different positions of a sequence without repeats hold different page numbers. */
  lemma DistinctAt(s: seq<StagedPage>, i: int, j: int)
    requires Distinct(s) && 0 <= i < |s| && 0 <= j < |s| && i != j
    ensures s[i].pgno != s[j].pgno
  {
    if i < j {
      assert PgnoAt(s, i) != PgnoAt(s, j);
    } else {
      assert PgnoAt(s, j) != PgnoAt(s, i);
    }
  }

  /** A slice of a sequence without repeats has none. */
  lemma DistinctSlice(s: seq<StagedPage>, lo: int, hi: int)
    requires Distinct(s) && 0 <= lo <= hi <= |s|
    ensures Distinct(s[lo..hi])
  {
    forall i, j | 0 <= i < j < hi - lo
      ensures PgnoAt(s[lo..hi], i) != PgnoAt(s[lo..hi], j)
    {
      DistinctAt(s, lo + i, lo + j);
    }
  }

  /**
   * The staging invariant: every staged page is marked in the bitmap and no
   * page is staged twice, so a page is staged at most once per generation.
   */
  predicate Staging(db: DbRevert)
  {
    && Distinct(db.staged)
    && (forall i :: 0 <= i < |db.staged| ==> db.staged[i].pgno in db.captured)
  }

  // ---------------------------------------------------------------------
  // ErrRBSDBRCInit
  // ---------------------------------------------------------------------

  datatype InitResult = InitResult(err: Code, db: DbRevert)

  /** The database behind an attach slot is the one the snapshot was taken of. */
  predicate MatchesSnapshot(h: DbHeader, slot: AttachInfo, signRBSHdrFlush: Signature)
  {
    && h.signDb == slot.signDb
    && CheckForDbConsistency(h.signDbHdrFlush, h.signRBSHdrFlush, slot.signDbHdrFlush, signRBSHdrFlush)
  }

  /**
   * ErrRBSDBRCInit for the database of one attach slot, given what opening the
   * file and reading its shadowed header returned; headerCorrupt stands for
   * FErrIsDbHeaderCorruption. A new context starts with no dbid (dbidMax) and
   * an empty bitmap. On an error the context is still returned, as the source
   * has already linked it into the revert context.
   */
  function DbrcInit(slot: AttachInfo, signRBSHdrFlush: Signature, read: Result<DbHeader>,
                    headerCorrupt: Code -> bool, dbidMax: nat): (r: InitResult)
    requires read.Fail? ==> read.error != Success
    ensures r.db.name == slot.name && r.db.captured == {} && r.db.staged == []
    ensures r.db.hdrFromRbs == None && r.db.dbidCurrent == dbidMax && r.db.written == map[]
    ensures r.err == Success <==>
              read.Ok? && MatchesSnapshot(read.value, slot, signRBSHdrFlush)
              && (read.value.dbstate == RevertInProgress || read.value.revertFormatOk)
    ensures r.err == Success ==> r.db.hdr == read.value && r.db.hdrOnDisk == read.value
    ensures read.Fail? && (headerCorrupt(read.error) || read.error == FileIOBeyondEOF) ==> r.err == DatabaseCorrupted
    ensures read.Fail? && !headerCorrupt(read.error) && read.error != FileIOBeyondEOF ==> r.err == read.error
    ensures read.Ok? && !MatchesSnapshot(read.value, slot, signRBSHdrFlush) ==> r.err == RBSRCInvalidRBS
  {
    var blank := DbRevert(slot.name, BlankHeader, BlankHeader, None, dbidMax, 0, {}, [], map[]);
    if read.Fail? then
      InitResult(if headerCorrupt(read.error) || read.error == FileIOBeyondEOF then DatabaseCorrupted else read.error, blank)
    else
      var h := read.value;
      var db := blank.(hdr := h, hdrOnDisk := h);
      if !MatchesSnapshot(h, slot, signRBSHdrFlush) then InitResult(RBSRCInvalidRBS, db)
      else if h.dbstate != RevertInProgress && !h.revertFormatOk then InitResult(RBSRCInvalidDbFormatVersion, db)
      else InitResult(Success, db)
  }

  // ---------------------------------------------------------------------
  // ErrSetDbstateForRevert
  // ---------------------------------------------------------------------

  datatype DbOutcome = DbOutcome(err: Code, db: DbRevert)

  /**
   * ErrSetDbstateForRevert: a revert that the checkpoint says has begun needs
   * a database already in the revert-in-progress state; otherwise a database
   * not yet in that state enters it, counting one more revert and restarting
   * the reverted-page count, and the target time is recorded. now is the
   * clock, writeErr what writing and flushing the header returned.
   */
  function SetDbstateForRevert(db: DbRevert, chkState: RevertState, revertTo: LogTime, now: LogTime,
                               writeErr: Code): (r: DbOutcome)
    ensures chkState != StateNone && db.hdr.dbstate != RevertInProgress ==> r == DbOutcome(RBSRCBadDbState, db)
    ensures chkState == StateNone || db.hdr.dbstate == RevertInProgress ==>
      && r.err == writeErr
      && r.db.hdr.dbstate == RevertInProgress
      && r.db.hdr.logtimeRevertTo == revertTo
      && (db.hdr.dbstate != RevertInProgress ==>
            r.db.hdr.revertCount == (db.hdr.revertCount + 1) % U32
            && r.db.hdr.logtimeRevertFrom == now && r.db.hdr.revertPageCount == 0)
      && (db.hdr.dbstate == RevertInProgress ==>
            r.db.hdr == db.hdr.(logtimeRevertTo := revertTo))
      && r.db.hdrOnDisk == (if writeErr == Success then r.db.hdr else db.hdrOnDisk)
      && r.db == db.(hdr := r.db.hdr, hdrOnDisk := r.db.hdrOnDisk)
  {
    if chkState != StateNone && db.hdr.dbstate != RevertInProgress then DbOutcome(RBSRCBadDbState, db)
    else
      var h1 :=
        if db.hdr.dbstate != RevertInProgress then
          db.hdr.(dbstate := RevertInProgress, revertCount := (db.hdr.revertCount + 1) % U32,
                  logtimeRevertFrom := now, revertPageCount := 0)
        else db.hdr;
      var h2 := h1.(logtimeRevertTo := revertTo);
      DbOutcome(writeErr, db.(hdr := h2, hdrOnDisk := if writeErr == Success then h2 else db.hdrOnDisk))
  }

  /**
   * A revert that resumes (the checkpoint now records it in progress) does not
   * count the revert again: the count and start time stay as the first call set them.
   */
  lemma ResumedRevertCountsOnce(db: DbRevert, to1: LogTime, now1: LogTime, w1: Code,
                                to2: LogTime, now2: LogTime, w2: Code)
    requires db.hdr.dbstate != RevertInProgress
    ensures var r1 := SetDbstateForRevert(db, StateNone, to1, now1, w1);
            var r2 := SetDbstateForRevert(r1.db, InProgress, to2, now2, w2);
            && r2.err == w2
            && r2.db.hdr.revertCount == (db.hdr.revertCount + 1) % U32
            && r2.db.hdr.logtimeRevertFrom == now1
            && r2.db.hdr.logtimeRevertTo == to2
  {
  }

  // ---------------------------------------------------------------------
  // The captured-page bitmap, the page array and the header from the snapshot
  // ---------------------------------------------------------------------

  /** ErrResetSbmDbPages: a blank bitmap in which no page is captured. */
  function ResetSbmDbPages(db: DbRevert): (r: DbRevert)
    ensures forall pgno :: !(pgno in r.captured)
    ensures r.staged == db.staged && r.hdr == db.hdr && r.hdrFromRbs == db.hdrFromRbs
    ensures r == db.(captured := r.captured)
    ensures db.staged == [] ==> Staging(r)
  {
    db.(captured := {})
  }

  /** FPageAlreadyCaptured: the page's bit is set. */
  predicate PageAlreadyCaptured(db: DbRevert, pgno: int)
  {
    pgno in db.captured
  }

  /** ErrAddPage: append the page to the page array, then set its bit. */
  function AddPage(db: DbRevert, pgno: int, image: seq<byte>): (r: DbRevert)
    ensures r.staged == db.staged + [StagedPage(pgno, image)]
    ensures r.captured == db.captured + {pgno}
    ensures r == db.(staged := r.staged, captured := r.captured)
    ensures Staging(db) && !PageAlreadyCaptured(db, pgno) ==> Staging(r)
  {
    AddPageStaging(db, pgno, image);
    db.(staged := db.staged + [StagedPage(pgno, image)], captured := db.captured + {pgno})
  }

  /** A page whose bit is clear is not staged yet, so appending it keeps the page numbers distinct. */
  lemma AddPageStaging(db: DbRevert, pgno: int, image: seq<byte>)
    ensures var r := db.(staged := db.staged + [StagedPage(pgno, image)], captured := db.captured + {pgno});
      Staging(db) && !PageAlreadyCaptured(db, pgno) ==> Staging(r)
  {
    if Staging(db) && !PageAlreadyCaptured(db, pgno) {
      var s := db.staged + [StagedPage(pgno, image)];
      forall i, j | 0 <= i < j < |s|
        ensures PgnoAt(s, i) != PgnoAt(s, j)
      {
        if j < |db.staged| {
          DistinctAt(db.staged, i, j);
        }
      }
    }
  }

  /** The result of ErrRBSCaptureDbHdrFromRBS and whether it captured the given header. */
  datatype Capture = Capture(db: DbRevert, given: bool)

  /** ErrRBSCaptureDbHdrFromRBS: the first header offered is kept, later ones are ignored. */
  function CaptureDbHdrFromRbs(db: DbRevert, h: DbHeader): (r: Capture)
    ensures db.hdrFromRbs.Some? ==> r == Capture(db, false)
    ensures db.hdrFromRbs.None? ==> r.given && r.db == db.(hdrFromRbs := Some(h))
  {
    if db.hdrFromRbs.Some? then Capture(db, false) else Capture(db.(hdrFromRbs := Some(h)), true)
  }

  /** Capturing twice keeps the first header. */
  lemma CaptureKeepsFirst(db: DbRevert, h1: DbHeader, h2: DbHeader)
    requires db.hdrFromRbs.None?
    ensures CaptureDbHdrFromRbs(CaptureDbHdrFromRbs(db, h1).db, h2).db.hdrFromRbs == Some(h1)
    ensures !CaptureDbHdrFromRbs(CaptureDbHdrFromRbs(db, h1).db, h2).given
  {
  }

  // ---------------------------------------------------------------------
  // Sorting the page array (ICRBSDatabaseRevertContextCmpPgRec)
  // ---------------------------------------------------------------------

  /** The comparator: -1 when the first page number is lower, +1 otherwise (the two are never equal). */
  function CmpPgRec(a: StagedPage, b: StagedPage): (c: int)
    ensures c == -1 <==> a.pgno < b.pgno
    ensures c == 1 <==> a.pgno >= b.pgno
  {
    if a.pgno < b.pgno then -1 else 1
  }

  /** Insert a page before the first entry the comparator does not put it after. */
  function Insert(p: StagedPage, s: seq<StagedPage>): seq<StagedPage>
  {
    if |s| == 0 || CmpPgRec(p, s[0]) < 0 then [p] + s else [s[0]] + Insert(p, s[1..])
  }

  /** The page array sorted with the comparator (the sort CArray::Sort performs). */
  function SortByPgno(s: seq<StagedPage>): seq<StagedPage>
  {
    if |s| == 0 then [] else Insert(s[0], SortByPgno(s[1..]))
  }

  /** Page numbers rise strictly along the sequence. */
  predicate Increasing(s: seq<StagedPage>)
  {
    forall i, j :: 0 <= i < j < |s| ==> s[i].pgno < s[j].pgno
  }

  lemma {:induction false} InsertPerm(p: StagedPage, s: seq<StagedPage>)
    ensures multiset(Insert(p, s)) == multiset{p} + multiset(s)
    ensures |Insert(p, s)| == |s| + 1
    decreases |s|
  {
    if |s| == 0 || CmpPgRec(p, s[0]) < 0 {
    } else {
      InsertPerm(p, s[1..]);
      assert s == [s[0]] + s[1..];
    }
  }

  lemma {:induction false} InsertIncreasing(p: StagedPage, s: seq<StagedPage>)
    requires Increasing(s)
    requires forall k :: 0 <= k < |s| ==> s[k].pgno != p.pgno
    ensures Increasing(Insert(p, s))
    decreases |s|
  {
    if |s| == 0 || CmpPgRec(p, s[0]) < 0 {
    } else {
      var t := Insert(p, s[1..]);
      InsertIncreasing(p, s[1..]);
      InsertPerm(p, s[1..]);
      forall j | 0 <= j < |t|
        ensures s[0].pgno < t[j].pgno
      {
        assert t[j] in multiset(t);
        assert t[j] == p || t[j] in multiset(s[1..]);
        if t[j] != p {
          var k :| 0 <= k < |s[1..]| && s[1..][k] == t[j];
          assert s[k + 1] == t[j];
        }
      }
    }
  }

  /**
   * Sorting permutes the staged pages into strictly rising page-number order,
   * given that no page number is staged twice (the comparator's assertion).
   */
  lemma {:induction false} SortByPgnoSpec(s: seq<StagedPage>)
    requires Distinct(s)
    ensures multiset(SortByPgno(s)) == multiset(s)
    ensures |SortByPgno(s)| == |s|
    ensures Increasing(SortByPgno(s))
    decreases |s|
  {
    if |s| > 0 {
      var rest := SortByPgno(s[1..]);
      DistinctSlice(s, 1, |s|);
      assert s[1..|s|] == s[1..];
      SortByPgnoSpec(s[1..]);
      InsertPerm(s[0], rest);
      assert s == [s[0]] + s[1..];
      forall k | 0 <= k < |rest|
        ensures rest[k].pgno != s[0].pgno
      {
        assert rest[k] in multiset(s[1..]);
        var m :| 0 <= m < |s[1..]| && s[1..][m] == rest[k];
        assert s[m + 1] == rest[k];
        DistinctAt(s, 0, m + 1);
      }
      InsertIncreasing(s[0], rest);
    }
  }

  // ---------------------------------------------------------------------
  // ErrFlushDBPages
  // ---------------------------------------------------------------------

  /** The database file's pages after writing the given pages in order. */
  function WriteAll(w: map<int, seq<byte>>, pages: seq<StagedPage>): map<int, seq<byte>>
    decreases |pages|
  {
    if |pages| == 0 then w
    else WriteAll(w, pages[..|pages| - 1])[pages[|pages| - 1].pgno := pages[|pages| - 1].image]
  }

  /**
   * With distinct page numbers every page ends up with its own image and all
   * other pages of the file keep theirs, whatever the write order.
   */
  lemma {:induction false} WriteAllContents(w: map<int, seq<byte>>, pages: seq<StagedPage>)
    requires Distinct(pages)
    ensures forall k :: 0 <= k < |pages| ==>
              pages[k].pgno in WriteAll(w, pages) && WriteAll(w, pages)[pages[k].pgno] == pages[k].image
    ensures forall p :: (forall k :: 0 <= k < |pages| ==> pages[k].pgno != p) ==>
              (p in WriteAll(w, pages) <==> p in w) && (p in w ==> WriteAll(w, pages)[p] == w[p])
    decreases |pages|
  {
    if |pages| > 0 {
      var n := |pages| - 1;
      DistinctSlice(pages, 0, n);
      WriteAllContents(w, pages[..n]);
      assert forall k :: 0 <= k < n ==> pages[..n][k] == pages[k];
      forall k | 0 <= k < n
        ensures pages[k].pgno != pages[n].pgno
      {
        DistinctAt(pages, k, n);
      }
    }
  }

  /**
   * The context after ErrFlushDBPages: every staged page written in page
   * order and counted in the header's reverted-page count, the page array
   * emptied, the header written when asked. The bitmap is left as it was.
   */
  function Flushed(db: DbRevert, fFlushDbHdr: bool): DbRevert
  {
    var h := db.hdr.(revertPageCount := AddWrap(db.hdr.revertPageCount, |db.staged|));
    db.(hdr := h, staged := [], written := WriteAll(db.written, SortByPgno(db.staged)),
        hdrOnDisk := if fFlushDbHdr then h else db.hdrOnDisk)
  }

  /**
   * What a flush does to a context: the file holds exactly the staged images
   * at their pages and nothing else changed there, and the bitmap still marks
   * every flushed page, so none of them can be staged again this generation.
   */
  lemma FlushedContents(db: DbRevert, fFlushDbHdr: bool)
    requires Staging(db)
    ensures var r := Flushed(db, fFlushDbHdr);
      && Staging(r) && r.staged == [] && r.captured == db.captured
      && r.name == db.name && r.hdrFromRbs == db.hdrFromRbs && r.dbidCurrent == db.dbidCurrent
      && (forall k :: 0 <= k < |db.staged| ==>
            db.staged[k].pgno in r.written && r.written[db.staged[k].pgno] == db.staged[k].image
            && db.staged[k].pgno in r.captured)
      && (forall p :: p !in db.captured ==>
            (p in r.written <==> p in db.written) && (p in db.written ==> r.written[p] == db.written[p]))
  {
    var sorted := SortByPgno(db.staged);
    SortByPgnoSpec(db.staged);
    assert Distinct(sorted);
    WriteAllContents(db.written, sorted);
    forall k | 0 <= k < |db.staged|
      ensures exists m :: 0 <= m < |sorted| && sorted[m] == db.staged[k]
    {
      assert db.staged[k] in multiset(sorted);
    }
    forall m | 0 <= m < |sorted|
      ensures sorted[m].pgno in db.captured
    {
      assert sorted[m] in multiset(db.staged);
    }
  }

  /** A ULONG counter a after n increments. */
  function AddWrap(a: nat, n: nat): (r: nat)
    ensures r < U32
  {
    (a + n) % U32
  }

  /** Writing one more page of s after its first i. */
  lemma WriteAllStep(w: map<int, seq<byte>>, s: seq<StagedPage>, i: nat)
    requires i < |s|
    ensures WriteAll(w, s[..i + 1]) == WriteAll(w, s[..i])[s[i].pgno := s[i].image]
  {
    assert s[..i + 1][..i] == s[..i];
  }

  /** One more increment of a ULONG counter. */
  lemma WrapStep(a: nat, n: nat)
    ensures AddWrap(a, n + 1) == (AddWrap(a, n) + 1) % U32
  {
  }

  /** The page numbers of a page sequence, in order. */
  function Pgnos(s: seq<StagedPage>): (r: seq<int>)
    ensures |r| == |s| && forall k :: 0 <= k < |s| ==> r[k] == s[k].pgno
  {
    if |s| == 0 then [] else [s[0].pgno] + Pgnos(s[1..])
  }

  /** The write order visits every staged page, in strictly rising page order. */
  lemma WriteOrder(s: seq<StagedPage>)
    requires Distinct(s)
    ensures |Pgnos(SortByPgno(s))| == |s|
    ensures forall i, j :: 0 <= i < j < |s| ==> Pgnos(SortByPgno(s))[i] < Pgnos(SortByPgno(s))[j]
    ensures forall k :: 0 <= k < |s| ==> s[k].pgno in Pgnos(SortByPgno(s))
  {
    var sorted := SortByPgno(s);
    SortByPgnoSpec(s);
    forall k | 0 <= k < |s|
      ensures s[k].pgno in Pgnos(sorted)
    {
      assert s[k] in multiset(sorted);
      var m :| 0 <= m < |sorted| && sorted[m] == s[k];
      assert Pgnos(sorted)[m] == s[k].pgno;
    }
  }

  /**
   * What the calls of ErrFlushDBPages return: the pages whose write fails
   * (sizing the file or issuing the write), whether the ErrIOIssue after the
   * writes fails, whether clearing the page array runs out of memory
   * (ErrSetEntry, ErrSetSize), whether the flush map's ErrFlushAllSections
   * fails, whether writing the database header fails, whether the final
   * ErrUtilFlushFileBuffers fails, and the error a failing I/O call returns.
   */
  datatype FlushFaults = FlushFaults(pageFails: set<int>, issueFails: bool, arrayFails: bool,
                                     mapFails: bool, hdrFails: bool, syncFails: bool, err: Code)

  /** Every call succeeds (err is then never returned). */
  const NoFaults := FlushFaults({}, false, false, false, false, false, Other(-1))

  /** The position of the first page of s whose write fails, |s| when none does. */
  function FirstFailing(s: seq<StagedPage>, fails: set<int>): (k: nat)
    ensures k <= |s| && (k < |s| ==> s[k].pgno in fails)
    ensures forall i :: 0 <= i < k ==> s[i].pgno !in fails
  {
    if |s| == 0 then 0 else if s[0].pgno in fails then 0 else 1 + FirstFailing(s[1..], fails)
  }

  /** FirstFailing is the one position before which no write fails and at which one does (or the end). */
  lemma {:induction false} FirstFailingAt(s: seq<StagedPage>, fails: set<int>, k: nat)
    requires k <= |s| && (k < |s| ==> s[k].pgno in fails)
    requires forall i :: 0 <= i < k ==> s[i].pgno !in fails
    ensures FirstFailing(s, fails) == k
    decreases |s|
  {
    if |s| > 0 && k > 0 {
      FirstFailingAt(s[1..], fails, k - 1);
    }
  }

  /**
   * The context after the first k pages of the write order were written,
   * each counted in the header's reverted-page count, and nothing else: the
   * page array is kept and the header is not written.
   */
  function WrittenUpTo(db: DbRevert, k: nat): DbRevert
    requires k <= |SortByPgno(db.staged)|
  {
    db.(hdr := db.hdr.(revertPageCount := AddWrap(db.hdr.revertPageCount, k)),
        written := WriteAll(db.written, SortByPgno(db.staged)[..k]))
  }

  /**
   * A flush that stops at a page write that fails has written exactly the
   * staged pages whose page number is below the failing one: each of them
   * with its image, none of them a page whose write fails, and every other
   * page of the file as it was.
   */
  lemma FailedFlushContents(db: DbRevert, fails: set<int>)
    requires Staging(db)
    ensures var sorted := SortByPgno(db.staged); var k := FirstFailing(sorted, fails);
      k < |sorted| ==>
        var r := WrittenUpTo(db, k); var stop := sorted[k].pgno;
        && stop in fails && r.staged == db.staged
        && (exists i :: 0 <= i < |db.staged| && db.staged[i].pgno == stop)
        && (forall i :: 0 <= i < |db.staged| && db.staged[i].pgno < stop ==>
              db.staged[i].pgno !in fails && db.staged[i].pgno in r.written
              && r.written[db.staged[i].pgno] == db.staged[i].image)
        && (forall p :: (forall i :: 0 <= i < |db.staged| && db.staged[i].pgno < stop ==> db.staged[i].pgno != p) ==>
              (p in r.written <==> p in db.written) && (p in db.written ==> r.written[p] == db.written[p]))
  {
    var sorted := SortByPgno(db.staged);
    var k := FirstFailing(sorted, fails);
    if k < |sorted| {
      SortByPgnoSpec(db.staged);
      PrefixIsBelow(db.staged, sorted, k);
      assert sorted[k] in multiset(db.staged);
      PrefixWrites(db.staged, sorted, k, db.written, fails);
    }
  }

  /**
   * Writing the first k pages of a strictly rising sequence whose prefix is
   * the staged pages below the page at k, none of them failing.
   */
  lemma PrefixWrites(staged: seq<StagedPage>, sorted: seq<StagedPage>, k: nat, w: map<int, seq<byte>>, fails: set<int>)
    requires Increasing(sorted) && k < |sorted|
    requires forall i :: 0 <= i < |staged| && staged[i].pgno < sorted[k].pgno ==> staged[i] in sorted[..k]
    requires forall m :: 0 <= m < k ==> sorted[m] in staged && sorted[m].pgno !in fails
    ensures var stop := sorted[k].pgno; var written := WriteAll(w, sorted[..k]);
      && (forall i :: 0 <= i < |staged| && staged[i].pgno < stop ==>
            staged[i].pgno !in fails && staged[i].pgno in written && written[staged[i].pgno] == staged[i].image)
      && (forall p :: (forall i :: 0 <= i < |staged| && staged[i].pgno < stop ==> staged[i].pgno != p) ==>
            (p in written <==> p in w) && (p in w ==> written[p] == w[p]))
  {
    var stop := sorted[k].pgno;
    var pages := sorted[..k];
    DistinctOfIncreasing(sorted);
    DistinctSlice(sorted, 0, k);
    assert sorted[0..k] == pages;
    WriteAllContents(w, pages);
    forall i | 0 <= i < |staged| && staged[i].pgno < stop
      ensures staged[i].pgno !in fails && staged[i].pgno in WriteAll(w, pages)
      ensures WriteAll(w, pages)[staged[i].pgno] == staged[i].image
    {
      var m :| 0 <= m < k && pages[m] == staged[i];
    }
    forall p | forall i :: 0 <= i < |staged| && staged[i].pgno < stop ==> staged[i].pgno != p
      ensures (p in WriteAll(w, pages) <==> p in w) && (p in w ==> WriteAll(w, pages)[p] == w[p])
    {
      forall m | 0 <= m < |pages|
        ensures pages[m].pgno != p
      {
        var i :| 0 <= i < |staged| && staged[i] == pages[m];
      }
    }
  }

  /**
   * In a sorted permutation of the staged pages, the pages before position k
   * are exactly the staged pages whose page number is below the one at k.
   */
  lemma PrefixIsBelow(staged: seq<StagedPage>, sorted: seq<StagedPage>, k: nat)
    requires multiset(sorted) == multiset(staged) && Increasing(sorted) && k < |sorted|
    ensures forall i :: 0 <= i < |staged| && staged[i].pgno < sorted[k].pgno ==> staged[i] in sorted[..k]
    ensures forall m :: 0 <= m < k ==> sorted[m] in staged && sorted[m].pgno < sorted[k].pgno
  {
    forall i | 0 <= i < |staged| && staged[i].pgno < sorted[k].pgno
      ensures staged[i] in sorted[..k]
    {
      assert staged[i] in multiset(sorted);
      var m :| 0 <= m < |sorted| && sorted[m] == staged[i];
      assert m < k;
      assert sorted[..k][m] == staged[i];
    }
    forall m | 0 <= m < k
      ensures sorted[m] in staged
    {
      assert sorted[m] in multiset(staged);
    }
  }

  /** Strictly rising page numbers repeat none. */
  lemma DistinctOfIncreasing(s: seq<StagedPage>)
    requires Increasing(s)
    ensures Distinct(s)
  {
    forall i, j | 0 <= i < j < |s|
      ensures PgnoAt(s, i) != PgnoAt(s, j)
    {
    }
  }

  /** What ErrFlushDBPages returns and leaves behind. */
  datatype FlushOutcome = FlushOutcome(err: Code, db: DbRevert)

  /**
   * ErrFlushDBPages as a function of the faults its calls meet: the first
   * call that fails ends it with that call's error. A failing page write
   * leaves the pages before it written and the array kept, and so does a
   * failing ErrIOIssue once every page is written. Running out of memory
   * while clearing the array returns JET_errOutOfMemory with the images
   * freed. A failure after that (flushing the flush map, writing the header
   * when asked, the final flush of the file buffers) leaves every page
   * written and the array freed, and the header unwritten unless only the
   * final flush failed.
   */
  function FlushResult(db: DbRevert, fFlushDbHdr: bool, faults: FlushFaults): FlushOutcome
    requires Staging(db)
  {
    var sorted := SortByPgno(db.staged);
    var k := FirstFailing(sorted, faults.pageFails);
    if k < |sorted| then FlushOutcome(faults.err, WrittenUpTo(db, k))
    else if faults.issueFails then FlushOutcome(faults.err, WrittenUpTo(db, k))
    else if faults.arrayFails then FlushOutcome(OutOfMemory, Flushed(db, false))
    else if faults.mapFails || (fFlushDbHdr && faults.hdrFails) then FlushOutcome(faults.err, Flushed(db, false))
    else if faults.syncFails then FlushOutcome(faults.err, Flushed(db, fFlushDbHdr))
    else FlushOutcome(Success, Flushed(db, fFlushDbHdr))
  }

  /**
   * A flush succeeds exactly when no call fails, and then leaves the context
   * Flushed; a failure returns the failing call's error, JET_errOutOfMemory
   * when the first to fail is clearing the page array. A failure before the
   * array is cleared leaves every staged page staged.
   */
  lemma FlushResultSucceeds(db: DbRevert, fFlushDbHdr: bool, faults: FlushFaults)
    requires Staging(db) && faults.err != Success
    ensures var o := FlushResult(db, fFlushDbHdr, faults);
      var pagesOk := forall i :: 0 <= i < |db.staged| ==> db.staged[i].pgno !in faults.pageFails;
      && (o.err == Success <==>
            && pagesOk && !faults.issueFails && !faults.arrayFails
            && !faults.mapFails && !(fFlushDbHdr && faults.hdrFails) && !faults.syncFails)
      && (o.err != Success ==> o.err == if pagesOk && !faults.issueFails && faults.arrayFails then OutOfMemory else faults.err)
      && (!pagesOk || faults.issueFails ==> o.db.staged == db.staged)
      && (o.err == Success ==> o.db == Flushed(db, fFlushDbHdr))
  {
    var sorted := SortByPgno(db.staged);
    SortByPgnoSpec(db.staged);
    var k := FirstFailing(sorted, faults.pageFails);
    if k < |sorted| {
      assert sorted[k] in multiset(db.staged);
    } else {
      forall i | 0 <= i < |db.staged|
        ensures db.staged[i].pgno !in faults.pageFails
      {
        assert db.staged[i] in multiset(sorted);
      }
    }
  }

  /** When no call fails, the flush succeeds and leaves the context Flushed. */
  lemma FlushResultNoFaults(db: DbRevert, fFlushDbHdr: bool)
    requires Staging(db)
    ensures FlushResult(db, fFlushDbHdr, NoFaults) == FlushOutcome(Success, Flushed(db, fFlushDbHdr))
  {
    var sorted := SortByPgno(db.staged);
    assert FirstFailing(sorted, {}) == |sorted|;
  }

  /**
   * ErrFlushDBPages: sort the page array by page number, write each page in
   * that order (each write counts one reverted page), free the array, flush
   * the flush map, write the header when asked and flush the file buffers,
   * as FlushResult says. order lists the page numbers written, in rising
   * order; cpgReverted is the number of pages flushed, set only on success.
   * Writes complete at once.
   */
  method FlushDbPages(db: DbRevert, fFlushDbHdr: bool, faults: FlushFaults)
    returns (err: Code, r: DbRevert, cpgReverted: nat, order: seq<int>)
    requires Staging(db) && faults.err != Success
    ensures FlushOutcome(err, r) == FlushResult(db, fFlushDbHdr, faults)
    ensures cpgReverted == if err == Success then |db.staged| else 0
    ensures order == Pgnos(SortByPgno(db.staged))[..FirstFailing(SortByPgno(db.staged), faults.pageFails)]
    ensures forall i, j :: 0 <= i < j < |order| ==> order[i] < order[j]
  {
    var sorted := SortByPgno(db.staged);
    SortByPgnoSpec(db.staged);
    var k, written, count;
    k, written, count, order := WritePages(db.written, db.hdr.revertPageCount, sorted, faults.pageFails);
    cpgReverted := 0;
    err := faults.err;
    if k < |sorted| {
      r := db.(hdr := db.hdr.(revertPageCount := count), written := written);
      return;
    }
    assert sorted[..k] == sorted;
    var h := db.hdr.(revertPageCount := count);
    if faults.issueFails {
      r := db.(hdr := h, written := written);
      return;
    }
    r := db.(hdr := h, staged := [], written := written);
    if faults.arrayFails {
      err := OutOfMemory;
      return;
    }
    if faults.mapFails {
      return;
    }
    if fFlushDbHdr {
      if faults.hdrFails {
        return;
      }
      r := r.(hdrOnDisk := h);
    }
    if faults.syncFails {
      return;
    }
    err := Success;
    cpgReverted := |sorted|;
  }

  /**
   * The write loop of ErrFlushDBPages over the sorted pages: ErrFlushDBPage on
   * each in turn until one fails. k is where it stopped (the first failing
   * page, or the end); the pages before k are written and counted.
   */
  method WritePages(w: map<int, seq<byte>>, revertPageCount: nat, sorted: seq<StagedPage>, fails: set<int>)
    returns (k: nat, written: map<int, seq<byte>>, count: nat, order: seq<int>)
    ensures k == FirstFailing(sorted, fails)
    ensures written == WriteAll(w, sorted[..k]) && count == AddWrap(revertPageCount, k)
    ensures order == Pgnos(sorted)[..k]
  {
    written := w;
    count := revertPageCount % U32;
    k := 0;
    order := [];
    while k < |sorted| && sorted[k].pgno !in fails
      invariant 0 <= k <= |sorted|
      invariant written == WriteAll(w, sorted[..k])
      invariant count == AddWrap(revertPageCount, k)
      invariant |order| == k && forall i :: 0 <= i < k ==> order[i] == sorted[i].pgno
      invariant forall i :: 0 <= i < k ==> sorted[i].pgno !in fails
    {
      WriteAllStep(w, sorted, k);
      written := written[sorted[k].pgno := sorted[k].image];
      WrapStep(revertPageCount, k);
      count := (count + 1) % U32;
      order := order + [sorted[k].pgno];
      k := k + 1;
    }
    FirstFailingAt(sorted, fails, k);
    assert order == Pgnos(sorted)[..k];
  }
}
