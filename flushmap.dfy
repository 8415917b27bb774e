// The in-memory flush map of one database (CFlushMap in flushmap.cxx): an
// array of page descriptors, one per flush map data page, each holding the
// page image with its flush-type bitmap, the runtime bitmap and the largest
// DBTIME recorded on it; the file header; and the cursor of the section flush
// that writes the dirty pages back and then checkpoints the header.
//
// Latches, critical sections and the asynchronous I/O machinery are not
// modelled: the methods run one at a time, and each page write issues and
// completes inside the call that starts it, with the outcome given by an
// IoPlan.
module FlushMap {
  import opened Jet
  import opened FmLayout
  import opened FmBitmap
  import opened FmHeader

  /** The DBTIME sentinels dbtimeNil, dbtimeInvalid, dbtimeShrunk and dbtimeRevert. */
  datatype DbTimeSentinels = DbTimeSentinels(nil: int, invalid: int, shrunk: int, revert: int)

  /** fValidDbTime of ErrSetRangePgnoFlushType_: a real, positive DBTIME. */
  predicate ValidDbTime(t: DbTimeSentinels, dbtime: int)
  {
    dbtime != t.nil && dbtime != t.invalid && dbtime != t.shrunk && dbtime > 0 && dbtime != t.revert
  }

  /** LFunctionalMax and AtomicExchangeMax on signed values. */
  function IMax(a: int, b: int): int
  {
    if a >= b then a else b
  }

  /**
   * FlushMapPageDescriptor of a data page. page is the on-disk image (its
   * FlushMapDataPageHdr, whose fmpgno and dbtimeMax are kept as pageFmpgno and
   * pageDbtimeMax, then the flush-type bitmap); runtime is rgbitRuntime, present
   * for a persisted map only; dbtimeMax is the descriptor's running maximum.
   */
  datatype Descriptor = Descriptor(
    fmpgno: nat,
    page: seq<bv8>,
    runtime: Option<seq<bv8>>,
    pageFmpgno: int,
    pageDbtimeMax: int,
    dbtimeMax: int,
    hasBuffer: bool,
    valid: bool,
    dirty: bool)

  /** What ErrGetDescriptorFromFmPgno_ finds: the header descriptor or data page n. */
  datatype FmdRef = HeaderPage | DataPage(n: nat)

  /** m_fmpgnoSectionFlushNext: s_fmpgnoUninit, s_fmpgnoHdr or a data page. */
  datatype SectionCursor = Uninit | AtHeader | AtPage(n: nat)

  /**
   * The outcome of every map page write one flush issues: the pages (by FMPGNO,
   * the header is -1) whose write fails when issued, those whose write fails
   * on completion, and the error either failure reports.
   */
  datatype IoPlan = IoPlan(issueFails: set<int>, completionFails: set<int>, err: Code)

  /** The pages one section-flush write covers at most, from JET_paramMaxCoalesceWriteSize. */
  function SectionWriteMax(g: FmGeometry, cbMaxCoalesceWrite: nat): (w: nat)
    requires g.Valid()
    ensures w >= 1 && (cbMaxCoalesceWrite >= g.cbPage ==> w == cbMaxCoalesceWrite / g.cbPage)
  {
    if cbMaxCoalesceWrite / g.cbPage >= 1 then cbMaxCoalesceWrite / g.cbPage else 1
  }

  /** The highest index below j whose descriptor is valid, or -1 when there is none. */
  function TopValid(ds: seq<Descriptor>, j: nat): (k: int)
    requires j <= |ds|
    ensures -1 <= k < j
    ensures k >= 0 ==> ds[k].valid
    ensures forall m :: k < m < j ==> !ds[m].valid
  {
    if j == 0 then -1
    else if ds[j - 1].valid then j - 1
    else TopValid(ds, j - 1)
  }

  /** Every valid descriptor of ds below n is clean. */
  predicate CleanBelowIn(ds: seq<Descriptor>, n: nat)
  {
    forall m :: 0 <= m < n && m < |ds| && ds[m].valid ==> !ds[m].dirty
  }

  /** ds is ds0 with only dirty flags changed. */
  predicate OnlyDirtyChanged(ds0: seq<Descriptor>, ds: seq<Descriptor>)
  {
    |ds| == |ds0| && forall m :: 0 <= m < |ds| ==> ds[m] == ds0[m].(dirty := ds[m].dirty)
  }

  /**
   * After a run of writes from first to last whose first failure on completion
   * is at f, every valid page below f is clean, provided every valid page below
   * n0 was and no page from n0 to first was dirty and valid.
   */
  lemma CleanAfterRun(ds0: seq<Descriptor>, ds: seq<Descriptor>, n0: nat, first: nat, last: int, f: nat, fails: set<int>)
    requires OnlyDirtyChanged(ds0, ds) && CleanBelowIn(ds0, n0) && n0 <= first <= f <= last + 1
    requires forall m :: 0 <= m < first && m < |ds| ==> ds[m].dirty == ds0[m].dirty
    requires forall m :: first <= m <= last && m < |ds| ==> ds[m].dirty == (m in fails)
    requires forall m :: n0 <= m < first && m < |ds0| ==> !(ds0[m].dirty && ds0[m].valid)
    requires forall m :: first <= m < f ==> m !in fails
    ensures CleanBelowIn(ds, f)
  {
    forall m | 0 <= m < f && m < |ds| && ds[m].valid
      ensures !ds[m].dirty
    {
      assert ds0[m].valid;
    }
  }

  /** The state of a FlushMap outside its data page descriptors. */
  datatype RestState = RestState(
    cfmdCommitted: nat, hdr: FmFileHeader, hdrDirty: bool, hdrOnDisk: FmFileHeader, next: SectionCursor,
    checkpointHeaderWrite: bool, lgenTargetedMax: int, lastError: Code, cleanForTerm: bool)

  class FlushMap {
    const g: FmGeometry
    /** m_fPersisted: the map is backed by a file (and keeps runtime bitmaps). */
    const persisted: bool
    /** m_cbRuntimeBitmapPage. */
    const cbRuntime: nat
    const times: DbTimeSentinels

    /** The data page descriptors: index 0 is m_fmdFmPg0, the rest m_rgfmd. */
    var fmds: seq<Descriptor>
    /** m_cfmdCommitted: the descriptors of m_rgfmd whose memory is committed. */
    var cfmdCommitted: nat
    /** m_cfmpgAllocated: data pages 0 .. cfmpgAllocated - 1 have buffers. */
    var cfmpgAllocated: nat
    /** The header descriptor: the in-memory header, its dirty flag and the copy last written. */
    var hdr: FmFileHeader
    var hdrDirty: bool
    var hdrOnDisk: FmFileHeader
    /** The section flush state. */
    var next: SectionCursor
    var checkpointHeaderWrite: bool
    var lgenTargetedMax: int
    var lastError: Code
    /** m_fCleanForTerm. */
    var cleanForTerm: bool

    /** Everything but the data page descriptors and the allocated count. */
    function Rest(): RestState
      reads this
    {
      RestState(cfmdCommitted, hdr, hdrDirty, hdrOnDisk, next, checkpointHeaderWrite, lgenTargetedMax, lastError, cleanForTerm)
    }

    /** The descriptor of data page n is well formed. */
    predicate DescOk(n: nat, d: Descriptor, cAllocated: nat)
    {
      && d.fmpgno == n
      && (d.hasBuffer <==> n < cAllocated)
      && (d.hasBuffer ==> |d.page| == g.cbPage && (d.runtime.Some? <==> persisted)
                          && (d.runtime.Some? ==> |d.runtime.value| == cbRuntime))
      && (!d.hasBuffer ==> !d.valid && !d.dirty)
    }

    predicate Valid()
      reads this
    {
      && g.Valid()
      && RuntimeLayout(g).Fits(cbRuntime)
      && |fmds| == (if cfmdCommitted == 0 then 1 else cfmdCommitted)
      && cfmpgAllocated <= |fmds|
      && (forall n :: 0 <= n < |fmds| ==> DescOk(n, fmds[n], cfmpgAllocated))
      && (checkpointHeaderWrite ==> next == AtHeader && hdr.lGenMinRequiredTarget == 0)
    }

    /** A map with no page allocated and the given header, committed descriptor count and sizes. */
    constructor(g: FmGeometry, persisted: bool, cbRuntime: nat, times: DbTimeSentinels, cfmdCommitted: nat, hdr: FmFileHeader)
      requires g.Valid() && RuntimeLayout(g).Fits(cbRuntime)
      ensures Valid() && this.g == g && this.persisted == persisted && this.times == times
      ensures this.cfmdCommitted == cfmdCommitted && cfmpgAllocated == 0 && this.hdr == hdr && hdrOnDisk == hdr
      ensures next == Uninit && !checkpointHeaderWrite && lastError == Success && !cleanForTerm
    {
      this.g := g;
      this.persisted := persisted;
      this.cbRuntime := cbRuntime;
      this.times := times;
      this.cfmdCommitted := cfmdCommitted;
      fmds := seq(if cfmdCommitted == 0 then 1 else cfmdCommitted,
                  n requires 0 <= n => Descriptor(n, [], None, 0, times.nil, times.nil, false, false, false));
      cfmpgAllocated := 0;
      this.hdr := hdr;
      hdrDirty := false;
      hdrOnDisk := hdr;
      next := Uninit;
      checkpointHeaderWrite := false;
      lgenTargetedMax := 0;
      lastError := Success;
      cleanForTerm := false;
    }

    /**
     * ErrGetDescriptorFromFmPgno_: -1 is the header, 0 the embedded first page;
     * any other negative number is a bad parameter, and a page past the
     * committed descriptors an invalid operation.
     */
    function GetDescriptor(fmpgno: int): (r: Result<FmdRef>)
      reads this
      requires Valid()
      ensures r == Ok(HeaderPage) <==> fmpgno == FmPgnoHdr
      ensures r == Fail(InvalidParameter) <==> fmpgno < FmPgnoHdr
      ensures r == Fail(InvalidOperation) <==> fmpgno >= |fmds|
      ensures r.Ok? && r.value.DataPage? ==> r.value.n == fmpgno && fmpgno < |fmds|
    {
      if fmpgno < 0 && fmpgno != FmPgnoHdr then Fail(InvalidParameter)
      else if fmpgno == FmPgnoHdr then Ok(HeaderPage)
      else if fmpgno == 0 then Ok(DataPage(0))
      else if fmpgno >= cfmdCommitted then Fail(InvalidOperation)
      else Ok(DataPage(fmpgno))
    }

    /** Data page n has a descriptor and holds valid contents. */
    predicate Usable(n: nat)
      reads this
    {
      n < |fmds| && fmds[n].valid
    }

    /** Every descriptor with buffers has a page and a runtime bitmap of the right sizes. */
    predicate Shaped(ds: seq<Descriptor>)
    {
      && g.Valid() && RuntimeLayout(g).Fits(cbRuntime)
      && forall n :: 0 <= n < |ds| && ds[n].hasBuffer ==>
           |ds[n].page| == g.cbPage && (ds[n].runtime.Some? ==> |ds[n].runtime.value| == cbRuntime)
    }

    /** The flush type and runtime bit recorded in ds for database page pgno, when its map page has buffers. */
    function EntryIn(ds: seq<Descriptor>, pgno: nat): Option<(bv8, bool)>
      requires Shaped(ds)
    {
      var n := FmPgnoOfDbPgno(g, pgno);
      if n < |ds| && ds[n].hasBuffer then
        Some((FlushTypeOf(g, ds[n].page, pgno), RuntimeOf(g, ds[n].runtime, pgno)))
      else None
    }

    function Entry(pgno: nat): Option<(bv8, bool)>
      reads this
      requires Valid()
    {
      ValidShaped();
      EntryIn(fmds, pgno)
    }

    lemma ValidShaped()
      requires Valid()
      ensures Shaped(fmds)
    {
    }

    /**
     * One page of SetRangePgnoFlushType on its map page's descriptor: the flush
     * type and the runtime bit of pgno are set, the other slots are kept.
     */
    function Stamp(d: Descriptor, pgno: nat, pgft: bv8, dbtime: int): (r: Descriptor)
      requires g.Valid() && RuntimeLayout(g).Fits(cbRuntime) && pgft <= StateMax(g.cbitFlushType)
      requires |d.page| == g.cbPage && (d.runtime.Some? ==> |d.runtime.value| == cbRuntime)
      ensures Stamped(d, r, dbtime) && |r.page| == g.cbPage && r.runtime.Some? == d.runtime.Some?
      ensures r.runtime.Some? ==> |r.runtime.value| == cbRuntime
      ensures FlushTypeOf(g, r.page, pgno) == pgft && RuntimeOf(g, r.runtime, pgno)
      ensures forall q: nat :: q % g.PagesPerFmPage() != pgno % g.PagesPerFmPage() ==>
        FlushTypeOf(g, r.page, q) == FlushTypeOf(g, d.page, q)
      ensures forall q: nat :: q % g.PagesPerFmPage() != pgno % g.PagesPerFmPage() ==>
        RuntimeOf(g, r.runtime, q) == RuntimeOf(g, d.runtime, q)
    {
      d.(dbtimeMax := if ValidDbTime(times, dbtime) then IMax(d.dbtimeMax, dbtime) else d.dbtimeMax,
         page := WithFlushType(g, d.page, pgno, pgft),
         runtime := WithRuntime(g, d.runtime, pgno, true),
         dirty := true)
    }

    /** Stamping a descriptor of ds changes the entry of pgno and of no other page. */
    lemma StampEntries(ds: seq<Descriptor>, n: nat, pgno: nat, pgft: bv8, dbtime: int)
      requires Shaped(ds) && pgft <= StateMax(g.cbitFlushType)
      requires n == FmPgnoOfDbPgno(g, pgno) && n < |ds| && ds[n].hasBuffer
      ensures Shaped(ds[n := Stamp(ds[n], pgno, pgft, dbtime)])
      ensures EntryIn(ds[n := Stamp(ds[n], pgno, pgft, dbtime)], pgno) == Some((pgft, true))
      ensures forall q: nat :: q != pgno ==> EntryIn(ds[n := Stamp(ds[n], pgno, pgft, dbtime)], q) == EntryIn(ds, q)
    {
      forall q: nat | q != pgno
        ensures EntryIn(ds[n := Stamp(ds[n], pgno, pgft, dbtime)], q) == EntryIn(ds, q)
      {
        StampOtherEntry(ds, n, pgno, pgft, dbtime, q);
      }
    }

    /** The entry of a page q other than the stamped one is unchanged. */
    lemma StampOtherEntry(ds: seq<Descriptor>, n: nat, pgno: nat, pgft: bv8, dbtime: int, q: nat)
      requires Shaped(ds) && pgft <= StateMax(g.cbitFlushType)
      requires n == FmPgnoOfDbPgno(g, pgno) && n < |ds| && ds[n].hasBuffer && q != pgno
      ensures Shaped(ds[n := Stamp(ds[n], pgno, pgft, dbtime)])
      ensures EntryIn(ds[n := Stamp(ds[n], pgno, pgft, dbtime)], q) == EntryIn(ds, q)
    {
      if FmPgnoOfDbPgno(g, q) == n {
        SameFmPageDistinctSlots(g, q, pgno);
      }
    }

    /** Stamping twice with the same DBTIME is one stamp: the maximum is idempotent. */
    lemma StampedTwice(d0: Descriptor, d1: Descriptor, d2: Descriptor, dbtime: int)
      requires Stamped(d0, d1, dbtime) && Stamped(d1, d2, dbtime)
      ensures Stamped(d0, d2, dbtime)
    {
    }

    /** Every valid page below n is clean. */
    predicate CleanBelow(n: nat)
      reads this
    {
      CleanBelowIn(fmds, n)
    }

    /** No allocated page from n on is both dirty and valid. */
    predicate NoneToFlush(n: nat)
      reads this
    {
      forall m :: n <= m < cfmpgAllocated && m < |fmds| ==> !(fmds[m].dirty && fmds[m].valid)
    }

    /** The descriptor ErrAllocateFmPage_ leaves: buffers attached (fresh pages read as zero), not yet valid. */
    function Allocated(d: Descriptor): (r: Descriptor)
      ensures r.hasBuffer && |r.page| == g.cbPage && (r.runtime.Some? <==> persisted)
      ensures r.runtime.Some? ==> |r.runtime.value| == cbRuntime
      ensures r.valid == d.valid && r.dirty == d.dirty && r.fmpgno == d.fmpgno
    {
      d.(hasBuffer := true, page := Fill(g.cbPage, 0), runtime := if persisted then Some(Fill(cbRuntime, 0)) else None)
    }

    /**
     * InitializeFmDataPage_: a zeroed page (every flush type unknown), every
     * runtime bit set, the page header naming the page, and no DBTIME recorded.
     */
    function Initialized(d: Descriptor): (r: Descriptor)
      requires g.Valid() && RuntimeLayout(g).Fits(cbRuntime)
      requires d.hasBuffer && |d.page| == g.cbPage && (d.runtime.Some? ==> |d.runtime.value| == cbRuntime)
      ensures r == d.(page := r.page, runtime := r.runtime, pageFmpgno := d.fmpgno, pageDbtimeMax := times.nil, dbtimeMax := times.nil)
      ensures |r.page| == g.cbPage && r.runtime.Some? == d.runtime.Some?
      ensures r.runtime.Some? ==> |r.runtime.value| == cbRuntime
      ensures forall q: nat :: FlushTypeOf(g, r.page, q) == PgftUnknown
      ensures forall q: nat :: RuntimeOf(g, r.runtime, q)
    {
      FilledStates(FlushTypeLayout(g), g.cbPage);
      FilledStates(RuntimeLayout(g), cbRuntime);
      d.(page := Fill(g.cbPage, 0),
         runtime := if d.runtime.Some? then Some(Fill(cbRuntime, 0xFF)) else None,
         pageFmpgno := d.fmpgno,
         pageDbtimeMax := times.nil,
         dbtimeMax := times.nil)
    }

    /** The descriptor after a flush type was recorded on it: only the bitmaps, the dirty flag and the DBTIME maximum move. */
    predicate Stamped(d0: Descriptor, d: Descriptor, dbtime: int)
    {
      d == d0.(page := d.page, runtime := d.runtime, dirty := true,
               dbtimeMax := if ValidDbTime(times, dbtime) then IMax(d0.dbtimeMax, dbtime) else d0.dbtimeMax)
    }

    /**
     * ErrAllocateFmDataPageCapacity_: give buffers to the data pages from
     * cfmpgAllocated up to cfmpgNeeded. Out-of-memory is not modelled.
     */
    method AllocateFmDataPageCapacity(cfmpgNeeded: nat)
      requires Valid() && cfmpgNeeded <= |fmds|
      modifies this
      ensures Valid() && |fmds| == old(|fmds|)
      ensures cfmpgAllocated == IMax(old(cfmpgAllocated), cfmpgNeeded)
      ensures forall n :: 0 <= n < |fmds| ==>
        fmds[n] == (if old(cfmpgAllocated) <= n < cfmpgNeeded then Allocated(old(fmds[n])) else old(fmds[n]))
      ensures Rest() == old(Rest())
    {
      if cfmpgNeeded <= cfmpgAllocated {
        return;
      }
      var fmpgno := cfmpgAllocated;
      while fmpgno < cfmpgNeeded
        invariant old(cfmpgAllocated) <= fmpgno <= cfmpgNeeded && cfmpgAllocated == fmpgno
        invariant |fmds| == old(|fmds|) && Rest() == old(Rest())
        invariant forall n :: 0 <= n < |fmds| ==>
          fmds[n] == (if old(cfmpgAllocated) <= n < fmpgno then Allocated(old(fmds[n])) else old(fmds[n]))
        invariant forall n :: 0 <= n < |fmds| ==> DescOk(n, fmds[n], cfmpgAllocated)
        invariant checkpointHeaderWrite ==> next == AtHeader
      {
        fmds := fmds[fmpgno := Allocated(fmds[fmpgno])];
        cfmpgAllocated := cfmpgAllocated + 1;
        fmpgno := fmpgno + 1;
      }
    }

    /**
     * InitializeFmDataPageCapacity_: walking down from the last allocated page,
     * every page above the highest valid one is initialized, marked dirty and
     * made valid; the walk stops at the first valid page.
     */
    method InitializeFmDataPageCapacity(cfmpgNeeded: nat)
      requires Valid() && cfmpgNeeded <= cfmpgAllocated
      modifies this
      ensures Valid() && |fmds| == old(|fmds|) && cfmpgAllocated == old(cfmpgAllocated)
      ensures forall n :: 0 <= n < |fmds| ==>
        fmds[n] == (if old(TopValid(fmds, cfmpgAllocated)) < n < cfmpgAllocated
                    then Initialized(old(fmds[n])).(valid := true, dirty := true)
                    else old(fmds[n]))
      ensures forall n :: old(TopValid(fmds, cfmpgAllocated)) < n < cfmpgAllocated ==> fmds[n].valid
      ensures Rest() == old(Rest())
    {
      ValidShaped();
      var ds := InitializeTop(fmds, cfmpgAllocated);
      fmds := ds;
    }

    /** The walk of InitializeFmDataPageCapacity_ over the descriptors ds0, of which the first cAllocated have buffers. */
    method InitializeTop(ds0: seq<Descriptor>, cAllocated: nat) returns (ds: seq<Descriptor>)
      requires Shaped(ds0) && cAllocated <= |ds0|
      requires forall n :: 0 <= n < |ds0| ==> DescOk(n, ds0[n], cAllocated)
      ensures |ds| == |ds0| && forall n :: 0 <= n < |ds| ==> DescOk(n, ds[n], cAllocated)
      ensures forall n :: 0 <= n < cAllocated ==> ds0[n].hasBuffer && ds[n].hasBuffer
      ensures forall n :: 0 <= n < |ds0| ==>
        ds[n] == (if TopValid(ds0, cAllocated) < n < cAllocated
                  then Initialized(ds0[n]).(valid := true, dirty := true)
                  else ds0[n])
    {
      ghost var top := TopValid(ds0, cAllocated);
      ds := ds0;
      var foundValid := false;
      var fmpgno: int := cAllocated - 1;
      while fmpgno >= 0 && !foundValid
        invariant -1 <= fmpgno < cAllocated && |ds| == |ds0|
        invariant !foundValid ==> top <= fmpgno
        invariant foundValid ==> fmpgno + 1 == top
        invariant forall n :: 0 <= n < |ds| ==>
          ds[n] == (if top < n < cAllocated && n > fmpgno
                    then Initialized(ds0[n]).(valid := true, dirty := true)
                    else ds0[n])
        decreases fmpgno + 1, !foundValid
      {
        var d := ds[fmpgno];
        if !d.valid {
          ds := ds[fmpgno := Initialized(d).(valid := true, dirty := true)];
        } else {
          foundValid := true;
        }
        fmpgno := fmpgno - 1;
      }
    }

    /**
     * ErrSetRangePgnoFlushType_: record flush type pgft for pages pgnoFirst ..
     * pgnoFirst + cpg - 1. Each map page is checked for validity when the walk
     * first reaches it; the first missing or invalid one stops the walk with
     * JET_errInvalidOperation, after the pages before it were recorded. A
     * recorded page gets its flush type, its runtime bit set, its map page
     * marked dirty and, for a real DBTIME, the map page's DBTIME maximum raised.
     * The synchronous write-back (fWait) is not modelled.
     */
    method SetRangePgnoFlushType(pgnoFirst: nat, cpg: nat, pgft: bv8, dbtime: int) returns (err: Code)
      requires Valid() && !cleanForTerm && pgft <= StateMax(g.cbitFlushType)
      modifies this
      ensures Valid() && |fmds| == old(|fmds|) && cfmpgAllocated == old(cfmpgAllocated) && Rest() == old(Rest())
      ensures err == Success || err == InvalidOperation
      ensures err == Success <==> forall p :: pgnoFirst <= p < pgnoFirst + cpg ==> old(Usable(FmPgnoOfDbPgno(g, p)))
      ensures Shaped(old(fmds)) && Shaped(fmds)
      ensures err == Success ==> Recorded(old(fmds), fmds, pgnoFirst, pgnoFirst + cpg, pgft, dbtime)
      ensures forall q: nat :: !(pgnoFirst <= q < pgnoFirst + cpg) ==> EntryIn(fmds, q) == EntryIn(old(fmds), q)
      ensures OnlyStamped(old(fmds), fmds, dbtime)
    {
      ValidShaped();
      var ds;
      err, ds := RecordRange(fmds, cfmpgAllocated, pgnoFirst, cpg, pgft, dbtime);
      fmds := ds;
    }

    /**
     * The walk of ErrSetRangePgnoFlushType_ over the descriptors ds0, of which
     * the first cAllocated have buffers. ErrGetDescriptorFromFmPgno_ answers
     * JET_errInvalidOperation exactly for a page past the last descriptor, and
     * the validity check is made once per map page, when the walk enters it.
     */
    method RecordRange(ds0: seq<Descriptor>, cAllocated: nat, pgnoFirst: nat, cpg: nat, pgft: bv8, dbtime: int)
      returns (err: Code, ds: seq<Descriptor>)
      requires Shaped(ds0) && pgft <= StateMax(g.cbitFlushType)
      requires forall m :: 0 <= m < |ds0| ==> DescOk(m, ds0[m], cAllocated)
      ensures err == Success || err == InvalidOperation
      ensures err == Success <==>
        forall p :: pgnoFirst <= p < pgnoFirst + cpg ==> FmPgnoOfDbPgno(g, p) < |ds0| && ds0[FmPgnoOfDbPgno(g, p)].valid
      ensures Shaped(ds) && forall m :: 0 <= m < |ds| ==> DescOk(m, ds[m], cAllocated)
      ensures err == Success ==> Recorded(ds0, ds, pgnoFirst, pgnoFirst + cpg, pgft, dbtime)
      ensures forall q: nat :: !(pgnoFirst <= q < pgnoFirst + cpg) ==> EntryIn(ds, q) == EntryIn(ds0, q)
      ensures OnlyStamped(ds0, ds, dbtime)
    {
      ds := ds0;
      var pgno := pgnoFirst;
      var prev: int := -1;
      err := Success;
      WalkStart(ds0, cAllocated, pgnoFirst, pgft, dbtime);
      while pgno < pgnoFirst + cpg
        invariant pgnoFirst <= pgno <= pgnoFirst + cpg && err == Success
        invariant Walked(ds0, ds, cAllocated, pgnoFirst, pgno, prev, pgft, dbtime)
      {
        var n := FmPgnoOfDbPgno(g, pgno);
        if n >= |ds| || (n != prev && !ds[n].valid) {
          WalkStopped(ds0, ds, cAllocated, pgnoFirst, pgno, prev, pgnoFirst + cpg, pgft, dbtime);
          err := InvalidOperation;
          return;
        }
        WalkStep(ds0, ds, cAllocated, pgnoFirst, pgno, prev, pgft, dbtime);
        ds := ds[n := Stamp(ds[n], pgno, pgft, dbtime)];
        prev := n;
        pgno := pgno + 1;
      }
      WalkDone(ds0, ds, cAllocated, pgnoFirst, pgno, prev, pgft, dbtime);
    }

    /**
     * The state of the walk of RecordRange before page pgno: the pages before it
     * are recorded, every descriptor keeps its shape, and prev is the valid map
     * page of the previous page.
     */
    ghost predicate Walked(ds0: seq<Descriptor>, ds: seq<Descriptor>, cAllocated: nat, pgnoFirst: nat, pgno: nat, prev: int, pgft: bv8, dbtime: int)
    {
      && Shaped(ds0) && Shaped(ds) && pgnoFirst <= pgno
      && (forall m :: 0 <= m < |ds| ==> DescOk(m, ds[m], cAllocated))
      && Recorded(ds0, ds, pgnoFirst, pgno, pgft, dbtime)
      && (pgno == pgnoFirst ==> prev == -1)
      && (pgno > pgnoFirst ==> prev == FmPgnoOfDbPgno(g, pgno - 1) && 0 <= prev < |ds| && ds[prev].valid)
    }

    lemma WalkStart(ds0: seq<Descriptor>, cAllocated: nat, pgnoFirst: nat, pgft: bv8, dbtime: int)
      requires Shaped(ds0) && forall m :: 0 <= m < |ds0| ==> DescOk(m, ds0[m], cAllocated)
      ensures Walked(ds0, ds0, cAllocated, pgnoFirst, pgnoFirst, -1, pgft, dbtime)
    {
    }

    /** A page whose map page is the previous page's, or valid, is recorded and the walk moves on. */
    lemma WalkStep(ds0: seq<Descriptor>, ds: seq<Descriptor>, cAllocated: nat, pgnoFirst: nat, pgno: nat, prev: int, pgft: bv8, dbtime: int)
      requires Walked(ds0, ds, cAllocated, pgnoFirst, pgno, prev, pgft, dbtime) && pgft <= StateMax(g.cbitFlushType)
      requires FmPgnoOfDbPgno(g, pgno) < |ds| && (FmPgnoOfDbPgno(g, pgno) == prev || ds[FmPgnoOfDbPgno(g, pgno)].valid)
      ensures var n := FmPgnoOfDbPgno(g, pgno);
        Shaped(ds) && ds[n].hasBuffer &&
        Walked(ds0, ds[n := Stamp(ds[n], pgno, pgft, dbtime)], cAllocated, pgnoFirst, pgno + 1, n, pgft, dbtime)
    {
      var n := FmPgnoOfDbPgno(g, pgno);
      if pgno > pgnoFirst {
        FmPgnoStep(g, pgno - 1);
      }
      assert ds[n].valid && ds[n].hasBuffer;
      RecordStep(ds0, ds, cAllocated, pgnoFirst, pgno, pgft, dbtime);
    }

    /** A page whose map page is missing or invalid when first entered stops the walk: the range was not all usable. */
    lemma WalkStopped(ds0: seq<Descriptor>, ds: seq<Descriptor>, cAllocated: nat, pgnoFirst: nat, pgno: nat, prev: int, pgnoEnd: nat, pgft: bv8, dbtime: int)
      requires Walked(ds0, ds, cAllocated, pgnoFirst, pgno, prev, pgft, dbtime) && pgno < pgnoEnd
      requires FmPgnoOfDbPgno(g, pgno) >= |ds| || (FmPgnoOfDbPgno(g, pgno) != prev && !ds[FmPgnoOfDbPgno(g, pgno)].valid)
      ensures !(forall p :: pgnoFirst <= p < pgnoEnd ==> FmPgnoOfDbPgno(g, p) < |ds0| && ds0[FmPgnoOfDbPgno(g, p)].valid)
      ensures forall q: nat :: !(pgnoFirst <= q < pgnoEnd) ==> EntryIn(ds, q) == EntryIn(ds0, q)
      ensures OnlyStamped(ds0, ds, dbtime)
    {
      RecordedValidity(ds0, ds, pgnoFirst, pgno, pgft, dbtime);
      assert !(FmPgnoOfDbPgno(g, pgno) < |ds0| && ds0[FmPgnoOfDbPgno(g, pgno)].valid);
    }

    /** A walk that reached the end of the range recorded all of it, on map pages that were valid. */
    lemma WalkDone(ds0: seq<Descriptor>, ds: seq<Descriptor>, cAllocated: nat, pgnoFirst: nat, pgno: nat, prev: int, pgft: bv8, dbtime: int)
      requires Walked(ds0, ds, cAllocated, pgnoFirst, pgno, prev, pgft, dbtime)
      ensures forall p :: pgnoFirst <= p < pgno ==> FmPgnoOfDbPgno(g, p) < |ds0| && ds0[FmPgnoOfDbPgno(g, p)].valid
      ensures OnlyStamped(ds0, ds, dbtime)
    {
      RecordedValidity(ds0, ds, pgnoFirst, pgno, pgft, dbtime);
    }

    /**
     * The pages pgnoFirst .. pgno - 1 are recorded in ds, starting from ds0:
     * each carries pgft with its runtime bit set on a dirty, stamped map page;
     * every other page reads as in ds0; and every descriptor is either as in
     * ds0 or stamped, with the same validity.
     */
    ghost predicate Recorded(ds0: seq<Descriptor>, ds: seq<Descriptor>, pgnoFirst: nat, pgno: nat, pgft: bv8, dbtime: int)
      requires Shaped(ds0) && Shaped(ds)
    {
      && OnlyStamped(ds0, ds, dbtime)
      && (forall p :: pgnoFirst <= p < pgno ==>
            && FmPgnoOfDbPgno(g, p) < |ds| && ds[FmPgnoOfDbPgno(g, p)].valid && ds[FmPgnoOfDbPgno(g, p)].dirty
            && EntryIn(ds, p) == Some((pgft, true))
            && Stamped(ds0[FmPgnoOfDbPgno(g, p)], ds[FmPgnoOfDbPgno(g, p)], dbtime))
      && (forall q: nat :: !(pgnoFirst <= q < pgno) ==> EntryIn(ds, q) == EntryIn(ds0, q))
    }

    /** Every descriptor of ds is the one in ds0 or that one stamped. */
    predicate OnlyStamped(ds0: seq<Descriptor>, ds: seq<Descriptor>, dbtime: int)
    {
      |ds| == |ds0| && forall n :: 0 <= n < |ds| ==> ds[n] == ds0[n] || Stamped(ds0[n], ds[n], dbtime)
    }

    /** Recording keeps every descriptor's validity, so every page recorded had a valid map page to begin with. */
    lemma RecordedValidity(ds0: seq<Descriptor>, ds: seq<Descriptor>, pgnoFirst: nat, pgno: nat, pgft: bv8, dbtime: int)
      requires Shaped(ds0) && Shaped(ds) && Recorded(ds0, ds, pgnoFirst, pgno, pgft, dbtime)
      ensures forall n :: 0 <= n < |ds| ==> ds[n].valid == ds0[n].valid
      ensures OnlyStamped(ds0, ds, dbtime)
      ensures forall p :: pgnoFirst <= p < pgno ==> FmPgnoOfDbPgno(g, p) < |ds0| && ds0[FmPgnoOfDbPgno(g, p)].valid
    {
    }

    /** Recording page pgno on its valid map page extends the recorded range by one page. */
    lemma RecordStep(ds0: seq<Descriptor>, ds: seq<Descriptor>, alloc: nat, pgnoFirst: nat, pgno: nat, pgft: bv8, dbtime: int)
      requires Shaped(ds0) && Shaped(ds) && pgft <= StateMax(g.cbitFlushType) && pgnoFirst <= pgno
      requires Recorded(ds0, ds, pgnoFirst, pgno, pgft, dbtime)
      requires FmPgnoOfDbPgno(g, pgno) < |ds| && ds[FmPgnoOfDbPgno(g, pgno)].valid && ds[FmPgnoOfDbPgno(g, pgno)].hasBuffer
      requires forall m :: 0 <= m < |ds| ==> DescOk(m, ds[m], alloc)
      ensures var n := FmPgnoOfDbPgno(g, pgno);
        var ds' := ds[n := Stamp(ds[n], pgno, pgft, dbtime)];
        Shaped(ds') && Recorded(ds0, ds', pgnoFirst, pgno + 1, pgft, dbtime)
        && forall m :: 0 <= m < |ds'| ==> DescOk(m, ds'[m], alloc)
    {
      var n := FmPgnoOfDbPgno(g, pgno);
      var d' := Stamp(ds[n], pgno, pgft, dbtime);
      var ds' := ds[n := d'];
      StampEntries(ds, n, pgno, pgft, dbtime);
      if ds[n] != ds0[n] {
        StampedTwice(ds0[n], ds[n], d', dbtime);
      }
      assert Stamped(ds0[n], d', dbtime);
    }

    /**
     * PgftGetPgnoFlushType: the recorded flush type of pgno (pgftUnknown when its
     * map page is missing or not valid) and its runtime bit. A known flush type
     * on a map page whose DBTIME maximum is older than the caller's dbtime is
     * stale: the whole map page is reinitialized, marked dirty, and the answer
     * is pgftUnknown. The write-back of the healed page is not modelled.
     */
    method PgftGetPgnoFlushType(pgno: nat, dbtime: int) returns (pgft: bv8, fRuntime: Option<bool>)
      requires Valid()
      modifies this
      ensures Valid() && |fmds| == old(|fmds|) && cfmpgAllocated == old(cfmpgAllocated) && cfmdCommitted == old(cfmdCommitted)
      ensures Rest() == old(Rest())
      ensures var n := FmPgnoOfDbPgno(g, pgno);
        !old(Usable(n)) ==> pgft == PgftUnknown && fRuntime == None && fmds == old(fmds)
      ensures var n := FmPgnoOfDbPgno(g, pgno);
        old(Usable(n)) ==> fRuntime == Some(old(RuntimeOf(g, fmds[n].runtime, pgno)))
      ensures var n := FmPgnoOfDbPgno(g, pgno);
        old(Usable(n)) && !old(Stale(n, pgno, dbtime)) ==> pgft == old(FlushTypeOf(g, fmds[n].page, pgno)) && fmds == old(fmds)
      ensures var n := FmPgnoOfDbPgno(g, pgno);
        old(Usable(n)) && old(Stale(n, pgno, dbtime)) ==>
          && pgft == PgftUnknown
          && fmds == old(fmds)[n := Initialized(old(fmds[n])).(dirty := true)]
          && (forall q: nat :: FlushTypeOf(g, fmds[n].page, q) == PgftUnknown)
          && fmds[n].dbtimeMax == times.nil
    {
      var n := FmPgnoOfDbPgno(g, pgno);
      var r := GetDescriptor(n);
      if r.Fail? || !fmds[n].valid {
        return PgftUnknown, None;
      }
      var d := fmds[n];
      pgft := FlushTypeOf(g, d.page, pgno);
      fRuntime := Some(RuntimeOf(g, d.runtime, pgno));
      if pgft != PgftUnknown && dbtime != times.nil && d.dbtimeMax != times.nil && dbtime > d.dbtimeMax {
        fmds := fmds[n := Initialized(d).(dirty := true)];
        pgft := PgftUnknown;
      }
    }

    /** The recorded flush type of pgno is known but older than dbtime says it can be. */
    predicate Stale(n: nat, pgno: nat, dbtime: int)
      reads this
      requires Valid() && Usable(n)
    {
      var d := fmds[n];
      && FlushTypeOf(g, d.page, pgno) != PgftUnknown
      && dbtime != times.nil && d.dbtimeMax != times.nil && dbtime > d.dbtimeMax
    }

    /**
     * ErrAsyncWriteFmPage_ of the header followed by CompleteOneSectionFlush_;
     * checkpoint says whether this is the write that checkpoints the cycle.
     * The header is marked clean when the write is issued and dirty again when
     * it fails. A failed issue changes nothing else, so a pending checkpoint
     * write stays pending; an issued write carries the checkpoint flag. A
     * completed write records the header on disk and moves the cursor to the
     * first data page, or, when this was the checkpoint write, ends the flush
     * cycle; a failed one leaves the cursor at the header.
     */
    method FlushHeader(io: IoPlan, checkpoint: bool)
      requires Valid() && io.err != Success && (checkpointHeaderWrite ==> checkpoint)
      requires checkpoint ==> hdr.lGenMinRequiredTarget == 0
      modifies this
      ensures Valid() && fmds == old(fmds) && cfmpgAllocated == old(cfmpgAllocated) && cfmdCommitted == old(cfmdCommitted)
      ensures hdr == old(hdr) && lgenTargetedMax == old(lgenTargetedMax) && cleanForTerm == old(cleanForTerm)
      ensures FmPgnoHdr in io.issueFails ==>
        && hdrDirty && lastError == io.err && next == old(next) && hdrOnDisk == old(hdrOnDisk)
        && checkpointHeaderWrite == old(checkpointHeaderWrite)
      ensures FmPgnoHdr !in io.issueFails && FmPgnoHdr in io.completionFails ==>
        && hdrDirty && lastError == io.err && next == AtHeader && hdrOnDisk == old(hdrOnDisk) && checkpointHeaderWrite == checkpoint
      ensures FmPgnoHdr !in io.issueFails && FmPgnoHdr !in io.completionFails ==>
        && !hdrDirty && lastError == Success && hdrOnDisk == hdr && !checkpointHeaderWrite
        && next == (if checkpoint then Uninit else AtPage(0))
    {
      hdrDirty := false;
      if FmPgnoHdr in io.issueFails {
        hdrDirty := true;
        lastError := io.err;
        return;
      }
      checkpointHeaderWrite := checkpoint;
      lastError := Success;
      if FmPgnoHdr in io.completionFails {
        hdrDirty := true;
        lastError := io.err;
        next := AtHeader;
      } else {
        hdrOnDisk := hdr;
        next := if checkpointHeaderWrite then Uninit else AtPage(0);
        checkpointHeaderWrite := false;
      }
    }

    /**
     * FlushOneSection_ with its completion, CompleteOneSectionFlush_. From the
     * header cursor it rewrites the header. From Uninit it starts a cycle:
     * the header's target generation becomes the larger of the database's
     * minimum consistent generation and the generation already required, and
     * the header is written. From a data page it looks for the first dirty,
     * valid page; when there is none, the target becomes the required
     * generation and the header is written as the cycle's checkpoint;
     * otherwise it writes one run of pages (see WriteRun) and moves the cursor
     * past the pages written, or to the first whose write failed.
     */
    method FlushOneSection(lGenMinDbConsistent: int, cbMaxCoalesceWrite: nat, cbMaxCoalesceWriteGap: nat, io: IoPlan)
      requires Valid() && persisted && io.err != Success
      modifies this
      ensures Valid() && |fmds| == old(|fmds|) && cfmpgAllocated == old(cfmpgAllocated) && cfmdCommitted == old(cfmdCommitted)
      ensures cleanForTerm == old(cleanForTerm) && lgenTargetedMax >= old(lgenTargetedMax)
      ensures lastError == Success || lastError == io.err
      ensures forall n :: 0 <= n < |fmds| ==> fmds[n] == old(fmds[n]).(dirty := fmds[n].dirty)
      ensures old(next) == AtHeader ==>
        && hdr == old(hdr) && fmds == old(fmds)
        && (lastError == Success ==>
              hdrOnDisk == hdr && !hdrDirty && !checkpointHeaderWrite
              && next == (if old(checkpointHeaderWrite) then Uninit else AtPage(0)))
        && (lastError != Success ==>
              next == AtHeader && hdrDirty && hdrOnDisk == old(hdrOnDisk) && checkpointHeaderWrite == old(checkpointHeaderWrite))
      ensures old(next) == Uninit ==>
        && hdr == old(hdr).(lGenMinRequiredTarget := IMax(lGenMinDbConsistent, old(hdr.lGenMinRequired)))
        && lgenTargetedMax == IMax(old(lgenTargetedMax), hdr.lGenMinRequiredTarget)
        && fmds == old(fmds)
        && (lastError == Success ==> hdrOnDisk == hdr && !hdrDirty && next == AtPage(0) && !checkpointHeaderWrite)
        && (lastError != Success ==>
              (next == Uninit || next == AtHeader) && !checkpointHeaderWrite && hdrDirty && hdrOnDisk == old(hdrOnDisk))
      ensures old(next).AtPage? && old(NoneToFlush(next.n)) ==>
        && hdr == old(hdr).(lGenMinRequired := old(hdr.lGenMinRequiredTarget), lGenMinRequiredTarget := 0)
        && fmds == old(fmds)
        && (lastError == Success ==> next == Uninit && hdrOnDisk == hdr && !hdrDirty && !checkpointHeaderWrite)
        && (lastError != Success ==> CheckpointFailed(old(next), old(hdrOnDisk)))
        && (old(CleanBelow(next.n)) ==> CleanBelow(cfmpgAllocated))
      ensures old(next).AtPage? && !old(NoneToFlush(next.n)) ==>
        && hdr == old(hdr) && hdrOnDisk == old(hdrOnDisk) && hdrDirty == old(hdrDirty) && !checkpointHeaderWrite
        && next.AtPage? && old(next.n) <= next.n <= cfmpgAllocated
        && (lastError == Success ==> old(next.n) < next.n && (old(CleanBelow(next.n)) ==> CleanBelow(next.n)))
      ensures next == Uninit && old(next) != Uninit ==>
        && lastError == Success && hdrOnDisk == hdr && !hdrDirty && hdr.lGenMinRequiredTarget == 0
        && ((old(next) == AtHeader && old(checkpointHeaderWrite)) || (old(next).AtPage? && old(NoneToFlush(next.n))))
    {
      if next == AtHeader {
        FlushHeader(io, checkpointHeaderWrite);
        return;
      }
      if next == Uninit {
        var target := IMax(lGenMinDbConsistent, hdr.lGenMinRequired);
        lgenTargetedMax := IMax(lgenTargetedMax, target);
        hdr := hdr.(lGenMinRequiredTarget := target);
        hdrDirty := true;
        FlushHeader(io, false);
        return;
      }
      FlushFromPage(cbMaxCoalesceWrite, cbMaxCoalesceWriteGap, io);
    }

    /**
     * FlushOneSection_ from a data page: when no page from the cursor on is
     * dirty and valid, the cycle's target generation becomes the required one
     * and the header is written as the checkpoint; otherwise one run of pages
     * is written from the first such page.
     */
    method FlushFromPage(cbMaxCoalesceWrite: nat, cbMaxCoalesceWriteGap: nat, io: IoPlan)
      requires Valid() && io.err != Success && next.AtPage? && !checkpointHeaderWrite
      modifies this
      ensures Valid() && |fmds| == old(|fmds|) && cfmpgAllocated == old(cfmpgAllocated) && cfmdCommitted == old(cfmdCommitted)
      ensures cleanForTerm == old(cleanForTerm) && lgenTargetedMax == old(lgenTargetedMax)
      ensures lastError == Success || lastError == io.err
      ensures OnlyDirtyChanged(old(fmds), fmds)
      ensures old(NoneToFlush(next.n)) ==>
        && hdr == old(hdr).(lGenMinRequired := old(hdr.lGenMinRequiredTarget), lGenMinRequiredTarget := 0)
        && fmds == old(fmds)
        && (lastError == Success ==> next == Uninit && hdrOnDisk == hdr && !hdrDirty && !checkpointHeaderWrite)
        && (lastError != Success ==> CheckpointFailed(old(next), old(hdrOnDisk)))
        && (old(CleanBelow(next.n)) ==> CleanBelow(cfmpgAllocated))
      ensures !old(NoneToFlush(next.n)) ==>
        && hdr == old(hdr) && hdrOnDisk == old(hdrOnDisk) && hdrDirty == old(hdrDirty) && !checkpointHeaderWrite
        && next.AtPage? && old(next.n) <= next.n <= cfmpgAllocated
        && (lastError == Success ==> old(next.n) < next.n && (old(CleanBelow(next.n)) ==> CleanBelow(next.n)))
    {
      var n0 := next.n;
      var first := FirstToFlush(fmds, n0, cfmpgAllocated);
      if first >= cfmpgAllocated {
        assert NoneToFlush(n0);
        if CleanBelow(n0) {
          CleanThrough(fmds, n0, cfmpgAllocated);
        }
        FlushCheckpoint(io);
        assert old(NoneToFlush(next.n));
        return;
      }
      assert !NoneToFlush(n0) by {
        assert fmds[first].dirty && fmds[first].valid;
      }
      WriteRun(n0, first, SectionWriteMax(g, cbMaxCoalesceWrite), cbMaxCoalesceWriteGap / g.cbPage, io);
      assert !old(NoneToFlush(next.n));
    }

    /**
     * The state a failed checkpoint write leaves: the header is dirty and on
     * disk as before, and the cursor is not at Uninit. Either the write was not
     * issued, and the cursor stays at c0 with no checkpoint write pending, or it
     * failed on completion, and the cursor is at the header with the
     * checkpoint write still to do.
     */
    predicate CheckpointFailed(c0: SectionCursor, hdrOnDisk0: FmFileHeader)
      reads this
    {
      && hdrDirty && hdrOnDisk == hdrOnDisk0
      && ((next == c0 && !checkpointHeaderWrite) || (next == AtHeader && checkpointHeaderWrite))
    }

    /**
     * The end of a flush cycle: the target generation becomes the required
     * one and the header is written as the cycle's checkpoint.
     */
    method FlushCheckpoint(io: IoPlan)
      requires Valid() && io.err != Success && !checkpointHeaderWrite
      modifies this
      ensures Valid() && fmds == old(fmds) && cfmpgAllocated == old(cfmpgAllocated) && cfmdCommitted == old(cfmdCommitted)
      ensures cleanForTerm == old(cleanForTerm) && lgenTargetedMax == old(lgenTargetedMax)
      ensures lastError == Success || lastError == io.err
      ensures hdr == old(hdr).(lGenMinRequired := old(hdr.lGenMinRequiredTarget), lGenMinRequiredTarget := 0)
      ensures lastError == Success ==> next == Uninit && hdrOnDisk == hdr && !hdrDirty && !checkpointHeaderWrite
      ensures lastError != Success ==> CheckpointFailed(old(next), old(hdrOnDisk))
    {
      hdr := hdr.(lGenMinRequired := hdr.lGenMinRequiredTarget, lGenMinRequiredTarget := 0);
      hdrDirty := true;
      FlushHeader(io, true);
    }

    /** Clean below n0 and nothing dirty and valid from n0 up to n: clean below n. */
    lemma CleanThrough(ds: seq<Descriptor>, n0: nat, n: nat)
      requires CleanBelowIn(ds, n0) && n <= |ds|
      requires forall m :: n0 <= m < n ==> !(ds[m].dirty && ds[m].valid)
      ensures CleanBelowIn(ds, n)
    {
    }

    /** The scan of FlushOneSection_ for the first dirty, valid page from n0 on, or cAllocated when there is none. */
    method FirstToFlush(ds: seq<Descriptor>, n0: nat, cAllocated: nat) returns (first: nat)
      requires cAllocated <= |ds|
      ensures n0 <= first && (first < cAllocated ==> ds[first].dirty && ds[first].valid)
      ensures first >= cAllocated ==> first == n0 || first == cAllocated
      ensures forall m :: n0 <= m < first && m < cAllocated ==> !(ds[m].dirty && ds[m].valid)
    {
      first := n0;
      while first < cAllocated && !(ds[first].dirty && ds[first].valid)
        invariant n0 <= first && (first > n0 ==> first <= cAllocated)
        invariant forall m :: n0 <= m < first && m < cAllocated ==> !(ds[m].dirty && ds[m].valid)
        decreases cAllocated - first
      {
        first := first + 1;
      }
    }

    /**
     * The data-page part of FlushOneSection_ and its completion: a run of
     * writes starting at the dirty, valid page first (IssueRun), then the
     * cursor moves to the first page whose write failed on completion, or past
     * the last page issued. When no page was issued the cursor stays.
     */
    method WriteRun(n0: nat, first: nat, writeMax: nat, gapMax: nat, io: IoPlan)
      requires Valid() && io.err != Success && !checkpointHeaderWrite && next == AtPage(n0)
      requires n0 <= first < cfmpgAllocated && fmds[first].dirty && fmds[first].valid && writeMax >= 1
      requires forall m :: n0 <= m < first ==> !(fmds[m].dirty && fmds[m].valid)
      modifies this
      ensures Valid() && |fmds| == old(|fmds|) && cfmpgAllocated == old(cfmpgAllocated) && cfmdCommitted == old(cfmdCommitted)
      ensures hdr == old(hdr) && hdrOnDisk == old(hdrOnDisk) && hdrDirty == old(hdrDirty) && !checkpointHeaderWrite
      ensures cleanForTerm == old(cleanForTerm) && lgenTargetedMax == old(lgenTargetedMax)
      ensures lastError == Success || lastError == io.err
      ensures OnlyDirtyChanged(old(fmds), fmds)
      ensures next.AtPage? && n0 <= next.n <= cfmpgAllocated
      ensures lastError == Success ==> n0 < next.n && (old(CleanBelow(n0)) ==> CleanBelow(next.n))
    {
      var err, last := IssueRun(first, writeMax, gapMax, io);
      lastError := err;
      if last >= first {
        var f := FirstFailedWrite(first, last, io.completionFails);
        if f <= last && lastError == Success {
          lastError := io.err;
        }
        next := AtPage(f);
        if old(CleanBelow(n0)) {
          CleanAfterRun(old(fmds), fmds, n0, first, last, f, io.completionFails);
        }
      }
    }

    /**
     * The check loop of FlushOneSection_ on the map's descriptors; see IssueWrites.
     */
    method IssueRun(first: nat, writeMax: nat, gapMax: nat, io: IoPlan) returns (err: Code, last: int)
      requires Valid() && io.err != Success && first < cfmpgAllocated && fmds[first].dirty && fmds[first].valid && writeMax >= 1
      modifies this
      ensures Valid() && |fmds| == old(|fmds|) && cfmpgAllocated == old(cfmpgAllocated) && Rest() == old(Rest())
      ensures err == Success || err == io.err
      ensures first - 1 <= last < cfmpgAllocated && last - first + 1 <= writeMax
      ensures err == Success ==> last >= first
      ensures OnlyDirtyChanged(old(fmds), fmds)
      ensures forall m :: 0 <= m < first ==> fmds[m].dirty == old(fmds[m].dirty)
      ensures forall m :: first <= m <= last ==> fmds[m].dirty == (m in io.completionFails)
    {
      var ds;
      err, last, ds := IssueWrites(fmds, cfmpgAllocated, first, writeMax, gapMax, io);
      DirtyFlagsKeepDescOk(fmds, ds, cfmpgAllocated);
      fmds := ds;
    }

    /** Changing only the dirty flags of pages with buffers keeps every descriptor well formed. */
    lemma DirtyFlagsKeepDescOk(ds0: seq<Descriptor>, ds: seq<Descriptor>, cAllocated: nat)
      requires OnlyDirtyChanged(ds0, ds) && forall m :: 0 <= m < |ds0| ==> DescOk(m, ds0[m], cAllocated)
      requires forall m :: cAllocated <= m < |ds| ==> ds[m] == ds0[m]
      ensures forall m :: 0 <= m < |ds| ==> DescOk(m, ds[m], cAllocated)
    {
      forall m | 0 <= m < |ds|
        ensures DescOk(m, ds[m], cAllocated)
      {
        assert DescOk(m, ds0[m], cAllocated);
      }
    }

    /**
     * The check loop of FlushOneSection_ over the descriptors ds0, of which the
     * first cAllocated have buffers: from the dirty, valid page first, look at
     * up to writeMax pages; stop at an invalid page or after more than gapMax
     * clean pages since the last write; at each dirty page, write every page
     * since the last write, clean ones included (WritePages). A failed issue
     * ends the run. last is the last page issued.
     */
    method IssueWrites(ds0: seq<Descriptor>, cAllocated: nat, first: nat, writeMax: nat, gapMax: nat, io: IoPlan)
      returns (err: Code, last: int, ds: seq<Descriptor>)
      requires cAllocated <= |ds0| && first < cAllocated && ds0[first].dirty && ds0[first].valid && writeMax >= 1 && io.err != Success
      ensures err == Success || err == io.err
      ensures first - 1 <= last < cAllocated && last - first + 1 <= writeMax
      ensures err == Success ==> last >= first
      ensures OnlyDirtyChanged(ds0, ds)
      ensures forall m :: 0 <= m < first ==> ds[m].dirty == ds0[m].dirty
      ensures forall m :: first <= m <= last ==> ds[m].dirty == (m in io.completionFails)
      ensures forall m :: cAllocated <= m < |ds| ==> ds[m] == ds0[m]
    {
      ds := ds0;
      var usedMax: int := cAllocated - 1;
      last := first - 1;
      var check: int := first;
      err := Success;
      while check <= usedMax && check - first + 1 <= writeMax
        invariant first <= check <= cAllocated && first - 1 <= last < check && check - first <= writeMax
        invariant check > first ==> last >= first
        invariant err == Success
        invariant OnlyDirtyChanged(ds0, ds)
        invariant forall m :: 0 <= m < first ==> ds[m].dirty == ds0[m].dirty
        invariant forall m :: first <= m <= last ==> ds[m].dirty == (m in io.completionFails)
        invariant forall m :: last < m < |ds| ==> ds[m] == ds0[m]
        decreases cAllocated - check
      {
        if !ds[check].valid {
          break;
        }
        if ds[check].dirty {
          var written;
          err, written, ds := WritePages(ds, last + 1, check, io);
          last := written;
          if err != Success {
            break;
          }
        } else if check - last > gapMax {
          break;
        }
        check := check + 1;
      }
    }

    /**
     * The inner loop of FlushOneSection_: issue the writes of pages lo .. hi in
     * order. Each issued page is clean unless its write fails on completion;
     * the first page whose write fails to issue is left dirty and ends the
     * loop. written is the last page issued.
     */
    method WritePages(ds0: seq<Descriptor>, lo: nat, hi: nat, io: IoPlan) returns (err: Code, written: int, ds: seq<Descriptor>)
      requires lo <= hi < |ds0| && io.err != Success
      ensures err == Success || err == io.err
      ensures lo - 1 <= written <= hi && (err == Success <==> written == hi)
      ensures err != Success ==> written + 1 in io.issueFails
      ensures forall m :: lo <= m <= written ==> m !in io.issueFails
      ensures |ds| == |ds0| && forall m :: 0 <= m < |ds| ==>
        ds[m] == (if lo <= m <= written then ds0[m].(dirty := m in io.completionFails)
                  else if err != Success && m == written + 1 then ds0[m].(dirty := true)
                  else ds0[m])
      ensures OnlyDirtyChanged(ds0, ds)
    {
      ds := ds0;
      written := lo - 1;
      err := Success;
      var w := lo;
      while w <= hi
        invariant lo <= w <= hi + 1 && written == w - 1
        invariant forall m :: lo <= m <= written ==> m !in io.issueFails
        invariant |ds| == |ds0| && forall m :: 0 <= m < |ds| ==>
          ds[m] == (if lo <= m <= written then ds0[m].(dirty := m in io.completionFails) else ds0[m])
      {
        if w in io.issueFails {
          ds := ds[w := ds[w].(dirty := true)];
          err := io.err;
          return;
        }
        ds := ds[w := ds[w].(dirty := w in io.completionFails)];
        written := w;
        w := w + 1;
      }
    }

    /**
     * The scan of CompleteOneSectionFlush_: the first page of first .. last
     * whose write failed on completion, or last + 1 when none did.
     */
    method FirstFailedWrite(first: nat, last: nat, completionFails: set<int>) returns (f: nat)
      requires first <= last
      ensures first <= f <= last + 1
      ensures forall m :: first <= m < f ==> m !in completionFails
      ensures f <= last ==> f in completionFails
    {
      f := first;
      while f <= last && f !in completionFails
        invariant first <= f <= last + 1
        invariant forall m :: first <= m < f ==> m !in completionFails
      {
        f := f + 1;
      }
    }

    /**
     * ErrFlushAllSections_: restart the cycle at the header (unless no cycle is
     * under way) and flush section after section until an error or until the
     * cycle's checkpoint completes. On success every valid data page is clean
     * and the header on disk requires the cycle's target generation.
     */
    method FlushAllSections(lGenMinDbConsistent: int, cbMaxCoalesceWrite: nat, cbMaxCoalesceWriteGap: nat, io: IoPlan) returns (err: Code)
      requires Valid() && persisted && io.err != Success
      modifies this
      ensures Valid() && |fmds| == old(|fmds|) && cfmpgAllocated == old(cfmpgAllocated) && cfmdCommitted == old(cfmdCommitted)
      ensures cleanForTerm == old(cleanForTerm)
      ensures err == lastError && (err == Success || err == io.err)
      ensures forall n :: 0 <= n < |fmds| ==> fmds[n] == old(fmds[n]).(dirty := fmds[n].dirty)
      ensures err == Success ==>
        && next == Uninit && CleanBelow(cfmpgAllocated) && hdrOnDisk == hdr && !hdrDirty
        && hdr == old(hdr).(
             lGenMinRequired := if old(next) == Uninit then IMax(lGenMinDbConsistent, old(hdr.lGenMinRequired))
                                else old(hdr.lGenMinRequiredTarget),
             lGenMinRequiredTarget := 0)
    {
      ghost var h0 := hdr;
      ghost var target := if next == Uninit then IMax(lGenMinDbConsistent, hdr.lGenMinRequired) else hdr.lGenMinRequiredTarget;
      if next != Uninit {
        next := AtHeader;
        checkpointHeaderWrite := false;
      }
      FlushOneSection(lGenMinDbConsistent, cbMaxCoalesceWrite, cbMaxCoalesceWriteGap, io);
      while lastError == Success && next != Uninit
        invariant Valid() && |fmds| == old(|fmds|) && cfmpgAllocated == old(cfmpgAllocated) && cfmdCommitted == old(cfmdCommitted)
        invariant cleanForTerm == old(cleanForTerm)
        invariant lastError == Success || lastError == io.err
        invariant forall n :: 0 <= n < |fmds| ==> fmds[n] == old(fmds[n]).(dirty := fmds[n].dirty)
        invariant lastError == Success && next != Uninit ==>
          next.AtPage? && CleanBelow(next.n) && !checkpointHeaderWrite
          && hdr == h0.(lGenMinRequiredTarget := target)
        invariant lastError == Success && next == Uninit ==>
          CleanBelow(cfmpgAllocated) && hdrOnDisk == hdr && !hdrDirty
          && hdr == h0.(lGenMinRequired := target, lGenMinRequiredTarget := 0)
        decreases if lastError == Success then 1 else 0, Measure(next)
      {
        FlushOneSection(lGenMinDbConsistent, cbMaxCoalesceWrite, cbMaxCoalesceWriteGap, io);
      }
      err := lastError;
    }

    /** How far the cursor is from the end of a flush cycle. */
    function Measure(c: SectionCursor): nat
      reads this
    {
      match c
      case Uninit => 0
      case AtHeader => cfmpgAllocated + 3
      case AtPage(n) => if n <= cfmpgAllocated then cfmpgAllocated + 2 - n else 1
    }

    /**
     * ErrCleanFlushMap: a map without a file is clean at once; a persisted map
     * already clean stays so; otherwise every section is flushed, and the
     * header is marked clean, with no generation required, and written
     * synchronously (hdrWriteFails says whether that write fails). The map is
     * clean for termination exactly when this succeeds.
     */
    method CleanFlushMap(lGenMinDbConsistent: int, cbMaxCoalesceWrite: nat, cbMaxCoalesceWriteGap: nat, io: IoPlan, hdrWriteFails: bool)
      returns (err: Code)
      requires Valid() && io.err != Success
      modifies this
      ensures Valid() && |fmds| == old(|fmds|) && cfmpgAllocated == old(cfmpgAllocated)
      ensures cleanForTerm <==> err == Success
      ensures err == Success || err == io.err
      ensures !persisted || old(cleanForTerm) ==> err == Success && fmds == old(fmds) && hdr == old(hdr) && hdrOnDisk == old(hdrOnDisk)
      ensures persisted && !old(cleanForTerm) && err == Success ==>
        && CleanBelow(cfmpgAllocated) && next == Uninit
        && hdrOnDisk == hdr && !hdrDirty && hdr.clean && hdr.lGenMinRequired == 0 && hdr.lGenMinRequiredTarget == 0
    {
      if !persisted {
        cleanForTerm := true;
        return Success;
      }
      if cleanForTerm {
        return Success;
      }
      err := FlushAllSections(lGenMinDbConsistent, cbMaxCoalesceWrite, cbMaxCoalesceWriteGap, io);
      if err != Success {
        cleanForTerm := false;
        return;
      }
      hdr := hdr.(lGenMinRequired := 0, lGenMinRequiredTarget := 0, clean := true);
      hdrDirty := false;
      if hdrWriteFails {
        hdrDirty := true;
        err := io.err;
      } else {
        hdrOnDisk := hdr;
      }
      cleanForTerm := err == Success;
    }
  }
}
