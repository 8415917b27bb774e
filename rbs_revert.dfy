// The revert context (CRBSRevertContext): the object that reverts the
// databases to a point in time using the snapshot generations. Its fields are
// updated in place by its methods; each method is proved to do what the
// functions of RbsRevertRange, RbsRevertCheckpoint, RbsRevertApply and
// RbsRevertExec say, and the properties are proved about those functions.
module RbsRevert {
  import opened Jet
  import opened Bytes
  import opened RbsGen
  import opened RbsRevertDb
  import opened RbsRevertRange
  import opened RbsRevertApply
  import opened RbsRevertCheckpoint
  import opened RbsRevertExec

  /** Contexts that only grew, with nothing staged in the new ones, stage what the old ones did. */
  lemma {:induction false} TotalStagedGrows(dbs: seq<DbRevert>, dbs': seq<DbRevert>)
    requires |dbs| <= |dbs'|
    requires forall j :: 0 <= j < |dbs| ==> dbs'[j].staged == dbs[j].staged
    requires forall j :: |dbs| <= j < |dbs'| ==> dbs'[j].staged == []
    ensures TotalStaged(dbs') == TotalStaged(dbs)
    decreases |dbs'|
  {
    if |dbs'| > |dbs| {
      TotalStagedGrows(dbs, dbs'[..|dbs'| - 1]);
    } else {
      StagedKept(dbs, dbs');
    }
  }

  /** Growing the contexts as the attach tables do keeps the engine invariant. */
  lemma GrowsKeepsEngine(e: Engine, dbs': seq<DbRevert>, dbidMax: nat)
    requires EngineOk(e, dbidMax) && Grows(e.dbs, dbs', dbidMax)
    ensures EngineOk(e.(dbs := dbs'), dbidMax)
  {
    TotalStagedGrows(e.dbs, dbs');
  }

  /** One more context flushed keeps the invariant of the loop of ErrFlushPages. */
  lemma FlushEachStep(dbs: seq<DbRevert>, fFlushDbHdr: bool, flushed: seq<DbRevert>, k: nat,
                      cpgReverted: nat, db: DbRevert, cpg: nat)
    requires forall j :: 0 <= j < |dbs| ==> Staging(dbs[j])
    requires k < |dbs| == |flushed|
    requires forall j :: 0 <= j < k ==> flushed[j] == Flushed(dbs[j], fFlushDbHdr)
    requires forall j :: k <= j < |dbs| ==> flushed[j] == dbs[j]
    requires cpgReverted == TotalStaged(dbs[..k])
    requires db == Flushed(dbs[k], fFlushDbHdr) && cpg == |dbs[k].staged|
    ensures forall j :: 0 <= j < k + 1 ==> flushed[k := db][j] == Flushed(dbs[j], fFlushDbHdr)
    ensures forall j :: k + 1 <= j < |dbs| ==> flushed[k := db][j] == dbs[j]
    ensures cpgReverted + cpg == TotalStaged(dbs[..k + 1])
  {
    assert dbs[..k + 1][..k] == dbs[..k];
  }

  /**
   * The loop of ErrFlushPages: ErrFlushDBPages on each context in turn, the
   * pages each one wrote added up.
   */
  method FlushEach(dbs: seq<DbRevert>, fFlushDbHdr: bool) returns (flushed: seq<DbRevert>, cpgReverted: nat)
    requires forall j :: 0 <= j < |dbs| ==> Staging(dbs[j])
    ensures |flushed| == |dbs| && forall j :: 0 <= j < |dbs| ==> flushed[j] == Flushed(dbs[j], fFlushDbHdr)
    ensures cpgReverted == TotalStaged(dbs)
  {
    flushed := dbs;
    cpgReverted := 0;
    var k := 0;
    while k < |dbs|
      invariant 0 <= k <= |dbs| == |flushed|
      invariant forall j :: 0 <= j < k ==> flushed[j] == Flushed(dbs[j], fFlushDbHdr)
      invariant forall j :: k <= j < |dbs| ==> flushed[j] == dbs[j]
      invariant cpgReverted == TotalStaged(dbs[..k])
    {
      var _, db, cpg, _ := FlushDbPages(flushed[k], fFlushDbHdr, NoFaults);
      FlushResultNoFaults(dbs[k], fFlushDbHdr);
      FlushEachStep(dbs, fFlushDbHdr, flushed, k, cpgReverted, db, cpg);
      flushed := flushed[k := db];
      cpgReverted := cpgReverted + cpg;
      k := k + 1;
    }
    assert dbs[..k] == dbs;
  }

  /**
   * How ErrComputeRBSRangeToApply ends for a scan that could list the
   * generations (lMin0 and lMax0 are the range before, lMin and lMax after):
   * a scan error is returned as it is, a read-verify failure included, and
   * leaves the range alone; a generation old enough makes the range run from
   * the generation its header names up to the highest, and gives its creation
   * time as the actual revert time; a scan that found none fails with
   * JET_errRBSRCNoRBSFound exactly when no range was set before.
   */
  ghost predicate RangeOutcome(env: RangeEnv, dbs: seq<DbRevert>, lMin0: int, lMax0: int,
                               err: Code, ltActual: LogTime, lMin: int, lMax: int)
    requires ReadsReport(env.db)
  {
    var s := ScanFrom(env, env.hi, LogTime(0), dbs);
    && (s.err != Success ==> err == s.err && lMin == lMin0 && lMax == lMax0)
    && (s.found.Some? ==>
          && err == Success && ltActual == env.files(s.found.value).hdr.tmCreate
          && lMin == env.files(s.found.value).hdr.lGeneration && lMax == env.hi)
    && (s.err == Success && s.found.None? ==>
          && lMin == lMin0 && lMax == lMax0
          && (err == RBSRCNoRBSFound <==> lMax0 == 0) && (lMax0 != 0 ==> err == Success))
  }

  class RevertContext {
    /** m_rgprbsdbrcAttached[0..m_irbsdbrcMaxInUse]: the per-database contexts. */
    var dbs: seq<DbRevert>
    /** m_mpdbidirbsdbrc: the context each dbid routes to; a dbid absent is irbsdbrcInvalid. */
    var dbidMap: map<int, nat>
    /** m_cpgCached: the pages staged since the last flush. */
    var cpgCached: nat
    /** m_cPagesRevertedCurRBSGen: the pages written since the checkpoint last counted them. */
    var cPagesRevertedCurGen: nat
    /** m_lRBSMinGenToApply and m_lRBSMaxGenToApply. */
    var lMinGenToApply: int
    var lMaxGenToApply: int
    /** m_ltRevertTo: the time the databases are reverted to. */
    var ltRevertTo: LogTime
    /** The header of the checkpoint m_prbsrchk. */
    var chk: Checkpoint
    /** m_ftRevertLastUpdate. */
    var ftLastUpdate: int
    /** m_cpgCacheMax, dbidMax, lGenerationMax and the time and page functions the revert uses. */
    const env: RunEnv

    /** The state records act on. */
    function State(): Engine
      reads this
    {
      Engine(dbs, dbidMap, cpgCached, cPagesRevertedCurGen)
    }

    /** The state a running revert works on. */
    function Running(): Run
      reads this
    {
      Run(State(), chk, ftLastUpdate)
    }

    /**
     * The context's invariant, the one record application keeps. That no two
     * contexts are for the same database is established where contexts are
     * added (InitFromAttachInfo); everything after only updates contexts in
     * place (SameDbs in the functions the methods are proved against).
     */
    predicate Valid()
      reads this
    {
      EngineOk(State(), env.dbidMax)
    }

    /**
     * A new revert context: no database contexts, every dbid unrouted,
     * nothing staged or counted, no range chosen and a zero checkpoint.
     * cacheMax comes from JET_paramCacheSizeMax.
     */
    constructor(env: RunEnv)
      ensures this.env == env && Valid()
      ensures dbs == [] && dbidMap == map[] && cpgCached == 0 && cPagesRevertedCurGen == 0
      ensures lMinGenToApply == 0 && lMaxGenToApply == 0 && chk == ZeroCheckpoint && ftLastUpdate == 0
    {
      this.env := env;
      dbs := [];
      dbidMap := map[];
      cpgCached := 0;
      cPagesRevertedCurGen := 0;
      lMinGenToApply := 0;
      lMaxGenToApply := 0;
      ltRevertTo := LogTime(0);
      chk := ZeroCheckpoint;
      ftLastUpdate := 0;
    }

    /** FRBSDBRC: whether a context for the database exists, and which one is the first. */
    method FindDbrc(name: seq<char>) returns (found: bool, irbsdbrc: nat)
      ensures found <==> Known(dbs, name)
      ensures found ==> irbsdbrc == FindDb(dbs, name) && irbsdbrc < |dbs| && dbs[irbsdbrc].name == name
    {
      var i := 0;
      while i < |dbs|
        invariant 0 <= i <= |dbs|
        invariant forall j :: 0 <= j < i ==> dbs[j].name != name
      {
        if dbs[i].name == name {
          return true, i;
        }
        i := i + 1;
      }
      return false, 0;
    }

    /** Every field but the contexts. */
    function Others(): (map<int, nat>, nat, nat, int, int, LogTime, Checkpoint, int)
      reads this
    {
      (dbidMap, cpgCached, cPagesRevertedCurGen, lMinGenToApply, lMaxGenToApply, ltRevertTo, chk, ftLastUpdate)
    }

    /** The fields outside the running state: the range of generations to apply and the time reverted to. */
    function Config(): (int, int, LogTime)
      reads this
    {
      (lMinGenToApply, lMaxGenToApply, ltRevertTo)
    }

    /** The fields applying records leaves alone: the checkpoint, the timer and Config(). */
    function Rest(): (Checkpoint, int, int, int, LogTime)
      reads this
    {
      (chk, ftLastUpdate, lMinGenToApply, lMaxGenToApply, ltRevertTo)
    }

    /** One attach slot, as AttachStep describes it. */
    method AttachSlot(slot: AttachInfo, sign: Signature, f: DbFiles) returns (err: Code)
      requires ReadsReport(f)
      modifies this
      ensures Attached(err, dbs) == AttachStep(old(dbs), slot, sign, f)
      ensures Others() == old(Others())
    {
      var found, i := FindDbrc(slot.name);
      if !found {
        var init := DbrcInit(slot, sign, f.read(slot.name), f.headerCorrupt, f.dbidMax);
        dbs := dbs + [init.db];
        if init.err != Success {
          return init.err;
        }
        dbs := dbs[|dbs| - 1 := init.db.(dbtimePrevDirtied := slot.dbtimePrevDirtied)];
      } else if dbs[i].dbtimePrevDirtied != slot.dbtimeDirtied {
        return RBSRCInvalidRBS;
      } else {
        dbs := dbs[i := dbs[i].(dbtimePrevDirtied := slot.dbtimePrevDirtied)];
      }
      err := Success;
    }

    /**
     * ErrRBSDBRCInitFromAttachInfo: the contexts after reading one
     * generation's attach table are those AttachFrom describes, and the
     * error is the one it reports.
     */
    method InitFromAttachInfo(table: seq<AttachInfo>, sign: Signature, f: DbFiles) returns (err: Code)
      requires ReadsReport(f) && f.dbidMax == env.dbidMax
      modifies this
      ensures Attached(err, dbs) == AttachFrom(old(dbs), table, sign, f)
      ensures Others() == old(Others())
      ensures old(Valid()) ==> Valid()
      ensures old(NamesDistinct(dbs)) ==> NamesDistinct(dbs)
    {
      var k := 0;
      while k < |table| && table[k].present
        invariant 0 <= k <= |table|
        invariant AttachFrom(old(dbs), table, sign, f) == AttachFrom(dbs, table[k..], sign, f)
        invariant Others() == old(Others())
      {
        assert table[k..][1..] == table[k + 1..];
        err := AttachSlot(table[k], sign, f);
        if err != Success {
          EndKeepsEngine(old(State()), old(dbs), table, sign, f);
          return;
        }
        k := k + 1;
      }
      err := Success;
      EndKeepsEngine(old(State()), old(dbs), table, sign, f);
    }

    /** The contexts are those the attach table gives from e's, and the rest of the state is e's. */
    lemma EndKeepsEngine(e: Engine, dbs0: seq<DbRevert>, table: seq<AttachInfo>, sign: Signature, f: DbFiles)
      requires ReadsReport(f) && f.dbidMax == env.dbidMax && e.dbs == dbs0
      requires dbs == AttachFrom(dbs0, table, sign, f).dbs
      requires dbidMap == e.dbidMap && cpgCached == e.cpgCached && cPagesRevertedCurGen == e.cPagesRevertedCurGen
      ensures EngineOk(e, env.dbidMax) ==> Valid()
      ensures NamesDistinct(dbs0) ==> NamesDistinct(dbs)
    {
      AttachFromGrows(dbs0, table, sign, f);
      if EngineOk(e, env.dbidMax) {
        GrowsKeepsEngine(e, dbs, env.dbidMax);
        assert State() == e.(dbs := dbs);
      }
    }

    /**
     * ErrComputeRBSRangeToApply: list the generations (dirErr is what
     * ErrRBSGetLowestAndHighestGen_ returned), then scan them from the
     * newest down as ScanFrom describes. The generation found becomes the
     * oldest to apply, the newest the highest found, and its creation time
     * the actual revert time. With none found the source tests
     * m_lRBSMaxGenToApply, which nothing set, so a fresh context fails with
     * JET_errRBSRCNoRBSFound.
     */
    method ComputeRangeToApply(env0: RangeEnv, dirErr: Code) returns (err: Code, ltActual: LogTime)
      requires ReadsReport(env0.db) && env0.db.dbidMax == env.dbidMax
      modifies this
      ensures dirErr != Success ==> err == dirErr && dbs == old(dbs)
      ensures dirErr == Success ==>
        RangeOutcome(env0, old(dbs), old(lMinGenToApply), old(lMaxGenToApply), err, ltActual, lMinGenToApply, lMaxGenToApply)
      ensures dirErr != Success ==> lMinGenToApply == old(lMinGenToApply) && lMaxGenToApply == old(lMaxGenToApply)
      ensures dirErr == Success ==> dbs == ScanFrom(env0, env0.hi, LogTime(0), old(dbs)).dbs
      ensures old(Valid()) ==> Valid()
      ensures old(NamesDistinct(dbs)) ==> NamesDistinct(dbs)
      ensures dbidMap == old(dbidMap) && cpgCached == old(cpgCached) && cPagesRevertedCurGen == old(cPagesRevertedCurGen)
      ensures ltRevertTo == old(ltRevertTo) && chk == old(chk) && ftLastUpdate == old(ftLastUpdate)
    {
      ltActual := LogTime(0);
      if dirErr != Success {
        return dirErr, ltActual;
      }
      var g := env0.hi;
      var tmPrev := LogTime(0);
      while g >= env0.lo && g > 0
        invariant ScanFrom(env0, env0.hi, LogTime(0), old(dbs)) == ScanFrom(env0, g, tmPrev, dbs)
        invariant lMinGenToApply == old(lMinGenToApply) && lMaxGenToApply == old(lMaxGenToApply)
        invariant old(Valid()) ==> Valid()
        invariant old(NamesDistinct(dbs)) ==> NamesDistinct(dbs)
        invariant dbidMap == old(dbidMap) && cpgCached == old(cpgCached) && cPagesRevertedCurGen == old(cPagesRevertedCurGen)
        invariant ltRevertTo == old(ltRevertTo) && chk == old(chk) && ftLastUpdate == old(ftLastUpdate)
        decreases g
      {
        ScanFromStep(env0, g, tmPrev, dbs);
        var file := env0.files(g);
        err := LoadRbsGen(file.readErr, file.hdr, env0.versions);
        if err != Success {
          return;
        }
        err := InitFromAttachInfo(file.hdr.attach, file.hdr.signRBSHdrFlush, env0.db);
        if err != Success {
          return;
        }
        if file.hdr.tmCreate.ticks > env0.target.ticks {
          if !file.hdr.tmPrevGen.IsSet() {
            return RBSRCInvalidRBS, ltActual;
          }
          if g != env0.hi && file.hdr.tmCreate != tmPrev {
            return RBSRCInvalidRBS, ltActual;
          }
          tmPrev := file.hdr.tmPrevGen;
        } else {
          lMinGenToApply := file.hdr.lGeneration;
          lMaxGenToApply := env0.hi;
          ltActual := file.hdr.tmCreate;
          break;
        }
        g := g - 1;
      }
      if lMaxGenToApply == 0 {
        return RBSRCNoRBSFound, ltActual;
      }
      err := Success;
    }

    /** UpdateRBSGenToApplyFromCheckpoint: a revert under way resumes at its checkpoint's generation. */
    method UpdateGenToApplyFromCheckpoint()
      modifies this
      ensures lMaxGenToApply == GenToApplyFromCheckpoint(chk, old(lMaxGenToApply))
      ensures dbs == old(dbs) && Others() == old(Others()).(4 := lMaxGenToApply)
    {
      if chk.state != StateNone {
        lMaxGenToApply := chk.pos.lGeneration;
      }
    }

    /**
     * The fold of ErrUpdateRevertCheckpoint over every context: the least
     * log generation any database needs, starting from lGenerationMax, and
     * the greatest, starting from zero.
     */
    method RequiredLogRange() returns (lo: int, hi: int)
      ensures lo == MinFold(dbs, env.genMax) && hi == MaxFold(dbs, 0)
    {
      lo, hi := env.genMax, 0;
      var k := 0;
      while k < |dbs|
        invariant 0 <= k <= |dbs|
        invariant lo == MinFold(dbs[..k], env.genMax) && hi == MaxFold(dbs[..k], 0)
      {
        var lMinDb := dbs[k].hdr.lGenMinRequired;
        var lMaxDb := dbs[k].hdr.lGenMaxRequired;
        if lMinDb == 0 {
          lMinDb := dbs[k].hdr.lGenLastConsistent;
          lMaxDb := dbs[k].hdr.lGenLastConsistent;
        }
        lo := if lo <= lMinDb then lo else lMinDb;
        hi := if hi >= lMaxDb then hi else lMaxDb;
        assert dbs[..k + 1][..k] == dbs[..k];
        k := k + 1;
      }
      assert dbs[..k] == dbs;
    }

    /**
     * The checkpoint header ErrUpdateRevertCheckpoint writes, built field by
     * field in the source's order; the context itself is not changed.
     */
    method NextCheckpoint(rs: RevertState, pos: RbsPos, tmCur: LogTime, fUpdate: bool, clock: Clock)
      returns (c: Checkpoint)
      ensures c == CheckpointAfter(chk, dbs, rs, pos, tmCur, fUpdate, cPagesRevertedCurGen,
                                   Elapsed(Running(), clock, env), clock.date, env.genMax)
    {
      c := chk;
      if ftLastUpdate != 0 {
        c := c.(cSecInRevert := c.cSecInRevert + env.toSeconds(clock.ft - ftLastUpdate));
      }
      if |dbs| > 1 && (c.lGenMinRevertStart == 0 || c.lGenMaxRevertStart == 0) {
        var lo, hi := RequiredLogRange();
        c := c.(lGenMinRevertStart := lo, lGenMaxRevertStart := hi);
      }
      if !c.tmCreate.IsSet() {
        c := c.(tmCreate := clock.date, typed := true);
      }
      if !c.tmExecuteRevertBegin.IsSet() && rs == InProgress {
        c := c.(tmExecuteRevertBegin := clock.date);
      }
      if fUpdate {
        c := c.(cPagesReverted := c.cPagesReverted + cPagesRevertedCurGen);
      }
      c := c.(pos := pos, tmCreateCurrentGen := tmCur, state := rs);
    }

    /**
     * ErrUpdateRevertCheckpoint: move the checkpoint to state rs at pos, as
     * UpdateRun says, restart the timer of a timed revert, move the page
     * count into the checkpoint when fUpdate says so, and write the
     * checkpoint (writeErr is what the write returned).
     */
    method UpdateRevertCheckpoint(rs: RevertState, pos: RbsPos, tmCur: LogTime, fUpdate: bool,
                                  clock: Clock, writeErr: Code) returns (err: Code)
      requires AllowedTransition(chk.state, rs)
      modifies this
      ensures Running() == UpdateRun(old(Running()), rs, pos, tmCur, fUpdate, clock, env)
      ensures err == writeErr
      ensures lMinGenToApply == old(lMinGenToApply) && lMaxGenToApply == old(lMaxGenToApply)
      ensures ltRevertTo == old(ltRevertTo)
    {
      var c := NextCheckpoint(rs, pos, tmCur, fUpdate, clock);
      chk := c;
      if ftLastUpdate != 0 {
        ftLastUpdate := clock.ft;
      }
      if fUpdate {
        cPagesRevertedCurGen := 0;
      }
      err := writeErr;
    }

    /** ErrRBSCaptureDbHdrFromRBS on the context dbid routes to. */
    method CaptureDbHdr(dbid: int, hdr: DbHeader) returns (given: bool)
      requires Valid() && dbid in dbidMap
      modifies this
      ensures Applied(Success, State(), given) == CaptureHeader(old(State()), dbid, hdr, env.dbidMax)
      ensures Rest() == old(Rest())
    {
      var i := dbidMap[dbid];
      var c := CaptureDbHdrFromRbs(dbs[i], hdr);
      dbs := dbs[i := c.db];
      given := c.given;
    }

    /** The rbsrectypeDbAttach case: context i now answers for dbid, as Attach says. */
    method AttachDbid(dbid: int, i: nat)
      requires Valid() && i < |dbs|
      modifies this
      ensures State() == Attach(old(State()), dbid, i, env.dbidMax)
      ensures Rest() == old(Rest())
    {
      var cur := dbs[i].dbidCurrent;
      if dbid != cur {
        if cur == env.dbidMax {
          dbs := dbs[i := dbs[i].(dbidCurrent := dbid)];
        } else if cur in dbidMap && dbidMap[cur] == i {
          dbidMap := dbidMap - {cur};
        }
        if dbid in dbidMap {
          var j := dbidMap[dbid];
          dbs := dbs[j := dbs[j].(dbidCurrent := env.dbidMax)];
        }
        dbidMap := dbidMap[dbid := i];
      } else if !(cur in dbidMap && dbidMap[cur] == i) {
        dbidMap := dbidMap[dbid := i];
      }
    }

    /** ErrAddPageRecord: stage the page in the context dbid routes to, and count it. */
    method AddPageRecord(image: seq<byte>, dbid: int, pgno: int)
      requires Valid() && dbid in dbidMap && !PageAlreadyCaptured(dbs[dbidMap[dbid]], pgno)
      modifies this
      ensures State() == StagePage(old(State()), dbid, pgno, image, env.dbidMax)
      ensures Rest() == old(Rest())
    {
      var i := dbidMap[dbid];
      dbs := dbs[i := AddPage(dbs[i], pgno, image)];
      cpgCached := cpgCached + 1;
    }

    /**
     * ErrApplyRBSRecord: apply one record to the contexts, as ApplyRecord
     * says; given is *pfGivenDbfilehdrCaptured.
     */
    method ApplyRecord(rec: RbsRecord, fCapture: bool, fDbHeaderOnly: bool) returns (err: Code, given: bool)
      requires Valid()
      modifies this
      ensures Applied(err, State(), given) == RbsRevertApply.ApplyRecord(old(State()), rec, fCapture, fDbHeaderOnly, env.src, env.dbidMax)
      ensures Valid()
      ensures Rest() == old(Rest())
    {
      given := false;
      match rec
      case DbHdrRec(dbid, hdr) =>
        if fCapture && dbid in dbidMap {
          given := CaptureDbHdr(dbid, hdr);
        }
        err := Success;
      case DbAttachRec(dbid, name) =>
        var found, i := FindDbrc(name);
        if found && 0 <= dbid < env.dbidMax {
          AttachDbid(dbid, i);
        }
        err := Success;
      case DbPageRec(dbid, pgno, flags, data) =>
        if fDbHeaderOnly {
          return Success, false;
        }
        if dbid in dbidMap && !PageAlreadyCaptured(dbs[dbidMap[dbid]], pgno) {
          var image := data;
          if flags != 0 {
            var d := env.src.decompress(pgno, flags, data);
            if d.Fail? {
              return d.error, false;
            }
            image := d.value;
          }
          image := env.src.prepare(pgno, image);
          AddPageRecord(image, dbid, pgno);
        }
        err := Success;
      case DbNewPageRec(dbid, pgno) =>
        if fDbHeaderOnly {
          return Success, false;
        }
        if dbid in dbidMap && !PageAlreadyCaptured(dbs[dbidMap[dbid]], pgno) {
          AddPageRecord(env.src.newPage(pgno), dbid, pgno);
        }
        err := Success;
      case OtherRec(_) =>
        err := RBSInvalidRecord;
    }

    /**
     * ErrFlushPages: write every context's staged pages (ErrFlushDBPages),
     * count them into the current generation's total and clear the staged
     * count, as FlushAll says.
     */
    method FlushPages(fFlushDbHdr: bool)
      requires Valid()
      modifies this
      ensures State() == FlushAll(old(State()), fFlushDbHdr)
      ensures Valid()
      ensures Rest() == old(Rest())
    {
      var flushed, cpgReverted := FlushEach(dbs, fFlushDbHdr);
      dbs := flushed;
      cPagesRevertedCurGen := cPagesRevertedCurGen + cpgReverted;
      cpgCached := 0;
      FlushAllKeeps(old(State()), fFlushDbHdr, env.dbidMax);
    }

    /** ErrResetSbmDbPages on every context, after a generation has been flushed. */
    method ResetAllPages()
      requires Valid() && forall j :: 0 <= j < |dbs| ==> dbs[j].staged == []
      modifies this
      ensures State() == ResetAll(old(State()))
      ensures Valid()
      ensures Rest() == old(Rest())
    {
      ghost var dbs0 := dbs;
      var k := 0;
      while k < |dbs|
        invariant 0 <= k <= |dbs| == |dbs0|
        invariant forall j :: 0 <= j < k ==> dbs[j] == ResetSbmDbPages(dbs0[j])
        invariant forall j :: k <= j < |dbs| ==> dbs[j] == dbs0[j]
        invariant Others() == old(Others())
      {
        dbs := dbs[k := ResetSbmDbPages(dbs[k])];
        k := k + 1;
      }
      ResetAllKeeps(old(State()), env.dbidMax);
    }

    /** The loop of ErrRBSGenApply that asks every context for its header from the snapshot. */
    method AllHeadersCaptured() returns (all: bool)
      ensures all == AllCaptured(dbs)
    {
      all := true;
      var k := 0;
      while k < |dbs|
        invariant 0 <= k <= |dbs|
        invariant all == AllCaptured(dbs[..k])
      {
        all := all && dbs[k].hdrFromRbs.Some?;
        k := k + 1;
      }
      assert dbs[..k] == dbs;
    }

    /** One pass of the record loop of ErrRBSGenApply on record i of g, as RecordStep says. */
    method ProcessRecord(g: GenRecords, i: nat, fCapture: bool, fDbHeaderOnly: bool) returns (stop: bool, err: Code)
      requires Valid() && i < |g.recs|
      modifies this
      ensures var st := RecordStep(old(State()), g, i, fCapture, fDbHeaderOnly, env.src, env.cacheMax, env.dbidMax);
        && (stop <==> st.Stop?)
        && (stop ==> st.s == Stream(err, State()))
        && (!stop ==> st.e == State())
      ensures Valid()
      ensures Rest() == old(Rest())
    {
      var given;
      err, given := ApplyRecord(g.recs[i], fCapture, fDbHeaderOnly);
      if err != Success {
        return true, err;
      }
      if cpgCached >= env.cacheMax {
        FlushPages(false);
      }
      if g.cancelled(i) {
        return true, RBSRCRevertCancelled;
      }
      if fDbHeaderOnly && given {
        var all := AllHeadersCaptured();
        if all {
          return true, Success;
        }
      }
      return false, Success;
    }

    /**
     * What ErrRBSGenApply does once the records run out, as ReadEnd says:
     * when reading reached the end of the generation, flush every page and
     * header and succeed; otherwise return what reading returned.
     */
    method EndRecords(g: GenRecords, fDbHeaderOnly: bool) returns (err: Code)
      requires Valid()
      modifies this
      ensures Stream(err, State()) == ReadEnd(old(State()), g, fDbHeaderOnly, env.dbidMax)
      ensures Valid() && Rest() == old(Rest())
    {
      if g.readEnd == NoMoreRecords && !fDbHeaderOnly {
        FlushPages(true);
        err := Success;
      } else {
        err := g.readEnd;
      }
    }

    /**
     * The record loop of ErrRBSGenApply and what follows it: apply the
     * records of g in turn, then end as EndRecords does, as RecordsFrom
     * says.
     */
    method ApplyRecords(g: GenRecords, fCapture: bool, fDbHeaderOnly: bool) returns (err: Code)
      requires Valid()
      modifies this
      ensures Stream(err, State()) == RecordsFrom(old(State()), g, 0, fCapture, fDbHeaderOnly, env.src, env.cacheMax, env.dbidMax)
      ensures Valid() && Rest() == old(Rest())
    {
      var i := 0;
      while i < |g.recs|
        invariant 0 <= i <= |g.recs|
        invariant Valid() && Rest() == old(Rest())
        invariant RecordsFrom(old(State()), g, 0, fCapture, fDbHeaderOnly, env.src, env.cacheMax, env.dbidMax)
               == RecordsFrom(State(), g, i, fCapture, fDbHeaderOnly, env.src, env.cacheMax, env.dbidMax)
      {
        RecordsFromStep(State(), g, i, fCapture, fDbHeaderOnly, env.src, env.cacheMax, env.dbidMax);
        var stop;
        stop, err := ProcessRecord(g, i, fCapture, fDbHeaderOnly);
        if stop {
          return;
        }
        i := i + 1;
      }
      err := EndRecords(g, fDbHeaderOnly);
    }

    /**
     * ErrRBSGenApply: open generation gen, record the revert in progress at
     * it unless only headers are wanted, then apply its records, as
     * RbsRevertExec.GenApply says.
     */
    method GenApply(gen: int, fDbHeaderOnly: bool, input: GenInput) returns (err: Code)
      requires Valid()
      requires !fDbHeaderOnly ==> AllowedTransition(chk.state, InProgress)
      modifies this
      ensures Outcome(err, Running()) == RbsRevertExec.GenApply(old(Running()), gen, fDbHeaderOnly, lMinGenToApply, input, env)
      ensures Valid() && Config() == old(Config())
    {
      if input.openErr != Success {
        return input.openErr;
      }
      if !fDbHeaderOnly {
        err := UpdateRevertCheckpoint(InProgress, RbsPos(0, gen), input.tmCreate, true, input.clock, input.chkWriteErr);
        if err != Success {
          return;
        }
      }
      err := ApplyRecords(input.recs, gen == lMinGenToApply, fDbHeaderOnly);
    }

    /** The loop of ErrExecuteRevert that moves every database into the revert state (ErrSetDbstateForRevert). */
    method SetDbstates(dbIns: nat -> DbstateInput) returns (err: Code)
      requires Valid()
      modifies this
      ensures Marked(err, dbs) == SetDbstatesFrom(old(dbs), 0, chk.state, ltRevertTo, dbIns)
      ensures Others() == old(Others()) && Valid()
    {
      var k := 0;
      while k < |dbs|
        invariant 0 <= k <= |dbs|
        invariant SetDbstatesFrom(old(dbs), 0, chk.state, ltRevertTo, dbIns) == SetDbstatesFrom(dbs, k, chk.state, ltRevertTo, dbIns)
        invariant Others() == old(Others())
      {
        var o := SetDbstateForRevert(dbs[k], chk.state, ltRevertTo, dbIns(k).now, dbIns(k).writeErr);
        dbs := dbs[k := o.db];
        if o.err != Success {
          err := o.err;
          SetDbstatesKeeps(old(State()), chk.state, ltRevertTo, dbIns, env.dbidMax);
          return;
        }
        k := k + 1;
      }
      err := Success;
      SetDbstatesKeeps(old(State()), chk.state, ltRevertTo, dbIns, env.dbidMax);
    }

    /**
     * One pass of the generation loop of ErrExecuteRevert: apply generation
     * gen in full, reset every bitmap and check the cancel flag, as GenPass
     * says.
     */
    method GenerationPass(gen: int, input: GenInput, cancelled: bool) returns (done: bool, err: Code)
      requires Valid() && AllowedTransition(chk.state, InProgress)
      modifies this
      ensures var st := GenPass(old(Running()), gen, lMinGenToApply, input, cancelled, env);
        && (done <==> st.Done?)
        && (done ==> st.o == Outcome(err, Running()))
        && (!done ==> st.run == Running())
      ensures Valid() && Config() == old(Config())
    {
      err := GenApply(gen, false, input);
      if err != Success {
        return true, err;
      }
      GenApplySuccess(old(Running()), gen, lMinGenToApply, input, env);
      ResetAllPages();
      if cancelled {
        return true, RBSRCRevertCancelled;
      }
      return false, Success;
    }

    /** One iteration of the generation loop: one step of GensFrom. */
    method NextGeneration(gen: int, ins: int -> GenInput, cancelledAfter: int -> bool) returns (done: bool, err: Code)
      requires Valid() && AllowedTransition(chk.state, InProgress)
      requires lMinGenToApply <= gen
      modifies this
      ensures Valid() && Config() == old(Config())
      ensures done ==> Outcome(err, Running()) == GensFrom(old(Running()), gen, lMinGenToApply, ins, cancelledAfter, env)
      ensures !done ==> && AllowedTransition(chk.state, InProgress)
                        && GensFrom(old(Running()), gen, lMinGenToApply, ins, cancelledAfter, env)
                           == GensFrom(Running(), gen - 1, lMinGenToApply, ins, cancelledAfter, env)
    {
      GensFromStep(Running(), gen, lMinGenToApply, ins, cancelledAfter, env);
      done, err := GenerationPass(gen, ins(gen), cancelledAfter(gen));
    }

    /**
     * The generation loop of ErrExecuteRevert: the generations from
     * m_lRBSMaxGenToApply down to m_lRBSMinGenToApply, one pass each, as
     * GensFrom says.
     */
    method ApplyGenerations(ins: int -> GenInput, cancelledAfter: int -> bool) returns (err: Code)
      requires Valid() && AllowedTransition(chk.state, InProgress)
      modifies this
      ensures Config() == old(Config()) && Valid()
      ensures Outcome(err, Running()) == GensFrom(old(Running()), lMaxGenToApply, lMinGenToApply, ins, cancelledAfter, env)
    {
      var gen := lMaxGenToApply;
      while gen >= lMinGenToApply
        invariant Config() == old(Config())
        invariant Valid() && AllowedTransition(chk.state, InProgress)
        invariant GensFrom(old(Running()), lMaxGenToApply, lMinGenToApply, ins, cancelledAfter, env)
               == GensFrom(Running(), gen, lMinGenToApply, ins, cancelledAfter, env)
        decreases gen - lMinGenToApply + 1
      {
        var done;
        done, err := NextGeneration(gen, ins, cancelledAfter);
        if done {
          return;
        }
        gen := gen - 1;
      }
      err := Success;
    }

    /**
     * ErrExecuteRevert up to the state management after the revert, as
     * RbsRevertExec.ExecuteRevert says: start the timer, move the databases
     * into the revert state and apply the generations from the newest to
     * the oldest, or, once the revert is copying logs, read only the
     * headers of the oldest generation.
     */
    method ExecuteRevert(start: Clock, dbIns: nat -> DbstateInput, ins: int -> GenInput, cancelledAfter: int -> bool)
      returns (err: Code)
      requires Valid() && chk.state != Completed
      modifies this
      ensures Config() == old(Config()) && Valid()
      ensures Outcome(err, Running()) == RbsRevertExec.ExecuteRevert(old(Running()), lMinGenToApply, lMaxGenToApply,
                                                                     ltRevertTo, start, dbIns, ins, cancelledAfter, env)
    {
      ftLastUpdate := start.ft;
      if chk.state != CopyingLogs {
        err := SetDbstates(dbIns);
        if err != Success {
          return;
        }
        err := ApplyGenerations(ins, cancelledAfter);
      } else {
        err := GenApply(lMinGenToApply, true, ins(lMinGenToApply));
      }
    }
  }
}
