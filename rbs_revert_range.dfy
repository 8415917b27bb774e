// Choosing what to revert: the attach tables of the snapshot generations
// build the per-database contexts (ErrRBSDBRCInitFromAttachInfo), and the scan
// from the newest generation down finds the range of generations to apply
// (ErrComputeRBSRangeToApply).
module RbsRevertRange {
  import opened Jet
  import opened RbsGen
  import opened RbsRevertDb

  /**
   * How the revert reaches database files: the header ErrUtilReadShadowedHeader
   * reads for a name, FErrIsDbHeaderCorruption, and dbidMax.
   */
  datatype DbFiles = DbFiles(read: seq<char> -> Result<DbHeader>, headerCorrupt: Code -> bool, dbidMax: nat)

  /** A failed read reports an error code. */
  ghost predicate ReadsReport(f: DbFiles)
  {
    forall name :: f.read(name).Fail? ==> f.read(name).error != Success
  }

  /** FRBSDBRC: the first context with the given name, or |dbs| when there is none. */
  function FindDb(dbs: seq<DbRevert>, name: seq<char>): (i: nat)
    ensures i <= |dbs|
    ensures i < |dbs| ==> dbs[i].name == name
    ensures forall j :: 0 <= j < i ==> dbs[j].name != name
  {
    if |dbs| == 0 then 0 else if dbs[0].name == name then 0 else 1 + FindDb(dbs[1..], name)
  }

  predicate Known(dbs: seq<DbRevert>, name: seq<char>)
  {
    FindDb(dbs, name) < |dbs|
  }

  /** No two contexts are for the same database. */
  predicate NamesDistinct(dbs: seq<DbRevert>)
  {
    forall i, j :: 0 <= i < j < |dbs| ==> NameAt(dbs, i) != NameAt(dbs, j)
  }

  lemma NamesDistinctAt(dbs: seq<DbRevert>, i: nat, j: nat)
    requires NamesDistinct(dbs) && i < |dbs| && j < |dbs| && i != j
    ensures dbs[i].name != dbs[j].name
  {
    if i < j {
      assert NameAt(dbs, i) != NameAt(dbs, j);
    } else {
      assert NameAt(dbs, j) != NameAt(dbs, i);
    }
  }

  /** With distinct names, the lookup finds a context by its own name. */
  lemma FindDbUnique(dbs: seq<DbRevert>, j: nat)
    requires NamesDistinct(dbs) && j < |dbs|
    ensures FindDb(dbs, dbs[j].name) == j
  {
    var i := FindDb(dbs, dbs[j].name);
    if i != j {
      NamesDistinctAt(dbs, i, j);
    }
  }

  /** Two context sequences with the same names in a common prefix find those names alike. */
  lemma FindDbSameNames(dbs: seq<DbRevert>, dbs': seq<DbRevert>, name: seq<char>)
    requires |dbs| <= |dbs'|
    requires forall j :: 0 <= j < |dbs| ==> dbs'[j].name == dbs[j].name
    requires Known(dbs, name)
    ensures FindDb(dbs', name) == FindDb(dbs, name)
  {
    var i := FindDb(dbs, name);
    assert dbs'[i].name == name;
    assert forall j :: 0 <= j < i ==> dbs'[j].name != name;
  }

  // ---------------------------------------------------------------------
  // ErrRBSDBRCInitFromAttachInfo
  // ---------------------------------------------------------------------

  datatype Attached = Attached(err: Code, dbs: seq<DbRevert>)

  /**
   * One attach slot: a database not seen yet gets a new context, initialised
   * and expecting the older generation's dirtied dbtime to be this slot's
   * previous one; a database already seen must have been dirtied in this
   * generation exactly when the newer generation said it previously was.
   */
  function AttachStep(dbs: seq<DbRevert>, slot: AttachInfo, sign: Signature, f: DbFiles): (r: Attached)
    requires ReadsReport(f)
  {
    var i := FindDb(dbs, slot.name);
    if i == |dbs| then
      var init := DbrcInit(slot, sign, f.read(slot.name), f.headerCorrupt, f.dbidMax);
      if init.err != Success then Attached(init.err, dbs + [init.db])
      else Attached(Success, dbs + [init.db.(dbtimePrevDirtied := slot.dbtimePrevDirtied)])
    else if dbs[i].dbtimePrevDirtied != slot.dbtimeDirtied then Attached(RBSRCInvalidRBS, dbs)
    else Attached(Success, dbs[i := dbs[i].(dbtimePrevDirtied := slot.dbtimePrevDirtied)])
  }

  /** The number of leading slots in use: the loop stops at the first free slot. */
  function Present(table: seq<AttachInfo>): (n: nat)
    ensures n <= |table|
    ensures forall k :: 0 <= k < n ==> table[k].present
    ensures n < |table| ==> !table[n].present
  {
    if |table| == 0 || !table[0].present then 0 else 1 + Present(table[1..])
  }

  /** The slots in use name distinct databases. */
  predicate SlotNamesDistinct(table: seq<AttachInfo>)
  {
    forall k, m :: 0 <= k < m < Present(table) ==> table[k].name != table[m].name
  }

  /** The attach slots in use, in table order, stopping at the first error. */
  function AttachFrom(dbs: seq<DbRevert>, table: seq<AttachInfo>, sign: Signature, f: DbFiles): Attached
    requires ReadsReport(f)
    decreases |table|
  {
    if |table| == 0 || !table[0].present then Attached(Success, dbs)
    else
      var s := AttachStep(dbs, table[0], sign, f);
      if s.err != Success then s else AttachFrom(s.dbs, table[1..], sign, f)
  }

  /** Contexts are only appended, and existing ones change at most their expected dbtime. */
  ghost predicate Grows(dbs: seq<DbRevert>, dbs': seq<DbRevert>, dbidMax: nat)
  {
    && |dbs| <= |dbs'|
    && (forall j :: 0 <= j < |dbs| ==> dbs'[j] == dbs[j].(dbtimePrevDirtied := dbs'[j].dbtimePrevDirtied))
    && (forall j :: |dbs| <= j < |dbs'| ==>
          dbs'[j].staged == [] && dbs'[j].captured == {} && dbs'[j].hdrFromRbs == None
          && dbs'[j].dbidCurrent == dbidMax)
  }

  /** One slot keeps names distinct and only grows the contexts. */
  lemma StepGrows(dbs: seq<DbRevert>, slot: AttachInfo, sign: Signature, f: DbFiles)
    requires ReadsReport(f)
    ensures Grows(dbs, AttachStep(dbs, slot, sign, f).dbs, f.dbidMax)
    ensures NamesDistinct(dbs) ==> NamesDistinct(AttachStep(dbs, slot, sign, f).dbs)
  {
    var dbs' := AttachStep(dbs, slot, sign, f).dbs;
    if NamesDistinct(dbs) {
      forall i, j | 0 <= i < j < |dbs'| ensures NameAt(dbs', i) != NameAt(dbs', j) {
        if j < |dbs| {
          NamesDistinctAt(dbs, i, j);
        }
      }
    }
  }

  lemma GrowsTrans(a: seq<DbRevert>, b: seq<DbRevert>, c: seq<DbRevert>, dbidMax: nat)
    requires Grows(a, b, dbidMax) && Grows(b, c, dbidMax)
    ensures Grows(a, c, dbidMax)
  {
  }

  /** The whole table keeps names distinct and only grows the contexts. */
  lemma {:induction false} AttachFromGrows(dbs: seq<DbRevert>, table: seq<AttachInfo>, sign: Signature, f: DbFiles)
    requires ReadsReport(f)
    ensures Grows(dbs, AttachFrom(dbs, table, sign, f).dbs, f.dbidMax)
    ensures NamesDistinct(dbs) ==> NamesDistinct(AttachFrom(dbs, table, sign, f).dbs)
    decreases |table|
  {
    if |table| == 0 || !table[0].present {
    } else {
      var s := AttachStep(dbs, table[0], sign, f);
      StepGrows(dbs, table[0], sign, f);
      if s.err == Success {
        AttachFromGrows(s.dbs, table[1..], sign, f);
        GrowsTrans(dbs, s.dbs, AttachFrom(s.dbs, table[1..], sign, f).dbs, f.dbidMax);
      }
    }
  }

  /** What a successful slot leaves: the database is known and expects the slot's previous dbtime. */
  ghost predicate SlotApplied(dbs: seq<DbRevert>, slot: AttachInfo, dbs': seq<DbRevert>)
  {
    && |dbs| <= |dbs'|
    && Known(dbs', slot.name)
    && dbs'[FindDb(dbs', slot.name)].dbtimePrevDirtied == slot.dbtimePrevDirtied
    && (Known(dbs, slot.name) ==> dbs[FindDb(dbs, slot.name)].dbtimePrevDirtied == slot.dbtimeDirtied)
    && (forall j :: 0 <= j < |dbs| && dbs[j].name != slot.name ==> dbs'[j] == dbs[j])
  }

  /** The dbtime-continuity check of one slot, stated without the table walk. */
  lemma StepApplied(dbs: seq<DbRevert>, slot: AttachInfo, sign: Signature, f: DbFiles)
    requires ReadsReport(f) && NamesDistinct(dbs)
    requires AttachStep(dbs, slot, sign, f).err == Success
    ensures SlotApplied(dbs, slot, AttachStep(dbs, slot, sign, f).dbs)
  {
    var s := AttachStep(dbs, slot, sign, f);
    var i := FindDb(dbs, slot.name);
    if i == |dbs| {
      assert s.dbs[|dbs|].name == slot.name;
      assert forall j :: 0 <= j < |dbs| ==> s.dbs[j] == dbs[j];
    } else {
      FindDbSameNames(dbs, s.dbs, slot.name);
    }
  }

  /** Whatever the rest of the table does, a database it does not name keeps its context. */
  ghost predicate Untouched(dbs: seq<DbRevert>, table: seq<AttachInfo>, dbs': seq<DbRevert>)
  {
    |dbs| <= |dbs'| &&
    forall j :: 0 <= j < |dbs| && (forall k :: 0 <= k < Present(table) ==> table[k].name != dbs[j].name) ==>
      dbs'[j] == dbs[j]
  }

  /** Every database the table names is known and expects the slot's previous dbtime. */
  ghost predicate TableKnown(table: seq<AttachInfo>, dbs': seq<DbRevert>)
  {
    forall k :: 0 <= k < Present(table) ==>
      Known(dbs', table[k].name) && dbs'[FindDb(dbs', table[k].name)].dbtimePrevDirtied == table[k].dbtimePrevDirtied
  }

  /** Every database already known was dirtied in this generation when the newer one said. */
  ghost predicate TableContinuous(dbs: seq<DbRevert>, table: seq<AttachInfo>)
  {
    forall k :: 0 <= k < Present(table) && Known(dbs, table[k].name) ==>
      dbs[FindDb(dbs, table[k].name)].dbtimePrevDirtied == table[k].dbtimeDirtied
  }

  /**
   * After a table is read without error, every database it names is known,
   * its context expects the older generation to have been dirtied at the
   * slot's previous dbtime, and every database that was already known had
   * been dirtied in this generation exactly when the newer one said.
   */
  ghost predicate TableApplied(dbs: seq<DbRevert>, table: seq<AttachInfo>, dbs': seq<DbRevert>)
  {
    TableKnown(table, dbs') && TableContinuous(dbs, table) && Untouched(dbs, table, dbs')
  }

  lemma PresentTail(table: seq<AttachInfo>)
    requires |table| > 0 && table[0].present
    ensures Present(table[1..]) == Present(table) - 1
    ensures forall k :: 1 <= k < Present(table) ==> table[1..][k - 1] == table[k]
  {
  }

  lemma StepKnown(dbs: seq<DbRevert>, table: seq<AttachInfo>, mid: seq<DbRevert>, dbs': seq<DbRevert>, dbidMax: nat)
    requires |table| > 0 && table[0].present && SlotNamesDistinct(table)
    requires Grows(mid, dbs', dbidMax)
    requires SlotApplied(dbs, table[0], mid)
    requires TableKnown(table[1..], dbs') && Untouched(mid, table[1..], dbs')
    ensures TableKnown(table, dbs')
  {
    PresentTail(table);
    var n0 := table[0].name;
    var j0 := FindDb(mid, n0);
    forall k | 0 <= k < Present(table[1..])
      ensures table[1..][k].name != mid[j0].name
    {
      assert table[1..][k] == table[k + 1];
    }
    assert dbs'[j0] == mid[j0];
    FindDbSameNames(mid, dbs', n0);
  }

  lemma StepContinuous(dbs: seq<DbRevert>, table: seq<AttachInfo>, mid: seq<DbRevert>, dbidMax: nat)
    requires |table| > 0 && table[0].present && SlotNamesDistinct(table)
    requires Grows(dbs, mid, dbidMax)
    requires SlotApplied(dbs, table[0], mid)
    requires TableContinuous(mid, table[1..])
    ensures TableContinuous(dbs, table)
  {
    PresentTail(table);
    forall k | 1 <= k < Present(table) && Known(dbs, table[k].name)
      ensures dbs[FindDb(dbs, table[k].name)].dbtimePrevDirtied == table[k].dbtimeDirtied
    {
      FindDbSameNames(dbs, mid, table[k].name);
      assert table[1..][k - 1] == table[k];
    }
  }

  lemma StepUntouched(dbs: seq<DbRevert>, table: seq<AttachInfo>, mid: seq<DbRevert>, dbs': seq<DbRevert>, dbidMax: nat)
    requires |table| > 0 && table[0].present
    requires Grows(dbs, mid, dbidMax)
    requires SlotApplied(dbs, table[0], mid)
    requires Untouched(mid, table[1..], dbs')
    ensures Untouched(dbs, table, dbs')
  {
    PresentTail(table);
    forall j | 0 <= j < |dbs| && (forall k :: 0 <= k < Present(table) ==> table[k].name != dbs[j].name)
      ensures dbs'[j] == dbs[j]
    {
      assert mid[j] == dbs[j];
      forall k | 0 <= k < Present(table[1..])
        ensures table[1..][k].name != mid[j].name
      {
        assert table[1..][k] == table[k + 1];
      }
    }
  }

  /** The dbtime-continuity rules hold for the whole table once it is read without error. */
  lemma {:induction false} AttachFromApplied(dbs: seq<DbRevert>, table: seq<AttachInfo>, sign: Signature, f: DbFiles)
    requires ReadsReport(f) && NamesDistinct(dbs) && SlotNamesDistinct(table)
    requires AttachFrom(dbs, table, sign, f).err == Success
    ensures TableApplied(dbs, table, AttachFrom(dbs, table, sign, f).dbs)
    decreases |table|
  {
    if |table| == 0 || !table[0].present {
    } else {
      var s := AttachStep(dbs, table[0], sign, f);
      StepGrows(dbs, table[0], sign, f);
      StepApplied(dbs, table[0], sign, f);
      PresentTail(table);
      assert SlotNamesDistinct(table[1..]) by {
        forall k, m | 0 <= k < m < Present(table[1..])
          ensures table[1..][k].name != table[1..][m].name
        {
          assert table[1..][k] == table[k + 1] && table[1..][m] == table[m + 1];
        }
      }
      AttachFromApplied(s.dbs, table[1..], sign, f);
      AttachFromGrows(s.dbs, table[1..], sign, f);
      var r := AttachFrom(s.dbs, table[1..], sign, f).dbs;
      StepKnown(dbs, table, s.dbs, r, f.dbidMax);
      StepContinuous(dbs, table, s.dbs, f.dbidMax);
      StepUntouched(dbs, table, s.dbs, r, f.dbidMax);
    }
  }

  /**
   * Reading a newer generation's attach table and then the next older one's
   * checks dbtime continuity: each database named in both was dirtied in the
   * older generation exactly when the newer one recorded it as previously
   * dirtied.
   */
  lemma ContinuityAcrossGenerations(dbs: seq<DbRevert>, newer: seq<AttachInfo>, signNewer: Signature,
                                    older: seq<AttachInfo>, signOlder: Signature, f: DbFiles, k1: nat, k2: nat)
    requires ReadsReport(f) && NamesDistinct(dbs)
    requires SlotNamesDistinct(newer) && SlotNamesDistinct(older)
    requires AttachFrom(dbs, newer, signNewer, f).err == Success
    requires AttachFrom(AttachFrom(dbs, newer, signNewer, f).dbs, older, signOlder, f).err == Success
    requires k1 < Present(newer) && k2 < Present(older) && newer[k1].name == older[k2].name
    ensures older[k2].dbtimeDirtied == newer[k1].dbtimePrevDirtied
  {
    var mid := AttachFrom(dbs, newer, signNewer, f).dbs;
    AttachFromApplied(dbs, newer, signNewer, f);
    AttachFromGrows(dbs, newer, signNewer, f);
    AttachFromApplied(mid, older, signOlder, f);
  }

  // ---------------------------------------------------------------------
  // ErrComputeRBSRangeToApply
  // ---------------------------------------------------------------------

  /** A snapshot generation's file: what opening and reading its header returned, and the header. */
  datatype GenFile = GenFile(readErr: Code, hdr: RbsFileHeader)

  /**
   * The inputs of the range scan: the generation files, the versions this
   * build accepts, the time to revert to, the lowest and highest generation
   * found in the snapshot directory, and the database files.
   */
  datatype RangeEnv = RangeEnv(files: int -> GenFile, versions: RbsVersions, target: LogTime,
                               lo: int, hi: int, db: DbFiles)

  /** How the scan ended: the error, the contexts built, and the generation it stopped at when one was old enough. */
  datatype Scan = Scan(err: Code, dbs: seq<DbRevert>, found: Option<int>)

  /** Generation g loads and its header is newer than the target (CmpLogTime > 0). */
  ghost predicate Newer(env: RangeEnv, g: int)
  {
    && LoadRbsGen(env.files(g).readErr, env.files(g).hdr, env.versions) == Success
    && env.files(g).hdr.tmCreate.ticks > env.target.ticks
  }

  /**
   * The scan from generation g down: each generation's header is loaded and
   * its attach table read; one newer than the target must name the creation
   * time of the generation before it, and, below the highest, have been
   * created when the generation above says its predecessor was. The first
   * one not newer than the target ends the scan.
   */
  function ScanFrom(env: RangeEnv, g: int, tmPrev: LogTime, dbs: seq<DbRevert>): Scan
    requires ReadsReport(env.db)
    decreases if g > 0 then g else 0, 1
  {
    if !(g >= env.lo && g > 0) then Scan(Success, dbs, None)
    else ScanIteration(env, g, tmPrev, dbs)
  }

  /**
   * One iteration of the scan. It is a layer of its own so that the body
   * sits two unfoldings below ScanFrom: reasoning about the loop then does
   * not expand the attach tables.
   */
  function ScanIteration(env: RangeEnv, g: int, tmPrev: LogTime, dbs: seq<DbRevert>): Scan
    requires ReadsReport(env.db) && g > 0
    decreases g, 0
  {
    ScanGen(env, g, tmPrev, dbs)
  }

  /** Generation g of the scan, then the generations below it when g is newer than the target and chained. */
  function ScanGen(env: RangeEnv, g: int, tmPrev: LogTime, dbs: seq<DbRevert>): Scan
    requires ReadsReport(env.db) && g > 0
    decreases g, -1
  {
      var file := env.files(g);
      var e := LoadRbsGen(file.readErr, file.hdr, env.versions);
      if e != Success then Scan(e, dbs, None)
      else
        var a := AttachFrom(dbs, file.hdr.attach, file.hdr.signRBSHdrFlush, env.db);
        if a.err != Success then Scan(a.err, a.dbs, None)
        else if file.hdr.tmCreate.ticks > env.target.ticks then
          if !file.hdr.tmPrevGen.IsSet() then Scan(RBSRCInvalidRBS, a.dbs, None)
          else if g != env.hi && file.hdr.tmCreate != tmPrev then Scan(RBSRCInvalidRBS, a.dbs, None)
          else ScanFrom(env, g - 1, file.hdr.tmPrevGen, a.dbs)
        else Scan(Success, a.dbs, Some(g))
  }

  /**
   * Generations g down to m + 1 are all newer than the target and chained:
   * each names a previous generation, and each below the highest was created
   * when the one above says its predecessor was (tmPrev for g itself).
   */
  ghost predicate ChainedDown(env: RangeEnv, m: int, g: int, tmPrev: LogTime)
  {
    && (forall h :: m < h <= g ==> Newer(env, h) && env.files(h).hdr.tmPrevGen.IsSet())
    && (g > m && g != env.hi ==> env.files(g).hdr.tmCreate == tmPrev)
    && (forall h :: m < h < g && h != env.hi ==> env.files(h).hdr.tmCreate == env.files(h + 1).hdr.tmPrevGen)
  }

  /** One more chained generation on top. */
  lemma ChainExtend(env: RangeEnv, m: int, g: int, tmPrev: LogTime)
    requires m < g
    requires ChainedDown(env, m, g - 1, env.files(g).hdr.tmPrevGen)
    requires Newer(env, g) && env.files(g).hdr.tmPrevGen.IsSet()
    requires g == env.hi || env.files(g).hdr.tmCreate == tmPrev
    ensures ChainedDown(env, m, g, tmPrev)
  {
  }

  /** Generation m ends the scan: it loads and is not newer than the target. */
  ghost predicate Stops(env: RangeEnv, m: int)
  {
    && env.lo <= m && m > 0
    && LoadRbsGen(env.files(m).readErr, env.files(m).hdr, env.versions) == Success
    && env.files(m).hdr.tmCreate.ticks <= env.target.ticks
  }

  /**
   * Where the scan stops: at the highest generation not newer than the
   * target, after every generation above it was found newer and chained.
   */
  lemma {:induction false} ScanFromFinds(env: RangeEnv, g: int, tmPrev: LogTime, dbs: seq<DbRevert>)
    requires ReadsReport(env.db)
    ensures var s := ScanFrom(env, g, tmPrev, dbs);
      s.found.Some? ==>
        && s.err == Success && s.found.value <= g
        && Stops(env, s.found.value)
        && ChainedDown(env, s.found.value, g, tmPrev)
    decreases if g > 0 then g else 0
  {
    if g >= env.lo && g > 0 {
      var stop, s, dbs1 := ScanGenFacts(env, g, tmPrev, dbs);
      if stop {
        if s.found.Some? {
          assert ChainedDown(env, g, g, tmPrev);
        }
      } else {
        var tm := env.files(g).hdr.tmPrevGen;
        ScanFromFinds(env, g - 1, tm, dbs1);
        var s1 := ScanFrom(env, g - 1, tm, dbs1);
        if s1.found.Some? {
          ChainExtend(env, s1.found.value, g, tmPrev);
        }
      }
    }
  }

  /**
   * A scan that ends without an error and without a stopping generation
   * found every generation from g down to the lowest newer than the target.
   */
  lemma {:induction false} ScanFromExhausts(env: RangeEnv, g: int, tmPrev: LogTime, dbs: seq<DbRevert>)
    requires ReadsReport(env.db)
    ensures var s := ScanFrom(env, g, tmPrev, dbs);
      s.err == Success && s.found.None? ==> forall h :: env.lo <= h <= g && h > 0 ==> Newer(env, h)
    decreases if g > 0 then g else 0
  {
    if g >= env.lo && g > 0 {
      var stop, s, dbs1 := ScanGenFacts(env, g, tmPrev, dbs);
      if !stop {
        ScanFromExhausts(env, g - 1, env.files(g).hdr.tmPrevGen, dbs1);
      }
    }
  }

  /** At a generation in range the scan is that generation's step. */
  lemma ScanFromStep(env: RangeEnv, g: int, tmPrev: LogTime, dbs: seq<DbRevert>)
    requires ReadsReport(env.db) && g >= env.lo && g > 0
    ensures ScanFrom(env, g, tmPrev, dbs) == ScanGen(env, g, tmPrev, dbs)
  {
    assert ScanFrom(env, g, tmPrev, dbs) == ScanIteration(env, g, tmPrev, dbs);
  }

  /**
   * What the scan does at a generation in range, with its result named so
   * that the lemmas over the whole scan need not expand the attach table:
   * it either ends with s, having found g exactly when it succeeds, or goes
   * on from g - 1 with the contexts dbs1, g being newer than the target and
   * chained.
   */
  lemma ScanGenFacts(env: RangeEnv, g: int, tmPrev: LogTime, dbs: seq<DbRevert>)
    returns (stop: bool, s: Scan, dbs1: seq<DbRevert>)
    requires ReadsReport(env.db) && g >= env.lo && g > 0
    ensures stop ==> ScanFrom(env, g, tmPrev, dbs) == s
    ensures stop ==> (s.err == Success ==> s.found == Some(g))
    ensures stop && s.found.Some? ==> s.found == Some(g) && s.err == Success && Stops(env, g)
    ensures !stop ==> ScanFrom(env, g, tmPrev, dbs) == ScanFrom(env, g - 1, env.files(g).hdr.tmPrevGen, dbs1)
    ensures !stop ==> Newer(env, g) && env.files(g).hdr.tmPrevGen.IsSet()
    ensures !stop ==> g == env.hi || env.files(g).hdr.tmCreate == tmPrev
  {
    ScanFromStep(env, g, tmPrev, dbs);
    var file := env.files(g);
    var e := LoadRbsGen(file.readErr, file.hdr, env.versions);
    if e != Success {
      stop, s, dbs1 := true, Scan(e, dbs, None), dbs;
    } else {
      var a := AttachFrom(dbs, file.hdr.attach, file.hdr.signRBSHdrFlush, env.db);
      if a.err != Success {
        stop, s, dbs1 := true, Scan(a.err, a.dbs, None), a.dbs;
      } else if file.hdr.tmCreate.ticks <= env.target.ticks {
        stop, s, dbs1 := true, Scan(Success, a.dbs, Some(g)), a.dbs;
      } else if file.hdr.tmPrevGen.IsSet() && (g == env.hi || file.hdr.tmCreate == tmPrev) {
        stop, s, dbs1 := false, Scan(Success, a.dbs, None), a.dbs;
      } else {
        stop, s, dbs1 := true, Scan(RBSRCInvalidRBS, a.dbs, None), a.dbs;
      }
    }
  }

  /**
   * An unreadable header of the first generation the scan reads comes out as
   * the read error itself: a read-verify failure is not turned into
   * JET_errRBSRCInvalidRBS, because the source discards that conversion.
   */
  lemma ReadVerifyFailurePassesThrough(env: RangeEnv, tmPrev: LogTime, dbs: seq<DbRevert>)
    requires ReadsReport(env.db)
    requires env.hi >= env.lo && env.hi > 0
    requires env.files(env.hi).readErr == ReadVerifyFailure
    ensures ScanFrom(env, env.hi, tmPrev, dbs).err == ReadVerifyFailure
  {
    ScanFromStep(env, env.hi, tmPrev, dbs);
  }
}
