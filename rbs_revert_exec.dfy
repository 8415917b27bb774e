// Running a revert: applying one snapshot generation (ErrRBSGenApply), moving
// every database into the revert state (the ErrSetDbstateForRevert loop) and
// the generation loop of ErrExecuteRevert, as functions over the revert
// context's state and the checkpoint. The revert context
// (RbsRevert.RevertContext) is proved to do what they say.
module RbsRevertExec {
  import opened Jet
  import opened RbsGen
  import opened RbsRevertDb
  import opened RbsRevertRange
  import opened RbsRevertApply
  import opened RbsRevertCheckpoint

  /** One reading of the clock: the file time (UtilGetCurrentFileTime) and the date (LGIGetDateTime). */
  datatype Clock = Clock(ft: int, date: LogTime)

  /**
   * What stays fixed during a revert: UtilConvertFileTimeToSeconds,
   * lGenerationMax, m_cpgCacheMax, dbidMax and where page images come from.
   */
  datatype RunEnv = RunEnv(toSeconds: int -> int, genMax: int, cacheMax: int, dbidMax: nat, src: PageSource)

  /**
   * The revert context's state while it runs: the engine state records
   * act on, the checkpoint (m_prbsrchk's header) and the file time of the
   * last timed checkpoint update (m_ftRevertLastUpdate; zero when none).
   */
  datatype Run = Run(e: Engine, chk: Checkpoint, ftLast: int)

  datatype Outcome = Outcome(err: Code, run: Run)

  // ---------------------------------------------------------------------
  // ErrUpdateRevertCheckpoint on the run
  // ---------------------------------------------------------------------

  /** The seconds since the last timed update, when there was one. */
  function Elapsed(run: Run, clock: Clock, env: RunEnv): Option<int>
  {
    if run.ftLast != 0 then Some(env.toSeconds(clock.ft - run.ftLast)) else None
  }

  /**
   * ErrUpdateRevertCheckpoint: the checkpoint moves to state rs at pos, the
   * current generation's page count moves into it when fUpdate says so,
   * and a timed revert restarts its timer. Both clock reads of the source
   * are taken as the one reading clock.
   */
  function UpdateRun(run: Run, rs: RevertState, pos: RbsPos, tmCur: LogTime, fUpdate: bool,
                     clock: Clock, env: RunEnv): (r: Run)
    ensures r.chk == CheckpointAfter(run.chk, run.e.dbs, rs, pos, tmCur, fUpdate, run.e.cPagesRevertedCurGen,
                                     Elapsed(run, clock, env), clock.date, env.genMax)
    ensures r.e.cPagesRevertedCurGen + r.chk.cPagesReverted == run.e.cPagesRevertedCurGen + run.chk.cPagesReverted
    ensures r.e == run.e.(cPagesRevertedCurGen := r.e.cPagesRevertedCurGen)
  {
    var chk := CheckpointAfter(run.chk, run.e.dbs, rs, pos, tmCur, fUpdate, run.e.cPagesRevertedCurGen,
                               Elapsed(run, clock, env), clock.date, env.genMax);
    Run(if fUpdate then run.e.(cPagesRevertedCurGen := 0) else run.e,
        chk,
        if run.ftLast != 0 then clock.ft else run.ftLast)
  }

  // ---------------------------------------------------------------------
  // ErrRBSGenApply
  // ---------------------------------------------------------------------

  /**
   * What applying one generation meets: what opening its file returned, its
   * header's creation time, the clock at its checkpoint update, what writing
   * the checkpoint returned, and its records.
   */
  datatype GenInput = GenInput(openErr: Code, tmCreate: LogTime, clock: Clock, chkWriteErr: Code, recs: GenRecords)

  /**
   * ErrRBSGenApply: open the generation; unless only headers are wanted,
   * record in the checkpoint that the revert is in progress at this
   * generation (folding the page count in); then run the record loop,
   * taking headers only when this is the oldest generation to apply.
   */
  function GenApply(run: Run, gen: int, fDbHeaderOnly: bool, lMin: int, input: GenInput, env: RunEnv): (r: Outcome)
    requires EngineOk(run.e, env.dbidMax)
    requires !fDbHeaderOnly ==> AllowedTransition(run.chk.state, InProgress)
    ensures EngineOk(r.run.e, env.dbidMax) && SameDbs(run.e.dbs, r.run.e.dbs)
    ensures fDbHeaderOnly ==> r.run.chk == run.chk && r.run.ftLast == run.ftLast
    ensures input.openErr != Success ==> r == Outcome(input.openErr, run)
  {
    if input.openErr != Success then Outcome(input.openErr, run)
    else
      var run1 := if !fDbHeaderOnly then UpdateRun(run, InProgress, RbsPos(0, gen), input.tmCreate, true, input.clock, env)
                  else run;
      if !fDbHeaderOnly && input.chkWriteErr != Success then Outcome(input.chkWriteErr, run1)
      else
        var s := RecordsFrom(run1.e, input.recs, 0, gen == lMin, fDbHeaderOnly, env.src, env.cacheMax, env.dbidMax);
        Outcome(s.err, run1.(e := s.e))
  }

  /** Whether every context has written all it staged, and its header. */
  ghost predicate AllFlushed(e: Engine)
  {
    && e.cpgCached == 0
    && forall j :: 0 <= j < |e.dbs| ==> e.dbs[j].staged == [] && e.dbs[j].hdrOnDisk == e.dbs[j].hdr
  }

  /**
   * A generation applied in full that succeeds has flushed every page and
   * header, and left the checkpoint in progress at the start of this
   * generation, created when the generation was.
   */
  lemma GenApplySuccess(run: Run, gen: int, lMin: int, input: GenInput, env: RunEnv)
    requires EngineOk(run.e, env.dbidMax) && AllowedTransition(run.chk.state, InProgress)
    ensures var r := GenApply(run, gen, false, lMin, input, env);
      r.err == Success ==>
        && AllFlushed(r.run.e)
        && r.run.chk.state == InProgress && r.run.chk.pos == RbsPos(0, gen)
        && r.run.chk.tmCreateCurrentGen == input.tmCreate
  {
    if input.openErr == Success && input.chkWriteErr == Success {
      var run1 := UpdateRun(run, InProgress, RbsPos(0, gen), input.tmCreate, true, input.clock, env);
      RecordsSuccessFlushed(run1.e, input.recs, 0, gen == lMin, env.src, env.cacheMax, env.dbidMax);
    }
  }

  /**
   * Headers from the snapshot are only taken in the oldest generation: any
   * other generation leaves them as they were, and the oldest only fills in
   * those still missing. Bitmaps only grow within a generation.
   */
  lemma GenApplyHeaders(run: Run, gen: int, fDbHeaderOnly: bool, lMin: int, input: GenInput, env: RunEnv)
    requires EngineOk(run.e, env.dbidMax)
    requires !fDbHeaderOnly ==> AllowedTransition(run.chk.state, InProgress)
    ensures HeadersAndBitmaps(run.e, GenApply(run, gen, fDbHeaderOnly, lMin, input, env).run.e, gen == lMin)
  {
    if input.openErr == Success {
      var run1 := if !fDbHeaderOnly then UpdateRun(run, InProgress, RbsPos(0, gen), input.tmCreate, true, input.clock, env)
                  else run;
      if fDbHeaderOnly || input.chkWriteErr == Success {
        RecordsHeadersAndBitmaps(run1.e, input.recs, 0, gen == lMin, fDbHeaderOnly, env.src, env.cacheMax, env.dbidMax);
      }
    }
  }

  // ---------------------------------------------------------------------
  // ErrSetDbstateForRevert on every context
  // ---------------------------------------------------------------------

  /** What setting one database's state meets: the clock's date and what writing its header returned. */
  datatype DbstateInput = DbstateInput(now: LogTime, writeErr: Code)

  datatype Marked = Marked(err: Code, dbs: seq<DbRevert>)

  /** The loop of ErrExecuteRevert over the contexts from i on, stopping at the first error. */
  function SetDbstatesFrom(dbs: seq<DbRevert>, i: nat, chkState: RevertState, revertTo: LogTime,
                           ins: nat -> DbstateInput): (r: Marked)
    requires i <= |dbs|
    ensures |r.dbs| == |dbs|
    ensures forall j :: 0 <= j < |dbs| ==> r.dbs[j] == dbs[j].(hdr := r.dbs[j].hdr, hdrOnDisk := r.dbs[j].hdrOnDisk)
    ensures forall j :: 0 <= j < i ==> r.dbs[j] == dbs[j]
    decreases |dbs| - i
  {
    if i == |dbs| then Marked(Success, dbs)
    else
      var o := SetDbstateForRevert(dbs[i], chkState, revertTo, ins(i).now, ins(i).writeErr);
      if o.err != Success then Marked(o.err, dbs[i := o.db])
      else SetDbstatesFrom(dbs[i := o.db], i + 1, chkState, revertTo, ins)
  }

  /**
   * When every context from i on was set, each of them is in the
   * revert-in-progress state, with the target time recorded and its header
   * written; a revert the checkpoint says has begun finds every such
   * database already in that state.
   */
  lemma {:induction false} SetDbstatesAll(dbs: seq<DbRevert>, i: nat, chkState: RevertState, revertTo: LogTime,
                                          ins: nat -> DbstateInput)
    requires i <= |dbs|
    ensures var r := SetDbstatesFrom(dbs, i, chkState, revertTo, ins);
      r.err == Success ==>
        forall j :: i <= j < |dbs| ==>
          && r.dbs[j].hdr.dbstate == RevertInProgress && r.dbs[j].hdr.logtimeRevertTo == revertTo
          && r.dbs[j].hdrOnDisk == r.dbs[j].hdr
          && (chkState != StateNone ==> dbs[j].hdr.dbstate == RevertInProgress)
    decreases |dbs| - i
  {
    if i < |dbs| {
      var o := SetDbstateForRevert(dbs[i], chkState, revertTo, ins(i).now, ins(i).writeErr);
      if o.err == Success {
        var dbs1 := dbs[i := o.db];
        SetDbstatesAll(dbs1, i + 1, chkState, revertTo, ins);
        assert SetDbstatesFrom(dbs, i, chkState, revertTo, ins) == SetDbstatesFrom(dbs1, i + 1, chkState, revertTo, ins);
      }
    }
  }

  /** Setting the database states changes only headers, so the engine invariant holds. */
  lemma SetDbstatesKeeps(e: Engine, chkState: RevertState, revertTo: LogTime, ins: nat -> DbstateInput, dbidMax: nat)
    requires EngineOk(e, dbidMax)
    ensures var r := SetDbstatesFrom(e.dbs, 0, chkState, revertTo, ins);
      EngineOk(e.(dbs := r.dbs), dbidMax) && SameDbs(e.dbs, r.dbs)
  {
    var r := SetDbstatesFrom(e.dbs, 0, chkState, revertTo, ins);
    StagedKept(e.dbs, r.dbs);
  }

  // ---------------------------------------------------------------------
  // The generation loop of ErrExecuteRevert
  // ---------------------------------------------------------------------

  /** One generation either ends the loop with an outcome or hands the next one a state. */
  datatype GenStep = Done(o: Outcome) | Next(run: Run)

  /**
   * One pass of the generation loop: apply generation gen in full, then
   * reset every bitmap, then check the cancel flag.
   */
  function GenPass(run: Run, gen: int, lMin: int, input: GenInput, cancelled: bool, env: RunEnv): (r: GenStep)
    requires EngineOk(run.e, env.dbidMax) && AllowedTransition(run.chk.state, InProgress)
    ensures r.Done? ==> EngineOk(r.o.run.e, env.dbidMax) && SameDbs(run.e.dbs, r.o.run.e.dbs)
    ensures r.Next? ==> EngineOk(r.run.e, env.dbidMax) && SameDbs(run.e.dbs, r.run.e.dbs)
    ensures r.Next? ==> r.run.chk.state == InProgress
  {
    var a := GenApply(run, gen, false, lMin, input, env);
    if a.err != Success then Done(a)
    else
      GenApplySuccess(run, gen, lMin, input, env);
      ResetAllKeeps(a.run.e, env.dbidMax);
      var run2 := a.run.(e := ResetAll(a.run.e));
      if cancelled then Done(Outcome(RBSRCRevertCancelled, run2))
      else Next(run2)
  }

  /** The state a pass leaves, however it ended. */
  function PassState(st: GenStep): Run
  {
    if st.Done? then st.o.run else st.run
  }

  /** Generations gen down to lMin, one pass each. */
  function GensFrom(run: Run, gen: int, lMin: int, ins: int -> GenInput, cancelledAfter: int -> bool,
                    env: RunEnv): (r: Outcome)
    requires EngineOk(run.e, env.dbidMax) && AllowedTransition(run.chk.state, InProgress)
    ensures EngineOk(r.run.e, env.dbidMax) && SameDbs(run.e.dbs, r.run.e.dbs)
    decreases gen - lMin + 1, 1
  {
    if gen < lMin then Outcome(Success, run)
    else GenIteration(run, gen, lMin, ins, cancelledAfter, env)
  }

  /**
   * One iteration of the generation loop. It is a layer of its own so that
   * the pass's definition sits two unfoldings below GensFrom: reasoning
   * about the loop then does not expand a whole generation's records.
   */
  function GenIteration(run: Run, gen: int, lMin: int, ins: int -> GenInput, cancelledAfter: int -> bool,
                        env: RunEnv): (r: Outcome)
    requires EngineOk(run.e, env.dbidMax) && AllowedTransition(run.chk.state, InProgress)
    requires lMin <= gen
    ensures EngineOk(r.run.e, env.dbidMax) && SameDbs(run.e.dbs, r.run.e.dbs)
    decreases gen - lMin + 1, 0
  {
    PassThenRest(run, gen, lMin, ins, cancelledAfter, env)
  }

  /** The pass over generation gen, then the generations below it unless the pass ended the loop. */
  function PassThenRest(run: Run, gen: int, lMin: int, ins: int -> GenInput, cancelledAfter: int -> bool,
                        env: RunEnv): (r: Outcome)
    requires EngineOk(run.e, env.dbidMax) && AllowedTransition(run.chk.state, InProgress)
    requires lMin <= gen
    ensures EngineOk(r.run.e, env.dbidMax) && SameDbs(run.e.dbs, r.run.e.dbs)
    decreases gen - lMin + 1, -1
  {
    match GenPass(run, gen, lMin, ins(gen), cancelledAfter(gen), env)
    case Done(o) => o
    case Next(run2) => GensFrom(run2, gen - 1, lMin, ins, cancelledAfter, env)
  }

  /** GensFrom at a generation in range is one pass, then the rest from the state the pass leaves. */
  lemma GensFromStep(run: Run, gen: int, lMin: int, ins: int -> GenInput, cancelledAfter: int -> bool, env: RunEnv)
    requires EngineOk(run.e, env.dbidMax) && AllowedTransition(run.chk.state, InProgress)
    requires lMin <= gen
    ensures var st := GenPass(run, gen, lMin, ins(gen), cancelledAfter(gen), env);
      && (st.Done? ==> GensFrom(run, gen, lMin, ins, cancelledAfter, env) == st.o)
      && (st.Next? ==>
                       GensFrom(run, gen, lMin, ins, cancelledAfter, env)
                       == GensFrom(st.run, gen - 1, lMin, ins, cancelledAfter, env))
  {
    assert GensFrom(run, gen, lMin, ins, cancelledAfter, env) == GenIteration(run, gen, lMin, ins, cancelledAfter, env)
        == PassThenRest(run, gen, lMin, ins, cancelledAfter, env);
  }

  /** The state one successful generation and the bitmap reset leave behind. */
  ghost predicate GenDone(run: Run, gen: int, input: GenInput)
  {
    && AllFlushed(run.e)
    && (forall j :: 0 <= j < |run.e.dbs| ==> run.e.dbs[j].captured == {})
    && run.chk.state == InProgress && run.chk.pos == RbsPos(0, gen)
    && run.chk.tmCreateCurrentGen == input.tmCreate
  }

  /** A loop outcome that is a success leaves the state GenDone describes. */
  ghost predicate EndsDone(o: Outcome, gen: int, input: GenInput)
  {
    o.err == Success ==> GenDone(o.run, gen, input)
  }

  /** A pass that goes on leaves the state GenDone describes; one that ends early is not a success. */
  ghost predicate PassOk(st: GenStep, gen: int, input: GenInput)
  {
    if st.Next? then GenDone(st.run, gen, input) else st.o.err != Success
  }

  lemma PassDone(run: Run, gen: int, lMin: int, input: GenInput, cancelled: bool, env: RunEnv)
    requires EngineOk(run.e, env.dbidMax) && AllowedTransition(run.chk.state, InProgress)
    ensures PassOk(GenPass(run, gen, lMin, input, cancelled, env), gen, input)
  {
    var a := GenApply(run, gen, false, lMin, input, env);
    GenApplySuccess(run, gen, lMin, input, env);
    if a.err == Success {
      ResetAllKeeps(a.run.e, env.dbidMax);
    }
  }

  /**
   * A generation loop that succeeds over at least one generation ends with
   * every page and header written, every bitmap reset, and the checkpoint in
   * progress at the start of the oldest generation.
   */
  lemma {:induction false} GensFromSuccess(run: Run, gen: int, lMin: int, ins: int -> GenInput,
                                           cancelledAfter: int -> bool, env: RunEnv)
    requires EngineOk(run.e, env.dbidMax) && AllowedTransition(run.chk.state, InProgress)
    requires lMin <= gen
    ensures EndsDone(GensFrom(run, gen, lMin, ins, cancelledAfter, env), lMin, ins(lMin))
    decreases gen - lMin
  {
    var st := GenPass(run, gen, lMin, ins(gen), cancelledAfter(gen), env);
    PassDone(run, gen, lMin, ins(gen), cancelledAfter(gen), env);
    GensFromStep(run, gen, lMin, ins, cancelledAfter, env);
    if st.Next? {
      if gen > lMin {
        GensFromSuccess(st.run, gen - 1, lMin, ins, cancelledAfter, env);
      } else {
        GensFromNone(st.run, gen - 1, lMin, ins, cancelledAfter, env);
      }
    }
  }

  /** Below the oldest generation the loop does nothing. */
  lemma GensFromNone(run: Run, gen: int, lMin: int, ins: int -> GenInput, cancelledAfter: int -> bool, env: RunEnv)
    requires EngineOk(run.e, env.dbidMax) && AllowedTransition(run.chk.state, InProgress)
    requires gen < lMin
    ensures GensFrom(run, gen, lMin, ins, cancelledAfter, env) == Outcome(Success, run)
  {
  }

  /** A header already taken from the snapshot is kept, and no database's state changes. */
  ghost predicate HeadersKept(e: Engine, e': Engine)
  {
    && |e'.dbs| == |e.dbs|
    && forall j :: 0 <= j < |e.dbs| ==>
         && (e.dbs[j].hdrFromRbs.Some? ==> e'.dbs[j].hdrFromRbs == e.dbs[j].hdrFromRbs)
         && e'.dbs[j].hdr.dbstate == e.dbs[j].hdr.dbstate
  }

  lemma HeadersKeptTrans(a: Engine, b: Engine, c: Engine)
    requires HeadersKept(a, b) && HeadersKept(b, c)
    ensures HeadersKept(a, c)
  {
  }

  /** One pass keeps the headers already taken. */
  lemma PassHeaders(run: Run, gen: int, lMin: int, input: GenInput, cancelled: bool, env: RunEnv)
    requires EngineOk(run.e, env.dbidMax) && AllowedTransition(run.chk.state, InProgress)
    ensures HeadersKept(run.e, PassState(GenPass(run, gen, lMin, input, cancelled, env)).e)
  {
    var a := GenApply(run, gen, false, lMin, input, env);
    GenApplyHeaders(run, gen, false, lMin, input, env);
    assert HeadersKept(run.e, a.run.e);
    if a.err == Success {
      assert HeadersKept(a.run.e, ResetAll(a.run.e));
      HeadersKeptTrans(run.e, a.run.e, ResetAll(a.run.e));
    }
  }

  /**
   * Over the whole loop a context's header from the snapshot is taken at
   * most once: one it already had is kept. No database's state changes.
   */
  lemma {:induction false} GensFromHeaders(run: Run, gen: int, lMin: int, ins: int -> GenInput,
                                           cancelledAfter: int -> bool, env: RunEnv)
    requires EngineOk(run.e, env.dbidMax) && AllowedTransition(run.chk.state, InProgress)
    ensures HeadersKept(run.e, GensFrom(run, gen, lMin, ins, cancelledAfter, env).run.e)
    decreases gen - lMin + 1
  {
    if gen < lMin {
      assert GensFrom(run, gen, lMin, ins, cancelledAfter, env) == Outcome(Success, run);
    } else {
      var st := GenPass(run, gen, lMin, ins(gen), cancelledAfter(gen), env);
      PassHeaders(run, gen, lMin, ins(gen), cancelledAfter(gen), env);
      GensFromStep(run, gen, lMin, ins, cancelledAfter, env);
      if st.Next? {
        var r := GensFrom(st.run, gen - 1, lMin, ins, cancelledAfter, env);
        GensFromHeaders(st.run, gen - 1, lMin, ins, cancelledAfter, env);
        HeadersKeptTrans(run.e, st.run.e, r.run.e);
      }
    }
  }

  // ---------------------------------------------------------------------
  // ErrExecuteRevert
  // ---------------------------------------------------------------------

  /**
   * ErrExecuteRevert up to the state management after the revert: the
   * revert's timer starts at start; unless the checkpoint says the revert
   * already reached the log-copying stage, every database is moved into the
   * revert state and the generations from lMax down to lMin are applied;
   * otherwise only the database headers of the oldest generation are read.
   * A checkpoint recording a completed revert is one the source's
   * AssertRTL in ErrUpdateRevertCheckpoint does not let through.
   */
  function ExecuteRevert(run: Run, lMin: int, lMax: int, revertTo: LogTime, start: Clock,
                         dbIns: nat -> DbstateInput, ins: int -> GenInput, cancelledAfter: int -> bool,
                         env: RunEnv): (r: Outcome)
    requires EngineOk(run.e, env.dbidMax) && run.chk.state != Completed
    ensures EngineOk(r.run.e, env.dbidMax) && SameDbs(run.e.dbs, r.run.e.dbs)
  {
    var run0 := run.(ftLast := start.ft);
    if run.chk.state != CopyingLogs then
      var m := SetDbstatesFrom(run.e.dbs, 0, run.chk.state, revertTo, dbIns);
      SetDbstatesKeeps(run.e, run.chk.state, revertTo, dbIns, env.dbidMax);
      var run1 := run0.(e := run0.e.(dbs := m.dbs));
      if m.err != Success then Outcome(m.err, run1)
      else GensFrom(run1, lMax, lMin, ins, cancelledAfter, env)
    else GenApply(run0, lMin, true, lMin, ins(lMin), env)
  }

  /**
   * A full revert that succeeds leaves every database in the revert state
   * with the target time, every page and header written, the bitmaps reset
   * and the checkpoint in progress at the oldest generation applied.
   */
  lemma ExecuteRevertSuccess(run: Run, lMin: int, lMax: int, revertTo: LogTime, start: Clock,
                             dbIns: nat -> DbstateInput, ins: int -> GenInput, cancelledAfter: int -> bool,
                             env: RunEnv)
    requires EngineOk(run.e, env.dbidMax) && run.chk.state != Completed && run.chk.state != CopyingLogs
    requires lMin <= lMax
    ensures var r := ExecuteRevert(run, lMin, lMax, revertTo, start, dbIns, ins, cancelledAfter, env);
      r.err == Success ==>
        && AllFlushed(r.run.e)
        && (forall j :: 0 <= j < |r.run.e.dbs| ==>
              r.run.e.dbs[j].captured == {} && r.run.e.dbs[j].hdr.dbstate == RevertInProgress)
        && r.run.chk.state == InProgress && r.run.chk.pos == RbsPos(0, lMin)
  {
    var m := SetDbstatesFrom(run.e.dbs, 0, run.chk.state, revertTo, dbIns);
    SetDbstatesKeeps(run.e, run.chk.state, revertTo, dbIns, env.dbidMax);
    var r := ExecuteRevert(run, lMin, lMax, revertTo, start, dbIns, ins, cancelledAfter, env);
    var run1 := run.(ftLast := start.ft).(e := run.e.(dbs := m.dbs));
    if m.err != Success {
      assert r == Outcome(m.err, run1);
    } else {
      SetDbstatesAll(run.e.dbs, 0, run.chk.state, revertTo, dbIns);
      var g := GensFrom(run1, lMax, lMin, ins, cancelledAfter, env);
      assert r == g;
      GensFromSuccess(run1, lMax, lMin, ins, cancelledAfter, env);
      GensFromHeaders(run1, lMax, lMin, ins, cancelledAfter, env);
    }
  }

  /**
   * A revert resumed at the log-copying stage only reads the oldest
   * generation's headers: it stages no page, changes no bitmap and leaves
   * the checkpoint as it was.
   */
  lemma CopyingLogsReadsHeadersOnly(run: Run, lMin: int, lMax: int, revertTo: LogTime, start: Clock,
                                    dbIns: nat -> DbstateInput, ins: int -> GenInput, cancelledAfter: int -> bool,
                                    env: RunEnv)
    requires EngineOk(run.e, env.dbidMax) && run.chk.state == CopyingLogs
    ensures var r := ExecuteRevert(run, lMin, lMax, revertTo, start, dbIns, ins, cancelledAfter, env);
      && PagesKept(run.e, r.run.e)
      && r.run.chk == run.chk
  {
    var run0 := run.(ftLast := start.ft);
    var input := ins(lMin);
    if input.openErr == Success {
      RecordsHeaderOnlyStagesNothing(run0.e, input.recs, 0, true, env.src, env.cacheMax, env.dbidMax);
    }
  }
}
