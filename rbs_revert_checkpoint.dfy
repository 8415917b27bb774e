// The revert checkpoint (RBSREVERTCHECKPOINT's header): how far a revert got,
// so that a revert interrupted by a crash resumes where it stopped. The
// functions here state what ErrUpdateRevertTimeFromCheckpoint,
// UpdateRBSGenToApplyFromCheckpoint and ErrUpdateRevertCheckpoint compute;
// the revert context (RbsRevert.RevertContext) applies them to its fields.
module RbsRevertCheckpoint {
  import opened Jet
  import opened RbsGen
  import opened RbsRevertDb

  /**
   * The checkpoint header fields the revert reads and writes. typed says
   * whether le_filetype holds JET_filetypeRBSRevertCheckpoint; the rest
   * keep the source's names.
   */
  datatype Checkpoint = Checkpoint(
    state: RevertState,
    pos: RbsPos,
    tmCreateCurrentGen: LogTime,
    lGenMinRevertStart: int,
    lGenMaxRevertStart: int,
    cPagesReverted: nat,
    cSecInRevert: int,
    tmCreate: LogTime,
    tmExecuteRevertBegin: LogTime,
    typed: bool)

  /** A zero-filled checkpoint, as a missing or unreadable checkpoint file leaves it. */
  const ZeroCheckpoint := Checkpoint(StateNone, RbsPos(0, 0), LogTime(0), 0, 0, 0, 0, LogTime(0), LogTime(0), false)

  // ---------------------------------------------------------------------
  // ErrUpdateRevertTimeFromCheckpoint / UpdateRBSGenToApplyFromCheckpoint
  // ---------------------------------------------------------------------

  /**
   * The time the revert goes back to, given the time asked for: a revert
   * already under way that reached an older generation keeps going to that
   * generation's creation time; one already copying logs cannot be moved to
   * an older time.
   */
  function RevertTimeFromCheckpoint(chk: Checkpoint, expected: LogTime): (r: Result<LogTime>)
    ensures chk.state == StateNone ==> r == Ok(expected)
    ensures r.Fail? <==>
              chk.state == CopyingLogs && chk.tmCreateCurrentGen.ticks > expected.ticks
    ensures r.Fail? ==> r.error == RBSRCCopyLogsRevertState
    ensures r.Ok? ==> r.value.ticks <= expected.ticks
    ensures r.Ok? ==> r.value == expected || r.value == chk.tmCreateCurrentGen
    ensures r.Ok? && chk.state != StateNone ==> r.value.ticks <= chk.tmCreateCurrentGen.ticks
  {
    if chk.state != StateNone then
      if chk.tmCreateCurrentGen.ticks < expected.ticks then Ok(chk.tmCreateCurrentGen)
      else if chk.state == CopyingLogs && chk.tmCreateCurrentGen.ticks > expected.ticks then Fail(RBSRCCopyLogsRevertState)
      else Ok(expected)
    else Ok(expected)
  }

  /** Clamping twice clamps once: the time already clamped is kept as it is. */
  lemma RevertTimeIdempotent(chk: Checkpoint, expected: LogTime)
    requires RevertTimeFromCheckpoint(chk, expected).Ok?
    ensures RevertTimeFromCheckpoint(chk, RevertTimeFromCheckpoint(chk, expected).value)
              == RevertTimeFromCheckpoint(chk, expected)
  {
  }

  /**
   * The newest generation still to apply: a revert under way resumes at the
   * generation its checkpoint was taken in.
   */
  function GenToApplyFromCheckpoint(chk: Checkpoint, lMaxGen: int): (g: int)
    ensures chk.state == StateNone ==> g == lMaxGen
    ensures chk.state != StateNone ==> g == chk.pos.lGeneration
  {
    if chk.state != StateNone then chk.pos.lGeneration else lMaxGen
  }

  // ---------------------------------------------------------------------
  // ErrUpdateRevertCheckpoint
  // ---------------------------------------------------------------------

  /**
   * The log range a database needs, as the fold reads it: a database that
   * needs no logs (lGenMinRequired zero) counts with its last consistent
   * generation at both ends.
   */
  function EffMin(db: DbRevert): int
  {
    if db.hdr.lGenMinRequired == 0 then db.hdr.lGenLastConsistent else db.hdr.lGenMinRequired
  }

  function EffMax(db: DbRevert): int
  {
    if db.hdr.lGenMinRequired == 0 then db.hdr.lGenLastConsistent else db.hdr.lGenMaxRequired
  }

  /** The running minimum of the fold over the first |dbs| contexts, from start. */
  function MinFold(dbs: seq<DbRevert>, start: int): int
    decreases |dbs|
  {
    if |dbs| == 0 then start
    else
      var m := MinFold(dbs[..|dbs| - 1], start);
      var e := EffMin(dbs[|dbs| - 1]);
      if m <= e then m else e
  }

  /** The running maximum of the fold, from start. */
  function MaxFold(dbs: seq<DbRevert>, start: int): int
    decreases |dbs|
  {
    if |dbs| == 0 then start
    else
      var m := MaxFold(dbs[..|dbs| - 1], start);
      var e := EffMax(dbs[|dbs| - 1]);
      if m >= e then m else e
  }

  /** The fold's minimum is the least of start and every context's minimum, and is one of them. */
  lemma {:induction false} MinFoldIsMin(dbs: seq<DbRevert>, start: int)
    ensures MinFold(dbs, start) <= start
    ensures forall k :: 0 <= k < |dbs| ==> MinFold(dbs, start) <= EffMin(dbs[k])
    ensures MinFold(dbs, start) == start || exists k :: 0 <= k < |dbs| && MinFold(dbs, start) == EffMin(dbs[k])
    decreases |dbs|
  {
    if |dbs| > 0 {
      var n := |dbs| - 1;
      MinFoldIsMin(dbs[..n], start);
      assert forall k :: 0 <= k < n ==> dbs[..n][k] == dbs[k];
    }
  }

  /** The fold's maximum is the greatest of start and every context's maximum, and is one of them. */
  lemma {:induction false} MaxFoldIsMax(dbs: seq<DbRevert>, start: int)
    ensures MaxFold(dbs, start) >= start
    ensures forall k :: 0 <= k < |dbs| ==> MaxFold(dbs, start) >= EffMax(dbs[k])
    ensures MaxFold(dbs, start) == start || exists k :: 0 <= k < |dbs| && MaxFold(dbs, start) == EffMax(dbs[k])
    decreases |dbs|
  {
    if |dbs| > 0 {
      var n := |dbs| - 1;
      MaxFoldIsMax(dbs[..n], start);
      assert forall k :: 0 <= k < n ==> dbs[..n][k] == dbs[k];
    }
  }

  /**
   * The log range recorded when the revert starts. It is computed only while
   * one of its ends is still zero and, as the source guards it with
   * m_irbsdbrcMaxInUse > 0, only when there are at least two contexts.
   */
  function StartRange(chk: Checkpoint, dbs: seq<DbRevert>, genMax: int): (int, int)
  {
    if |dbs| > 1 && (chk.lGenMinRevertStart == 0 || chk.lGenMaxRevertStart == 0) then
      (MinFold(dbs, genMax), MaxFold(dbs, 0))
    else (chk.lGenMinRevertStart, chk.lGenMaxRevertStart)
  }

  /** The transitions the source insists on (AssertRTL): a revert in progress follows none or itself; copying logs follows a revert in progress. */
  predicate AllowedTransition(from: RevertState, to: RevertState)
  {
    && to != StateNone
    && (to == InProgress ==> from == StateNone || from == InProgress)
    && (to == CopyingLogs ==> from == InProgress)
  }

  /**
   * What the checkpoint holds after ErrUpdateRevertCheckpoint moves it to
   * state rs at position pos. elapsed is the time spent since the last
   * update, in seconds, or None when no earlier update was timed; date is
   * the clock's date; cur the pages reverted in the current generation,
   * which are added in when fUpdate says so; genMax is lGenerationMax.
   */
  function CheckpointAfter(chk: Checkpoint, dbs: seq<DbRevert>, rs: RevertState, pos: RbsPos, tmCur: LogTime,
                           fUpdate: bool, cur: nat, elapsed: Option<int>, date: LogTime, genMax: int): Checkpoint
  {
    var range := StartRange(chk, dbs, genMax);
    chk.(state := rs, pos := pos, tmCreateCurrentGen := tmCur,
         lGenMinRevertStart := range.0, lGenMaxRevertStart := range.1,
         cPagesReverted := if fUpdate then chk.cPagesReverted + cur else chk.cPagesReverted,
         cSecInRevert := if elapsed.Some? then chk.cSecInRevert + elapsed.value else chk.cSecInRevert,
         tmCreate := if chk.tmCreate.IsSet() then chk.tmCreate else date,
         typed := if chk.tmCreate.IsSet() then chk.typed else true,
         tmExecuteRevertBegin := if !chk.tmExecuteRevertBegin.IsSet() && rs == InProgress then date
                                 else chk.tmExecuteRevertBegin)
  }

  /**
   * Each update records the new state and position, and no reverted page is
   * lost or counted twice: the pages of the current generation move into
   * the checkpoint's total only when the counter is reset.
   */
  lemma CheckpointRecords(chk: Checkpoint, dbs: seq<DbRevert>, rs: RevertState, pos: RbsPos, tmCur: LogTime,
                          fUpdate: bool, cur: nat, elapsed: Option<int>, date: LogTime, genMax: int)
    ensures var r := CheckpointAfter(chk, dbs, rs, pos, tmCur, fUpdate, cur, elapsed, date, genMax);
      && r.state == rs && r.pos == pos && r.tmCreateCurrentGen == tmCur
      && r.cPagesReverted + (if fUpdate then 0 else cur) == chk.cPagesReverted + cur
      && (elapsed.None? ==> r.cSecInRevert == chk.cSecInRevert)
  {
  }

  /**
   * The creation time, the file type and the time the revert began are set
   * by the first update that needs them and never change afterwards.
   */
  lemma CheckpointTimesSetOnce(chk: Checkpoint, dbs: seq<DbRevert>, rs: RevertState, pos: RbsPos, tmCur: LogTime,
                               fUpdate: bool, cur: nat, elapsed: Option<int>, date: LogTime, genMax: int,
                               dbs2: seq<DbRevert>, rs2: RevertState, pos2: RbsPos, tmCur2: LogTime,
                               fUpdate2: bool, cur2: nat, elapsed2: Option<int>, date2: LogTime)
    requires date.IsSet()
    ensures var r := CheckpointAfter(chk, dbs, rs, pos, tmCur, fUpdate, cur, elapsed, date, genMax);
            var r2 := CheckpointAfter(r, dbs2, rs2, pos2, tmCur2, fUpdate2, cur2, elapsed2, date2, genMax);
      && r.tmCreate.IsSet() && (chk.tmCreate.IsSet() ==> r.tmCreate == chk.tmCreate)
      && (!chk.tmCreate.IsSet() ==> r.typed)
      && r2.tmCreate == r.tmCreate && r2.typed == r.typed
      && (rs == InProgress ==> r.tmExecuteRevertBegin.IsSet() && r2.tmExecuteRevertBegin == r.tmExecuteRevertBegin)
      && (chk.tmExecuteRevertBegin.IsSet() ==> r.tmExecuteRevertBegin == chk.tmExecuteRevertBegin)
  {
  }

  /**
   * With at least two contexts and no range recorded yet, the range recorded
   * starts no later than any database's first needed generation and ends no
   * earlier than any database's last, and each end is a database's own value
   * or the fold's starting value (lGenerationMax and 0).
   */
  lemma StartRangeCovers(chk: Checkpoint, dbs: seq<DbRevert>, genMax: int)
    requires |dbs| > 1 && (chk.lGenMinRevertStart == 0 || chk.lGenMaxRevertStart == 0)
    ensures var (lo, hi) := StartRange(chk, dbs, genMax);
      && (forall k :: 0 <= k < |dbs| ==> lo <= EffMin(dbs[k]) && EffMax(dbs[k]) <= hi)
      && lo <= genMax && hi >= 0
      && (lo == genMax || exists k :: 0 <= k < |dbs| && lo == EffMin(dbs[k]))
      && (hi == 0 || exists k :: 0 <= k < |dbs| && hi == EffMax(dbs[k]))
  {
    MinFoldIsMin(dbs, genMax);
    MaxFoldIsMax(dbs, 0);
  }

  /** Once both ends are recorded as non-zero, later updates leave the range alone. */
  lemma StartRangeSetOnce(chk: Checkpoint, dbs: seq<DbRevert>, genMax: int, dbs2: seq<DbRevert>)
    requires StartRange(chk, dbs, genMax).0 != 0 && StartRange(chk, dbs, genMax).1 != 0
    ensures var c := chk.(lGenMinRevertStart := StartRange(chk, dbs, genMax).0,
                          lGenMaxRevertStart := StartRange(chk, dbs, genMax).1);
      StartRange(c, dbs2, genMax) == StartRange(chk, dbs, genMax)
  {
  }

  /**
   * With a single context the range is never computed (the guard
   * m_irbsdbrcMaxInUse > 0 needs a second one): a range not yet recorded
   * stays zero through every update.
   */
  lemma SingleContextLeavesRangeUnset(chk: Checkpoint, dbs: seq<DbRevert>, genMax: int)
    requires |dbs| == 1 && chk.lGenMinRevertStart == 0
    ensures StartRange(chk, dbs, genMax).0 == 0
    ensures EffMin(dbs[0]) != 0 ==> StartRange(chk, dbs, genMax).0 != EffMin(dbs[0])
  {
  }
}
