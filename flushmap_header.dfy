// The flush map file header (FMFILEHDR) and the checks a header read from
// disk must pass before the map is trusted (ErrValidateFmHdr_ and
// FCheckForDbFmConsistency_ in flushmap.cxx).
module FmHeader {
  import opened Jet

  /** The FMFILEHDR fields the modelled rules read or write. */
  datatype FmFileHeader = FmFileHeader(
    filetype: nat,
    versionMajor: nat,
    versionUpdateMajor: nat,
    versionUpdateMinor: nat,
    signDbHdrFlush: Signature,
    signFlushMapHdrFlush: Signature,
    lGenMinRequired: int,
    lGenMinRequiredTarget: int,
    clean: bool)

  /**
   * The constants a header is checked against: JET_filetypeFlushMap and the
   * version this build writes (ulFMVersionMajorMax, ulFMVersionUpdateMajorMax),
   * whose values are defined outside this model.
   */
  datatype FmVersions = FmVersions(filetypeFlushMap: nat, majorMax: nat, updateMajorMax: nat)

  /** A map file written by a build with the same major version and no newer update. */
  predicate VersionSupported(h: FmFileHeader, v: FmVersions)
  {
    h.versionMajor == v.majorMax && h.versionUpdateMajor <= v.updateMajorMax
  }

  /**
   * FCheckForDbFmConsistency_: the map belongs to the database when either
   * flush signature it carries equals the database's copy, and that copy is set.
   */
  predicate FCheckForDbFmConsistency(
    signDbHdrFlushFromDb: Signature, signFlushMapHdrFlushFromDb: Signature,
    signDbHdrFlushFromFm: Signature, signFlushMapHdrFlushFromFm: Signature)
  {
    || (signDbHdrFlushFromDb == signDbHdrFlushFromFm && signDbHdrFlushFromDb.IsSet())
    || (signFlushMapHdrFlushFromDb == signFlushMapHdrFlushFromFm && signFlushMapHdrFlushFromDb.IsSet())
  }

  /** A database whose two flush signatures are both unset matches no map at all. */
  lemma UnsetSignaturesNeverMatch(dbHdr: Signature, fmHdr: Signature, fromFm1: Signature, fromFm2: Signature)
    requires !dbHdr.IsSet() && !fmHdr.IsSet()
    ensures !FCheckForDbFmConsistency(dbHdr, fmHdr, fromFm1, fromFm2)
  {
  }

  /**
   * The map may be used with the database: either it was cleanly detached, or
   * the database is recoverable and the map already covers every log
   * generation the database still needs.
   */
  predicate Recoverable(h: FmFileHeader, fRecoverable: bool, lGenDbMinRequired: int)
  {
    || h.clean
    || (fRecoverable && lGenDbMinRequired > 0 && h.lGenMinRequired > 0 && lGenDbMinRequired <= h.lGenMinRequired)
  }

  /** Every check of ErrValidateFmHdr_ passes. */
  predicate HeaderAcceptable(
    h: FmFileHeader, v: FmVersions, pageInitialized: bool, checksumOk: bool, dumpMode: bool, fRecoverable: bool,
    lGenDbMinRequired: int, signDbHdrFlushFromDb: Signature, signFlushMapHdrFlushFromDb: Signature)
  {
    && pageInitialized
    && checksumOk
    && h.filetype == v.filetypeFlushMap
    && VersionSupported(h, v)
    && (dumpMode || FCheckForDbFmConsistency(signDbHdrFlushFromDb, signFlushMapHdrFlushFromDb, h.signDbHdrFlush, h.signFlushMapHdrFlush))
    && (dumpMode || Recoverable(h, fRecoverable, lGenDbMinRequired))
  }

  /**
   * ErrValidateFmHdr_: the checks run in order (an initialised page and its
   * checksum, as ErrChecksumFmPage_ makes them, then the file type, the
   * version and, outside dump mode, the database signatures and
   * recoverability) and the first one that fails decides the error. Whether
   * the page is initialised and whether its checksum matches are given as
   * pageInitialized and checksumOk; the database's values are parameters.
   */
  function ValidateFmHdr(
    h: FmFileHeader, v: FmVersions, pageInitialized: bool, checksumOk: bool, dumpMode: bool, fRecoverable: bool,
    lGenDbMinRequired: int, signDbHdrFlushFromDb: Signature, signFlushMapHdrFlushFromDb: Signature): (err: Code)
    ensures err == Success <==> HeaderAcceptable(h, v, pageInitialized, checksumOk, dumpMode, fRecoverable, lGenDbMinRequired, signDbHdrFlushFromDb, signFlushMapHdrFlushFromDb)
    ensures err == PageNotInitialized <==> !pageInitialized
    ensures err == ReadVerifyFailure <==> pageInitialized && !checksumOk
    ensures err == FileInvalidType <==> pageInitialized && checksumOk && h.filetype != v.filetypeFlushMap
    ensures err == FlushMapVersionUnsupported <==> pageInitialized && checksumOk && h.filetype == v.filetypeFlushMap && !VersionSupported(h, v)
    ensures err == FlushMapDatabaseMismatch <==>
      && pageInitialized && checksumOk && h.filetype == v.filetypeFlushMap && VersionSupported(h, v) && !dumpMode
      && !FCheckForDbFmConsistency(signDbHdrFlushFromDb, signFlushMapHdrFlushFromDb, h.signDbHdrFlush, h.signFlushMapHdrFlush)
    ensures err == FlushMapUnrecoverable <==>
      && pageInitialized && checksumOk && h.filetype == v.filetypeFlushMap && VersionSupported(h, v) && !dumpMode
      && FCheckForDbFmConsistency(signDbHdrFlushFromDb, signFlushMapHdrFlushFromDb, h.signDbHdrFlush, h.signFlushMapHdrFlush)
      && !Recoverable(h, fRecoverable, lGenDbMinRequired)
    ensures err in {Success, PageNotInitialized, ReadVerifyFailure, FileInvalidType, FlushMapVersionUnsupported, FlushMapDatabaseMismatch, FlushMapUnrecoverable}
  {
    if !pageInitialized then PageNotInitialized
    else if !checksumOk then ReadVerifyFailure
    else if h.filetype != v.filetypeFlushMap then FileInvalidType
    else if !VersionSupported(h, v) then FlushMapVersionUnsupported
    else if !dumpMode && !FCheckForDbFmConsistency(signDbHdrFlushFromDb, signFlushMapHdrFlushFromDb, h.signDbHdrFlush, h.signFlushMapHdrFlush) then
      FlushMapDatabaseMismatch
    else if !dumpMode && !Recoverable(h, fRecoverable, lGenDbMinRequired) then FlushMapUnrecoverable
    else Success
  }

  /** In dump mode only the checksum, file type and version are checked. */
  lemma DumpModeSkipsDatabaseChecks(
    h: FmFileHeader, v: FmVersions, fRecoverable: bool, lGenDbMinRequired: int, s1: Signature, s2: Signature)
    requires h.filetype == v.filetypeFlushMap && VersionSupported(h, v)
    ensures ValidateFmHdr(h, v, true, true, true, fRecoverable, lGenDbMinRequired, s1, s2) == Success
  {
  }

  /**
   * A cleanly detached map is accepted by any database whose header still
   * carries the signature the map was last flushed with.
   */
  lemma CleanMatchingMapIsAccepted(h: FmFileHeader, v: FmVersions, fRecoverable: bool, lGenDbMinRequired: int, s2: Signature)
    requires h.filetype == v.filetypeFlushMap && VersionSupported(h, v)
    requires h.clean && h.signDbHdrFlush.IsSet()
    ensures ValidateFmHdr(h, v, true, true, false, fRecoverable, lGenDbMinRequired, h.signDbHdrFlush, s2) == Success
  {
  }
}
