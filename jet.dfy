// Status codes and small wrappers shared by every component of the model.
// Each constructor of Code stands for one JET_err*/JET_wrn* value the modelled
// functions return; the numeric values are not needed by any rule modelled here.
module Jet {

  datatype Code =
    | Success
      // revert snapshot (RBS) codes
    | BufferTooSmall
    | RBSAttachInfoNotFound
    | RBSHeaderCorrupt
    | FileInvalidType
    | BadRBSVersion
    | RBSInvalidSign
    | RBSRequiredRangeTooLarge
    | OutOfRBSSpace
    | RBSFileCorrupt
    | RBSInvalidRecord
    | RBSRCInvalidRBS
    | RBSRCNoRBSFound
    | RBSRCCopyLogsRevertState
    | RBSRCBadDbState
    | RBSRCRevertCancelled
    | ReadVerifyFailure
    | FileNotFound
    | NoMoreRecords          // JET_wrnNoMoreRecords, a warning: callers treat it as success
    | DatabaseCorrupted
    | FileIOBeyondEOF
    | RBSRCInvalidDbFormatVersion
      // flush map codes
    | InvalidParameter
    | InvalidOperation
    | FlushMapVersionUnsupported
    | FlushMapDatabaseMismatch
    | FlushMapUnrecoverable
    | PageNotInitialized
      // space codes
    | DiskFull
    | LogDiskFull
    | OutOfDatabaseSpace
    | SPNoSpaceBelowShrinkTarget
    | OutOfCursors
    | OutOfMemory
    | OutOfBuffers
    | TransactionTooLong
    | DiskIO
    | LogWriteFail
      // any other status, e.g. one returned by an I/O call outside the model
    | Other(code: int)

  datatype Option<T> = None | Some(value: T)

  datatype Result<T> = Ok(value: T) | Fail(error: Code)
  {
    predicate IsOk() { Ok? }
  }

  /** A LOGTIME: zero means "not set" (the source tests it with FLogtimeIsNull / FLogtimeIsValid). */
  datatype LogTime = LogTime(ticks: nat)
  {
    predicate IsSet() { ticks != 0 }
  }

  /** A SIGNATURE: only equality and "is set" matter to the rules modelled. */
  datatype Signature = Signature(random: nat, created: nat)
  {
    predicate IsSet() { created != 0 }
  }

  const NullSignature := Signature(0, 0)

  /** The JET_dbstate* values of a database header that the modelled rules tell apart. */
  datatype DbState =
    | JustCreated
    | CleanShutdown
    | DirtyShutdown
    | DirtyAndPatchedShutdown
    | RevertInProgress
    | OtherState(code: nat)
}
