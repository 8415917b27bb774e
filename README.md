# Revert snapshot, flush map and space header of the ESE database engine

This project models three parts of the ESE (Extensible Storage Engine) storage
engine in Dafny and proves properties of the model.

- **The revert snapshot (RBS)** (`revertsnapshot.cxx`). The RBS is a log of page
  before-images that lets a database be rolled back to an earlier time.
  - **Writer.** `ErrCaptureRec` lays records out in 4 KiB segments. A record
    that does not fit starts with a FragBegin piece and goes on in FragContinue
    pieces. Segments are sealed with their ordinal, a time stamp and a
    checksum. Buffers are queued, written and flushed, and the header's logical
    file size follows the flush watermark.
  - **Reader.** `ErrGetNextRecord` reads segments back, checks each one and
    reassembles fragmented records. A round-trip theorem connects it to the
    writer: a generation written and flushed reads back as the records
    captured, in order, and then `JET_wrnNoMoreRecords`.
  - **Generation bookkeeping.** File names, position order, header
    validation, the attach table, the required log range and the start-up
    decision.
  - **Cleaner.** The first valid generation, and the cleanup pass with its
    QWORD free-space and total-size counters.
  - **Revert engine.** Database revert contexts, the revert checkpoint, the
    range of generations to apply, applying records, flushing pages in
    page-number order, and the generation loop of `ErrExecuteRevert`.
- **The flush map** (`flushmap.cxx`). The flush map records, two bits per page,
  the flush type of each database page.
  - Page layout and the bitmap arithmetic.
  - Header validation.
  - Recording and looking up flush types.
  - The section-flush cycle that writes dirty map pages and checkpoints the
    header.
  - Cleaning the map at termination.
- **SPACE_HEADER** (`space.hxx`). The flags byte, the unions that share storage,
  and the list of expected space errors.

Stateful objects are classes whose methods change their fields:

- `RbsWriter.SnapshotWriter` for CRevertSnapshot's buffers and watermarks;
- `RbsRevert.RevertContext` for CRBSRevertContext;
- `RbsCleaner.Cleaner`;
- `FlushMap.FlushMap`;
- `Space.SpaceHeader`.

Each of these methods is proved against a specification function on values,
and the properties are proved about those functions.

The following are parameters of the model:

- File contents, and the results of I/O calls (as error codes or fault
  oracles).
- The clock.
- The checksum function.
- System parameters.

## Model

| member | source | states |
|---|---|---|
| `Space.WithFlag` | dev/ese/src/inc/space.hxx:105-106 | OR-ing a one-bit mask sets that flag, keeps every other bit of the flags byte and is idempotent |
| `Space.ExtentFlagsDistinct` | dev/ese/src/inc/space.hxx:4-8 | the five extent flags are distinct single bits, so each test sees only its own bit |
| `Space.SpaceHeader.constructor` | dev/ese/src/inc/space.hxx:73-78 | a new header has the whole flags word cleared: single extent, unique, version 1 |
| `Space.SpaceHeader.Fv2` | dev/ese/src/inc/space.hxx:90-91 | the header is v2 exactly when bit 0x04 of the first flags byte is set; Fv1 is its negation |
| `Space.SpaceHeader.FMultipleExtent` | dev/ese/src/inc/space.hxx:95-96 | multiple-extent exactly when bit 0x01 is set; FSingleExtent is its negation |
| `Space.SpaceHeader.FNonUnique` | dev/ese/src/inc/space.hxx:97-98 | non-unique exactly when bit 0x02 is set; FUnique is its negation |
| `Space.SpaceHeader.PgnoAE` | dev/ese/src/inc/space.hxx:100-101 | the available-extent root is the owned-extent root plus one, wrapping in 32-bit PGNO arithmetic |
| `Space.SpaceHeader.SetCpgPrimary` | dev/ese/src/inc/space.hxx:103 | sets the primary page count and nothing else |
| `Space.SpaceHeader.SetPgnoParent` | dev/ese/src/inc/space.hxx:104 | sets the parent page and nothing else |
| `Space.SpaceHeader.SetMultipleExtent` | dev/ese/src/inc/space.hxx:105 | sets the multiple-extent flag, keeping every other flag and field |
| `Space.SpaceHeader.SetNonUnique` | dev/ese/src/inc/space.hxx:106 | sets the non-unique flag, keeping every other flag and field |
| `Space.SpaceHeader.SetRgbitAvail` | dev/ese/src/inc/space.hxx:107 | storing the bitmap overwrites the owned-extent root, which shares its storage |
| `Space.SpaceHeader.SetPgnoOE` | dev/ese/src/inc/space.hxx:108 | storing the owned-extent root overwrites the bitmap |
| `Space.SpaceHeader.SetCpgLast` | dev/ese/src/inc/space.hxx:109-117 | recording the last allocation size turns a v1 header into v2 (a v2 header stays v2) and stores the size where CpgLastAlloc reads it |
| `Space.FSPExpectedError` | dev/ese/src/inc/space.hxx:349-378 | true exactly for success, the out-of-space and resource errors, and the corruption errors |
| `FmLayout.SlotsFit` | dev/ese/src/ese/flushmap.cxx:2442 | the bitmap slots of every page a map page covers fit after the data page header |
| `FmLayout.OffsetOfFmPgno` | dev/ese/src/ese/flushmap.cxx:72-75 | map page n starts n + 1 pages into the file, after the header page |
| `FmLayout.FmPgnoOfOffset` | dev/ese/src/ese/flushmap.cxx:77-81 | a page-aligned offset past the header names the map page that starts there |
| `FmLayout.OffsetRoundTrip` | dev/ese/src/ese/flushmap.cxx:72-81 | going from a map page to its offset and back gives the page |
| `FmLayout.RequiredCount` | dev/ese/src/ese/flushmap.cxx:181-184 | the smallest number of data pages whose slots reach past pgno |
| `FmLayout.RequiredMonotone` | dev/ese/src/ese/flushmap.cxx:181-184 | more database pages never need fewer map pages |
| `FmLayout.FmPgnoOfDbPgno` | dev/ese/src/ese/flushmap.cxx:2935-2944 | the map page whose slot range contains pgno |
| `FmLayout.FmPgnoMonotone` | dev/ese/src/ese/flushmap.cxx:2935-2944 | later database pages never lie on an earlier map page |
| `FmLayout.FmPgnoStep` | dev/ese/src/ese/flushmap.cxx:2935-2944 | consecutive database pages lie on the same map page or on the next one |
| `FmLayout.SameFmPageDistinctSlots` | dev/ese/src/ese/flushmap.cxx:2121-2125 | two different pages on the same map page have different slots |
| `FmLayout.RequiredFileSize` | dev/ese/src/ese/flushmap.cxx:240-243 | the file ends where the page after the last required data page would start |
| `FmLayout.PreferredCount` | dev/ese/src/ese/flushmap.cxx:186-238 | never below the required count for pgno, never past the count pgnoSysMax requires, and at most four coalesced writes of pages above the required count; a non-persisted map or a zero extension size gets exactly the required count |
| `FmLayout.PreferredReachesFourWrites` | dev/ese/src/ese/flushmap.cxx:228-231 | the cap lets an excess of exactly 4·writeMax pages through, one more than its clamp value |
| `FmBitmap.GetByte` | dev/ese/src/ese/flushmap.cxx:2127-2148 | the state read from a byte fits in cbit bits |
| `FmBitmap.GetSetByte` | dev/ese/src/ese/flushmap.cxx:2150-2186 | writing a state that fits and reading it back gives the state |
| `FmBitmap.GetSetOtherSlot` | dev/ese/src/ese/flushmap.cxx:2150-2186 | writing one slot leaves every other slot of the byte as it was |
| `FmBitmap.IbitInPage` | dev/ese/src/ese/flushmap.cxx:2121-2125 | pgno's slot lies inside the page, after the header |
| `FmBitmap.SlotAligned` | dev/ese/src/ese/flushmap.cxx:2121-2125 | slots start at multiples of cbit, so no slot straddles a byte |
| `FmBitmap.GetState` | dev/ese/src/ese/flushmap.cxx:2127-2148 | the state of pgno's slot always fits in cbit bits |
| `FmBitmap.SetState` | dev/ese/src/ese/flushmap.cxx:2150-2186 | pgno's slot now reads the new state, every other page's slot reads as before, and no bit outside the slot changes |
| `FmBitmap.SetStateOnBitmap` | dev/ese/src/ese/flushmap.cxx:2150-2186 | the in-place update leaves the array equal to SetState of its old contents |
| `FmBitmap.FlushTypeLayout` | dev/ese/src/ese/flushmap.cxx:2188-2204 | the flush-type bitmap fits its page after the page header |
| `FmBitmap.RuntimeLayout` | dev/ese/src/ese/flushmap.cxx:2206-2229 | the runtime bitmap has one bit per page and no header, and fits its buffer |
| `FmBitmap.FilledStates` | dev/ese/src/ese/flushmap.cxx:1039-1054 | every slot of a zeroed bitmap reads 0, and every slot of an all-ones runtime bitmap reads 1 |
| `FmBitmap.FlushTypeOf` | dev/ese/src/ese/flushmap.cxx:2188-2195 | the flush type read is a two-bit state |
| `FmBitmap.WithFlushType` | dev/ese/src/ese/flushmap.cxx:2197-2204 | after SetFlushType_ the page reads the new type for pgno, and every page in another slot of the map page reads as before |
| `FmBitmap.WithRuntime` | dev/ese/src/ese/flushmap.cxx:2219-2229 | sets the runtime bit of the page only, and leaves a page without a runtime bitmap alone |
| `FmHeader.UnsetSignaturesNeverMatch` | dev/ese/src/ese/flushmap.cxx:83-93 | a database whose two flush signatures are unset matches no map |
| `FmHeader.ValidateFmHdr` | dev/ese/src/ese/flushmap.cxx:1933-2016 | each error is returned exactly when its check is the first to fail, in the source's order (an uninitialised page, JET_errPageNotInitialized; the checksum; file type; version; signatures; recoverability), and success means every check passed |
| `FmHeader.DumpModeSkipsDatabaseChecks` | dev/ese/src/ese/flushmap.cxx:1965-2016 | in dump mode only the checksum, file type and version decide |
| `FmHeader.CleanMatchingMapIsAccepted` | dev/ese/src/ese/flushmap.cxx:1933-2016 | a cleanly detached map is accepted by a database that still carries the signature it was flushed with |
| `FlushMap.TopValid` | dev/ese/src/ese/flushmap.cxx:923-951 | the highest index below j with a valid descriptor, or -1 when there is none |
| `FlushMap.CleanAfterRun` | dev/ese/src/ese/flushmap.cxx:1707-1764 | after a run of writes whose first failure on completion is at f, every valid page below f is clean |
| `FlushMap.FlushMap.constructor` | dev/ese/src/ese/flushmap.cxx:2356-2403 | a map with no page allocated, the header given, no flush cycle under way |
| `FlushMap.FlushMap.GetDescriptor` | dev/ese/src/ese/flushmap.cxx:712-752 | -1 is the header and 0 the first data page; another negative number is JET_errInvalidParameter, a page past the committed descriptors JET_errInvalidOperation |
| `FlushMap.FlushMap.Stamp` | dev/ese/src/ese/flushmap.cxx:2085-2110 | one page of a range: its flush type and runtime bit are set, the DBTIME maximum grows, other slots are kept |
| `FlushMap.FlushMap.StampEntries` | dev/ese/src/ese/flushmap.cxx:2085-2110 | stamping changes the entry of pgno and of no other page |
| `FlushMap.FlushMap.StampedTwice` | dev/ese/src/ese/flushmap.cxx:2085-2110 | stamping twice with the same DBTIME is one stamp |
| `FlushMap.FlushMap.Allocated` | dev/ese/src/ese/flushmap.cxx:856-892 | an allocated descriptor has a page buffer of the page size, and a runtime bitmap of the runtime size exactly when the map is persisted; its valid and dirty flags and page number are unchanged |
| `FlushMap.FlushMap.Initialized` | dev/ese/src/ese/flushmap.cxx:1039-1054 | an initialized page has every flush type unknown, every runtime bit set and no DBTIME |
| `FlushMap.FlushMap.AllocateFmDataPageCapacity` | dev/ese/src/ese/flushmap.cxx:825-854 | pages from cfmpgAllocated up to the count needed get buffers; the others are unchanged |
| `FlushMap.FlushMap.InitializeFmDataPageCapacity` | dev/ese/src/ese/flushmap.cxx:923-951 | every allocated page above the highest valid one is initialized, dirty and valid; pages at or below it are unchanged |
| `FlushMap.FlushMap.InitializeTop` | dev/ese/src/ese/flushmap.cxx:934-950 | the descriptors above the highest valid allocated page (TopValid) and below the allocated count become initialized, valid and dirty; every other descriptor is kept |
| `FlushMap.FlushMap.SetRangePgnoFlushType` | dev/ese/src/ese/flushmap.cxx:2035-2119 | success exactly when every page of the range had a usable map page, and then every page of the range is recorded with the type; otherwise JET_errInvalidOperation; the descriptor count, allocation and the rest of the map are kept |
| `FlushMap.FlushMap.RecordRange` | dev/ese/src/ese/flushmap.cxx:2060-2110 | the walk over the range: JET_errInvalidOperation or success, success exactly when every map page it enters is usable, and then every page of the range is recorded; every descriptor stays well formed |
| `FlushMap.FlushMap.WalkStopped` | dev/ese/src/ese/flushmap.cxx:2068-2078 | a missing or invalid map page stops the walk: the range was not all usable |
| `FlushMap.FlushMap.WalkDone` | dev/ese/src/ese/flushmap.cxx:2060-2110 | a walk that reaches the end recorded every page, on valid map pages |
| `FlushMap.FlushMap.RecordedValidity` | dev/ese/src/ese/flushmap.cxx:2085-2110 | recording keeps every descriptor's validity |
| `FlushMap.FlushMap.PgftGetPgnoFlushType` | dev/ese/src/ese/flushmap.cxx:2647-2706 | the flush type is unknown when the map page is missing or invalid; a stale page (DBTIME older than the caller's) is reset and reads unknown; otherwise the recorded type and runtime bit |
| `FlushMap.FlushMap.FlushHeader` | dev/ese/src/ese/flushmap.cxx:1511-1519 | a failed issue leaves the header dirty with the error, the cursor and the checkpoint flag unchanged; a failed completion leaves it dirty at the header with the flag set to this write's; a completed write records the header on disk, clears the flag and moves to Uninit after a checkpoint write, else to the first data page |
| `FlushMap.FlushMap.FlushOneSection` | dev/ese/src/ese/flushmap.cxx:1489-1673 | from the header it rewrites the header keeping the checkpoint flag on a failed issue; from Uninit it starts a cycle whose target is max(min consistent gen, old target); from a page it writes the next run; a failure never moves the cursor backwards or to Uninit from elsewhere, so the cursor reaches Uninit only by a successful checkpoint write, with the header on disk and no target left |
| `FlushMap.FlushMap.FlushFromPage` | dev/ese/src/ese/flushmap.cxx:1546-1643 | with nothing dirty and valid left the target becomes required and the header is checkpointed, a failure leaving the cursor at the page or at the header with the checkpoint pending; otherwise one run is written and the cursor never moves back |
| `FlushMap.FlushMap.FlushCheckpoint` | dev/ese/src/ese/flushmap.cxx:1573-1591 | the required generation takes the target, the target is cleared, and the header is written as the checkpoint; on failure the header stays dirty, the copy on disk is kept and the cursor stays where it was or waits at the header with the checkpoint pending, never at Uninit |
| `FlushMap.FlushMap.FirstToFlush` | dev/ese/src/ese/flushmap.cxx:1546-1561 | the first dirty, valid page from the cursor on, or cfmpgAllocated; nothing before it is dirty and valid |
| `FlushMap.FlushMap.WriteRun` | dev/ese/src/ese/flushmap.cxx:1594-1643 | only dirty flags change; the cursor stays at or after n0, and on success moves past n0 and, when every valid page below n0 was clean, every valid page below the new cursor is clean |
| `FlushMap.FlushMap.IssueRun` | dev/ese/src/ese/flushmap.cxx:1594-1643 | on the map's own descriptors: at most writeMax pages from first, at least one on success, only dirty flags change and the rest of the map is kept |
| `FlushMap.FlushMap.IssueWrites` | dev/ese/src/ese/flushmap.cxx:1598-1643 | at most writeMax pages from first, at least one on success; pages before first and past the allocated ones are kept; each page up to the last issued is dirty afterwards exactly when its write fails on completion |
| `FlushMap.FlushMap.WritePages` | dev/ese/src/ese/flushmap.cxx:1615-1634 | pages lo..hi are issued in order; an issued page is clean unless its completion fails; the first page that fails to issue stays dirty and ends the loop |
| `FlushMap.FlushMap.FirstFailedWrite` | dev/ese/src/ese/flushmap.cxx:1707-1764 | the first page of the run whose write failed on completion, or last + 1 |
| `FlushMap.FlushMap.FlushAllSections` | dev/ese/src/ese/flushmap.cxx:1676-1705 | on success every valid data page is clean, the cycle is over and the header on disk requires the target generation |
| `FlushMap.FlushMap.CleanFlushMap` | dev/ese/src/ese/flushmap.cxx:2531-2609 | clean for termination exactly when it succeeds; on success every valid page is clean and the header on disk is clean with no generation required |
| `RbsFormat.Seal` | dev/ese/src/ese/revertsnapshot.cxx:2036-2048 | a sealed segment passes the reader's checks for its ordinal (checksum and ordinal) and carries the record area after its header |
| `RbsFormat.CloseIfShort` | dev/ese/src/ese/revertsnapshot.cxx:2036-2048 | a segment with less than a FragBegin header left is closed with its tail zero filled; otherwise it stays open |
| `RbsFormat.ContinueData` | dev/ese/src/ese/revertsnapshot.cxx:2008-2027 | the bytes one FragContinue piece carries: all still owed, or as many as fit after its header |
| `RbsFormat.PackAll` | dev/ese/src/ese/revertsnapshot.cxx:1930-2058 | a run of ErrCaptureRec calls: every closed area fills a payload exactly and the open area leaves room for a FragBegin |
| `RbsFormat.PackedShape` | dev/ese/src/ese/revertsnapshot.cxx:1959-1961 | every closed segment is full, and the open one always has room for a FragBegin header, as the loop asserts |
| `RbsRead.Step` | dev/ese/src/ese/revertsnapshot.cxx:2142-2269 | one loop iteration of the corrected reader (see Findings): finishing with a record or an error, or moving the cursor strictly forward |
| `RbsRead.ReadLoop` | dev/ese/src/ese/revertsnapshot.cxx:2142-2269 | the corrected do-while loop terminates, leaving a cursor the next call may start from |
| `RbsRead.SkipNop` | dev/ese/src/ese/revertsnapshot.cxx:2136-2140 | the NOP skip leaves a cursor the reader may start from |
| `RbsRead.ReadNext` | dev/ese/src/ese/revertsnapshot.cxx:2111-2288 | in the corrected reader, one call on a fresh reassembly state terminates, leaving a cursor the next call may start from |
| `RbsRead.ReadMany` | dev/ese/src/ese/revertsnapshot.cxx:2111-2288 | n calls in a row, each starting where the previous one stopped |
| `RbsRead.ReadLoopKnownType` | dev/ese/src/ese/revertsnapshot.cxx:2271-2276 | no record of type rbsrectypeMax or above is handed back |
| `RbsRead.ReadLoopEnd` | dev/ese/src/ese/revertsnapshot.cxx:2144-2153 | no more records is reported only at the start of a segment past the segments loaded |
| `RbsRead.ReadNextBadHeader` | dev/ese/src/ese/revertsnapshot.cxx:2160-2186 | a segment with a wrong checksum or ordinal is reported corrupt, with the matching reason |
| `RbsRead.ReadNextTooLong` | dev/ese/src/ese/revertsnapshot.cxx:2200-2207 | a record claiming more bytes than its segment has left is reported corrupt (RecordTooLong) |
| `RbsRead.OrphanEmptyContinueRepeats` | dev/ese/src/ese/revertsnapshot.cxx:2237-2267 | as written, a zero-length FragContinue before any FragBegin leaves cursor and state unchanged |
| `RbsRead.OrphanEmptyContinueNeverFinishes` | dev/ese/src/ese/revertsnapshot.cxx:2142-2269 | as written, the loop never finishes from such a state, however many iterations run |
| `RbsRoundTrip.ReadOne` | dev/ese/src/ese/revertsnapshot.cxx:2111-2288 | from where the writer's open segment held cur, the reader returns exactly the record packed next and then stands (up to NOP padding) where the writer stands |
| `RbsRoundTrip.ReadContinue` | dev/ese/src/ese/revertsnapshot.cxx:2237-2257 | reading the FragContinue pieces of a record from a fresh segment completes it |
| `RbsRoundTrip.ReadAtEnd` | dev/ese/src/ese/revertsnapshot.cxx:2144-2153 | with nothing left, a reader where the writer stands reports no more records |
| `RbsRoundTrip.ReadAllBack` | dev/ese/src/ese/revertsnapshot.cxx:2111-2288 | the records packed after cur, with the open segment closed, read back in order, then no more records |
| `RbsRoundTrip.CaptureThenRead` | dev/ese/src/ese/revertsnapshot.cxx:1930-2288 | a fresh generation whose records were captured and sealed reads back as those records in order, then JET_wrnNoMoreRecords |
| `RbsWriterReadBack.PackAllSnoc` | dev/ese/src/ese/revertsnapshot.cxx:1930-2058 | one more ErrCaptureRec after the captures of rs leaves the areas of PackAll(rs + [r]) |
| `RbsWriterReadBack.FileImage` | dev/ese/src/ese/revertsnapshot.cxx:2144-2157 | the file as the reader loads it: header segment, then segments 1 .. upTo - 1 |
| `RbsWriterReadBack.FileReadsBack` | dev/ese/src/ese/revertsnapshot.cxx:2111-2288 | a file whose segments carry the packed areas reads back as rs, then no more records |
| `RbsWriterReadBack.FlushedReadsBack` | dev/ese/src/ese/revertsnapshot.cxx:2401-2459 | after the captures and ErrFlushAll, the file up to the flushed logical size reads back as the records captured, in order, then JET_wrnNoMoreRecords |
| `RbsWriterState.FlushDueWhenBehind` | dev/ese/src/ese/revertsnapshot.cxx:2360-2364 | the ULONG subtraction wraps: the flush fires as soon as anything written is unflushed (below 2^32 segments), and never when all is flushed |
| `RbsWriterState.SegmentOfOffset` | dev/ese/src/ese/revertsnapshot.cxx:2043 | the segment of a buffer offset, and the offset within it |
| `RbsWriterState.SealAtHolds` | dev/ese/src/ese/revertsnapshot.cxx:2040-2047 | sealing segment n of a buffer with n finished segments finishes n + 1 |
| `RbsWriterState.Close` | dev/ese/src/ese/revertsnapshot.cxx:2036-2048 | closing the open segment keeps the writer invariant, with the open area becoming a sealed area and room for a FragBegin in the new open segment |
| `RbsWriterState.CloseKeeps` | dev/ese/src/ese/revertsnapshot.cxx:2036-2048 | the writer with its segment closed keeps the invariant |
| `RbsWriterState.QueueKeeps` | dev/ese/src/ese/revertsnapshot.cxx:1891-1907 | queueing a full buffer: it joins the tail, the active watermark moves past it, and the invariant holds |
| `RbsWriterState.WriteHeadKeeps` | dev/ese/src/ese/revertsnapshot.cxx:2324-2341 | writing the head of the queue moves the write watermark past it and the file holds its segments |
| `RbsWriterState.FlushKeeps` | dev/ese/src/ese/revertsnapshot.cxx:2383-2392 | a flush with flush < write sets the logical size to the write watermark's offset, keeping the invariant |
| `RbsWriterState.FitPassOf` | dev/ese/src/ese/revertsnapshot.cxx:1965-1972 | a record that fits is copied whole; the pass lays out all of PackRecord and keeps the invariant |
| `RbsWriterState.BeginPassOf` | dev/ese/src/ese/revertsnapshot.cxx:1973-2001 | a FragBegin piece and the head of the record fill the segment, which is closed; what is owed is the continuation |
| `RbsWriterState.ContinuePassOf` | dev/ese/src/ese/revertsnapshot.cxx:2004-2028 | the next FragContinue piece at a fresh segment, closing it when too little is left; the invariant is kept |
| `RbsWriterState.FlushOffset` | dev/ese/src/ese/revertsnapshot.cxx:2413-2427 | where ErrFlushAll finds m_ibNextRecord: a header into its segment, exactly one header in when nothing is open |
| `RbsWriterState.QueueActiveKeeps` | dev/ese/src/ese/revertsnapshot.cxx:2430-2443 | the sealed part of the active buffer joins the queue and there is no active buffer |
| `RbsWriter.SnapshotWriter.constructor` | dev/ese/src/ese/revertsnapshot.cxx:1419-1504 | the three watermarks start at the segment holding the logical file size, with an empty active buffer there |
| `RbsWriter.SnapshotWriter.QueueCurrentAndAllocBuffer` | dev/ese/src/ese/revertsnapshot.cxx:1885-1928 | a full buffer joins the queue with its bytes valid; past cRBSSegmentMax JET_errOutOfRBSSpace with no active buffer; otherwise a fresh buffer at the active watermark |
| `RbsWriter.SnapshotWriter.CloseSegment` | dev/ese/src/ese/revertsnapshot.cxx:2036-2048 | the open area, zero filled, joins the record areas and none is open; the buffer is Close's; the next record goes past the next segment's header, and one more segment is sealed |
| `RbsWriter.SnapshotWriter.FitPass` | dev/ese/src/ese/revertsnapshot.cxx:1965-1972 | the pass lays out PackRecord of the open area and the record, and keeps the writer invariant (PassOk) |
| `RbsWriter.SnapshotWriter.BeginPass` | dev/ese/src/ese/revertsnapshot.cxx:1973-2001 | the pass lays out PackRecord of the open area and the record, the FragBegin piece and the head, and keeps the writer invariant (PassOk) |
| `RbsWriter.SnapshotWriter.ContinuePass` | dev/ese/src/ese/revertsnapshot.cxx:2004-2028 | the pass lays out PackContinue of what is still owed, keeps the writer invariant (PassOk), and owes strictly less afterwards |
| `RbsWriter.SnapshotWriter.EnsureActive` | dev/ese/src/ese/revertsnapshot.cxx:1950-1955 | an active buffer with a segment left afterwards, or JET_errOutOfRBSSpace; record areas untouched |
| `RbsWriter.SnapshotWriter.CapturePass` | dev/ese/src/ese/revertsnapshot.cxx:1959-2048 | one loop pass: the bytes still owed decrease, the invariant is kept |
| `RbsWriter.SnapshotWriter.CaptureRec` | dev/ese/src/ese/revertsnapshot.cxx:1930-2058 | on success the record areas grow by exactly PackRecord's closed areas and the open area becomes its open area; the invariant is kept |
| `RbsWriter.SnapshotWriter.WriteHead` | dev/ese/src/ese/revertsnapshot.cxx:2324-2349 | the head of the queue is written at its segment's offset, leaves the queue, and the write watermark moves past it |
| `RbsWriter.SnapshotWriter.WriteBuffers` | dev/ese/src/ese/revertsnapshot.cxx:2297-2374 | every queued buffer is written in order, the write watermark reaches the active one, and the flush fires as line 2360 decides |
| `RbsWriter.SnapshotWriter.Flush` | dev/ese/src/ese/revertsnapshot.cxx:2376-2399 | when flush < write, the logical size becomes the write offset and flush catches up; otherwise nothing changes |
| `RbsWriter.SnapshotWriter.QueueActive` | dev/ese/src/ese/revertsnapshot.cxx:2430-2443 | the sealed bytes of the active buffer join the queue and there is no active buffer |
| `RbsWriter.SnapshotWriter.SealOpen` | dev/ese/src/ese/revertsnapshot.cxx:2413-2427 | an open segment past its header is zero filled and sealed; an empty one is left |
| `RbsWriter.SnapshotWriter.RetireActive` | dev/ese/src/ese/revertsnapshot.cxx:2407-2446 | afterwards no area is open and no segment of a buffer is sealed; the record areas gain the open one, zero filled (CloseOpen); the write and flush watermarks and the logical size are kept |
| `RbsWriter.SnapshotWriter.FlushAll` | dev/ese/src/ese/revertsnapshot.cxx:2401-2459 | every record captured is in a sealed segment of the file below the flush watermark, and the logical size is that watermark's offset |
| `RbsGen.HexId` | dev/ese/src/ese/revertsnapshot.cxx:335-365 | n base-16 digits, all from the digit table |
| `RbsGen.ParseHexId` | dev/ese/src/ese/revertsnapshot.cxx:335-365 | reading back the digits gives v modulo 16^n |
| `RbsGen.HexIdRoundTrip` | dev/ese/src/ese/revertsnapshot.cxx:335-365 | a generation below 16^8 is written in full and reads back unchanged |
| `RbsGen.SzIdAppend` | dev/ese/src/ese/revertsnapshot.cxx:335-365 | with room for eight digits and a NUL, the string gains the eight digits then NUL; otherwise the buffer is unchanged |
| `RbsGen.ConsistencyUnitCases` | dev/ese/src/ese/revertsnapshot.cxx:1613-1632 | the unit test's four cases: only a set, matching pair is consistent |
| `RbsGen.ConsistencyNeedsSetMatch` | dev/ese/src/ese/revertsnapshot.cxx:95-105 | consistency needs a set signature on the database side that the snapshot carries |
| `RbsGen.CmpRbspos` | dev/ese/src/ese/revertsnapshot.cxx:15-27 | negative, zero or positive as the first position is before, at or after the second, by generation then segment |
| `RbsGen.CmpRbsposOrder` | dev/ese/src/ese/revertsnapshot.cxx:15-27 | the comparison is antisymmetric and transitive |
| `RbsGen.CmpRbsposUnitCases` | dev/ese/src/ese/revertsnapshot.cxx:15-27 | the unit test's pairs compare as the test expects |
| `RbsGen.LoadRbsGen` | dev/ese/src/ese/revertsnapshot.cxx:616-656 | a read error passes through; then wrong type, unknown version and unset signature each fail with their own error; success only for a header passing all |
| `RbsGen.LowFoldIsMin` | dev/ese/src/ese/revertsnapshot.cxx:456-496 | the low fold is the least lGenMinRequired of the dirty databases, and one of them |
| `RbsGen.HighFoldIsMax` | dev/ese/src/ese/revertsnapshot.cxx:456-496 | the high fold is the greatest lGenMaxRequired of the dirty databases, and one of them |
| `RbsGen.LoadRequiredGenerationFromFMP` | dev/ese/src/ese/revertsnapshot.cxx:456-496 | the lowest and highest required generations over the dirty user databases; both 0 when there is none |
| `RbsGen.InitAttachInfo` | dev/ese/src/ese/revertsnapshot.cxx:427-454 | every field set before the name; a name with its NUL longer than the field fails with JET_errBufferTooSmall |
| `RbsGen.FindIndex` | dev/ese/src/ese/revertsnapshot.cxx:891-917 | the first slot that is free or carries the name, or the table end |
| `RbsGen.FindAttachInfo` | dev/ese/src/ese/revertsnapshot.cxx:891-917 | the slot with the name, or JET_errRBSAttachInfoNotFound with the first free slot |
| `RbsGen.FindIndexIsFirst` | dev/ese/src/ese/revertsnapshot.cxx:891-917 | no slot before the one found is free or carries the name |
| `RbsGen.RollAttachInfo` | dev/ese/src/ese/revertsnapshot.cxx:919-934 | the new slot carries as previous dirtied time the one the previous generation recorded, 0 when it is not valid or does not list the database |
| `RbsGen.RecordDbAttach` | dev/ese/src/ese/revertsnapshot.cxx:1302-1364 | an invalid snapshot or a known database changes nothing; an unclean new one invalidates the snapshot; otherwise it is added in the first free slot |
| `RbsGen.RecordThenFind` | dev/ese/src/ese/revertsnapshot.cxx:1302-1364 | a database recorded in a free slot is found there afterwards; other slots are unchanged |
| `RbsGen.LogsCopied.SetRequiredLogs` | dev/ese/src/ese/revertsnapshot.cxx:2461-2485 | the range is recorded once, only before logs are copied and when none is recorded |
| `RbsGen.LogsCopied.CopyRequiredLogs` | dev/ese/src/ese/revertsnapshot.cxx:2487-2519 | once copied nothing happens; otherwise the range is recorded first, the logs are copied, and only on success is the flag set |
| `RbsGen.InitDecision` | dev/ese/src/ese/revertsnapshot.cxx:1133-1200 | with RBS off, gen 0 and success; a generation loaded successfully is the highest one (1 when there is none), or the next one when the highest has an unusable header and creating is allowed; without permission to create, a missing or unusable generation is JET_errRBSRequiredRangeTooLarge; a first valid generation is set exactly when there is a cleaner and either the highest header is unusable or the init succeeds on a generation that records no predecessor, and it is then the generation loaded |
| `RbsCleaner.LowestAndHighestGen` | dev/ese/src/ese/revertsnapshot.cxx:263-325 | the least and greatest generation numbers on disk, 0 and 0 when there is none |
| `RbsCleaner.FirstValidAsWritten` | dev/ese/src/ese/revertsnapshot.cxx:2816-2834 | the walk as written, naming only readable generations in range |
| `RbsCleaner.FirstValidAsWrittenKeepsUnlinked` | dev/ese/src/ese/revertsnapshot.cxx:2821-2825 | as written, a broken link names the generation below the break, which is not linked to the newest |
| `RbsCleaner.ScanFirstValid` | dev/ese/src/ese/revertsnapshot.cxx:2816-2834 | the corrected walk: the generation named starts a readable, linked chain up to the top and is the lowest such |
| `RbsCleaner.OwnVerdict` | dev/ese/src/ese/revertsnapshot.cxx:2880-2920 | a generation is kept only at or above the first valid one and with a readable header; a pass stops only on a header error other than a missing or corrupt file |
| `RbsCleaner.PassRound` | dev/ese/src/ese/revertsnapshot.cxx:2860-2940 | one round: stop, end, or remove the lowest when eligible or the disk is low |
| `RbsCleaner.CleanupRound` | dev/ese/src/ese/revertsnapshot.cxx:2860-2940 | the round as written, with QWORD wrap, equals PassRound with its counters reduced |
| `RbsCleaner.CleanupLoop` | dev/ese/src/ese/revertsnapshot.cxx:2860-2940 | the removal loop equals the whole pass with its counters reduced |
| `RbsCleaner.PassRemovesLowest` | dev/ese/src/ese/revertsnapshot.cxx:2860-2940 | a pass removes only the lowest generations, in increasing order, and never the highest |
| `RbsCleaner.PassAccounting` | dev/ese/src/ese/revertsnapshot.cxx:2920-2935 | the sizes removed are credited to the free space and taken off the total |
| `RbsCleaner.PassReasons` | dev/ese/src/ese/revertsnapshot.cxx:2880-2935 | each generation went because it was eligible, or the disk was low with the counters as they then stood |
| `RbsCleaner.PassEnds` | dev/ese/src/ese/revertsnapshot.cxx:2860-2950 | a pass ends with at most one generation, or a lowest that stays on its own merits with the disk not low, or an error |
| `RbsCleaner.Cleaner.constructor` | dev/ese/src/ese/revertsnapshot.cxx:2728-2748 | the first valid generation starts at 1, not computed |
| `RbsCleaner.Cleaner.SetFirstValidGen` | dev/ese/src/ese/revertsnapshot.cxx:2816-2833 | records the first valid generation and that it is known |
| `RbsCleaner.Cleaner.ComputeFirstValidRBSGen` | dev/ese/src/ese/revertsnapshot.cxx:2795-2838 | once known it is not recomputed; otherwise set to what the corrected walk names |
| `RbsCleaner.Cleaner.DoOneCleanupPass` | dev/ese/src/ese/revertsnapshot.cxx:2840-2950 | the disk and size reads fail through; otherwise the removals and the error are the pass's; a JET_errFileNotFound with RBS off is returned and also stops the cleaner |
| `RbsRevertDb.DbrcInit` | dev/ese/src/ese/revertsnapshot.cxx:3089-3142 | success exactly when the header was read, matches the snapshot and is in a revertible state; a corrupt or short header is JET_errDatabaseCorrupted, other read errors pass through, a mismatch is JET_errRBSRCInvalidRBS; a new context has no dbid, nothing captured or staged |
| `RbsRevertDb.SetDbstateForRevert` | dev/ese/src/ese/revertsnapshot.cxx:3144-3172 | a begun revert needs the database in revert state; otherwise it enters it, counting one revert and restarting the time |
| `RbsRevertDb.ResumedRevertCountsOnce` | dev/ese/src/ese/revertsnapshot.cxx:3144-3172 | a resumed revert does not count the revert again |
| `RbsRevertDb.ResetSbmDbPages` | dev/ese/src/ese/revertsnapshot.cxx:3065-3087 | a blank bitmap: no page is captured |
| `RbsRevertDb.AddPage` | dev/ese/src/ese/revertsnapshot.cxx:3251-3273 | the page is appended and its bit set (no failure modelled) |
| `RbsRevertDb.AddPageStaging` | dev/ese/src/ese/revertsnapshot.cxx:3241-3273 | a page whose bit is clear is not staged, so appending keeps the page numbers distinct |
| `RbsRevertDb.CaptureDbHdrFromRbs` | dev/ese/src/ese/revertsnapshot.cxx:3212-3239 | the first header offered is kept, later ones ignored |
| `RbsRevertDb.CaptureKeepsFirst` | dev/ese/src/ese/revertsnapshot.cxx:3212-3239 | capturing twice keeps the first header |
| `RbsRevertDb.CmpPgRec` | dev/ese/src/ese/revertsnapshot.cxx:3275-3283 | -1 exactly when the first page number is lower, +1 exactly when it is not |
| `RbsRevertDb.SortByPgnoSpec` | dev/ese/src/ese/revertsnapshot.cxx:3351-3370 | sorting yields a permutation of the staged pages in strictly rising page-number order |
| `RbsRevertDb.WriteAllContents` | dev/ese/src/ese/revertsnapshot.cxx:3300-3349 | with distinct page numbers every page gets its own image, whatever the order, and other pages keep theirs |
| `RbsRevertDb.FlushedContents` | dev/ese/src/ese/revertsnapshot.cxx:3351-3440 | after a flush the file holds exactly the staged images at their pages, nothing else changed, and the bitmap still marks every flushed page |
| `RbsRevertDb.WriteOrder` | dev/ese/src/ese/revertsnapshot.cxx:3351-3400 | the write order visits every staged page once, in strictly rising order |
| `RbsRevertDb.FirstFailingAt` | dev/ese/src/ese/revertsnapshot.cxx:3370-3400 | the first failing write is the one position before which none fails |
| `RbsRevertDb.FailedFlushContents` | dev/ese/src/ese/revertsnapshot.cxx:3351-3440 | a flush stopped by a failed page write has written exactly the staged pages below the failing one, none of them failing, and nothing else |
| `RbsRevertDb.FlushResultSucceeds` | dev/ese/src/ese/revertsnapshot.cxx:3351-3440 | the flush succeeds exactly when no call fails, then leaves the context Flushed; a failure returns the failing call's error, OutOfMemory when clearing the page array is the first to fail; a failed page write or ErrIOIssue keeps the page array |
| `RbsRevertDb.FlushResultNoFaults` | dev/ese/src/ese/revertsnapshot.cxx:3351-3440 | with no fault the flush succeeds and leaves the context Flushed |
| `RbsRevertDb.FlushDbPages` | dev/ese/src/ese/revertsnapshot.cxx:3351-3440 | the outcome is FlushResult of the faults, so failures come in the source's order (page writes, ErrIOIssue, clearing the array, sections, header, file buffers); the pages written are in strictly rising order; the count is set only on success |
| `RbsRevertDb.WritePages` | dev/ese/src/ese/revertsnapshot.cxx:3370-3400 | pages are written in order until the first failing one; those before it are written and counted with ULONG wrap |
| `RbsRevertRange.FindDb` | dev/ese/src/ese/revertsnapshot.cxx:3590-3606 | the first context with the name, or the end |
| `RbsRevertRange.FindDbUnique` | dev/ese/src/ese/revertsnapshot.cxx:3590-3606 | with distinct names a context is found by its own name |
| `RbsRevertRange.Present` | dev/ese/src/ese/revertsnapshot.cxx:3689-3730 | the number of leading attach slots in use |
| `RbsRevertRange.AttachFromGrows` | dev/ese/src/ese/revertsnapshot.cxx:3689-3730 | reading an attach table keeps names distinct and only grows the contexts |
| `RbsRevertRange.AttachFromApplied` | dev/ese/src/ese/revertsnapshot.cxx:3700-3725 | a table read without error satisfies the DBTIME continuity rules |
| `RbsRevertRange.ContinuityAcrossGenerations` | dev/ese/src/ese/revertsnapshot.cxx:3689-3730 | reading a newer then an older generation checks that each shared database was dirtied in the older one exactly when the newer one says so |
| `RbsRevertRange.ScanFromFinds` | dev/ese/src/ese/revertsnapshot.cxx:3760-3795 | the scan stops at the highest generation not newer than the target, after every generation above was newer and chained |
| `RbsRevertRange.ScanFromExhausts` | dev/ese/src/ese/revertsnapshot.cxx:3760-3795 | a scan that finds no stopping generation found every generation down to the lowest newer one |
| `RbsRevertRange.ScanGenFacts` | dev/ese/src/ese/revertsnapshot.cxx:3760-3795 | one generation of the scan either ends or goes on with the contexts grown |
| `RbsRevertRange.ReadVerifyFailurePassesThrough` | dev/ese/src/ese/revertsnapshot.cxx:3790-3795 | an unreadable header comes out as the read error, because the conversion is discarded |
| `RbsRevertCheckpoint.RevertTimeFromCheckpoint` | dev/ese/src/ese/revertsnapshot.cxx:3806-3825 | no revert under way: the time asked for; otherwise never later than the time asked for nor than the current generation's creation; fails with JET_errRBSRCCopyLogsRevertState exactly when copying logs and asked for an older time |
| `RbsRevertCheckpoint.RevertTimeIdempotent` | dev/ese/src/ese/revertsnapshot.cxx:3806-3825 | clamping twice is clamping once |
| `RbsRevertCheckpoint.GenToApplyFromCheckpoint` | dev/ese/src/ese/revertsnapshot.cxx:3827-3836 | no revert under way: the highest generation; otherwise the generation of the checkpoint's position |
| `RbsRevertCheckpoint.MinFoldIsMin` | dev/ese/src/ese/revertsnapshot.cxx:3860-3880 | the least of the start and every context's minimum, and one of them |
| `RbsRevertCheckpoint.MaxFoldIsMax` | dev/ese/src/ese/revertsnapshot.cxx:3860-3880 | the greatest of the start and every context's maximum, and one of them |
| `RbsRevertCheckpoint.CheckpointRecords` | dev/ese/src/ese/revertsnapshot.cxx:3838-3932 | the new state and position are recorded; pages move into the total only when the counter resets, none lost or counted twice |
| `RbsRevertCheckpoint.CheckpointTimesSetOnce` | dev/ese/src/ese/revertsnapshot.cxx:3838-3932 | the creation time, file type and begin time are set once and never change |
| `RbsRevertCheckpoint.StartRangeCovers` | dev/ese/src/ese/revertsnapshot.cxx:3866-3885 | with two or more contexts the recorded range covers every database's needed range |
| `RbsRevertCheckpoint.StartRangeSetOnce` | dev/ese/src/ese/revertsnapshot.cxx:3866-3885 | once both ends are non-zero later updates leave the range alone |
| `RbsRevertCheckpoint.SingleContextLeavesRangeUnset` | dev/ese/src/ese/revertsnapshot.cxx:3870 | with a single context the range is never computed and stays zero |
| `RbsRevertApply.Attach` | dev/ese/src/ese/revertsnapshot.cxx:4055-4099 | context i now answers for dbid; no other dbid gains a route, and every other dbid that did not route to i keeps its route |
| `RbsRevertApply.StagePage` | dev/ese/src/ese/revertsnapshot.cxx:3993-4006 | the page is staged in the context the dbid routes to and counted |
| `RbsRevertApply.CaptureHeader` | dev/ese/src/ese/revertsnapshot.cxx:4030-4053 | the header is offered to the context dbid routes to and only that context changes; the engine invariant is kept |
| `RbsRevertApply.ApplyRecord` | dev/ese/src/ese/revertsnapshot.cxx:4017-4177 | the engine invariant and the databases are kept; an unknown record type is JET_errRBSInvalidRecord; an error changes nothing; a header is reported captured only from a header record in the generation that captures headers |
| `RbsRevertApply.ApplyRecordHeader` | dev/ese/src/ese/revertsnapshot.cxx:4017-4053 | a header is taken only in the oldest generation, only from a header record, and only the first per database |
| `RbsRevertApply.ApplyRecordStaging` | dev/ese/src/ese/revertsnapshot.cxx:4140-4170 | a page is staged only if not yet marked, and staging marks it |
| `RbsRevertApply.AttachThenPage` | dev/ese/src/ese/revertsnapshot.cxx:4017-4177 | after an attach, a before-image for that dbid is staged in that database's context |
| `RbsRevertApply.FlushAll` | dev/ese/src/ese/revertsnapshot.cxx:4179-4194 | every context flushed, the pages counted into the generation's total, the staged count cleared |
| `RbsRevertApply.FlushAllKeeps` | dev/ese/src/ese/revertsnapshot.cxx:4179-4194 | nothing is left staged, every staged page is written, bitmaps and headers are kept |
| `RbsRevertApply.ResetAll` | dev/ese/src/ese/revertsnapshot.cxx:4414-4417 | every context's bitmap is reset by ResetSbmDbPages; routing and counters are kept |
| `RbsRevertApply.ResetAllKeeps` | dev/ese/src/ese/revertsnapshot.cxx:4414-4417 | resetting keeps the invariant and leaves every page uncaptured |
| `RbsRevertApply.RecordStep` | dev/ese/src/ese/revertsnapshot.cxx:4237-4265 | one loop pass (apply, flush at cacheMax, cancel, header-only stop) keeps the engine invariant and the databases |
| `RbsRevertApply.ReadEnd` | dev/ese/src/ese/revertsnapshot.cxx:4267-4282 | the end of the records keeps the engine invariant and the databases |
| `RbsRevertApply.RecordsFrom` | dev/ese/src/ese/revertsnapshot.cxx:4237-4282 | the record loop from record i keeps the engine invariant and the databases |
| `RbsRevertApply.RecordsHeadersAndBitmaps` | dev/ese/src/ese/revertsnapshot.cxx:4220-4288 | over a generation a header changes only in the oldest generation and only while unset; bitmaps only grow |
| `RbsRevertApply.RecordsSuccessFlushed` | dev/ese/src/ese/revertsnapshot.cxx:4220-4288 | a full generation that succeeds leaves nothing staged |
| `RbsRevertApply.RecordsHeaderOnlyStagesNothing` | dev/ese/src/ese/revertsnapshot.cxx:4220-4288 | in header-only mode no page is staged and no bitmap changes |
| `RbsRevertExec.UpdateRun` | dev/ese/src/ese/revertsnapshot.cxx:3838-3932 | the checkpoint moves to the state and position given, folding the page count in when asked |
| `RbsRevertExec.GenApply` | dev/ese/src/ese/revertsnapshot.cxx:4196-4288 | keeps the engine invariant and the databases; header-only mode leaves the checkpoint alone; a generation that cannot be opened changes nothing |
| `RbsRevertExec.GenApplySuccess` | dev/ese/src/ese/revertsnapshot.cxx:4196-4288 | a full generation that succeeds has flushed everything and left the checkpoint in progress at this generation |
| `RbsRevertExec.GenApplyHeaders` | dev/ese/src/ese/revertsnapshot.cxx:4196-4288 | headers are taken only in the oldest generation, only filling missing ones; bitmaps only grow |
| `RbsRevertExec.SetDbstatesFrom` | dev/ese/src/ese/revertsnapshot.cxx:4403-4408 | only the headers of the contexts from i change |
| `RbsRevertExec.SetDbstatesAll` | dev/ese/src/ese/revertsnapshot.cxx:4403-4408 | when all succeed every database is in revert state with the target time and header written |
| `RbsRevertExec.SetDbstatesKeeps` | dev/ese/src/ese/revertsnapshot.cxx:4403-4408 | setting the states changes only headers, so the engine invariant holds |
| `RbsRevertExec.GenPass` | dev/ese/src/ese/revertsnapshot.cxx:4410-4423 | one pass keeps the engine invariant and the databases, and a pass that goes on leaves the checkpoint in progress |
| `RbsRevertExec.GensFrom` | dev/ese/src/ese/revertsnapshot.cxx:4410-4423 | the generation loop keeps the engine invariant and the databases |
| `RbsRevertExec.GensFromStep` | dev/ese/src/ese/revertsnapshot.cxx:4410-4423 | the loop at a generation is one pass, then the rest |
| `RbsRevertExec.GensFromSuccess` | dev/ese/src/ese/revertsnapshot.cxx:4410-4423 | a successful loop ends with everything written, bitmaps reset, and the checkpoint at the oldest generation |
| `RbsRevertExec.GensFromNone` | dev/ese/src/ese/revertsnapshot.cxx:4410-4423 | below the oldest generation the loop does nothing |
| `RbsRevertExec.GensFromHeaders` | dev/ese/src/ese/revertsnapshot.cxx:4410-4423 | a header taken is kept, and no database's state changes |
| `RbsRevertExec.ExecuteRevert` | dev/ese/src/ese/revertsnapshot.cxx:4374-4428 | the whole revert keeps the engine invariant and the databases |
| `RbsRevertExec.ExecuteRevertSuccess` | dev/ese/src/ese/revertsnapshot.cxx:4374-4428 | a full revert that succeeds leaves every database in revert state, every page and header written, bitmaps reset, checkpoint at the oldest generation |
| `RbsRevertExec.CopyingLogsReadsHeadersOnly` | dev/ese/src/ese/revertsnapshot.cxx:4380-4430 | a revert resumed at log copying stages no page, changes no bitmap and keeps the checkpoint |
| `RbsRevert.FlushEach` | dev/ese/src/ese/revertsnapshot.cxx:4179-4194 | each context flushed in turn; the count is the total staged |
| `RbsRevert.RevertContext.constructor` | dev/ese/src/ese/revertsnapshot.cxx:3449-3461 | no database contexts, every dbid unrouted, nothing staged, no range chosen |
| `RbsRevert.RevertContext.FindDbrc` | dev/ese/src/ese/revertsnapshot.cxx:3590-3606 | whether a context for the name exists, and the first one, as FindDb |
| `RbsRevert.RevertContext.AttachSlot` | dev/ese/src/ese/revertsnapshot.cxx:3700-3725 | the contexts and error after one attach slot are AttachStep's; nothing else changes |
| `RbsRevert.RevertContext.InitFromAttachInfo` | dev/ese/src/ese/revertsnapshot.cxx:3689-3730 | the contexts after one attach table are AttachFrom's, with its error |
| `RbsRevert.RevertContext.ComputeRangeToApply` | dev/ese/src/ese/revertsnapshot.cxx:3732-3804 | the generation found is the oldest to apply, the newest the highest, and its time the revert time; none found is JET_errRBSRCNoRBSFound |
| `RbsRevert.RevertContext.UpdateGenToApplyFromCheckpoint` | dev/ese/src/ese/revertsnapshot.cxx:3827-3836 | the newest generation to apply becomes GenToApplyFromCheckpoint's |
| `RbsRevert.RevertContext.RequiredLogRange` | dev/ese/src/ese/revertsnapshot.cxx:3860-3880 | the least and greatest needed log generations over all contexts |
| `RbsRevert.RevertContext.NextCheckpoint` | dev/ese/src/ese/revertsnapshot.cxx:3838-3932 | the checkpoint header written next, as UpdateRun builds it; nothing changes |
| `RbsRevert.RevertContext.UpdateRevertCheckpoint` | dev/ese/src/ese/revertsnapshot.cxx:3838-3932 | the checkpoint becomes UpdateRun's; the write error passes through |
| `RbsRevert.RevertContext.AttachDbid` | dev/ese/src/ese/revertsnapshot.cxx:4055-4099 | the contexts become Attach's |
| `RbsRevert.RevertContext.AddPageRecord` | dev/ese/src/ese/revertsnapshot.cxx:3993-4006 | the contexts become StagePage's |
| `RbsRevert.RevertContext.CaptureDbHdr` | dev/ese/src/ese/revertsnapshot.cxx:4030-4053 | the contexts become CaptureHeader's; nothing else changes |
| `RbsRevert.RevertContext.ApplyRecord` | dev/ese/src/ese/revertsnapshot.cxx:4017-4177 | the contexts and error become ApplyRecord's |
| `RbsRevert.RevertContext.FlushPages` | dev/ese/src/ese/revertsnapshot.cxx:4179-4194 | the contexts become FlushAll's |
| `RbsRevert.RevertContext.ResetAllPages` | dev/ese/src/ese/revertsnapshot.cxx:4414-4417 | the contexts become ResetAll's |
| `RbsRevert.RevertContext.AllHeadersCaptured` | dev/ese/src/ese/revertsnapshot.cxx:4251-4265 | true exactly when every context holds a header |
| `RbsRevert.RevertContext.ProcessRecord` | dev/ese/src/ese/revertsnapshot.cxx:4237-4265 | one loop pass is RecordStep's, keeping the context valid |
| `RbsRevert.RevertContext.EndRecords` | dev/ese/src/ese/revertsnapshot.cxx:4267-4282 | the end of the records is ReadEnd's |
| `RbsRevert.RevertContext.ApplyRecords` | dev/ese/src/ese/revertsnapshot.cxx:4220-4288 | the outcome is RecordsFrom's |
| `RbsRevert.RevertContext.GenApply` | dev/ese/src/ese/revertsnapshot.cxx:4196-4288 | the outcome is RbsRevertExec.GenApply's |
| `RbsRevert.RevertContext.SetDbstates` | dev/ese/src/ese/revertsnapshot.cxx:4403-4408 | the outcome is SetDbstatesFrom's |
| `RbsRevert.RevertContext.GenerationPass` | dev/ese/src/ese/revertsnapshot.cxx:4410-4423 | one pass of the generation loop is GenPass's |
| `RbsRevert.RevertContext.NextGeneration` | dev/ese/src/ese/revertsnapshot.cxx:4410-4423 | one iteration: when the loop ends, the outcome is GensFrom's from this generation; otherwise what GensFrom gives from this generation equals what it gives from the next lower one on the new state |
| `RbsRevert.RevertContext.ApplyGenerations` | dev/ese/src/ese/revertsnapshot.cxx:4410-4423 | the outcome is GensFrom's |
| `RbsRevert.RevertContext.ExecuteRevert` | dev/ese/src/ese/revertsnapshot.cxx:4374-4428 | the outcome is RbsRevertExec.ExecuteRevert's |

## Left out

- RbsWriter.SnapshotWriter.WriteBuffers: the I/O errors of the writer are not modelled. These are ErrSize, ErrSetSize, ErrIOWrite, the buffer allocations of ErrQueueCurrentAndAllocBuffer, and ErrUtilFlushFileBuffers and ErrUtilWriteRBSHeaders in ErrFlush (revertsnapshot.cxx:2327-2335, 1924-1927, 2386-2390). Every write completes. The file's physical size and its extension are not modelled.
- RbsWriter.SnapshotWriter.QueueCurrentAndAllocBuffer: the background write task (ErrTMPost and m_fWriteInProgress) and the critical sections are not modelled. Writing runs in the caller's thread, in sequence.
- RbsWriter.SnapshotWriter.Flush: m_tickLastFlush and RBSLogSpaceUsage are not modelled; they are timing and event logging.
- FlushMap.FlushMap.FlushFromPage: ErrUtilFlushFileBuffers before the checkpoint header write (flushmap.cxx:1567-1570) is not modelled. The model goes straight to the header write.
- FlushMap.FlushMap.CleanFlushMap: the two ErrUtilFlushFileBuffers calls (flushmap.cxx:2557 and 2576) are not modelled. The synchronous header write can fail (hdrWriteFails) and the error is returned. logtimeDetach is not modelled.
- FlushMap.FlushMap.AllocateFmDataPageCapacity: out-of-memory is not modelled.
- FmBitmap.SetStateOnBitmap: the compare-and-swap retry loop (flushmap.cxx:2150-2186) is modelled as one sequential byte update. Concurrent setters are not modelled.
- FmBitmap.IbitInPage: the USHORT truncation of the bit offset (flushmap.cxx:2121-2125) is not modelled. The requires keeps the offset inside the page, as the page geometry does.
- FmLayout.PreferredCount: the ULONG overflow of `10 * cpgDbExtension` (flushmap.cxx:211) is not modelled. Page counts are unbounded integers.
- FlushMap.FlushMap.PgftGetPgnoFlushType: when a stale page is reset, the model marks the page dirty but does not model the latch upgrade.
- FlushMap: the attach, read, term, preread, checksum, event-log and dump paths of flushmap.cxx are not part of this model. ErrValidateFmHdr_'s page checks (ErrChecksumFmPage_, flushmap.cxx:138-141 and the comparison after it) are the parameters pageInitialized and checksumOk.
- FlushMap.FlushMap.FlushHeader: every header page the source writes gets a freshly generated signFlushMapHdrFlush and the database's signDbHdrFlush, stamped into the in-memory header when the write is prepared (flushmap.cxx:1152-1156). The model writes the header with the signatures it already had. The cycle's logtimeFlushLastStarted (1537) and logtimeFlushLastCompleted (1581) are not modelled either. FlushOneSection, FlushCheckpoint, FlushAllSections and CleanFlushMap write the header through the same abstraction.
- FlushMap.FlushMap.CleanFlushMap: its synchronous header write does not stamp the flush signatures of flushmap.cxx:1152-1156 (see FlushHeader).
- RbsGen.FindIndex: file names are compared with exact equality where the source uses UtilCmpFileName (revertsnapshot.cxx:909), which ignores case on Windows. For example, "C:\DB\A.EDB" and "c:\db\a.edb" are the same database to the source and different names to the model.
- RbsGen.FindAttachInfo: compares names exactly where the source uses UtilCmpFileName (revertsnapshot.cxx:909).
- RbsRevertRange.FindDb: compares names exactly where the source uses UtilCmpFileName (revertsnapshot.cxx:3594).
- RbsRevert.RevertContext.FindDbrc: compares names exactly where the source uses UtilCmpFileName (revertsnapshot.cxx:3594).
- RbsFormat.PackRecord: a record is one byte string, where the source keeps the fixed header (pRec) and the extra data (pExtraData) apart. The FragContinue branch of ErrCaptureRec (revertsnapshot.cxx:2016-2022) copies whatever is left of the fixed header without capping it at the space left in the segment. The model caps every piece at the segment payload. The two agree whenever the rest of the fixed header fits in one FragContinue segment, which holds for every record type, since the fixed headers are a few dozen bytes and a segment's payload is about 4 KiB. They would differ only for a fixed header longer than a payload.
- RbsFormat.PackContinue: the same one-byte-string view as PackRecord. Its pieces are capped at the payload.
- RbsRevertDb.FlushDbPages: ErrFlushDBPage's update of the flush map (m_pfm->SetPgnoFlushType, revertsnapshot.cxx:3317) is not modelled. The errDiskTilt retry (revertsnapshot.cxx:3373) is not modelled either. The other failures are the FlushFaults oracle, and the first one that fails ends the flush with its error: sizing or writing a page (pageFails), ErrIOIssue (issueFails, revertsnapshot.cxx:3390), the OutOfMemory of ErrSetEntry or ErrSetSize while clearing the page array (arrayFails, 3406-3417), ErrFlushAllSections, the header write and ErrUtilFlushFileBuffers. On arrayFails the model frees every image and empties the array at once; the partly cleared array the source leaves is not modelled.
- RbsRevert.FlushEach: the revert engine calls ErrFlushDBPages with no faults (NoFaults): it models a revert whose page writes succeed. A revert stopped half-way by a write error is covered only at the level of one database (FlushDbPages, FlushResult).
- RbsRevertApply.FlushAll: as RbsRevert.FlushEach, with no I/O faults.
- RbsRevert.RevertContext.FlushPages: as RbsRevert.FlushEach, with no I/O faults.
- RbsCleaner.Cleaner.ComputeFirstValidRBSGen: models the corrected walk (ScanFirstValid), not the source's. The source's walk is FirstValidAsWritten; see Findings.
- RbsCleaner.Cleaner.DoOneCleanupPass: ErrGetDirSize of the root is the parameters sizeErr and cbRootSize, and ErrRBSDiskSpace is diskErr and cbFreeDisk. A failure of ErrRBSGetLowestAndHighestGen, which each round of the loop calls (revertsnapshot.cxx:2867), is not modelled: the listing always succeeds. The path-building calls (ErrRBSFilePathForGen, ErrRBSDirPrefix) are assumed to succeed. Removing generation g returns removeErr(g); it stands for both ErrGetDirSize of the generation's folder (2926), whose size is the listing's cbSize, and ErrRemoveFolder (2927). A failure of either ends the pass with that error and removes nothing. The wait between passes and the cleaner thread are not modelled.
- RbsCleaner.LowestAndHighestGen: the directory listing is a parameter (the generation numbers found); parsing directory names is not modelled.
- RbsRead.ReadNext: Step, ReadLoop and ReadNext model the corrected reader. As written, a FragContinue met before any FragBegin is skipped by its m_usRecLength (revertsnapshot.cxx:2237-2257); the model reports JET_errRBSFileCorrupt when that length is 0 or shorter than the FragContinue header (see Findings; the code as written is OrphanEmptyContinueNeverFinishes). Bytes past the data loaded read as zero, where the source reads whatever the buffer last held. The unsigned comparisons of the length checks (revertsnapshot.cxx:2222, 2243), which would wrap for a piece shorter than its header, are modelled as corruption. Allocation failures of the read buffer are not modelled.
- RbsFormat.Seal: the checksum is a function parameter (SetPageChecksum and ChecksumAndPossiblyFixPage are not part of this model), and the time stamp is a parameter (LGIGetDateTime). Single-bit error correction is not modelled.
- RbsGen.InitDecision: the file system is abstracted. The generation's load result and whether the generation's header records a predecessor (tmPrevGen set, revertsnapshot.cxx:1197) are parameters, and path building, directory creation and event logging are not modelled. The allocation failures between loading and the first-valid update (revertsnapshot.cxx:1173-1193) are not modelled.
- RbsRevert.RevertContext.ExecuteRevert: ErrManageStateAfterRevert, ErrUpdateDbStatesAfterRevert, the tracing (ErrBeginRevertTracing) and the log copying after the revert are not part of this model, nor are the statistics handed back in prbsrevertinfo (revertsnapshot.cxx:4434-4442) and ErrRevertCheckpointCleanup (4451). The cancel flag and the clock are parameters. It requires a checkpoint not in the Completed state (as does RbsRevertExec.ExecuteRevert): the source accepts one (4392) and, for a generation still to apply, stops at the AssertRTL of revertsnapshot.cxx:3852, which the model does not follow.
- FlushMap.FlushMap.SetRangePgnoFlushType: the synchronous write of the range's map pages when fWait is set (flushmap.cxx:2097-2114) is not modelled.
- RbsCleaner.FirstValidAsWritten: the walk's previous creation time starts unset (LogTime 0). The source declares tmPrevRBSCreate without an initialiser (revertsnapshot.cxx:2803); that it starts unset rests on LOGTIME's constructor, which is not part of this model.
- RbsCleaner.ScanFirstValid: starts from the same unset previous creation time as FirstValidAsWritten.
- RbsRevertDb.DbrcInit: opening the database file and reading its header are parameters (their error and the header read). The contract's success case assumes the remaining steps succeed. The model does not cover the header buffer allocation (revertsnapshot.cxx:3104), the page-array allocation (3133), ErrResetSbmDbPages (3136) or ErrGetPersistedFlushMapOrNullObjectIfRuntime (3138), each of which can fail in the source.
- RbsRevertDb.AddPage: the OutOfMemory of ErrSetEntry when appending to the page array (revertsnapshot.cxx:3261) is not modelled; the page is always appended. The bitmap ErrSet at 3269 is only asserted in the source, so it has no failure path to model.
- RbsRevertApply.ApplyRecord: the allocation failures are not modelled. Its ensures names the invalid record type and the compressed page as the only failures. The source can also return JET_errOutOfMemory from these calls:
  - PvOSMemoryPageAlloc for a page image (revertsnapshot.cxx:4115-4116, 4151-4152);
  - ErrAddPageRecord's ErrSetEntry (3261);
  - wszDbName.ErrSet for an attach record (4062).
- RbsRevert.RevertContext.ApplyRecord: has the same allocation gap as RbsRevertApply.ApplyRecord.
- Compression of before-images (RBSICompressPreImage, ErrRBSDecompressPreimage), ErrCapturePreimage and the other capture entry points, ErrRollSnapshot, the RBS paths and ErrRBSInvalidate are not part of this model.
- revertsnapshot.hxx, flushmap.hxx and the other header files that declare these structures are not part of this model. Their on-disk layouts (segment header, record headers) are written here with the field order and widths the .cxx code uses.

## Findings

| source | as written | input that shows it | evidently intended | confidence | as-written member | corrected member |
|---|---|---|---|---|---|---|
| dev/ese/src/ese/revertsnapshot.cxx:2821-2825 | when a generation's creation time differs from the predecessor time recorded by the generation above it, ComputeFirstValidRBSGen names that lower generation as the first valid one | generations 1, 2, 3 (RBS off) created at times 10, 20, 30, where generation 3 records its predecessor as created at 15: the walk names generation 2, which is not linked to generation 3 | the generation just above the broken link (generation 3) is the first valid one, so that everything below the break is eligible for removal | medium, not executed | `RbsCleaner.FirstValidAsWrittenKeepsUnlinked` | `RbsCleaner.ScanFirstValid` |
| dev/ese/src/ese/revertsnapshot.cxx:2237-2267 | a FragContinue met before any FragBegin is skipped by adding its length to the cursor; with length 0 the cursor does not move and the loop condition (`!fValidRecFound`) stays true | a segment whose first record after the segment header is a FragContinue with m_usRecLength 0, read on a fresh reassembly state: the loop repeats the same iteration forever | a piece shorter than its own header is corruption: report JET_errRBSFileCorrupt | high, not executed | `RbsRead.OrphanEmptyContinueNeverFinishes` | `RbsRead.Step` |
