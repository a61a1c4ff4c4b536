# Verified model of hiqlite

Three parts of hiqlite, in Dafny 4.11:

- **The write-ahead log** (`hiqlite-wal`): memory-mapped segment files with a header and CRC-checked
  records, the set of files with roll-over, purge and truncate, the writer loop, the reader with its
  lazily refreshed copy and its memo, start-up after a shutdown or a crash, and the range interface
  towards Raft. The reference is one map from log id to payload.
- **The external state machine** (`hiqlite/src/external_state_machine.rs`): dense sequences, receipts
  for exact retries, transactional checkpoints, snapshots and restore, and the dirty marker. The
  reference is the list of entries that took effect.
- **The cache index** (`hiqlite/src/lib.rs`): the printed form of an enum and the check against it.

`dafny verify dfyconfig.toml` checks everything.

## How it is built

| files | what |
|---|---|
| `Base`, `Positional`, `Decimal` | results, digits in any base, big-endian integers, decimal text |
| `Records`, `Scan`, `Repair`, `CrashRepair` | one file as bytes: records, header, reads with a memo, the deep check, crashes inside an append |
| `WalFile` | the class over a mapped array, with the loops of the source |
| `WalSet`, `WalRemove`, `WalRuns` | the set as values: invariant, roll-over, append, purge, truncate, and the refinement over runs |
| `WalDurability`, `WalMemo`, `Restart`, `PurgeCrash`, `CrashRuns`, `TruncateCrash`, `Startup` | what every run keeps: durable bytes, usable memos, restartable files, no hole, repairable files; and what a start may assume |
| `WalFileSet`, `Publication`, `Writer`, `RemoveCrash`, `Serve`, `ReaderRuns`, `Reader`, `LogStore` | the classes and loops on top, and runs of the writer between two requests to a reader |
| `ExternalDb`, `OrderedKeys`, `ExternalHistory`, `ExternalReload` | tables, queries, and the database of a history |
| `ExternalSpec`, `ExternalEngine`, `ExternalRuns`, `ExternalReplicas` | the reference verdict, the writer as a class, whole runs, several engines |
| `ExternalMarker` | the dirty marker as a protocol between sessions that end in any way |
| `CacheIndex` | printer and checker |

Files and memory that the source updates in place are fields and arrays of classes; each method is
proved against a function on values, and the laws are proved about that function. Checksums, SHA-256,
operations, codecs and coordinates are parameters: nothing is known of them but that decoding undoes
encoding. Where the disk or SQLite may fail, the failure is a parameter of the request.

Main results: `WalRuns.RunRefines`, `CrashRepair.CrashRepairExact`, `CrashRuns.CrashAfterRun`,
`TruncateCrash.UncleanStartExact`, `WalDurability.RunDurable`,
`WalMemo.MemoisedReadInOrder`, `Serve.ServeExact`, `PurgeCrash.PurgeNeverLeavesHole`,
`Restart.RestartAfterRun`, `ReaderRuns.RefreshableExact`, `ExternalSpec.ClassifyExact`,
`ExternalEngine.StateMachine.Apply`, `ExternalRuns.AnswersHold`, `ExternalReplicas.SnapshotThenTail`,
`ExternalRuns.FollowsLog`, `ExternalMarker.FailsClosed`, `CacheIndex.CompatibleIffPrefix`.

## What is not true of the code

The members named here show each failure, and the condition under which the law holds.

- Truncating exactly at the first id of a sealed file leaves the active file without a writable map
  (`WalRemove.TruncateDropsFrom`), and a restart finds the truncated entries again
  (`Restart.StepClean`, `Restart.TruncateResurrects`).
- A truncation inside a file leaves the records behind the new end. The deep check of the next unclean
  start brings them back: all of them, or, after new entries, those that still follow by id
  (`TruncateCrash.TruncatedComesBack`, `TruncateCrash.ReplacedComesBack`). A file is restored exactly if
  and only if nothing behind its end reads as its next entry (`CrashRepair.RepairExact`,
  `TruncateCrash.UncleanStartExact`).
- A memo survives a truncate at or below its last id, and can then hide an entry
  (`WalMemo.InOrderSpares`, `WalMemo.TruncateDefeatsMemo`, `WalMemo.MemoDefeated`).
- File numbers are reused: from 1 after everything was removed, and from the end after a truncation. A
  reader that still has such a number mapped keeps the map of the deleted file, and one that lists it
  first without it being first mixes up its list (`ReaderRuns.RefreshableExact`,
  `ReaderRuns.FullPurgeIsStale`, `Publication.RefreshExact`).
- If no header was ever written, the deep check starts one byte behind the first record, which is lost
  (`CrashRepair.EmptyHeaderExact`, `CrashRepair.FirstAppendIsLost`).
- Auto-heal does not write the header. If the process stops before the next flush, the next start that
  checks the file fails (`CrashRepair.SecondStartAfterHeal`).
- A start that repaired or healed the last file flushes nothing, yet begins with `is_dirty == false`
  (`Startup.RepairedStartExact`, `Startup.HealedStartIsNotDurable`).
- The reverted frontier after a failed deletion leaves a hole as soon as a deleted file held ids above
  it (`PurgeCrash.RevertedFrontier`, `RemoveCrash.FailedRemoveLeavesHole`). The writer's list is then one
  file short, and its active index out of range (`Writers.Writer.HandleRemove`).
- The writer's guard lets payloads through that no file can take. They leave a file on which the next
  append panics (`WalSet.PayloadBounds`, `WalFiles.AppendTooLong`).
- The ranges `0..0` and `(Excluded(u64::MAX), Included(u64::MAX))` are read as one id
  (`LogStore.TranslationExact`).
- A read range that reaches into a trailing empty file panics (`Serve.ServeExact`).
- The documentation says that any failure after a live restore begins leaves a marker that demands a
  rebuild. If the copy is complete and only the last marker write reports an error, a durable marker
  may be in place (`ExternalMarker.FailedRestoreExact`).
- An open with `ReplayableOff` that found no marker and fails after connecting removes the marker,
  although it may have written to the database (`ExternalMarker.StrayExact`, `StrayWitness`).
- A snapshot request whose UPDATE took effect and reported an error leaves the old snapshot id in
  memory until the next failed call reloads it (`ExternalEngine.StateMachine.Snapshot`).

## Model

| member | source | states |
|---|---|---|
| `Positional.U64RoundTrip` | hiqlite-wal/src/utils.rs:12-21 | a u64 written big-endian in 8 bytes reads back as itself |
| `Positional.U32RoundTrip` | hiqlite-wal/src/utils.rs:23-32 | a u32 written big-endian in 4 bytes reads back as itself |
| `Positional.FromBeUnique` | hiqlite-wal/src/utils.rs:18-21 | no other 8 bytes read back as that u64, so a partly written id is never taken for the whole one |
| `Positional.U64KeyOrder` | hiqlite/src/external_state_machine.rs:2484-2493 | byte order of 8-byte big-endian keys is the numeric order, and equal keys are equal numbers |
| `Records.ReadRecordIn` | hiqlite-wal/src/wal.rs:478-510 | bytes written as a record (id, crc, length, data) are read back as exactly that record |
| `Records.RecordRead` | hiqlite-wal/src/wal.rs:478-510 | and what reads as a record with a good checksum is the encoding of exactly that record |
| `Records.ReadRecordExact` | hiqlite-wal/src/wal.rs:478-510 | in any bytes: a record is read if and only if its id, checksum field, length and non-empty data stand there; the checksum is not looked at |
| `Records.ReadRecordBounds` | hiqlite-wal/src/wal.rs:478-510 | whatever is accepted as a record is non-empty and lies inside the file |
| `Records.ChainSplit` | hiqlite-wal/src/wal.rs:302-330 | records one gap byte apart can be cut and joined at any record, in both directions |
| `Records.ChainFrame` | hiqlite-wal/src/wal.rs:289-342 | a chain of records depends on no byte outside the ones it occupies |
| `Records.ChainPayloads` | hiqlite-wal/src/wal.rs:478-510 | walking a chain by its stored lengths gives back its payloads |
| `Records.HeaderRoundTrip` | hiqlite-wal/src/wal.rs:679-748 | a header survives encoding and decoding, absent offsets included |
| `Records.ParseHeaderExact` | hiqlite-wal/src/wal.rs:679-748 | a header is decoded if and only if the bytes are its encoding: magic, version and all fields |
| `Records.AppendedHolds` | hiqlite-wal/src/wal.rs:267-342 | with space for the payload, an append stays inside the file, moves no earlier byte, keeps the file well formed and adds exactly one entry at the end |
| `Records.AppendWritesRecord` | hiqlite-wal/src/wal.rs:310-330 | the four successive writes of an append end in exactly one complete record |
| `Scan.ReadLogsExact` | hiqlite-wal/src/wal.rs:373-471 | reading any sub-range of a file returns exactly its entries, numbered and in order, the offset of the first one, and a memo that fits again; with or without a memo |
| `Scan.MemoIsTransparent` | hiqlite-wal/src/wal.rs:403-470 | with a memo that fits, a read equals the scan from the first record, whatever range is asked for |
| `Scan.ReadSound` | hiqlite-wal/src/wal.rs:403-470 | whatever the bytes, the range and the memo are: every entry a read returns is asked for and stands in the file as a complete record with the checksum of its data |
| `Scan.ReadReadable` | hiqlite-wal/src/wal.rs:424-436 | on a file whose records may be corrupt, a read succeeds if and only if the range is the file's and every record in it is unharmed, and then returns all of it; else it is an integrity error |
| `Scan.ReadUnreadable` | hiqlite-wal/src/wal.rs:424-425 | an unreadable record before the end of the range is an integrity error |
| `Repair.KnownChain` | hiqlite-wal/src/wal.rs:77-171 | the first phase of the deep check accepts all records the header covers and ends behind the last |
| `Repair.KnownUntilBad` | hiqlite-wal/src/wal.rs:96-171 | the first phase stops exactly at the first record with a bad checksum, knowing the id before it |
| `Repair.KnownUntilBroken` | hiqlite-wal/src/wal.rs:103-114 | the first phase fails at a record whose id is not the next one |
| `Repair.KnownExact` | hiqlite-wal/src/wal.rs:96-171 | on any bytes: the first phase walks over complete records with consecutive ids, is done only where they reach what the header claims, and stops at a bad checksum, an unreadable record or another id before that |
| `Repair.RepairNeedsRecords` | hiqlite-wal/src/wal.rs:96-171 | a start on a file with data succeeds if and only if the claimed records are there, or auto-heal cuts it at a bad checksum |
| `Repair.UnreadableKnownFails` | hiqlite-wal/src/wal.rs:101-101 | complete records, then an unreadable one the header claims: no start succeeds, healing or not |
| `Repair.RecoverChain` | hiqlite-wal/src/wal.rs:178-264 | the second phase adds every complete record behind the known ones, and nothing else |
| `Repair.MaximalChain` | hiqlite-wal/src/wal.rs:178-254 | the records the second phase takes over are a maximal chain, in any file |
| `Repair.RecoverableExact` | hiqlite-wal/src/wal.rs:186-225 | the second phase takes a record over if and only if it is complete, has the next id where one is known, and not id 0 |
| `CrashRepair.OnlyCompleteIsRecoverable` | hiqlite-wal/src/wal.rs:310-330 | at any point inside an append, a partly written id included, the record counts as the next one only if it is complete |
| `CrashRepair.CrashRepairExact` | hiqlite-wal/src/wal.rs:77-264 | for every append-only file whose header covers m of n records and every crash inside the next append, repair ends with the first n records, or with n+1 if the new one is complete, and leaves all record bytes alone |
| `CrashRepair.WritesAreCrashPoints` | hiqlite-wal/src/wal.rs:310-330 | every mixture of old and new bytes between two writes of an append is one of those crash points |
| `CrashRepair.AppendKeepsAppendOnly` | hiqlite-wal/src/wal.rs:289-342 | appending keeps a file append-only |
| `CrashRepair.FlushKeepsAppendOnly` | hiqlite-wal/src/wal.rs:526-572 | writing a header that knows any first part of the records, from any start, keeps a file append-only |
| `CrashRepair.FirstAppendIsAppendOnly` | hiqlite-wal/src/wal.rs:289-342 | the first append to a fresh file makes it append-only with a header that covers it |
| `CrashRepair.IdleRepairExact` | hiqlite-wal/src/wal.rs:77-264 | without an append in flight, repair ends with exactly the appended records |
| `CrashRepair.RepairExact` | hiqlite-wal/src/wal.rs:77-264 | whatever lies behind the records of a file: repair ends with these records and all that follow and read as their continuation, and adds none if and only if nothing behind the end reads as the next record |
| `CrashRepair.EmptyHeaderExact` | hiqlite-wal/src/wal.rs:93-254 | for every file whose header knows no data: what comes back are the records found from offset 33 on, and something does if and only if one reads as a record at 33; nothing at 32 ever does |
| `CrashRepair.FirstAppendIsLost` | hiqlite-wal/src/wal.rs:310-340 | that state is reached: a crash between the last write of the first append and its header update |
| `CrashRepair.EmptyHeaderLosesFirstRecord` | hiqlite-wal/src/wal.rs:93-98 | a complete first record whose header update was lost is never recovered, whatever its size; the file stays as it is if and only if nothing reads as a record one byte behind |
| `CrashRepair.AutoHealKeepsPrefix` | hiqlite-wal/src/wal.rs:96-171 | behind a bad record that is not the first, auto-heal keeps exactly the records before it, all readable, and the healed values pass the check as they are |
| `CrashRepair.FirstStartHeals` | hiqlite-wal/src/wal.rs:115-157 | a start on such a file, with the header it reads from disk, succeeds with exactly those records |
| `CrashRepair.SecondStartAfterHeal` | hiqlite-wal/src/wal.rs:115-157 | the next start that checks the file succeeds, without a further change, if and only if the header was written in between; with the old header it fails |
| `CrashRepair.AutoHealResetsFirst` | hiqlite-wal/src/wal.rs:115-157 | if the first record is bad, the file is emptied and keeps its first id, and checking the result with the old header does the same again |
| `CrashRuns.RunActive` | hiqlite-wal/src/writer.rs:208-403 | over every run, purges included, in which no truncation leaves records behind the end of a file: the active file is unused or append-only from the start in the header on disk, which covers at least one entry, and its entries are the last records of the file |
| `CrashRuns.CrashAfterRun` | hiqlite-wal/src/wal.rs:77-264 | after any such run, a crash anywhere inside the next append leaves a file that the next start repairs to the records from the start in its header on disk, which end with exactly its entries, with the new one if and only if its record is complete |
| `TruncateCrash.UncleanStartExact` | hiqlite-wal/src/log_store.rs:43-62 | after any run at all, an unclean start ends with the entries of a flushed file if and only if nothing behind its end reads as the next entry, and else with more |
| `TruncateCrash.TruncatedComesBack` | hiqlite-wal/src/wal.rs:1089-1097 | after a truncation inside a file an unclean start ends with every entry the file had before it |
| `TruncateCrash.ReplacedComesBack` | hiqlite-wal/src/wal.rs:178-254 | so it does if entry k was appended anew with a payload of the old length: it ends with the new entry k and the old ones behind it |
| `Startup.RunSynced` | hiqlite-wal/src/wal.rs:1002-1029 | over every run, only a file that is mapped for writing can have bytes that are not on disk |
| `Startup.CleanStartIsDurable` | hiqlite-wal/src/writer.rs:93-104 | after any run and a clean shutdown, even if power is lost right behind it, a start finds exactly the abstract log, and what it reads is durable, so that starting with is_dirty false is right |
| `Startup.RepairedStartExact` | hiqlite-wal/src/wal.rs:228-245 | after a start that repaired the last file, is_dirty false is right if and only if the header on disk already knew every record: recovered ones are not flushed |
| `Startup.HealedStartIsNotDurable` | hiqlite-wal/src/wal.rs:115-157 | after a start that healed the last file, is_dirty false is wrong |
| `WalFiles.WriteRecord` | hiqlite-wal/src/wal.rs:310-330 | writes crc, length, data and then the id, in this order; the array ends as the old one with the record in place |
| `WalFiles.WalFile.UpdateHeader` | hiqlite-wal/src/wal.rs:563-572 | the first bytes become the encoding of the current fields, the rest stays |
| `WalFiles.WalFile.AppendLog` | hiqlite-wal/src/wal.rs:289-342 | fields and mapped bytes become those of the appended image; it fails exactly if the record ends behind the file |
| `WalFiles.ReadMapped` | hiqlite-wal/src/wal.rs:373-471 | the scan loop terminates inside the file and returns what the recursive scan returns; what it returns is asked for and stored unharmed |
| `WalFiles.WalFile.ReadLogs` | hiqlite-wal/src/wal.rs:373-471 | the same on the map of the file, with the memo of the caller; what it returns is stored unharmed |
| `WalFiles.WalFile.CheckKnownRecords` | hiqlite-wal/src/wal.rs:96-171 | the first scan loop of the deep check refines its specification |
| `WalFiles.WalFile.RecoverRecords` | hiqlite-wal/src/wal.rs:178-264 | the second scan loop of the deep check refines its specification, header writes included |
| `WalFiles.WalFile.CheckRepair` | hiqlite-wal/src/wal.rs:77-264 | the whole deep check succeeds exactly when the specification does, with the same fields and bytes |
| `WalSet.PayloadBounds` | hiqlite-wal/src/wal.rs:267-278 | a fresh file has space for up to wal_size - 50 bytes and can take up to wal_size - 48; the writer's guard lets 34 less than wal_size through |
| `WalSet.RollsOverExact` | hiqlite-wal/src/wal.rs:267-278 | an append rolls over if and only if the record would not end before the last byte of the file; then the active file is sealed and flushed, the next number used, and all others stay |
| `Writers.GuardExact` | hiqlite-wal/src/writer.rs:198-221 | the guard lets through every payload a fresh file has space for, and exactly 16 lengths more |
| `WalFiles.AppendTooLong` | hiqlite-wal/src/wal.rs:289-342 | a payload between these bounds fails to be appended to a fresh file and leaves a start of data without an end, on which the next append panics |
| `WalSet.RollOverKeepsLog` | hiqlite-wal/src/wal.rs:1002-1029 | a roll-over keeps the log and the invariant of the set, and ends with an empty writable file |
| `WalSet.AppendExtendsLog` | hiqlite-wal/src/writer.rs:221-262 | an append of the next id, over a roll-over or not, adds exactly that entry |
| `WalRemove.PurgeDropsBelow` | hiqlite-wal/src/wal.rs:1033-1071 | purge(u) drops exactly the ids below u and keeps the active file writable |
| `WalRemove.TruncateDropsFrom` | hiqlite-wal/src/wal.rs:1045-1102 | truncate(k) drops exactly the ids from k on; the active file stays writable if and only if k is not the first id of a sealed file |
| `WalRuns.StepRefines` | hiqlite-wal/src/wal.rs:289-342 | each operation does to the files what it does to one map from ids to payloads, and keeps files contiguous in number and id with only the last one empty |
| `WalRuns.RunRefines` | hiqlite-wal/src/writer.rs:208-337 | the same over every legal run of appends, seals, purges, truncates and flushes |
| `WalDurability.StepDurable` | hiqlite-wal/src/writer.rs:149-165 | every operation keeps: all files but the active one are durable, and the active one is, too, unless flagged dirty |
| `WalDurability.RunDurable` | hiqlite-wal/src/writer.rs:294-336 | over every run, while nothing is flagged dirty the durable bytes alone give back every live entry |
| `WalDurability.FlushDurable` | hiqlite-wal/src/writer.rs:149-165 | flushing the active file alone makes the whole set durable |
| `WalMemo.StepMemo` | hiqlite-wal/src/wal.rs:403-470 | every operation keeps a memo usable unless it truncates at or below the last id of the memo, purges that restart the numbering included |
| `WalMemo.RunMemo` | hiqlite-wal/src/reader.rs:27-42 | the same over every run |
| `WalMemo.ReadSetsMemo` | hiqlite-wal/src/wal.rs:440-471 | the memo a read leaves behind is usable |
| `WalMemo.MemoisedReadIsFullScan` | hiqlite-wal/src/wal.rs:403-471 | a memo taken by any read, kept over any such run, gives on any file and any range what a full scan gives |
| `WalMemo.InOrderSpares` | hiqlite-wal/src/wal.rs:403-415 | if ids only move forward, a run without a truncation at or below the last id of the memo keeps it usable, full purges and restarted numbers included |
| `WalMemo.MemoisedReadInOrder` | hiqlite-wal/src/wal.rs:403-471 | so a memo taken by any read gives, after every such run, on every file and range what a full scan gives |
| `WalMemo.TruncateDefeatsMemo` | hiqlite-wal/src/wal.rs:408-415 | for every truncation inside the memo's file at or below its last id: zeros as far as the remembered offset and payloads up to one id above it fit if their records do, and make the memoised read fail on an entry the full scan finds |
| `WalMemo.MemoDefeated` | hiqlite-wal/src/wal.rs:408-415 | in every file size such a file, such a memo and such appends exist |
| `WalFileSets.WalFileSet.AddFirst` | hiqlite-wal/src/wal.rs:808-821 | an empty set gets one writable file with number 1 |
| `WalFileSets.WalFileSet.RollOver` | hiqlite-wal/src/wal.rs:1002-1029 | the files become those of the specified roll-over, the sealed one flushed |
| `WalFileSets.WalFileSet.AppendActive` | hiqlite-wal/src/wal.rs:289-342 | the active file becomes the appended one, all others stay |
| `WalFileSets.WalFileSet.PurgeFront` | hiqlite-wal/src/wal.rs:1045-1071 | the loop over the front files leaves exactly the specified purge; the files left after each deletion are recorded; if a deletion fails, its file is missing from the list |
| `WalFileSets.WalFileSet.TruncateBack` | hiqlite-wal/src/wal.rs:1073-1102 | the loop over the back files leaves exactly the specified truncation, or the list without the file that could not be deleted |
| `WalFileSets.WalFileSet.ShiftDeleteLogs` | hiqlite-wal/src/wal.rs:1033-1102 | for both ends and every deletion that may fail: the files of the specification, which are the old ones without a front or a back part, or one new file; after a failure a list that is one file short and an active index out of its range |
| `Publication.RetainedIsSlice` | hiqlite-wal/src/wal.rs:934-945 | on consecutive numbers, filtering by number keeps one contiguous slice |
| `Publication.RefreshExact` | hiqlite-wal/src/wal.rs:934-954 | updating by position after filtering reproduces the other copy if and only if its numbering did not restart and run up to the first local number again |
| `Publication.RefreshKeepsMaps` | hiqlite-wal/src/wal.rs:934-954 | a file that is still there keeps its map, a new one has none |
| `Publication.SharedSet.CloneFilesFrom` | hiqlite-wal/src/wal.rs:934-954 | the in-place update leaves the specified refresh |
| `Publication.SharedSet.CloneActiveFrom` | hiqlite-wal/src/wal.rs:362-368 | only the values of the active file change |
| `Publication.StepPublishes` | hiqlite-wal/src/writer.rs:253-281 | after every operation a published copy can be refreshed to equal the writer's files again |
| `Writers.Writer.constructor` | hiqlite-wal/src/writer.rs:185-205 | a writer on the set of a start is in order if and only if that set is durable |
| `Writers.Writer.Publish` | hiqlite-wal/src/writer.rs:373-381 | shared copy and active index equal the writer's |
| `Writers.Writer.FlushBlocking` | hiqlite-wal/src/writer.rs:149-165 | nothing is dirty afterwards, the log is the same |
| `Writers.Writer.AppendEntry` | hiqlite-wal/src/writer.rs:221-262 | one entry of a batch is one append step of the specification, over a roll-over or not |
| `Writers.Writer.AppendBatch` | hiqlite-wal/src/writer.rs:212-281 | the loop appends exactly the entries before the first oversized one, and reports whether there was one |
| `Writers.Writer.HandleAppend` | hiqlite-wal/src/writer.rs:208-337 | the batch, the flush of Immediate mode and the early roll-over: exactly the accepted entries are in the log, everything is published and, in Immediate mode, on disk before the callback reports success, and the active file has at least 4 KB left |
| `Writers.AppendOutcomeExact` | hiqlite-wal/src/writer.rs:322-337 | the active file is sealed early if and only if less than 4 KB are left |
| `Writers.Writer.HandleRemove` | hiqlite-wal/src/writer.rs:338-403 | exactly the specified ids are gone, the files are the old ones without a front or a back part, or one new file, nothing is dirty, the purge id is persisted; if a deletion fails the frontier is set back; the moments in between are flush, persisted frontier, one deletion after the other, revert |
| `Writers.Writer.HandleVote` | hiqlite-wal/src/writer.rs:404-415 | log unchanged and durable, the vote persisted |
| `Writers.Writer.HandleSync` | hiqlite-wal/src/writer.rs:416-420 | log unchanged and durable |
| `Writers.Writer.HandleShutdown` | hiqlite-wal/src/writer.rs:421-435 | active file and metadata on disk |
| `Writers.RemoveStep` | hiqlite-wal/src/wal.rs:1033-1102 | every removal at either end keeps the set well formed and durable |
| `PurgeCrash.StepGapless` | hiqlite-wal/src/writer.rs:349-381 | every operation, with purges that never go back, keeps the first id at most one above the persisted frontier |
| `PurgeCrash.RunGapless` | hiqlite-wal/src/writer.rs:349-381 | the same over every such run |
| `PurgeCrash.GaplessNoHole` | hiqlite-wal/src/wal.rs:957-996 | a set that is on disk leaves no hole: its first file is read, unreadable ones being skipped, and starts early enough |
| `PurgeCrash.PurgeNeverLeavesHole` | hiqlite-wal/src/writer.rs:349-381 | after any such run, at every moment of a purge and whatever headers reached the disk, the files a restart reads are an empty log or start at most one above the persisted frontier |
| `PurgeCrash.RevertedFrontier` | hiqlite-wal/src/writer.rs:383-399 | with j files deleted and the frontier set back there is no hole if and only if no deleted file held an id above the old frontier, or nothing that is left can hold an entry |
| `RemoveCrash.PointsArePurgePoints` | hiqlite-wal/src/writer.rs:338-381 | the moments the writer goes through in a purge are the ones proved to be without a hole |
| `RemoveCrash.RemoveNeverLeavesHole` | hiqlite-wal/src/writer.rs:338-381 | no moment of a purge by the writer leaves a hole |
| `RemoveCrash.FailedRemove` | hiqlite-wal/src/writer.rs:382-400 | when deletion j fails, no moment before the revert has a hole, and the one after it has none if and only if the condition above holds |
| `RemoveCrash.FailedRemoveLeavesHole` | hiqlite-wal/src/writer.rs:382-400 | a run of the writer whose purge fails at the second deletion and leaves a hole |
| `Serve.ServeExact` | hiqlite-wal/src/reader.rs:72-136 | for every range from a live id, exactly its entries are sent, in order, once each, over any number of files; the loop panics if and only if the range reaches into a trailing empty file |
| `Serve.ServeBelow` | hiqlite-wal/src/reader.rs:72-136 | below the first id one error is sent and nothing else |
| `Serve.LatestIsLast` | hiqlite-wal/src/reader.rs:137-189 | the log state is the greatest id with its payload, and none if and only if the log is empty |
| `Readers.Reader.Refresh` | hiqlite-wal/src/reader.rs:72-80 | after a refresh the local copy shows exactly the writer's files if and only if it was not overtaken and its maps of numbers still in use were maps of the present files |
| `Readers.Reader.BehindExact` | hiqlite-wal/src/reader.rs:72-80 | that condition in terms of which file was made when, as in the rows on runs below |
| `Readers.Reader.AfterAppend` | hiqlite-wal/src/reader.rs:72-80 | after appends by the writer the condition holds |
| `Readers.Reader.AfterRemove` | hiqlite-wal/src/reader.rs:72-80 | after a removal it holds if and only if a file stays or the copy has no map of file number 1 |
| `ReaderRuns.RemoveFollows` | hiqlite-wal/src/wal.rs:1033-1102 | a removal follows the files themselves as it follows their identities: what stays keeps its identity, a new first file takes the next one |
| `ReaderRuns.AppendsFollow` | hiqlite-wal/src/wal.rs:1002-1029 | after any run that removes nothing the old files are the first ones and the new ones take the next identities |
| `ReaderRuns.RunSurvivors` | hiqlite-wal/src/wal.rs:1002-1102 | over every run of the writer, a file that was there at the beginning keeps its number, and files are added at the back only |
| `ReaderRuns.RefreshableExact` | hiqlite-wal/src/wal.rs:934-954 | from a current copy, after any run of the writer, the refresh works if and only if no number the copy has mapped, or lists first, was given to a new file |
| `ReaderRuns.ForwardRefreshes` | hiqlite-wal/src/wal.rs:934-954 | it works after every run that deletes no file at the back and never removes everything |
| `ReaderRuns.FullPurgeIsStale` | hiqlite-wal/src/wal.rs:575-578 | after a purge of everything the refresh keeps the map of the deleted file for the new file number 1 |
| `ReaderRuns.StaleReadFails` | hiqlite-wal/src/wal.rs:373-471 | through such a map an entry of the new file is answered by an error |
| `Readers.Reader.ReadFile` | hiqlite-wal/src/reader.rs:88-104 | a read of a local file, mapped on demand, is the read of the writer's file |
| `Readers.Reader.ServeFile` | hiqlite-wal/src/reader.rs:81-132 | one file of the loop sends what the specification says |
| `Readers.Reader.HandleLogs` | hiqlite-wal/src/reader.rs:72-136 | the loop sends what the specification says and leaves its memo |
| `Readers.Reader.HandleLogState` | hiqlite-wal/src/reader.rs:137-189 | the payload of the greatest id, none if and only if the log is empty |
| `Decimal.ParseShow` | hiqlite-wal/src/wal.rs:679-690 | a printed number parses back |
| `Decimal.ParseExact` | hiqlite-wal/src/wal.rs:679-690 | what parses as a number is the number as printed, possibly behind zeros and one plus sign, not above the maximum, and nothing else |
| `Decimal.PaddedOrder` | hiqlite-wal/src/wal.rs:760-780 | fixed-width names sort as text exactly as their numbers do |
| `Restart.ParseFileName` | hiqlite-wal/src/wal.rs:679-690 | the number in a file name is read back from it |
| `Restart.ParseNameExact` | hiqlite-wal/src/wal.rs:679-690 | a name is taken for a WAL file if and only if it is such a number and the ending |
| `Restart.UnreadableIsSkipped` | hiqlite-wal/src/wal.rs:970-978 | a file that cannot be read is left out, and the ones before and behind it are read all the same |
| `Restart.NamesSorted` | hiqlite-wal/src/wal.rs:957-996 | the names of a file set are sorted as text in file order |
| `Restart.CheckIntegrity` | hiqlite-wal/src/wal.rs:824-917 | the loop accepts exactly the sets whose numbers, ids and offsets join |
| `Restart.SetPassesChecks` | hiqlite-wal/src/wal.rs:824-917 | every well-formed set is accepted |
| `Restart.IntegrityMeansNoGap` | hiqlite-wal/src/wal.rs:824-898 | what the check accepts has no missing file number and no missing id up to the first prepared file, and every other file has both offsets or none, at least 16 bytes apart, behind the header and inside the file |
| `Restart.CleanRestart` | hiqlite-wal/src/wal.rs:957-996 | drop, sorted directory read and header decoding give back the same files and the same log |
| `Restart.StepClean` | hiqlite-wal/src/wal.rs:51-59 | a step keeps a set restartable if and only if it is not a truncation at the first id of a sealed file |
| `Restart.RunClean` | hiqlite-wal/src/wal.rs:1033-1102 | over every run without such a truncation the set stays restartable |
| `Restart.RestartAfterRun` | hiqlite-wal/src/wal.rs:957-996 | after any such run a restart passes the integrity check and finds exactly the abstract log of the run |
| `Restart.TruncateResurrects` | hiqlite-wal/src/wal.rs:1083-1102 | after such a truncation the truncated entries are back in the header that a restart reads |
| `LogStore.TranslationExact` | hiqlite-wal/src/log_store_impl.rs:62-79 | the translated range means the same ids if and only if it is neither of the two ranges whose bound saturates |
| `LogStore.TryGetLogEntries` | hiqlite-wal/src/log_store_impl.rs:55-98 | for every range: an empty translation returns nothing without asking, a start below the log an error, any other range exactly its entries that exist, in order; it panics if and only if it reaches into a trailing empty file |
| `LogStore.Truncate` | hiqlite-wal/src/log_store_impl.rs:235-254 | exactly the ids from k on are gone |
| `LogStore.Purge` | hiqlite-wal/src/log_store_impl.rs:257-277 | exactly the ids below u are gone, and the purge id is persisted |
| `ExternalDb.U64Blob` | hiqlite/src/external_state_machine.rs:2484-2493 | a stored u64 decodes to itself |
| `OrderedKeys.SelectOrdered` | hiqlite/src/external_state_machine.rs:2122-2127 | the query returns every key once, in byte order |
| `OrderedKeys.OneListing` | hiqlite/src/external_state_machine.rs:2122-2127 | a table has only one such listing |
| `ExternalHistory.FloorIsWindowStart` | hiqlite/src/external_state_machine.rs:1675-1680 | the saturating floor of the code is the sequence of the oldest of the newest `retention` entries |
| `ExternalHistory.WindowMoves` | hiqlite/src/external_state_machine.rs:1705-1748 | inserting the new receipt and deleting below the floor by byte comparison leaves exactly the receipts of the newest entries of the longer history |
| `ExternalHistory.EffectExact` | hiqlite/src/external_state_machine.rs:1474-1487 | an operation is taken if and only if it succeeds and its output has an encoding within the limit; then its effect, output and receipt are the operation's, else the refusal names the reason |
| `ExternalHistory.ReplayIsRun` | hiqlite/src/external_state_machine.rs:1474-1497 | the application of a history is what its operations make of it, run once each from the first on |
| `ExternalReload.LoadsMemory` | hiqlite/src/external_state_machine.rs:1825-1963 | for every history, the metadata row decodes to exactly the memory state |
| `ExternalReload.LoadStateExact` | hiqlite/src/external_state_machine.rs:1825-1963 | for any database, a state is loaded if and only if its configuration is within the limits and the row encodes it, with all of the last applied entry or nothing of it |
| `ExternalReload.AcceptedIsWindow` | hiqlite/src/external_state_machine.rs:2081-2200 | in any database validation accepts, the receipts are exactly the sequences from the configured floor to the checkpoint, at most `retention`, each found unharmed, decodable under the codec of its kind, and the newest is that of the checkpoint |
| `ExternalReload.LoadReceiptExact` | hiqlite/src/external_state_machine.rs:1965-2048 | for every history and sequence, the receipt of that entry if it is in the window, and nothing otherwise |
| `ExternalReload.FoundReceiptExact` | hiqlite/src/external_state_machine.rs:1965-2048 | in any database: a receipt is found if and only if its row stores it within the size limit and the digest is that of its body |
| `ExternalReload.OrderedWindow` | hiqlite/src/external_state_machine.rs:2122-2140 | the ordered query counts the window off without gap, from the floor to the last sequence |
| `ExternalReload.ReceiptsAccepted` | hiqlite/src/external_state_machine.rs:2081-2200 | validation accepts the receipts of every history |
| `ExternalReload.PersistExtends` | hiqlite/src/external_state_machine.rs:1688-1749 | one transaction takes the whole database of a history to the database of the history with the entry added |
| `ExternalSpec.ClassifyExact` | hiqlite/src/external_state_machine.rs:1625-1667 | reading the tables gives the verdict of the history: new iff the next dense sequence, retry with the first output iff retained and identical, conflict iff retained and different, unavailable iff below the window, else gap or before-initial; never an overflow |
| `ExternalSpec.ReceiptHoldsOutput` | hiqlite/src/external_state_machine.rs:1459-1466 | a retained receipt decodes to what its operation returned the first time |
| `ExternalSpec.ApplyRuns` | hiqlite/src/external_state_machine.rs:1474-1500 | what one apply does in terms of the operation: the history grows only by an accepted next entry, the answer is its output, and a refusal without a fault has its reason |
| `ExternalSpec.OutputIsRun` | hiqlite/src/external_state_machine.rs:1474-1487 | what the history says an entry returned is what its operation returned where it stands |
| `ExternalEngine.ValidateReceipts` | hiqlite/src/external_state_machine.rs:2081-2200 | the computed answer is the one for every result the ordered query could have |
| `ExternalEngine.ValidateFile` | hiqlite/src/external_state_machine.rs:2210-2279 | accepts a file exactly when image, size, digest, page size, receipts, embedded id and evidence all agree, with the first failing check as error |
| `ExternalEngine.HistoryValidates` | hiqlite/src/external_state_machine.rs:1515-1523 | reload and validation succeed on the database of every history and return its memory |
| `ExternalEngine.BuiltFilePasses` | hiqlite/src/external_state_machine.rs:2210-2279 | a snapshot of any history passes validation against its own evidence |
| `ExternalEngine.FileCheckExact` | hiqlite/src/external_state_machine.rs:2210-2279 | a file is accepted with a state if and only if the evidence is that of this state and this file and the image encodes the state with valid receipts under the id of the evidence |
| `ExternalEngine.PreflightExact` | hiqlite/src/external_state_machine.rs:2281-2338 | a restore goes ahead if and only if the file is accepted, has the configuration of the live engine and a checkpoint that is neither behind nor beside the live one |
| `ExternalEngine.OtherConfigRefused` | hiqlite/src/external_state_machine.rs:2294-2319 | a snapshot of another configuration is refused as a mismatch, whatever else it holds |
| `ExternalEngine.CreatedIsEmpty` | hiqlite/src/external_state_machine.rs:1751-1805 | fresh tables are the database of the empty history |
| `ExternalEngine.NotBehind` | hiqlite/src/external_state_machine.rs:2322-2338 | a snapshot is not stale if and only if its history is at least as long and, at equal length, has the identical applied record |
| `ExternalEngine.StateMachine.Reopen` | hiqlite/src/external_state_machine.rs:971-979 | a reopened engine has the memory of the session that wrote the database |
| `ExternalEngine.StateMachine.CommitEntry` | hiqlite/src/external_state_machine.rs:1488-1499 | database and history move together: on success, and on a COMMIT that took effect and reported an error; otherwise nothing changes |
| `ExternalEngine.StateMachine.Execute` | hiqlite/src/external_state_machine.rs:1443-1500 | history and answer are those of the reference for every entry and every fault, a failed receipt lookup included, before the reconciliation |
| `ExternalEngine.StateMachine.Reconcile` | hiqlite/src/external_state_machine.rs:1502-1525 | after a failed call the memory is that of the history again; the validation in it never refuses |
| `ExternalEngine.StateMachine.Apply` | hiqlite/src/external_state_machine.rs:1019-1069 | whatever fails, the database is that of the history the reference gives; memory agrees and the answer is the reference's unless the reconciliation itself fails, which poisons the writer; the application table changes by what the operation does to it, in exactly the calls whose entry took effect |
| `ExternalEngine.StateMachine.Snapshot` | hiqlite/src/external_state_machine.rs:1334-1346 | the file carries the history of this moment and passes validation; memory and database agree on the id unless the UPDATE took effect and reported an error |
| `ExternalEngine.StateMachine.Restore` | hiqlite/src/external_state_machine.rs:1347-1405 | for any file: a refusal changes nothing, success takes over the image with the state it loads, which is not stale, a failure in between poisons the writer; if the file holds the database of a history, the engine moves to it, never behind the live one and never to a different record at the same sequence; success keeps the configuration |
| `ExternalRuns.RunValid` | hiqlite/src/external_state_machine.rs:1443-1525 | over every list of calls with any faults, histories stay dense, every entry succeeded where it stands, and nothing already there changes |
| `ExternalRuns.AnswersHold` | hiqlite/src/external_state_machine.rs:1443-1525 | whatever was answered Applied or Recovered anywhere in a run is the entry that stands at that sequence in the final history, with the output it has there |
| `ExternalRuns.NeverTwice` | hiqlite/src/external_state_machine.rs:1625-1667 | a call at a sequence that took effect changes nothing and is never answered Applied |
| `ExternalRuns.LostAnswerIsRecovered` | hiqlite/src/external_state_machine.rs:1502-1525 | after a COMMIT that took effect and reported an error, repeating the call answers with the output of the one time it ran, as long as the receipt is retained |
| `ExternalRuns.CheckpointNeverFalls` | hiqlite/src/external_state_machine.rs:2322-2338 | over every run of calls and restores the sequence never decreases, and at an equal sequence the applied record is the same |
| `ExternalRuns.FollowsLog` | hiqlite/src/external_state_machine.rs:1305-1405 | whatever is delivered of one committed log, in any order, repeated, with any faults and restores of its prefixes, the engine holds a prefix of that log |
| `ExternalRuns.ReplicasAgree` | hiqlite/src/external_state_machine.rs:1305-1405 | two such engines at the same sequence have the same history |
| `ExternalReplicas.HonestPreflight` | hiqlite/src/external_state_machine.rs:1352-1368 | a snapshot an engine built is refused by a compatible engine if and only if it is stale |
| `ExternalReplicas.SubmitTo` | hiqlite/src/external_state_machine.rs:1019-1069 | a call to an engine changes its history as the rows on runs say |
| `ExternalReplicas.InstallInto` | hiqlite/src/external_state_machine.rs:1347-1405 | so does the installation of a snapshot, which succeeds if and only if it is not stale |
| `ExternalReplicas.SnapshotThenTail` | hiqlite/src/external_state_machine.rs:1334-1405 | one engine builds a snapshot, another one earlier in the same log installs it and applies the tail: its database is that of every engine that applied the whole log, but for the snapshot id |
| `ExternalMarker.PrefixesFailClosed` | hiqlite/src/external_state_machine.rs:235-238 | no prefix of the two rebuild markers, and no proper prefix of the durable ones, reads as a durable marker |
| `ExternalMarker.StepKeepsInv` | hiqlite/src/external_state_machine.rs:880-952 | each step of open, session, restore, shutdown and crash, with any torn marker write, keeps the marker at least as strict as the database needs |
| `ExternalMarker.RunKeepsInv` | hiqlite/src/external_state_machine.rs:1365-1438 | the same over every run |
| `ExternalMarker.FailsClosed` | hiqlite/src/external_state_machine.rs:880-902 | after any run, an open without rebuild refuses a database left by an interrupted restore or an unclean session without durability; no open that goes on has such a database |
| `ExternalMarker.OpenExact` | hiqlite/src/external_state_machine.rs:880-902 | in every closed world exactly one of open and rebuild goes on: the open if the marker is missing or durable, else the rebuild; an adoption needs a missing marker |
| `ExternalMarker.AlwaysOpens` | hiqlite/src/external_state_machine.rs:880-1000 | every closed world can be brought into service, by an open or by a rebuild, under the marker of the session |
| `ExternalMarker.FailedOpenExact` | hiqlite/src/external_state_machine.rs:904-952 | a check that finds the database unusable demands a rebuild; any other failed open takes away the marker it made, and only that one |
| `ExternalMarker.CrashReopens` | hiqlite/src/external_state_machine.rs:886-902 | after a crash of a session the next open goes on if and only if the session was durable, and else the rebuild does |
| `ExternalMarker.CompletedRestore` | hiqlite/src/external_state_machine.rs:1365-1404 | a restore that completes goes on serving under the marker of the session |
| `ExternalMarker.CleanExit` | hiqlite/src/external_state_machine.rs:1406-1438 | a session that is finalized, closed and synced leaves no marker and owes nothing |
| `ExternalMarker.MissingMarkerIsClean` | hiqlite/src/external_state_machine.rs:1422-1434 | after any run, a missing marker means that every opened session was finalized, closed and synced |
| `ExternalMarker.FailedRestoreExact` | hiqlite/src/external_state_machine.rs:1365-1404 | a failed restore leaves a marker that demands a rebuild if and only if it is not the one case of a complete copy and a durable marker written back whole whose write reported an error |
| `ExternalMarker.StrayExact` | hiqlite/src/external_state_machine.rs:904-1000 | the marker is taken away from writes nobody made durable by exactly one step: an open without durability that found no marker and fails after connecting |
| `ExternalMarker.StrayWitness` | hiqlite/src/external_state_machine.rs:772-790 | a run that ends in that state |
| `CacheIndex.LinesOfNormalized` | hiqlite/src/lib.rs:142-147 | splitting the printed index into lines gives back one line per variant |
| `CacheIndex.PrintedLineFits` | hiqlite/src/lib.rs:153-168 | a printed line passes if and only if the enum has that name at that index |
| `CacheIndex.LineFitsExact` | hiqlite/src/lib.rs:153-168 | of any text, a line passes if and only if it is an index, one space and the name the enum has there |
| `CacheIndex.CompatibleExact` | hiqlite/src/lib.rs:153-168 | any stored text is compatible if and only if each of its lines is one of those |
| `CacheIndex.OpenLine` | hiqlite/src/lib.rs:153-168 | text behind the last newline is a line too |
| `CacheIndex.CrlfLine` | hiqlite/src/lib.rs:153-168 | a carriage return before a newline does not belong to the line |
| `CacheIndex.CompatibleIffPrefix` | hiqlite/src/lib.rs:142-170 | a stored index is compatible if and only if its variants are a prefix of the current ones |
| `CacheIndex.CompatibilityIsAnOrder` | hiqlite/src/lib.rs:149-170 | compatibility is reflexive, transitive and antisymmetric |

## Left out

- Writers.Writer.AppendEntry: payloads of `wal_size - 49` to `wal_size - 34` bytes, which the guard admits although a fresh file has no space for them, are outside its precondition, because they break the set; `WalSet.PayloadBounds` and `WalFiles.AppendTooLong` say how.
- Writers.Writer.AppendBatch: the same payloads are excluded; models the build with the feature `oversized-entry-error`, without which the writer panics on an entry above the guard.
- Writers.Writer.HandleAppend: the same payloads are excluded; the asynchronous flush of `ImmediateAsync` is taken to guarantee nothing, durability claims rest on synchronous flushes alone.
- Writers.Writer.HandleRemove: of the failures in a removal only those of a file deletion are modelled, because creating or mapping a file after the deletions fails the same way (`PurgeCrash.RevertedFrontier` is for any number of deleted files), and failing to write the metadata ends the writer.
- CrashRuns.CrashAfterRun: runs with a truncation that leaves records behind the end of a file are outside it, because the law is false there; `TruncateCrash.UncleanStartExact` says exactly when such a file is restored.
- PurgeCrash.PurgeNeverLeavesHole: the 32 bytes of a header reach the disk as a whole.
- Readers.Reader.HandleLogs: requires a copy that the refresh gets right, because otherwise the code reads through the map of a deleted file; `ReaderRuns.RefreshableExact` says exactly when that is.
- Readers.Reader.HandleLogState: the same.
- LogStore.TryGetLogEntries: requires a copy that the refresh gets right, as above; payloads stay bytes, decoding them to Raft entries is left out.
- ExternalEngine.ValidateFile: an unreadable receipt is reported as invalid metadata; the source distinguishes more error texts.
- ExternalMarker.StepKeepsInv: a removal of the marker that fails in the drop guard is not modelled; it leaves a stricter marker.
- Start-up of the writer, migration of old files and the repair of a missing purge id: one-off code.
- Memory maps, `fsync`, `sync_file_range`, file locks and threads: only their effect on bytes and durable bytes is modelled; one request is handled at a time, as by the writer and reader tasks.
- The internals of SQLite, bincode, SHA-256 and CRC, and the SQL authorizer and determinism guards.
- `adopt_existing_projection` beyond its marker guard, read pools, path permissions and option parsing.
- openraft, the cache, lock and SQLite state machines, network, backup, client, configuration, dashboard and macros: plumbing or easy members.
