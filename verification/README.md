# penguin-db: the storage engine and its algorithms, modelled in Dafny

penguin-db is a SQL database over an LSM storage engine. Many physical layers - a skip-list memtable,
frozen memtables, two levels of sorted files, write-ahead log segments - must always stand for one plain
map, and freezing, flushing, compacting and recovering must not change that map.

- `ByteStrings`, `Tables`: byte order, fixed-width integers, and what the layers mean: tables with
  tombstones, their overlay, the plain map, replay of operations.
- `Chains`, `SkipLists`: the memtable, rewired in place.
- `Bloom`, `SSTableFormat`, `SSTableWriter`, `SSTableReader`, `Layouts`, `Flush`: sorted files byte by byte.
- `MergeHeaps`, `Compactor`, `Compaction`: the multi-way merge and what it does to the meaning of the levels.
- `Levels`, `EngineModel`, `Engine`, `MergeIterators`, `Snapshots`: search, the engine as a value and as an
  object, scans and point-in-time views.
- `Recovery`, `CrashRecovery`, `RepeatedCrashes`, `LossyCrashes`, `LostWrites`: the engine as a step system over
  memory and disk, crashes at any step, runs with many crashes, exactly which crashes can be followed by the
  loss of a write, and runs that lose one.
- `Checksums`, `WalRecords`, `WalWriter`: log frames with their CRC-32, replay of damaged segments, group commit.
- `Pins`, `SnapshotServer`: reference counts of files, and of the snapshots of remote clients over them.
- `Decimals`, `SortableKeys`, `RowKeys`, `KeyErrors`, `Buffers`: the order-preserving key encoding.
- `Like`: the backtracking LIKE matcher. `Updates`: UPDATE statements that move keys.
- `Syntax`, `Grammar`, `ParsedTrees`, `ParseBack`, `Parser`: the precedence parser as functions, what it
  accepts, and as an object that advances through the tokens.

## What does not hold without a condition

- A compaction takes its id before a younger memtable is flushed under a smaller one, and the merge takes
  the larger id for the newer file. `LostWrites.CompactionLosesAWrite` is a run that loses a write;
  `Compaction.CompactionKeepsMeaningIff` says for which inputs the meaning is kept.
- Recovery may load several log segments into one memtable that carries the id of the last one; its flush
  removes that segment only, and the next rotation manifest drops the watermark. When it flushes the
  memtable at once, the new segment may get the id of the last log file, which the watermark covers.
  `LostWrites.SecondCrashLosesAWrite` and `LostWrites.StartupFlushLosesAWrite` are runs that lose a write;
  `LossyCrashes.CrashCanLoseIff` says after which crashes such a run exists. After any one crash the
  recovered map is exact.
- The rebuilt Bloom filter reduces its probes modulo whole bytes: `Bloom.ReloadKeepsProbesIff`,
  `Bloom.ReloadDeniesAnAddedKey`. The engine object requires an expected number of keys for which the bits
  fill whole bytes, as the default does.
- `Snapshot.Get` begins at the last frozen memtable of its list, which is the oldest, although its comment says
  newest first: `Snapshots.SnapshotGetIsRightIff`, `Snapshots.SnapshotGetIsRight`,
  `Snapshots.SnapshotGetCanBeStale`.
- The grammar comment of ConditionPrimary admits any condition in parentheses and any expression before a
  predicate. The code reads an expression first: a parenthesised condition must begin with a predicate (so
  neither with NOT nor with another parenthesised condition), and an operand ends with its closing
  parenthesis. `ParseBack.ConditionAcceptedIff` states what is accepted,
  `ParseBack.ParenthesesEndAnOperand` shows a condition that is not.
- The comment of AppendBatch promises all records of a batch or none. Replay works record by record, so a torn
  batch recovers as a prefix of its records: `WalRecords.AtomicCutIff` says at which bytes it is none or all,
  `WalRecords.BatchIsAtomicIff` that only batches of one record are safe from every cut.
- After Close was called the log worker goes on writing and acknowledging although a write has failed:
  `WalWriter.DrainLosesATicket` is a run that loses an acknowledged ticket, `WalWriter.DrainedAreRecoveredIff`
  says when one is recovered. Where the failed write ended inside the header of a frame, bytes of later frames
  are read as the rest of it, and what is recovered depends on coincidences. Without such a failure, what is
  acknowledged survives (`WalWriter.LogWriter.AcknowledgedSurvive`).

## Model

| member | source | states |
|---|---|---|
| `RepeatedCrashes.EveryRunMeansItsWrites` | internal/storage/engine.go:549-624 | in every run of writes, freezes, flushes, compactions (under the file-id hypothesis) and safe crashes, the engine means the plain map written in order, its levels are fit for the search, the disk would recover to that map plus the logged records of the batch in flight, and so does any further crash, safe or not |
| `LossyCrashes.CrashCanLoseIff` | internal/storage/engine.go:408-475 | the crashes left out there are exactly those after which a run can lose a write: a continuation of crash-free, hypothesis-abiding steps after which one more crash shows readers something else than before |
| `LossyCrashes.ResumeLosesIff` | internal/storage/engine.go:445-473 | with the replayed memtable kept, a write can be lost later exactly when a log file other than the resumed one still holds a record: a change to its key is undone by a crash after its flush and the next rotation |
| `LossyCrashes.FlushAtStartLosesIff` | internal/storage/engine.go:410-444 | with the replayed memtable flushed at once, exactly when the last log file has an id above the manifest NextSegmentID, so that the new log file lies at or below the new watermark |
| `LossyCrashes.NothingReplayed` | internal/storage/engine.go:410-444 | in that case whatever is written to the new log file changes nothing of what recovery shows |
| `CrashRecovery.RecoveredIsHistory` | internal/storage/wal/recovery.go:28-94 | whatever step a crash interrupts, manifest levels under the replayed segments above the watermark show every acknowledged write and then the logged records of the batch in flight |
| `CrashRecovery.RecoveryIsExact` | internal/storage/engine.go:408-475 | the recovered engine means exactly that, whether the replayed memtable is kept or flushed at once |
| `CrashRecovery.PendingIsSuffix` | internal/storage/wal/recovery.go:61-86 | the segments replayed are a suffix of the history that begins inside what the manifest files already hold |
| `CrashRecovery.NextKeepsInv` | internal/storage/workers.go:56-146 | every step of foreground and background work keeps the invariant; only acknowledging a batch adds to the acknowledged writes, and by exactly its records |
| `RepeatedCrashes.NextKeepsSound` | internal/storage/workers.go:56-146 | so it does when log files without records were left behind by earlier crashes |
| `RepeatedCrashes.CrashKeepsSound` | internal/storage/engine.go:408-475 | a safe crash leads to such a state again |
| `RepeatedCrashes.CrashMeans` | internal/storage/engine.go:408-475 | after any crash the engine means what it meant before, with the logged records of the batch in flight written |
| `Recovery.MeaningIsAcknowledged` | internal/storage/engine.go:771-849 | under the invariant the layers mean the acknowledged writes, applied in order to an empty map |
| `Recovery.InitialInv` | internal/storage/engine.go:272-310 | the invariant holds of an engine opened on an empty directory |
| `Recovery.ApplyBatchKeepsInv` | internal/storage/engine.go:743-767 | acknowledging a batch adds its records to the acknowledged writes |
| `Recovery.FreezeKeepsInv` | internal/storage/engine.go:551-567 | freezing moves the active operations to the queue and keeps all relations between memory, disk and history |
| `Recovery.RecordRotationKeepsInv` | internal/storage/engine.go:596-606 | a rotation manifest without watermark still leaves a suffix of the history to replay |
| `Recovery.RegisterFlushKeepsInv` | internal/storage/workers.go:36-53 | registering a flush before its manifest is written keeps the invariant |
| `Recovery.RecordFlushKeepsInv` | internal/storage/workers.go:99-105 | writing the flush manifest keeps the invariant |
| `Recovery.RemoveLogKeepsInv` | internal/storage/workers.go:116-120 | removing the flushed log file removes that file only |
| `Recovery.RecordCompactionKeepsInv` | internal/storage/workers.go:276-315 | under the file-id hypothesis a manifest with the compacted levels keeps the invariant, with flushes that happened meanwhile on top |
| `Recovery.SwapLevelsKeepsInv` | internal/storage/workers.go:336-338 | swapping the levels in memory after that manifest keeps the invariant |
| `LostWrites.SecondCrashLosesAWrite` | internal/storage/engine.go:596-606 | a reachable run in which a second crash brings an overwritten value back, because a log file outlived the flush of its records and the rotation manifest dropped the watermark |
| `LostWrites.CompactionLosesAWrite` | internal/storage/workers.go:189-194 | a reachable run without crashes in which a compaction brings an overwritten value back, because an older file carries a larger id |
| `LostWrites.StartupFlushLosesAWrite` | internal/storage/engine.go:416-444 | a reachable run in which a value written after a recovery that flushed the replayed memtable is gone after the next crash, because a compaction had reserved the id before that of the last log file |
| `EngineModel.FreezeKeepsMeaning` | internal/storage/engine.go:551-567 | freezing changes nothing a reader sees |
| `EngineModel.FlushKeepsMeaning` | internal/storage/workers.go:36-53 | registering the flush of the oldest frozen memtable leaves the sequence of layers as it was |
| `EngineModel.WriteChangesMeaning` | internal/storage/engine.go:751-766 | a batch changes the meaning by exactly its operations, in order |
| `EngineModel.CommitKeepsMeaning` | internal/storage/workers.go:279-338 | replacing compacted files by files that show the same keeps the meaning, whatever was flushed on top meanwhile |
| `EngineModel.CommitKeepsNames` | internal/storage/workers.go:290-293 | a commit whose next id is above the ids of its outputs leaves no file with an id that is still to be given |
| `EngineModel.OneMoreFlushed` | internal/storage/workers.go:36-53 | flush by flush, the k oldest frozen memtables become files with the ids of their log segments, the youngest first |
| `Recovery.CommitIsTwoSteps` | internal/storage/workers.go:276-338 | recording a compaction and swapping the levels are together the commit of the engine, with the next id behind the outputs; manifest and engine then agree on levels and next id |
| `Tables.SuffixReplayIsHarmless` | internal/storage/wal/recovery.go:61-86 | replaying a suffix of a history over a state that already holds part of that suffix gives the whole history |
| `Tables.ReplayOverBase` | internal/storage/wal/recovery.go:178-189 | a memtable over older layers means those layers with its operations written to them |
| `Tables.OverlayAt` | internal/storage/engine.go:787-845 | the entry an overlay has for a key is that of the first layer holding it |
| `Tables.SortedRunsAreCanonical` | internal/storage/memtable/skiplist.go:206-258 | two sorted runs with one table are the same run |
| `Compaction.CompactionKeepsMeaningIff` | internal/storage/workers.go:202-237 | a compaction shows what its inputs showed exactly when, for every key, the file readers ask first and the file with the largest id show the same |
| `Compaction.CompactionKeepsMeaning` | internal/storage/compactor/heap.go:34-41 | in particular when larger ids come first on shared keys |
| `Compaction.MergeYieldsMerged` | internal/storage/compactor/worker.go:220-308 | the files that the merge loop leaves are the stored tables of its output runs, under consecutive ids; when the filter bits fill whole bytes they are merged from the inputs in the sense in which the engine commits them |
| `Compaction.RunCompaction` | internal/storage/compactor/worker.go:67-96 | a compaction of valid files settles every key and yields such files, split by the size limit, under ids that count upward from the reserved one to the next id it returns, each filter of the length and number of probes configured |
| `Compaction.OutputsOverlay` | internal/storage/compactor/worker.go:281-304 | the output files overlay to the table of the whole merged run |
| `Compactor.PerformMerge` | internal/storage/compactor/worker.go:220-308 | every key is settled as its newest input says, once, tombstones dropped at the bottom level only; the output ascends; every file but the last has reached the size limit and none had reached it before its last record; the files hold it under consecutive ids, each with a filter of exactly its keys; Add never fails; the loop ends because the remaining input shrinks |
| `Compactor.MergeIsDetermined` | internal/storage/compactor/worker.go:220-308 | that leaves one possible result: any two lists of files with these properties are the same, record by record and file by file |
| `Compactor.SplitIsUnique` | internal/storage/compactor/worker.go:289-294 | the records in order and the size limit determine where each file ends |
| `Compactor.SegmentsAscend` | internal/storage/compactor/worker.go:281-304 | the output files ascend and do not overlap |
| `Compactor.RootIsNewest` | internal/storage/compactor/heap.go:34-41 | the heap root holds the least remaining key, from the input with the largest id that has it |
| `Compactor.InitializeInputs` | internal/storage/compactor/worker.go:119-160 | the heap begins with the first entry of every non-empty input |
| `Compactor.FixOrPop` | internal/storage/compactor/worker.go:314-328 | the root is replaced by the next entry of its input or removed |
| `Compactor.Emit` | internal/storage/compactor/worker.go:274-294 | the record goes to the open file, which is closed exactly when its size reaches the limit |
| `Compactor.CompactionState.FinalizeWriter` | internal/storage/compactor/worker.go:203-214 | a closed file is recorded with the run it holds |
| `MergeHeaps.RootIsLeast` | internal/storage/compactor/heap.go:34-41 | in a heap-ordered list no node is less than the root |
| `MergeHeaps.MergeHeap.FixRoot` | internal/storage/compactor/worker.go:314-328 | replacing the root restores the heap order and changes only that node |
| `MergeHeaps.MergeHeap.PopRoot` | internal/storage/compactor/heap.go:49-58 | removing the root keeps the heap order and all other nodes |
| `MergeHeaps.MergeHeap.Push` | internal/storage/compactor/heap.go:44-46 | adding a node keeps the heap order and all other nodes |
| `SkipLists.SkipList.FindPredecessors` | internal/storage/memtable/skiplist.go:206-220 | on every level the last node below the key, and the first node not below it |
| `SkipLists.SkipList.InsertNode` | internal/storage/memtable/skiplist.go:224-247 | each level stays the chain of exactly the nodes tall enough for it; the run gains the record at its place |
| `SkipLists.SkipList.Put` | internal/storage/memtable/skiplist.go:78-132 | the map gains the entry and the size its exact cost; the error cases are exactly an empty key and a full table, and then nothing changes |
| `SkipLists.SkipList.Delete` | internal/storage/memtable/skiplist.go:149-191 | a tombstone is kept; only a new key is charged, and only then can the table be full |
| `SkipLists.SkipList.Get` | internal/storage/memtable/skiplist.go:54-65 | found, deleted and value agree with the map |
| `SkipLists.SkipList.Size` | internal/storage/memtable/skiplist.go:261-265 | the size is the sum of key and value lengths of the map, zero exactly when the table is empty |
| `SkipLists.SkipList.NewIteratorAt` | internal/storage/memtable/skiplist.go:270-284 | the walk begins at the first key at or above the start |
| `SkipLists.SkipList.NewIterator` | internal/storage/memtable/iterator.go:46-59 | the walk is the whole run in key order |
| `SkipLists.Cursor.Next` | internal/storage/memtable/iterator.go:86-103 | each step yields the next record of the run |
| `Chains.InsertionKeepsChains` | internal/storage/memtable/skiplist.go:224-247 | linking a node in behind its predecessors keeps every level the chain of its tall nodes |
| `SSTableWriter.Writer.Add` | internal/storage/sstable/writer.go:128-181 | an entry is appended exactly when key and value fit and the key is above the last one, with the error otherwise |
| `SSTableWriter.Writer.Close` | internal/storage/sstable/writer.go:200-248 | the bytes are data block, sparse index, filter and footer of exactly the entries added |
| `SSTableWriter.Writer.CurrentSize` | internal/storage/sstable/writer.go:263-273 | the size predicted is that of the file Close would write |
| `SSTableFormat.SparseIndexPointsIn` | internal/storage/sstable/writer.go:139-149 | the index names the first record, then each that starts a block or more behind the last one named, and no other |
| `Layouts.EntryLayout` | internal/storage/sstable/constants.go:8-22 | where an entry holds the lengths, the mark of a tombstone, key and value |
| `Layouts.FileLayout` | internal/storage/sstable/constants.go:39-57 | where a file holds entries, index and filter, and what its last 25 bytes are |
| `SSTableReader.Open` | internal/storage/sstable/reader.go:34-166 | every finished file opens and is represented: entries, index, filter, count and last key; no file opens whose footer and index do not fit it, and another magic number is told apart |
| `SSTableReader.ParseIndex` | internal/storage/sstable/reader.go:169-230 | an index block is accepted exactly when it has the expected entries, in ascending places inside the data block |
| `SSTableReader.Get` | internal/storage/sstable/reader.go:250-340 | the lookup through the sparse index is that of the list of entries, for keys present or absent |
| `SSTableReader.ScanBlock` | internal/storage/sstable/reader.go:284-339 | one block decides the lookup of a key between its bounds |
| `SSTableReader.FindOffsetAtOrAfter` | internal/storage/sstable/reader.go:385-415 | the offset of the first entry at or above the key |
| `SSTableReader.NewIteratorAt` | internal/storage/sstable/reader.go:420-481 | the iterator yields exactly the entries at or above the key |
| `SSTableReader.FileCursor.Next` | internal/storage/sstable/iterator.go:173-242 | each step yields the next entry of the data block |
| `SSTableReader.FindMaxKey` | internal/storage/sstable/reader.go:120-153 | the walk through the last block ends at the last key |
| `SSTableReader.FileDeterminesRun` | internal/storage/sstable/reader.go:34-166 | a file represents one list of entries only |
| `SSTableReader.DataBlockIsInjective` | internal/storage/sstable/writer.go:151-170 | different lists of entries have different data blocks |
| `Bloom.BloomFilter.Add` | internal/storage/sstable/bloom_filter.go:54-70 | exactly the probed bits are set |
| `Bloom.BloomFilter.MayContain` | internal/storage/sstable/bloom_filter.go:73-93 | all probed bits are set |
| `Bloom.NoFalseNegativeAfterReload` | internal/storage/sstable/bloom_filter.go:108-125 | stored and rebuilt, the filter denies no key that was added, if the bit count is a multiple of 8 |
| `Bloom.ReloadKeepsProbesIff` | internal/storage/sstable/bloom_filter.go:108-125 | the rebuilt filter probes the same bits for all hashes exactly when the bit count is a multiple of 8 |
| `Bloom.ReloadDeniesAnAddedKey` | internal/storage/sstable/bloom_filter.go:54-70 | with 70 bits an added key is denied after the rebuild |
| `Levels.SearchLevels` | internal/storage/engine.go:1017-1055 | filters and binary search answer what an unfiltered newest-first search of all files answers, probing at most one file of level 1 |
| `Levels.FirstNotBelow` | internal/storage/engine.go:1034-1036 | the first file that does not end below the key |
| `Levels.OnlyCandidate` | internal/storage/engine.go:1033-1039 | no other file of level 1 can hold the key |
| `Engine.ValidateOperations` | internal/storage/engine.go:530-546 | the loop gives the error that the first faulty operation decides, and otherwise the sum of the sizes |
| `Engine.FirstFault` | internal/storage/engine.go:530-546 | the error is that of the first operation with an empty key or of an unknown type, the empty key first |
| `Engine.NoErrorIffNoFault` | internal/storage/engine.go:530-546 | a batch is accepted exactly when no operation has an empty key or an unknown type |
| `Engine.RawSizeOfDistinct` | internal/storage/engine.go:530-546 | for distinct keys the sum is the size of the table that the batch makes |
| `Engine.ApplyBatch` | internal/storage/engine.go:751-766 | applying a batch for which there is room never fails, leaves the operations applied in order and the size within the batch size |
| `Engine.DbEngine.WriteBatch` | internal/storage/engine.go:627-768 | the meaning changes by exactly the operations in order or not at all; the outcomes for faulty, oversized, fitting and other batches with the state each leaves, and the bound of the queue |
| `Engine.DbEngine.MakeRoom` | internal/storage/engine.go:683-716 | changes nothing when the batch fits at once; else exactly as many of the oldest frozen memtables are flushed as the limit of the queue asks for, and then the memtable is frozen; the queue never outgrows its limit; no meaning changes; it fails only over a frozen memtable that does not fit the format of files, and can only stall for ever when the queue may hold no memtable |
| `Engine.DbEngine.Recovered` | internal/storage/engine.go:445-473 | an engine reopened on the levels of the manifest with the replayed memtable, which has no size limit of its own, satisfies the invariant and stands for both |
| `Engine.DbEngine.LogAndApply` | internal/storage/engine.go:718-767 | what is logged is what is applied, and it always fits |
| `Engine.DbEngine.FreezeActiveMemTable` | internal/storage/engine.go:551-567 | the objects after a freeze are those of the freeze step; a frozen memtable is not empty and is kept as it is |
| `Engine.DbEngine.RegisterFlushedSSTable` | internal/storage/workers.go:36-53 | the objects after a flush are those of the flush step |
| `Engine.DbEngine.FlushOldest` | internal/storage/workers.go:56-107 | one round of the flush worker is the flush step with a file that carries the id of the oldest log segment and the table of the oldest frozen memtable, and keeps the meaning, or changes nothing; it succeeds whenever that table fits the format of the files |
| `Engine.DbEngine.WriteOldest` | internal/storage/workers.go:80-84 | the file named after the log segment of the oldest frozen memtable holds its table |
| `Engine.DbEngine.CommitLevels` | internal/storage/workers.go:279-338 | the objects after a commit are those of the commit step: concurrent flushes stay, and the next id is the larger of the old one and the compaction's; with that above the ids of the outputs, no file of the new levels has an id still to be given |
| `Engine.DbEngine.Get` | internal/storage/engine.go:771-849 | the lookup of the key in the meaning |
| `Engine.DbEngine.Scan` | internal/storage/engine.go:852-889 | exactly the part of the meaning with the prefix |
| `Engine.SearchQueue` | internal/storage/engine.go:803-818 | frozen memtables are searched from the newest |
| `Flush.WriteMemTableToSSTable` | internal/storage/engine.go:478-527 | the file holds exactly the entries of the memtable, indexed every 4096 bytes, with the filter of exactly its keys at ten bits for each expected one; the reader opened on its bytes represents them with the same filter; it fails only when an entry or the file exceeds the limits of the format |
| `Flush.FlushAndGet` | internal/storage/sstable/reader.go:250-340 | through Add, Close, Open and Get, a lookup in the flushed file is the lookup in the memtable, for keys present or absent |
| `MergeIterators.FindLive` | internal/storage/iterator.go:75-130 | the next live entry of the overlay with the prefix, or the end exactly when there is none; tombstones are passed on all sources |
| `MergeIterators.SmallestSource` | internal/storage/iterator.go:77-89 | the first source that shows the least key |
| `MergeIterators.PassKey` | internal/storage/iterator.go:117-121 | every source showing the key passes it, no other moves |
| `MergeIterators.MergingIterator.Next` | internal/storage/iterator.go:47-57 | the least entry still to come, which then is no longer to come: no repeats, nothing lost |
| `MergeIterators.PassedMeaning` | internal/storage/iterator.go:80-121 | the least key has the entry of the first source showing it, and passing it removes just that key |
| `MergeIterators.NothingAfterPrefix` | internal/storage/iterator.go:97-101 | when the least key lacks the prefix so do all that follow |
| `MergeIterators.PrefixLimit` | internal/storage/engine.go:1152-1167 | no key with the prefix reaches the limit; there is none exactly when every byte is 0xFF |
| `MergeIterators.SkippedHasNone` | internal/storage/engine.go:1169-1190 | a level-1 file that is skipped has no key with the prefix |
| `MergeIterators.ScanInternal` | internal/storage/engine.go:1129-1205 | a scan delivers exactly the live entries of the overlay of all layers that have the prefix |
| `Snapshots.Snapshot` | internal/storage/snapshot.go:104-188 | the snapshot stands for the meaning at that moment; taking it changes no meaning |
| `Snapshots.DbSnapshot.Scan` | internal/storage/snapshot.go:75-87 | in any later state of the engine a scan delivers the map as of the snapshot; closed snapshots refuse |
| `Snapshots.SnapshotSurvives` | internal/storage/snapshot.go:147-152 | later work only adds to the memtables ever frozen, so the snapshot stays as it was |
| `Snapshots.DbSnapshot.Get` | internal/storage/snapshot.go:32-73 | the oldest frozen memtable that holds the key decides, then the files |
| `Snapshots.SnapshotGetIsRightIff` | internal/storage/snapshot.go:44-56 | that is the lookup in the map of the snapshot exactly when the oldest and the newest frozen memtable holding the key show the same of it |
| `Snapshots.SnapshotGetIsRight` | internal/storage/snapshot.go:44-56 | so it is with at most one frozen memtable, or when no two share a key |
| `Snapshots.SnapshotGetCanBeStale` | internal/storage/snapshot.go:44-56 | write, snapshot, overwrite, snapshot: Get of the younger snapshot answers the old value while the engine answers the new one |
| `Snapshots.NewestWinsIsMeaning` | internal/storage/snapshot.go:147-152 | newest first is the lookup in the map of the snapshot |
| `Pins.Registry.PinReaders` | internal/storage/engine.go:989-1002 | the counts after pinning, reader by reader |
| `Pins.Registry.UnpinReaders` | internal/storage/engine.go:1006-1012 | the counts and closes after unpinning, reader by reader |
| `Pins.Registry.MarkObsolete` | internal/storage/workers.go:345-357 | the marks and closes after a compaction commit |
| `Pins.PinsCount` | internal/storage/engine.go:965-1002 | pinning keeps counts equal to the live pins |
| `Pins.UnpinsCount` | internal/storage/engine.go:973-985 | unpinning keeps them equal, and closes a reader exactly when it is obsolete and its last pin goes |
| `Pins.MarksCount` | internal/storage/workers.go:345-357 | marking closes exactly the readers without pins |
| `SnapshotServer.NextKeepsInv` | internal/rpc/storage_server/server.go:66-167 | every step of reads, snapshots, releases, expiry, flushes and commits keeps the two-level invariant |
| `SnapshotServer.OpenExactlyWhileNeeded` | internal/storage/engine.go:963-1012 | in every interleaving each reader is open exactly while it is in the levels or pinned, and is closed once |
| `SnapshotServer.SnapshotClosedOnceAndUnused` | internal/rpc/storage_server/server.go:85-94 | in every interleaving each snapshot is closed at most once, never while it is read, always decided once released and unused, and its files are open as long as it is |
| `SnapshotServer.ReadFilesPinned` | internal/rpc/storage_server/server.go:206-227 | the files of a snapshot being read are pinned and open |
| `SnapshotServer.CloseSnapshotKeepsInv` | internal/storage/snapshot.go:89-101 | a decided close unpins once |
| `WalRecords.Marshal` | internal/storage/wal/record.go:62-90 | the frame of the record, or the error exactly when key or frame are too large |
| `WalRecords.MarshalRoundTrip` | internal/storage/wal/record.go:95-131 | what is marshalled reads back |
| `WalRecords.FrameParts` | internal/storage/wal/record.go:53-57 | where a frame holds checksum, size, opcode, key length, key and value, and that the checksum is that of all behind it |
| `WalRecords.ReadFrame` | internal/storage/wal/recovery.go:117-189 | the order of the checks of one frame |
| `WalRecords.ReplayFile` | internal/storage/wal/recovery.go:99-196 | operations recovered, failure, and the file truncated to its valid prefix |
| `WalRecords.StepReadsFrames` | internal/storage/wal/recovery.go:117-189 | replay goes on exactly where some record was marshalled to, and fails exactly where that record has an empty key or an unknown opcode; every other place is torn |
| `WalRecords.StepOfFrame` | internal/storage/wal/recovery.go:117-189 | what a marshalled record is replayed as, whatever follows it |
| `WalRecords.UnmarshalInverts` | internal/storage/wal/record.go:95-131 | whatever reads as a record is what that record is marshalled to |
| `WalRecords.DamageIsTorn` | internal/storage/wal/record.go:95-105 | any one byte of a frame outside its size field replaced by another ends the replay there, whatever follows |
| `WalRecords.DamagedSegment` | internal/storage/wal/recovery.go:165-174 | a segment with one frame so damaged recovers the records before it and is cut off in front of it |
| `Checksums.CheckValue` | internal/storage/wal/record.go:86-86 | the checksum of the digits 1 to 9 is 0xCBF43926, the check value published for CRC-32 |
| `Checksums.OneByteShows` | internal/storage/wal/record.go:100-105 | replacing any one byte of the data changes the checksum |
| `Checksums.CrcUpdateIsInjective` | internal/storage/wal/record.go:100-105 | a difference of two states is never lost to the bytes that follow |
| `ByteStrings.LittleEndianAt` | internal/storage/wal/record.go:78-87 | the i-th byte of a little-endian number is its i-th digit to the base 256 |
| `WalRecords.CutReplay` | internal/storage/wal/recovery.go:99-196 | a segment cut at any byte recovers exactly its whole records and keeps exactly their frames |
| `WalRecords.WholeFramesFit` | internal/storage/wal/recovery.go:118-193 | the whole records are those whose frames fit, and no more would |
| `WalRecords.ReplayIsIdempotent` | internal/storage/wal/recovery.go:201-215 | for any bytes, replaying the truncated file gives the same operations and truncates nothing |
| `WalRecords.CutFrame` | internal/storage/wal/recovery.go:153-163 | a frame cut short is recognised without relying on the checksum |
| `WalWriter.MarshalBatch` | internal/storage/wal/writer.go:196-223 | a batch is accepted exactly when every record is, and its data are the frames in order; otherwise the error is that of the first faulty record |
| `WalWriter.LogWriter.GatherBatch` | internal/storage/wal/writer.go:457-480 | tickets are taken in order up to the limit, all that arrive in time; the one that would exceed it is left over |
| `WalWriter.LogWriter.WriteAndSyncBatch` | internal/storage/wal/writer.go:414-443 | files, size and answers after one batch, for any behaviour of the disk and even after an error; callers hear success only after write and sync of the whole batch, and only a sync makes bytes count as synced |
| `WalWriter.SegmentsAfter` | internal/storage/wal/writer.go:415-435 | the same by lengths: a new segment begins exactly when the old one and the batch together exceed the limit, and success is a rotation if one was due, all bytes written, and the sync |
| `WalWriter.SegmentsAreBounded` | internal/storage/wal/writer.go:414-443 | in every run on a faultless disk each segment is within the limit or holds one batch and nothing else |
| `WalWriter.RotatesWhenFull` | internal/storage/wal/writer.go:415-423 | and the k-th batch begins a new segment exactly when the active one has no room for it, else it is appended |
| `WalWriter.NewLogWriter` | internal/storage/wal/writer.go:113-149 | limits that are not positive are refused, else the writer starts with one empty segment |
| `WalWriter.LogWriter.RotateActiveFile` | internal/storage/wal/writer.go:153-185 | a new, empty segment begins behind segments that end with whole tickets, or nothing changes |
| `WalWriter.LogWriter.BatchWorker` | internal/storage/wal/writer.go:310-389 | every ticket the worker receives is answered once, in the order of acceptance, successes first, all on a faultless disk; the segments are those of writing out gathered batches one by one, and on a faultless disk each is within the limit or holds one batch alone |
| `WalWriter.LogWriter.DrainOnClose` | internal/storage/wal/writer.go:354-380 | every ticket found queued is written and answered batch by batch, in order, within the batch limit, whether or not an earlier batch failed; the result is that of writing out those batches |
| `WalRecords.FramesThenAnything` | internal/storage/wal/recovery.go:99-196 | records of whole frames are recovered whatever follows them, and replay goes on behind them |
| `WalRecords.AtomicCutIff` | internal/storage/wal/writer.go:190-223 | of a batch cut at any byte none or all records are recovered exactly when the cut lies before the end of the first frame or at the end of the last |
| `WalRecords.BatchIsAtomicIff` | internal/storage/wal/writer.go:190-223 | wherever a crash cuts a batch logged behind others, it is recovered whole or not at all, exactly when it has at most one record |
| `WalWriter.DrainKeeps` | internal/storage/wal/writer.go:354-380 | whatever the disk does, such batches only append to the segment files, and every ticket is answered once, in order |
| `WalWriter.DrainedAreRecoveredIff` | internal/storage/wal/writer.go:354-380 | a batch acknowledged after one whose write fell short: if that write ended between frames it is recovered, and if it ended behind a header it is lost exactly when it does not complete that frame with the right checksum |
| `WalRecords.LostBehindCutIff` | internal/storage/wal/recovery.go:117-189 | the same of the bytes of a segment |
| `WalRecords.BehindWholeFrames` | internal/storage/wal/recovery.go:117-189 | behind whole frames all that follows is recovered |
| `WalWriter.DrainLosesATicket` | internal/storage/wal/writer.go:354-380 | a writer closed with two tickets queued: the write of the first falls short, the second is acknowledged, and recovery finds neither |
| `WalWriter.LogWriter.AcknowledgedSurvive` | internal/storage/wal/writer.go:414-443 | whatever part of the unsynced tail survives, recovery gives all that was acknowledged in the segment and beyond it only whole records of the failed batch |
| `Like.MatchLike` | internal/sql/executor/eval.go:392-422 | true exactly when the string can be partitioned into substrings that match the specifiers |
| `Like.LikeIffMatches` | internal/sql/executor/eval.go:389-392 | the partition definition equals the recursive one |
| `Like.EarlierPercentNeedNotMove` | internal/sql/executor/eval.go:401-411 | with a second % reached, a match found by moving the first further is found by moving only the second |
| `Like.NoRoomLater` | internal/sql/executor/eval.go:417-421 | at the end of the string no later start can match |
| `SortableKeys.ElementOrder` | internal/bridge/encoding/sortable.go:179-255 | for each column type bytes compare like values, are equal exactly for equal values, and are prefix-free |
| `SortableKeys.PKOrder` | internal/bridge/encoding/sortable.go:179-255 | comparing encoded keys is comparing the tuples of column values |
| `SortableKeys.EncodesIffAllDo` | internal/bridge/encoding/sortable.go:179-255 | a key is encoded exactly when every column is |
| `SortableKeys.PKRoundTrip` | internal/bridge/encoding/sortable.go:260-332 | decoding inverts encoding up to -0 and the canonical form of decimals |
| `SortableKeys.NormalIsSame` | internal/bridge/encoding/sortable.go:53-122 | what is read back has the same value |
| `SortableKeys.FloatOrder` | internal/bridge/encoding/sortable.go:90-106 | codes of bit patterns compare like the numbers, infinities included, with one code for both zeros |
| `SortableKeys.UnitsIsStandard` | internal/bridge/encoding/sortable.go:84-89 | the number assumed for a bit pattern is that of section 3.4 of IEEE 754 |
| `SortableKeys.TextOrder` | internal/bridge/encoding/sortable.go:124-133 | NUL-terminated strings compare like the strings |
| `SortableKeys.ElementRoundTrip` | internal/bridge/encoding/sortable.go:260-332 | a column is read back from the front of any bytes |
| `SortableKeys.EncodePK` | internal/bridge/encoding/sortable.go:179-255 | the loop yields the concatenation of the column encodings or the first error |
| `SortableKeys.EncodeInt` | internal/bridge/encoding/sortable.go:15-39 | two's complement with the sign bit flipped, most significant byte first, is the value plus the weight of the sign bit |
| `SortableKeys.DecodeInt` | internal/bridge/encoding/sortable.go:24-51 | the number whose code the bytes are, sign bit flipped back |
| `SortableKeys.EncodeFloat` | internal/bridge/encoding/sortable.go:53-106 | NaN refused, -0 replaced, all bits or the sign bit flipped |
| `SortableKeys.DecodeFloat` | internal/bridge/encoding/sortable.go:72-120 | the bits of the float whose code the bytes are |
| `SortableKeys.FlipSignIsXor` | internal/bridge/encoding/sortable.go:15-120 | flipping the sign bit as addition or subtraction is the XOR of the code, on 32 and 64 bits |
| `SortableKeys.FlipAllIsXor` | internal/bridge/encoding/sortable.go:53-120 | so is flipping all bits as subtraction |
| `SortableKeys.DecodePK` | internal/bridge/encoding/sortable.go:260-332 | the loop reads column by column, and fails on short or left-over bytes |
| `Decimals.CodeOrder` | internal/bridge/encoding/sortable.go:339-445 | encoded decimals compare like the numbers, and two literals share a code exactly when they denote one number |
| `Decimals.CodeLayout` | internal/bridge/encoding/sortable.go:406-445 | the code place by place: a byte for the sign, 64 digits before and 64 behind the point that denote the magnitude, taken from nine in a negative number |
| `Decimals.DecodeInvertsCode` | internal/bridge/encoding/sortable.go:448-496 | decoding gives a literal of the same number with the same code |
| `Decimals.ComplementedOrder` | internal/bridge/encoding/sortable.go:437-442 | complementing digits to nine reverses their order |
| `Decimals.CodeDigits` | internal/bridge/encoding/sortable.go:385-435 | the padded digits denote the magnitude, zero exactly without digits left |
| `Decimals.EncodeDecimal` | internal/bridge/encoding/sortable.go:339-445 | malformed literals, those with too many digits, and the code otherwise |
| `Decimals.DecodeDecimal` | internal/bridge/encoding/sortable.go:448-496 | the canonical literal of the code, or an error on short input |
| `RowKeys.EncodeScanPrefix` | internal/bridge/encoding/encoding.go:53-83 | the prefix, or an error: exactly for an empty name, then for a name too long, then for a NUL byte |
| `RowKeys.PrefixLayout` | internal/bridge/encoding/encoding.go:66-82 | the prefix byte by byte |
| `RowKeys.ScanMeetsOnlyItsTable` | internal/bridge/encoding/encoding.go:44-52 | the scan prefix of a table begins the row keys of that table and of no other |
| `RowKeys.PartsOfRowKey` | internal/bridge/encoding/encoding.go:92-126 | decoding a row key gives its parts back |
| `RowKeys.PartsSpellKey` | internal/bridge/encoding/encoding.go:92-126 | whatever is decoded, the parts spell the key |
| `RowKeys.DecodeParts` | internal/bridge/encoding/encoding.go:92-126 | the parts, or the error of the first field that is missing |
| `ByteStrings.LessOfConcatenations` | internal/bridge/encoding/sortable.go:176-178 | strings that are no prefixes of one another are compared before what follows them |
| `ByteStrings.PrefixedInterval` | internal/storage/engine.go:1152-1167 | keys with a prefix form an interval |
| `Updates.ExecUpdate` | internal/sql/executor/exec_dml.go:160-301 | the update succeeds exactly when the new keys are distinct and avoid the rows left alone, and then the batch is deletes of moved keys before puts of new rows |
| `Updates.CheckKeys` | internal/sql/executor/exec_dml.go:260-279 | the two duplicate checks decide exactly that |
| `Updates.BatchIsUpdate` | internal/sql/executor/exec_dml.go:281-295 | the batch leaves the rows that did not match, one row for each that did, and everything outside the table |
| `Updates.RowsConserved` | internal/sql/executor/exec_dml.go:281-300 | the table has as many rows as before |
| `Updates.SwapIsAccepted` | internal/sql/executor/exec_dml.go:260-279 | two rows may exchange their keys |
| `Updates.OtherTablesUntouched` | internal/bridge/encoding/encoding.go:44-83 | no row of another table changes |
| `ParsedTrees.ExpressionParsed` | internal/sql/parser/parse_expressions.go:22-48 | a parsed expression spells exactly the tokens consumed and has the shape of the stated precedence |
| `ParsedTrees.OrParsed` | internal/sql/parser/parse_conditions.go:26-48 | a parsed condition spells exactly the tokens consumed and nests with NOT tightest, then AND, then OR, both from the left |
| `ParsedTrees.SelectParsed` | internal/sql/parser/parse_expressions.go:328-385 | a parsed select item spells exactly the tokens consumed and has its shape |
| `ParsedTrees.PrimaryParsed` | internal/sql/parser/parse_conditions.go:98-147 | which operands a condition accepts in and without parentheses |
| `ParseBack.ExpressionAcceptedIff` | internal/sql/parser/parse_expressions.go:22-121 | the input is accepted whole as a tree exactly when it spells that tree and the tree has the shape |
| `ParseBack.ConditionAcceptedIff` | internal/sql/parser/parse_conditions.go:19-147 | the input is accepted whole as a condition exactly when it spells that condition and the condition has the shape the code admits |
| `ParseBack.ExpressionRoundTrip` | internal/sql/parser/parse_expressions.go:22-121 | a tree of the shape parses back to itself before anything that cannot continue it |
| `ParseBack.ConditionRoundTrip` | internal/sql/parser/parse_conditions.go:26-147 | a condition of the shape parses back to itself before anything that cannot continue it |
| `ParseBack.SelectBack` | internal/sql/parser/parse_expressions.go:328-385 | a select item of the shape, which function arguments are too, parses back to itself before anything that cannot continue it |
| `ParseBack.TokensDetermineTree` | internal/sql/parser/parse_expressions.go:22-121 | no two trees of the shape have the same tokens |
| `ParseBack.SplitPathIsSame` | internal/sql/parser/parse_expressions.go:268-291 | continuing from an assembled first factor builds the tree parseExpression builds |
| `ParseBack.SelectColumnPathIsSame` | internal/sql/parser/parse_clauses.go:792-904 | so a select column that begins with a qualified name is parsed as any select item |
| `ParseBack.ParenthesesEndAnOperand` | internal/sql/parser/parse_conditions.go:98-147 | a condition stops after a parenthesised operand although a select item reads on |
| `Parser.SqlParser.ParseExpression` | internal/sql/parser/parse_expressions.go:22-48 | a chain of terms joined by + or - from the left: the loop over the shared token position yields the tree or failure of `Grammar.Expression` on the tokens ahead and stops where that stops |
| `Parser.SqlParser.ParseTerm` | internal/sql/parser/parse_expressions.go:53-79 | a chain of factors joined by * or / from the left: the loop over the shared token position yields the tree or failure of `Grammar.Term` on the tokens ahead and stops where that stops, having moved on if there is one |
| `Parser.SqlParser.ParseFactor` | internal/sql/parser/parse_expressions.go:84-162 | a literal, column, function call, negation, or expression in parentheses: the loop over the shared token position yields the tree or failure of `Grammar.Factor` on the tokens ahead and stops where that stops, having moved on if there is one |
| `Parser.SqlParser.ParseFunctionCall` | internal/sql/parser/parse_expressions.go:194-244 | a call with DISTINCT, * or arguments: the loop over the shared token position yields the tree or failure of `Grammar.FunctionCall` on the tokens ahead and stops where that stops, having moved on if there is one |
| `Parser.SqlParser.ParseQualifiedIdentifier` | internal/sql/parser/parse_expressions.go:296-322 | a column with or without table: the loop over the shared token position yields the tree or failure of `Grammar.QualifiedIdentifier` on the tokens ahead and stops where that stops |
| `Parser.SqlParser.ParseSelectExpression` | internal/sql/parser/parse_expressions.go:328-348 | a select item: expression or condition: the loop over the shared token position yields the tree or failure of `Grammar.SelectExpression` on the tokens ahead and stops where that stops |
| `Parser.SqlParser.SelectExpressionFromExpression` | internal/sql/parser/parse_expressions.go:353-385 | a select item that goes on from an expression: the loop over the shared token position yields the tree or failure of `Grammar.SelectFromExpression` on the tokens ahead and stops where that stops |
| `Parser.SqlParser.ParseExpressionFromFactor` | internal/sql/parser/parse_expressions.go:268-291 | an expression that goes on from a factor: the loop over the shared token position yields the tree or failure of `Grammar.ExpressionFromFactor` on the tokens ahead and stops where that stops |
| `Parser.SqlParser.ParseOrCondition` | internal/sql/parser/parse_conditions.go:26-48 | conditions joined by OR from the left: the loop over the shared token position yields the tree or failure of `Grammar.OrCondition` on the tokens ahead and stops where that stops |
| `Parser.SqlParser.ParseAndCondition` | internal/sql/parser/parse_conditions.go:53-75 | conditions joined by AND from the left: the loop over the shared token position yields the tree or failure of `Grammar.AndCondition` on the tokens ahead and stops where that stops |
| `Parser.SqlParser.ParseNotCondition` | internal/sql/parser/parse_conditions.go:80-93 | a possibly negated condition: the loop over the shared token position yields the tree or failure of `Grammar.NotCondition` on the tokens ahead and stops where that stops |
| `Parser.SqlParser.ParseConditionPrimary` | internal/sql/parser/parse_conditions.go:98-147 | a condition in parentheses, a predicate or a truth value: the loop over the shared token position yields the tree or failure of `Grammar.ConditionPrimary` on the tokens ahead and stops where that stops |
| `Parser.SqlParser.ParseConditionContinuationFromExpr` | internal/sql/parser/parse_conditions.go:153-174 | a condition that goes on from an operand: the loop over the shared token position yields the tree or failure of `Grammar.Continuation` on the tokens ahead and stops where that stops |
| `Parser.SqlParser.ParsePredicateTail` | internal/sql/parser/parse_conditions.go:202-346 | comparison, IS, BETWEEN, IN or LIKE after an operand: the loop over the shared token position yields the tree or failure of `Grammar.PredicateTail` on the tokens ahead and stops where that stops, having moved on if there is one |
| `Parser.SqlParser.ParseOrConditionTailFromLeft` | internal/sql/parser/parse_conditions.go:351-371 | AND and OR after a predicate: the loop over the shared token position yields the tree or failure of `Grammar.OrTailFromLeft` on the tokens ahead and stops where that stops |
| `Parser.SqlParser.ParseAndTail` | internal/sql/parser/parse_conditions.go:376-391 | AND after a condition: the loop over the shared token position yields the tree or failure of `Grammar.AndTail` on the tokens ahead and stops where that stops |
| `Parser.SqlParser.ParseParenExpressionList` | internal/sql/parser/parse_conditions.go:397-420 | a list of expressions in parentheses: the loop over the shared token position yields the tree or failure of `Grammar.ExpressionList` on the tokens ahead and stops where that stops |

## Left out

- Updates.ExecUpdate: WHERE and SET are a parameter that maps a stored row to an error, no match, or a new key and row; the row codec, the type checks and the scan behind the list of rows are not modelled here.
- WalWriter.LogWriter.BatchWorker: the queue is given as the tickets in order of acceptance, any of which may arrive late; its last loop, after Close, is DrainOnClose. A sender that found the channel full may queue its ticket after the worker has left: nobody answers it, and it is no ticket of this model.
- WalWriter.LogWriter.DrainOnClose: likewise speaks of the tickets found queued; a rotation that closed the old file but could not open the next one is taken to leave the old one in use.
- Engine.DbEngine.Scan: the active memtable is read when the scan begins, while the code walks the live list and can meet later writes.
- SkipLists.Cursor.Next: the list does not change while the cursor walks.
- WalRecords.DamageIsTorn: a damaged size field is left out, since another size selects other bytes, whose checksum may by chance be the one stored.
- WalWriter.LogWriter.RotateActiveFile: the file of the next segment id is taken to be new.
- MergeIterators.ScanInternal: the iterators of memtables and files are walks over sorted runs, as `SkipLists.SkipList.NewIteratorAt` and `SSTableReader.NewIteratorAt` establish for the real ones; their error paths are not modelled.
- Engine.DbEngine.WriteBatch: the flush worker acts where a writer waits for it; its other interleavings are the steps of `Recovery`. Closing, cancelled contexts and background errors raised elsewhere are not modelled.
- Engine.DbEngine.FlushOldest: an open sorted file is a value with its entries and filter; `Flush.WriteMemTableToSSTable` ties it to the bytes and the reader opened on them, unless the file reaches 2^63 bytes or 2^32 entries. The manifest write is a step of `Recovery`.
- LossyCrashes.ResumeLosesIff: the name of the file to which the resumed memtable will be flushed is not in use, as file names in use are not reused.
- RepeatedCrashes.EveryRunMeansItsWrites: manifest writes are atomic steps, synced bytes survive, log files are removed when asked, a log does not rotate by its own size, file names in use are not reused, recovery is not itself interrupted, and MaxMemTableSize stays the same; Close and reopening without a crash are not modelled.
- Compactor.PerformMerge: output file names are distinct although only one id is reserved.
- Snapshots.DbSnapshot.Get: states which entry wins, since the answer of the snapshot's map is not always given.
- SkipLists.SkipList.RandomLevel: the coin is an arbitrary choice.
- Parser.SqlParser.ParseFactor: error messages, diagnostics and source spans are left out, as are column wildcards and aliases of select lists.
- SortableKeys.EncodePK: timestamps are their nanoseconds; a time outside the range of UnixNano is not modelled.
- Durations, metrics, logging, options, the directory lock, manifest JSON and its backup, orphan clean-up and I/O errors: no property beyond "the run stops here".
- Liveness of flush signals and write stalls: signals are coalesced, so only safety is stated.
- Joins, aggregates, HAVING, ORDER BY, BETWEEN with NULL bounds, and rows of tables with dropped columns: the natural claims do not fit the code.
- Catalog helpers, row codec, type checks, AST validation and the lexer: they would only add easy members.
- The gRPC transport, the remote store, the command line and configuration.
