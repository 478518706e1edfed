# LevelDB and nanopb

A model of the two libraries vendored under `ios/Pods`: LevelDB 1.20, a log-structured storage engine, and nanopb 0.3.9.1, a table-driven codec for protocol buffers. `dafny verify dfyconfig.toml` checks all of it.

**The engine.** An entry is a user key, a sequence number, a kind and a value; the meaning of a collection of entries is what each reader sees of it (`Entries`). A version is seven lists of sorted tables. `Versions` searches it, `CompactionInputs` chooses what to compact and where to put a flushed memtable, `Compactions` is the merge loop with its drop rules, `VersionBuilder` folds edits. `LevelInvariant` says what every version keeps, `CleanCuts` when a compaction keeps it, `SplitKeys` what happens when it does not. `Engine` is the state machine of writes, switches, flushes, moves, compactions and snapshots whose runs keep every read right; `PlainMaps` says what right means without sequence numbers: the engine is a map, and a snapshot is the map of an earlier moment; `DB` is the object whose methods take its steps. `Recovery`, `Reopen` and `Opening` read a disk, `CrashSafety` runs engine and disk together with crashes at any point, opening included. `GroupCommit` is the queue of writers, `SkipList` the memtable's list with one writer and lock-free readers.

**Files.** `LogFormat` and `LogIO` frame records in 32 KB blocks, and `LogIntegrity` says what a reader may be trusted with on any bytes; `WriteBatch`, `EditCodec`, `LogBatches` and `ManifestCodec` say what log and manifest bytes mean when they are cut, and `Grammar` which bytes are accepted at all. `Blocks`, `BlockIter`, `FilterBlock`, `Bloom`, `Bytewise` and `Table` are the table format; `Cursors`, `DBIterator`, `MergingIterator` and `TwoLevelIterator` the iterators, all measured against a plain cursor over a set of entries; `HandleTable`, `LRUCache` and `LRUOrder` the block cache; `Coding`, `Slices` and `Crc32c` integers, strings and checksums.

**The codec.** `Nanopb` has descriptors, messages as typed trees, their bytes, and decoding of any bytes; `NanopbStreams` has the loops that write and read them. `NanopbReaders` is about bytes that the reader's own descriptor did not write, `NanopbMerge` about decoding into a message that has values.

The engine only ever compares user keys. Its modules take them as numbers of type `real`, into which every total order on byte strings embeds; the byte-level modules use bytes and the bytewise order. Where the program works by changing things step by step, the model does too: classes with methods proved against functions of their old state, and state machines whose steps are single stores where other threads can come in between.

## Findings

Three of the program's promises hold only under a condition; each is proved with the exact condition and an input on which it fails.

- *Compactions of a split key.* While a snapshot is live, a compaction may close an output between two entries of one user key (`SplitKeys.SplitByCompaction`). `SetupOtherInputs` does not take in the neighbour that goes on with the key. Compacting or moving only the newer part then leaves older data above newer, and lookups of the latest data answer with the old value (`SplitKeys.MovedHalfIsStale`); a deletion compacted away from its neighbour vanishes while the value it hid remains (`SplitKeys.LostTombstone`), since the base-level check looks only two levels down and deeper. `Engine.CompactionIsHarmlessExactly` gives the condition on the inputs under which invariant and reads are kept, in both directions, for every compaction; `Engine.TrivialMoveKeepsConsistent` does so for moves. Without older snapshots the condition always holds (`Engine.UnobservedRunIsHarmless`).
- *Files added back.* Folding edits through one builder differs from installing them one by one exactly when a live base file is added again (`VersionBuilder.BatchEqualsOneByOne`, `VersionBuilder.AddedBackIsListedTwice`). Manifest replay starts from an empty version, where this cannot happen (`VersionBuilder.BatchFromEmptyEqualsOneByOne`).
- *Decoding into a used edit.* `VersionEdit::Clear` keeps the compaction pointers, so decoding gives back what was encoded if and only if the receiver held none (`EditCodec.EditRoundTripExact`). Every caller decodes into a fresh object.

## Model

| member | source | states |
|---|---|---|
| Entries.VisibleIs | ios/Pods/leveldb-library/db/db_impl.cc:1109-1154 | the value a reader is owed is that of the newest entry of the key not newer than its snapshot, and nothing if that entry is a deletion |
| Entries.Compare | ios/Pods/leveldb-library/db/dbformat.cc:50-66 | internal keys order by user key, then by falling sequence number and kind; zero means the same key |
| Entries.Find | ios/Pods/leveldb-library/db/memtable.cc:108-143 | seeking a sorted run to the packed lookup key and checking the user key reports the newest entry the reader may see, or that the run has none |
| Versions.FindFile | ios/Pods/leveldb-library/db/version_set.cc:86-105 | binary search gives the first file whose largest key is not before the key |
| Versions.SearchSortedLevel | ios/Pods/leveldb-library/db/version_set.cc:332-429 | one binary-searched file is enough to report on a whole sorted level |
| Versions.SearchLevel0 | ios/Pods/leveldb-library/db/version_set.cc:287-330 | searching the overlapping level-0 files by falling number reports on the whole level, when the higher number holds the newer data |
| Versions.Get | ios/Pods/leveldb-library/db/version_set.cc:332-429 | the level-by-level lookup reports what the first level with a candidate holds, and, when newer data lies above older, what the union of all files holds |
| Versions.LookupsFindNewest | ios/Pods/leveldb-library/db/version_set.cc:332-429 | for every key and reader the level-by-level lookup finds the newest entry, if and only if no level holds an entry older than one of the same key below it |
| Versions.StaleLookup | ios/Pods/leveldb-library/db/version_set.cc:332-429 | where an older entry lies above a newer one, a reader exactly as new as the newer one is given an older one |
| Versions.ReportsVisible | ios/Pods/leveldb-library/db/version_set.cc:332-429 | a report over a collection of entries is the value the reader is owed |
| CompactionInputs.SomeFileOverlapsRange | ios/Pods/leveldb-library/db/version_set.cc:121-156 | says exactly whether some file meets the range, by binary search on disjoint levels |
| CompactionInputs.GetOverlappingInputs | ios/Pods/leveldb-library/db/version_set.cc:531-572 | terminates in spite of its restarts; at level 0 the result is the least set of files that holds all that meet the range and is closed under meeting the range as widened by its members; elsewhere it is exactly the files that meet the range |
| CompactionInputs.OverlapIsLeastClosed | ios/Pods/leveldb-library/db/version_set.cc:531-572 | a search that ends without widening has found the least closed set |
| CompactionInputs.PickLevelForMemTableOutput | ios/Pods/leveldb-library/db/version_set.cc:502-528 | picks the deepest level up to 2 that neither it nor any level above it meets the range, stopping before too much overlap with grandparents |
| CompactionInputs.PickFile | ios/Pods/leveldb-library/db/version_set.cc:1305-1317 | it is the turn of the first file behind the compaction pointer, or of the first of the level when there is none |
| CompactionInputs.SetupOtherInputs | ios/Pods/leveldb-library/db/version_set.cc:1345-1411 | the inputs keep every picked file; they are the picked ones, or all files that meet the range of both levels if those are more, small enough and need no further file of the next level; with them come exactly the next-level files and the grandparents that meet their range |
| CompactionInputs.PickCompaction | ios/Pods/leveldb-library/db/version_set.cc:1291-1343 | the file whose turn it is, and at level 0 all that must go with it, are among the inputs, which are set up from them |
| CompactionInputs.CompactRange | ios/Pods/leveldb-library/db/version_set.cc:1413-1446 | at level 0 everything that meets the range is compacted; on deeper levels the first file that meets it, and a further one exactly if those before it have not reached the size limit; there is no compaction exactly when no file meets the range |
| CompactionInputs.CutIsPicked | ios/Pods/leveldb-library/db/version_set.cc:1429-1436 | cutting the files that meet the range where their total size reaches the limit picks each of them exactly if those before it have not reached it |
| Compactions.CompactionJob.IsBaseLevelForKey | ios/Pods/leveldb-library/db/version_set.cc:1484-1503 | for increasing keys the forward-only scan answers exactly whether some file two or more levels down has the key in its range |
| Compactions.CompactionJob.ShouldStopBefore | ios/Pods/leveldb-library/db/version_set.cc:1505-1526 | asks for a new output exactly when the grandparents passed since the last one exceed the limit |
| Compactions.CompactionJob.FinishOutputFile | ios/Pods/leveldb-library/db/db_impl.cc:813-863 | closes the open output under a fresh number and loses nothing |
| Compactions.CompactionJob.Run | ios/Pods/leveldb-library/db/db_impl.cc:920-1008 | the outputs hold, in order, exactly the entries the drop rules keep, under consecutive fresh numbers; each was closed where it reached the size limit, or in front of a key at which the grandparents passed since the last such key exceed their limit, or at the end, and never later or earlier |
| Compactions.MergeIsExact | ios/Pods/leveldb-library/db/db_impl.cc:938-972 | every read at or above the oldest snapshot is unchanged by the merge, if and only if no dropped deletion is the newest entry of a key whose newest entry outside the inputs is a value |
| Compactions.MergePreservesReads | ios/Pods/leveldb-library/db/db_impl.cc:938-972 | in particular when everything outside the inputs is newer or lies two or more levels down |
| Compactions.NothingBehindObsolete | ios/Pods/leveldb-library/db/db_impl.cc:955-969 | behind a dropped deletion nothing of its key survives that the reader could see |
| LevelInvariant.WellShapedIsSearchable | ios/Pods/leveldb-library/db/version_set.cc:332-429 | the invariant of versions is what the lookup relies on |
| LevelInvariant.FlushKeepsShape | ios/Pods/leveldb-library/db/db_impl.cc:488-532 | a flushed memtable put at the picked level keeps the invariant |
| LevelInvariant.CompactionKeepsShape | ios/Pods/leveldb-library/db/version_set.cc:1345-1411 | replacing inputs by outputs keeps the invariant if and only if no file stays behind at the inputs' level that goes on with a user key of an output |
| LevelInvariant.RestOfVersionIsNewer | ios/Pods/leveldb-library/db/version_set.cc:1484-1503 | if no file outside the inputs goes on with their user keys, what is not compacted is newer than the inputs or lies two or more levels down |
| CleanCuts.NoSnapshotMeansCleanCut | ios/Pods/leveldb-library/db/db_impl.cc:940-1004 | when no snapshot is older than the inputs, at most one entry of a key survives and no key is cut in two |
| CleanCuts.CompactionKeepsShapeExactly | ios/Pods/leveldb-library/db/version_set.cc:1345-1411 | for any compaction, with or without snapshots and wherever it cuts: the invariant is kept if and only if no same-level file outside the inputs goes on with the user key an input ends with, unless the newest input entry of that key is a deletion about to be dropped; otherwise newer data comes to lie below older |
| CleanCuts.MoveKeepsAgeOrder | ios/Pods/leveldb-library/db/db_impl.cc:717-724 | moving a single file down keeps newer data above older if and only if no file of its level goes on with its last user key |
| CleanCuts.NoneGoesOnIsHarmless | ios/Pods/leveldb-library/db/version_set.cc:1345-1411 | if no file outside the inputs goes on with their user keys, the compaction harms neither the invariant nor any read |
| CleanCuts.CleanMeansNoneGoesOn | ios/Pods/leveldb-library/db/version_set.cc:1345-1411 | while no user key spans two files of a level, every compaction the engine picks is of that kind |
| CleanCuts.CleanCutKeepsClean | ios/Pods/leveldb-library/db/db_impl.cc:866-885 | outputs cut between user keys leave no user key spanning two files |
| SplitKeys.SplitByCompaction | ios/Pods/leveldb-library/db/db_impl.cc:920-1008 | with a live snapshot between two writes of a key, a compaction keeps both and closes its output between them |
| SplitKeys.MovedHalfIsStale | ios/Pods/leveldb-library/db/db_impl.cc:717-724 | after the newer half is moved down, every lookup of the latest data answers with the older value |
| SplitKeys.LostTombstone | ios/Pods/leveldb-library/db/db_impl.cc:955-969 | a deletion compacted away from the rest of its key vanishes, and the value it deleted is read again |
| Engine.CompactionReadsExactly | ios/Pods/leveldb-library/db/db_impl.cc:866-885 | installing a compaction changes no read of the files at or above its snapshot, if and only if it drops no deletion that hides a value in a file outside the inputs |
| Engine.CompactionIsHarmlessExactly | ios/Pods/leveldb-library/db/db_impl.cc:887-1046 | a compaction keeps both the invariant and every such read if and only if the condition on its inputs holds before it starts |
| Engine.TrivialMoveKeepsConsistent | ios/Pods/leveldb-library/db/db_impl.cc:717-724 | moving a file keeps the whole engine right if and only if no file of its level goes on with its last user key |
| Engine.WriteKeepsConsistent | ios/Pods/leveldb-library/db/db_impl.cc:1194-1257 | a write with the next sequence numbers keeps the engine right |
| Engine.FlushKeepsConsistent | ios/Pods/leveldb-library/db/db_impl.cc:534-565 | so does flushing the immutable memtable |
| Engine.EveryReadIsRight | ios/Pods/leveldb-library/db/db_impl.cc:1109-1154 | in every run of harmless steps every read, through a live snapshot or of the latest data, returns the newest value written for the key that the reader may see |
| Engine.EveryVersionIsWellShaped | ios/Pods/leveldb-library/db/version_set.cc:803-818 | every version of such a run satisfies the level invariant |
| Engine.UnobservedRunIsHarmless | ios/Pods/leveldb-library/db/db_impl.cc:900-904 | every run whose compactions see no snapshot older than their inputs is harmless, and no user key ever spans two files of a level |
| PlainMaps.EveryReadIsOfTheMap | ios/Pods/leveldb-library/db/db_impl.cc:1109-1154 | the engine is a map: in every run of harmless steps a read through a snapshot looks up the map as it was when the snapshot was taken, a read of the latest data the map as it is, whatever was flushed, compacted or moved |
| PlainMaps.BatchShows | ios/Pods/leveldb-library/db/write_batch.cc:112-125 | writing a batch is applying its operations to the map one after the other |
| PlainMaps.WriteIsSeen | ios/Pods/leveldb-library/db/db_impl.cc:1194-1257 | after a write, readers see of each key in the batch its last operation, of other keys what was there before, and older readers see no difference |
| DB.DBImpl.Write | ios/Pods/leveldb-library/db/db_impl.cc:1194-1257 | takes the state machine's write step; afterwards the last operation on a key in the batch is what readers see of it, a deletion as nothing; other keys and older readers see what they saw before |
| DB.DBImpl.CompactMemTable | ios/Pods/leveldb-library/db/db_impl.cc:534-565 | writes the immutable memtable at the picked level and installs it; an empty one leaves no file |
| DB.DBImpl.BackgroundCompaction | ios/Pods/leveldb-library/db/db_impl.cc:686-769 | compacts the file whose turn it is; moves it exactly if it is alone and its grandparents are small enough; takes that step of the state machine, stays right if the inputs were harmless, always does while no key spans two files, and keeps that so without snapshots |
| DB.DBImpl.DoCompactionWork | ios/Pods/leveldb-library/db/db_impl.cc:887-1046 | reads, drops, cuts and installs as the state machine's compaction step |
| DB.DBImpl.GetSnapshot | ios/Pods/leveldb-library/db/db_impl.cc:1175-1178 | a snapshot is the last sequence number of the moment, appended to the list |
| DB.DBImpl.ReleaseSnapshot | ios/Pods/leveldb-library/db/snapshot.h:53-58 | releasing takes out that snapshot and no other |
| DB.DBImpl.Get | ios/Pods/leveldb-library/db/db_impl.cc:1109-1154 | memtable, immutable memtable, then files: the value owed to the reader by the history of all writes |
| DB.MakeInput | ios/Pods/leveldb-library/db/version_set.cc:1258-1289 | the merged input of a compaction is sorted and holds exactly the entries of its files |
| VersionBuilder.Builder.Apply | ios/Pods/leveldb-library/db/version_set.cc:665-708 | takes in an edit level by level: deletions first, and an added file is no longer deleted |
| VersionBuilder.Builder.SaveTo | ios/Pods/leveldb-library/db/version_set.cc:711-757 | merges base and added files in order and leaves out the deleted ones |
| VersionBuilder.SaveLevelOrdered | ios/Pods/leveldb-library/db/version_set.cc:711-757 | the saved level is in strict order if and only if no live base file has been added again |
| VersionBuilder.BatchEqualsOneByOne | ios/Pods/leveldb-library/db/version_set.cc:939-961 | a list of edits folded through one builder gives the level that installing them one by one gives, if and only if no live base file has been added again |
| VersionBuilder.BatchFromEmptyEqualsOneByOne | ios/Pods/leveldb-library/db/version_set.cc:939-961 | from an empty version, as a manifest is replayed, the two always agree |
| VersionBuilder.NeverAddedBack | ios/Pods/leveldb-library/db/version_set.cc:820-903 | edits that add no file the level already holds never meet the exception |
| VersionBuilder.AddedBackIsListedTwice | ios/Pods/leveldb-library/db/version_set.cc:711-757 | a file deleted from a base and added back is listed twice by the fold |
| Recovery.ReplayManifest | ios/Pods/leveldb-library/db/version_set.cc:905-1025 | one builder over an empty version gives the version the records stand for |
| Recovery.ReplaySnoc | ios/Pods/leveldb-library/db/version_set.cc:820-903 | appending an edit to the manifest stands for installing it |
| Recovery.RecoverLogFile | ios/Pods/leveldb-library/db/db_impl.cc:365-486 | the tables written from a log hold exactly its entries, in order and under fresh numbers, and the largest sequence number is found |
| Reopen.RecoverLogs | ios/Pods/leveldb-library/db/db_impl.cc:343-360 | all logs from the recorded number on are read, lowest first, and their numbers are marked used |
| Reopen.FindMissing | ios/Pods/leveldb-library/db/db_impl.cc:324-341 | reports exactly whether a table that the version names is missing |
| Reopen.Open | ios/Pods/leveldb-library/db/db_impl.cc:1490-1532 | opening fails exactly when a table is missing; otherwise it gives the replayed version with the logs' entries in level 0, a new log, and a manifest that records both |
| Reopen.SnapshotEditReplays | ios/Pods/leveldb-library/db/version_set.cc:1102-1130 | the snapshot record alone stands for the version it was taken of |
| Opening.ReadRecordKeeps | ios/Pods/leveldb-library/db/db_impl.cc:413-450 | taking in the next log record keeps every entry read so far either in a written table or in memory, in order |
| Opening.WriteRecoveredIsSafe | ios/Pods/leveldb-library/db/db_impl.cc:488-532 | a table written during recovery touches nothing that the manifest in charge names |
| Opening.CreateLogIsSafe | ios/Pods/leveldb-library/db/db_impl.cc:1500-1514 | nor does creating the new log |
| Opening.SwitchedIsReopened | ios/Pods/leveldb-library/db/db_impl.cc:1515-1519 | step by step, opening ends where it is promised to end once CURRENT names the new manifest |
| CrashSafety.LogWriteKeepsDurable | ios/Pods/leveldb-library/db/db_impl.cc:1213-1234 | logging a batch keeps the disk able to give back every logged batch, and adds that one |
| CrashSafety.SwitchLogKeepsDurable | ios/Pods/leveldb-library/db/db_impl.cc:1357-1376 | so does the switch to a new memtable and log |
| CrashSafety.InstallKeepsDurable | ios/Pods/leveldb-library/db/version_set.cc:820-903 | so does every installed edit, given that its log number leaves behind no entry that is only in memory |
| CrashSafety.InstallFlushKeepsDurable | ios/Pods/leveldb-library/db/db_impl.cc:534-565 | a flush records the new log number only once its entries are in a table |
| CrashSafety.InstallCompactionKeepsDurable | ios/Pods/leveldb-library/db/db_impl.cc:866-885 | so does a harmless compaction |
| CrashSafety.DeleteKeepsDurable | ios/Pods/leveldb-library/db/db_impl.cc:218-272 | deleting older logs and unnamed tables, one by one or all at once, loses nothing |
| CrashSafety.DurableIsRecoverable | ios/Pods/leveldb-library/db/db_impl.cc:274-363 | the disk of a running engine alone tells readers the same as the history of logged writes |
| CrashSafety.OpenIsDurable | ios/Pods/leveldb-library/db/db_impl.cc:1490-1532 | opening such a disk yields an engine for the same history |
| CrashSafety.RunKeepsSound | ios/Pods/leveldb-library/db/db_impl.cc:1490-1532 | in every run with any number of crashes, of a running engine or in the middle of opening, the disk gives back every batch ever logged |
| CrashSafety.NoLoggedWriteIsLost | ios/Pods/leveldb-library/db/db_impl.cc:274-363 | at every crash point, opening from the disk alone finds all tables, and reads afterwards look up the map that all batches ever logged make, one after the other |
| LogBatches.CutFileReadBack | ios/Pods/leveldb-library/db/db_impl.cc:365-486 | reading the bytes of a cut log file gives exactly the batches it holds |
| LogBatches.TornLogWriteIsRecovered | ios/Pods/leveldb-library/db/log_writer.cc:36-109 | after a crash in the middle of logging a batch, the bytes are read as all earlier batches, with the new one exactly if all of it was written, and the engine's promise holds for them |
| EditCodec.EncodeTo | ios/Pods/leveldb-library/db/version_edit.cc:41-86 | writes the items of an edit in their fixed order, deleted files least first |
| EditCodec.DecodeFrom | ios/Pods/leveldb-library/db/version_edit.cc:109-210 | reads item after item from any bytes, and fails exactly where an item is malformed or a tail is left |
| EditCodec.ItemsBack | ios/Pods/leveldb-library/db/version_edit.cc:109-210 | any list of items is read back and applied in order |
| EditCodec.EditRoundTrip | ios/Pods/leveldb-library/db/version_edit.cc:26-39 | decoding an encoded edit gives it back behind the compaction pointers the receiver already held |
| EditCodec.EditRoundTripExact | ios/Pods/leveldb-library/db/version_edit.cc:26-39 | so the round trip is exact if and only if the receiver held no compaction pointer |
| Grammars.EditAccepted | ios/Pods/leveldb-library/db/version_edit.cc:109-210 | a version edit is decoded if and only if its bytes are well-formed items one after the other, and then these are applied: unknown tags, levels that do not exist and left-over bytes are errors |
| ManifestCodec.CutManifestReadBack | ios/Pods/leveldb-library/db/version_set.cc:905-961 | however the bytes of a manifest are cut, reading them gives the edits of all whole records |
| ManifestCodec.ManifestRoundTrip | ios/Pods/leveldb-library/db/version_set.cc:939-1015 | edits encoded, framed, read back, resolved by file number and folded through one builder give the version the written edits stand for |
| ManifestCodec.TornManifestWrite | ios/Pods/leveldb-library/db/version_set.cc:864-881 | a crash while a record is added leaves the manifest as it was, or with the whole record |
| LogFormat.CutLogRoundTrip | ios/Pods/leveldb-library/db/log_reader.cc:60-182 | for every list of records and every cut of the written bytes, reading from the start returns exactly the records that end within the cut, in order, with no loss reported |
| LogFormat.RecordRoundTrip | ios/Pods/leveldb-library/db/log_reader.cc:60-182 | a written record, cut anywhere, is read back when its last fragment is there and otherwise gives end of file with no report |
| LogFormat.TornRecordIsLost | ios/Pods/leveldb-library/db/log_reader.cc:60-182 | a cut inside the last record returns all earlier records and reports no loss |
| LogFormat.WholeLogRoundTrip | ios/Pods/leveldb-library/db/log_reader.cc:60-182 | an uncut log is read back whole |
| LogFormat.AllWhole | ios/Pods/leveldb-library/db/log_writer.cc:36-82 | every record a writer lays down ends within the bytes it has written |
| LogFormat.LogAppend | ios/Pods/leveldb-library/db/log_writer.cc:36-82 | adding records one after the other lays down the log of all of them |
| LogFormat.UnmaskMask | ios/Pods/leveldb-library/db/log_reader.cc:253-256 | unmasking undoes the masking of stored checksums |
| LogIO.Writer.AddRecord | ios/Pods/leveldb-library/db/log_writer.cc:36-82 | the fragment loop appends exactly the bytes of the record at its place in the block |
| LogIO.Writer.EmitPhysicalRecord | ios/Pods/leveldb-library/db/log_writer.cc:84-109 | header and payload of one fragment |
| LogIO.Reader.ReadPhysicalRecord | ios/Pods/leveldb-library/db/log_reader.cc:199-281 | returns the next fragment of the file at the reader's position, or the end of the file, for any bytes; what it hands over lies right in front of the new position under a matching checksum, and a fragment that fails its checksum is reported with the rest of its block |
| LogIO.Reader.ReadRecord | ios/Pods/leveldb-library/db/log_reader.cc:60-182 | returns the next whole record from the reader's position, which lies in the file under its checksums; everything read on the way is in the record or reported as lost, to the byte |
| LogIntegrity.PhysicalIsStored | ios/Pods/leveldb-library/db/log_reader.cc:226-280 | on any bytes: a fragment that is read lies in the file, right behind the padding and inside one block, under its checksum |
| LogIntegrity.StoredIsRead | ios/Pods/leveldb-library/db/log_reader.cc:226-280 | a fragment that lies there is read |
| LogIntegrity.DamageIsReported | ios/Pods/leveldb-library/db/log_reader.cc:253-267 | a fragment that fails its checksum is not handed over; the rest of its block is given up and reported as lost |
| LogIntegrity.ReadRecordIsStored | ios/Pods/leveldb-library/db/log_reader.cc:60-182 | on any bytes: a record that is returned lies in the file, its fragments one behind the other and of the right types, each under its checksum |
| LogIntegrity.StoredRecordIsRead | ios/Pods/leveldb-library/db/log_reader.cc:60-182 | a record that lies at the reader's position is returned, however it was cut into fragments, and nothing is reported |
| LogIntegrity.NothingVanishes | ios/Pods/leveldb-library/db/log_reader.cc:60-182 | on any bytes: what is read is in the record returned or reported as lost, to the byte; only a record that the end of the file cuts off goes unreported |
| WriteBatches.WriteBatch.Put | ios/Pods/leveldb-library/db/write_batch.cc:98-103 | appends one update and counts it |
| WriteBatches.WriteBatch.Append | ios/Pods/leveldb-library/db/write_batch.cc:141-145 | appends all updates of another batch and keeps the number of the first |
| WriteBatches.WriteBatch.Iterate | ios/Pods/leveldb-library/db/write_batch.cc:42-80 | hands over the updates of any bytes in order and says whether they were in order, count included |
| WriteBatches.WriteBatch.InsertInto | ios/Pods/leveldb-library/db/write_batch.cc:128-134 | hands over the updates in order, the one at place i under the sequence number of the batch plus i |
| WriteBatches.BatchRoundTrip | ios/Pods/leveldb-library/db/write_batch.cc:42-80 | the bytes of a batch hand over exactly its updates, and are found in order |
| WriteBatches.CutBatchIsCorrupt | ios/Pods/leveldb-library/db/write_batch.cc:42-80 | a batch that has lost any of its tail is always found corrupt, after handing over a prefix of its updates |
| WriteBatches.AppendNumbers | ios/Pods/leveldb-library/db/write_batch.cc:141-145 | a group of batches is numbered as its members would be one after the other |
| Grammars.BatchAccepted | ios/Pods/leveldb-library/db/write_batch.cc:42-80 | a batch is found in order if and only if its header is followed by as many well-formed updates as it says and nothing else, and then these are handed over |
| GroupCommit.BuildBatchGroup | ios/Pods/leveldb-library/db/db_impl.cc:1269-1314 | takes the longest prefix of the queue whose members may join: no sync writer behind a leader that does not sync, and no more bytes than the limit |
| GroupCommit.LogIsQueueOrder | ios/Pods/leveldb-library/db/db_impl.cc:1194-1265 | in every interleaving the log holds each returned batch once, in queue order, with contiguous numbers, and at most the group in progress beyond that |
| GroupCommit.SyncWritersAreDurable | ios/Pods/leveldb-library/db/db_impl.cc:1226-1231 | a writer that asked for a sync returns only once a sync has covered its batch |
| GroupCommit.GroupsAreAtomic | ios/Pods/leveldb-library/db/db_impl.cc:1245-1257 | a reader at the last sequence number sees exactly the batches of the writers that had returned: each group wholly or not at all |
| GroupCommit.BatchNumbers | ios/Pods/leveldb-library/db/db_impl.cc:1213-1216 | a returned batch is in the memtable under the numbers that follow those of all before it |
| GroupCommit.NeverStuck | ios/Pods/leveldb-library/db/db_impl.cc:1194-1265 | whenever writers wait, some step can be taken |
| SkipList.EveryStateIsWellLinked | ios/Pods/leveldb-library/db/skiplist.h:337-370 | with every pointer store of an insert a step of its own, every level is at every moment a key-ordered sublist of the one below |
| SkipList.SearchNeverMisses | ios/Pods/leveldb-library/db/skiplist.h:262-281 | a search running beside any number of inserts ends on the least key at or after its target of the list as it stood at its last load, and never misses a key that was there when it began |
| SkipList.ScanNeverSkips | ios/Pods/leveldb-library/db/skiplist.h:207-211 | a scan visits, or still has ahead of it, every node that was in the list when it started |
| SkipList.ReaderNeverStuck | ios/Pods/leveldb-library/db/skiplist.h:262-281 | a reader can always take its next step |
| SkipList.SkipList.FindGreaterOrEqual | ios/Pods/leveldb-library/db/skiplist.h:262-281 | the least node at or after the key, and the predecessor of the key at every level in use |
| SkipList.SkipList.FindLessThan | ios/Pods/leveldb-library/db/skiplist.h:285-301 | the last node before the key, or the head |
| SkipList.SkipList.FindLast | ios/Pods/leveldb-library/db/skiplist.h:305-322 | the last node, or the head of an empty list |
| SkipList.SkipList.Insert | ios/Pods/leveldb-library/db/skiplist.h:337-370 | adds exactly the key, linked on exactly the levels of its height |
| SkipList.SkipList.Contains | ios/Pods/leveldb-library/db/skiplist.h:373-380 | whether the key is in the list |
| Cursors.WalksAgree | ios/Pods/leveldb-library/db/db_iter.cc:146-304 | two iterators over the same entries that make the same moves, in any order and with any changes of direction, stand on the same entries |
| DBIterator.ShownIsVisible | ios/Pods/leveldb-library/db/db_iter.cc:173-203 | the entries to be shown are exactly the visible values |
| DBIterator.DBIter.Next | ios/Pods/leveldb-library/db/db_iter.cc:146-171 | lands on the next visible key, also after a change of direction |
| DBIterator.DBIter.Prev | ios/Pods/leveldb-library/db/db_iter.cc:205-230 | lands on the previous visible key, also after a change of direction |
| DBIterator.DBIter.FindNextUserEntry | ios/Pods/leveldb-library/db/db_iter.cc:173-203 | stops at the first entry to be shown that is not of the key to be skipped |
| DBIterator.DBIter.FindPrevUserEntry | ios/Pods/leveldb-library/db/db_iter.cc:232-272 | stops before the last entry to be shown, with its key and value saved |
| DBIterator.DBIter.Seek | ios/Pods/leveldb-library/db/db_iter.cc:274-286 | lands on the first visible key at or after the target |
| DBIterator.DBIter.SeekToFirst | ios/Pods/leveldb-library/db/db_iter.cc:288-297 | lands on the first visible key |
| DBIterator.DBIter.SeekToLast | ios/Pods/leveldb-library/db/db_iter.cc:299-304 | lands on the last visible key |
| MergingIterators.MergingIterator.FindSmallest | ios/Pods/leveldb-library/table/merger.cc:155-168 | stands on the least of the children's entries |
| MergingIterators.MergingIterator.FindLargest | ios/Pods/leveldb-library/table/merger.cc:170-183 | stands on the greatest of the children's entries |
| MergingIterators.MergingIterator.Seek | ios/Pods/leveldb-library/table/merger.cc:51-57 | lands on the first entry of the union at or after the target |
| MergingIterators.MergingIterator.Next | ios/Pods/leveldb-library/table/merger.cc:59-83 | lands on the next entry of the union, also after a change of direction |
| MergingIterators.MergingIterator.Prev | ios/Pods/leveldb-library/table/merger.cc:85-112 | lands on the previous entry of the union, also after a change of direction |
| TwoLevelIterators.TwoLevelIterator.Seek | ios/Pods/leveldb-library/table/two_level_iterator.cc:91-96 | lands on the first entry at or after the target of all blocks together |
| TwoLevelIterators.TwoLevelIterator.Next | ios/Pods/leveldb-library/table/two_level_iterator.cc:112-116 | lands on the next entry of all blocks together |
| TwoLevelIterators.TwoLevelIterator.Prev | ios/Pods/leveldb-library/table/two_level_iterator.cc:118-122 | lands on the previous entry of all blocks together |
| TwoLevelIterators.TwoLevelIterator.SkipEmptyDataBlocksForward | ios/Pods/leveldb-library/table/two_level_iterator.cc:125-136 | goes on past empty and exhausted blocks to the next entry or the end |
| TwoLevelIterators.TwoLevelIterator.SkipEmptyDataBlocksBackward | ios/Pods/leveldb-library/table/two_level_iterator.cc:138-149 | goes back past empty and exhausted blocks |
| Blocks.BlockBuilder.Add | ios/Pods/leveldb-library/table/block_builder.cc:73-107 | appends an entry that shares as much of the last key as it can, or nothing at a restart point, of which there is one every interval |
| Blocks.BlockBuilder.Finish | ios/Pods/leveldb-library/table/block_builder.cc:63-71 | the finished block: entries, restart array, count |
| Blocks.HeaderRoundTrip | ios/Pods/leveldb-library/table/block.cc:53-74 | a written entry header is read back, by the one-byte fast path or by the slow one |
| Blocks.TrailerRoundTrip | ios/Pods/leveldb-library/table/block.cc:18-38 | the restart array of a finished block is read back |
| BlockIters.FinishedIsGood | ios/Pods/leveldb-library/table/block.cc:23-38 | a finished block is one the iterator can rely on |
| BlockIters.BlockIter.Decode | ios/Pods/leveldb-library/table/block.cc:226-252 | decodes the next entry of any block at all, and stops at corruption or the end |
| BlockIters.BlockIter.Next | ios/Pods/leveldb-library/table/block.cc:139-142 | moves to the next entry |
| BlockIters.BlockIter.Prev | ios/Pods/leveldb-library/table/block.cc:144-163 | moves to the previous entry, from the last restart point before it |
| BlockIters.BlockIter.Seek | ios/Pods/leveldb-library/table/block.cc:165-203 | binary search on restart points and then a linear scan land on the first key at or after the target |
| BlockIters.BlockIter.SeekToLast | ios/Pods/leveldb-library/table/block.cc:210-215 | stands on the last entry |
| Bytewise.FindShortestSeparator | ios/Pods/leveldb-library/util/comparator.cc:29-51 | cuts behind the first difference and raises that byte by one if that stays below the second string: then at or after the first, before the second and no longer than the first |
| Bytewise.FindShortSuccessor | ios/Pods/leveldb-library/util/comparator.cc:53-65 | cuts behind the first byte that can be raised and raises it: a string at or after the key and no longer |
| Bytewise.FindShortestInternalSeparator | ios/Pods/leveldb-library/db/dbformat.cc:68-85 | an internal key at or after the first and before the second |
| Bytewise.FindShortInternalSuccessor | ios/Pods/leveldb-library/db/dbformat.cc:87-99 | an internal key at or after the key |
| Bloom.CreateFilter | ios/Pods/leveldb-library/util/bloom.cc:35-61 | sets exactly the bits that the keys probe |
| Bloom.KeyMayMatch | ios/Pods/leveldb-library/util/bloom.cc:63-85 | answers whether all probes of the key are set; too short is no, too many probes is yes |
| Bloom.KeyOfFilterMatches | ios/Pods/leveldb-library/util/bloom.cc:63-85 | a key that went into the filter is never reported absent |
| FilterBlock.FilterBlockBuilder.StartBlock | ios/Pods/leveldb-library/table/filter_block.cc:22-28 | makes a filter for every 2 KB begun, empty ones included |
| FilterBlock.FilterBlockBuilder.Finish | ios/Pods/leveldb-library/table/filter_block.cc:36-50 | filters, offsets, start of the offsets, base |
| FilterBlock.KeyMayMatch | ios/Pods/leveldb-library/table/filter_block.cc:95-109 | looks the key up in the filter of the block's 2 KB; what cannot be read counts as a match |
| FilterBlock.KeyOfBlockMatches | ios/Pods/leveldb-library/table/filter_block.cc:95-109 | a key of a block is never reported absent at the offset of the block |
| Tables.TableBuilder.Add | ios/Pods/leveldb-library/table/table_builder.cc:92-121 | adds the row; its block is written exactly if it has reached the block size; the index entry of a written block waits for the first key behind it |
| Tables.TableBuilder.Flush | ios/Pods/leveldb-library/table/table_builder.cc:123-137 | writes the block and starts the filter of the next one |
| Tables.TableBuilder.Finish | ios/Pods/leveldb-library/table/table_builder.cc:199-254 | the finished table holds exactly the rows added, with separators and filters that agree with its blocks |
| Tables.OneBlockIsEnough | ios/Pods/leveldb-library/table/table.cc:226-255 | in spite of shortened separators one block decides the lookup |
| Tables.FilteredOut | ios/Pods/leveldb-library/table/table.cc:231-240 | a block ruled out by its filter means that the table has no entry of the key from there on |
| Tables.InternalGet | ios/Pods/leveldb-library/table/table.cc:226-255 | hands over only the first row at or after the key, and does so whenever that row has the key's user key |
| HandleTables.HandleTable.Insert | ios/Pods/leveldb-library/util/cache.cc:80-94 | the table is the map updated at the key, and the old handle is returned |
| HandleTables.HandleTable.Remove | ios/Pods/leveldb-library/util/cache.cc:96-104 | the table is the map without the key, and the handle is returned |
| HandleTables.HandleTable.Resize | ios/Pods/leveldb-library/util/cache.cc:125-149 | rehashing keeps the map |
| LRUCaches.LRUCache.Insert | ios/Pods/leveldb-library/util/cache.cc:269-303 | makes the handle, finishes erasing the one it displaces, then evicts |
| LRUCaches.LRUCache.Lookup | ios/Pods/leveldb-library/util/cache.cc:255-262 | returns the handle of the key with one more reference; it is no longer idle |
| LRUCaches.LRUCache.Release | ios/Pods/leveldb-library/util/cache.cc:264-267 | drops one reference: the last one deletes the handle, and the last one of a client puts it behind all other idle handles |
| LRUCaches.LRUCache.Erase | ios/Pods/leveldb-library/util/cache.cc:318-321 | takes the key and nothing else out of the table; its handle is deleted once no client has it, and no other handle is touched |
| LRUCaches.LRUCache.Prune | ios/Pods/leveldb-library/util/cache.cc:323-332 | erases every idle handle |
| LRUCaches.MakeKeeps | ios/Pods/leveldb-library/util/cache.cc:269-303 | making a handle keeps the invariant: a cached handle is in the table and on exactly one list, idle exactly when only the cache refers to it; references count clients and cache; usage is the sum of cached charges; every handle is there or was deleted once |
| LRUCaches.ReleaseKeeps | ios/Pods/leveldb-library/util/cache.cc:229-240 | so does dropping a reference |
| LRUCaches.FinishEraseKeeps | ios/Pods/leveldb-library/util/cache.cc:307-316 | so does taking a handle out of the cache |
| LRUCaches.EvictTakesOldest | ios/Pods/leveldb-library/util/cache.cc:293-300 | eviction takes the oldest idle handles, no more of them than needed, and misses the budget only if everything left is in use |
| LRUCaches.InsertIsFound | ios/Pods/leveldb-library/util/cache.cc:269-303 | an inserted handle is the one its key leads to, with its value and charge, and the budget is met unless everything left is in use; without a budget it is the client's alone |
| LRUCaches.PruneTakesIdle | ios/Pods/leveldb-library/util/cache.cc:323-332 | pruning deletes every idle handle and leaves those in use alone |
| LRUCaches.AllDeletedOnce | ios/Pods/leveldb-library/util/cache.cc:209-219 | once no client holds a handle and the table is empty, every handle ever made has been deleted exactly once |
| LRUCaches.EraseIsExact | ios/Pods/leveldb-library/util/cache.cc:307-321 | erasing takes out the key and changes nothing but its handle |
| LRUCaches.MakeIsExact | ios/Pods/leveldb-library/util/cache.cc:269-291 | inserting takes the key over from the handle that had it and touches no other handle |
| LRUOrders.IdleInReleaseOrder | ios/Pods/leveldb-library/util/cache.cc:236-253 | over every run of operations, idle handles stand in the order in which clients last let go of them |
| LRUOrders.EvictedWereReleasedFirst | ios/Pods/leveldb-library/util/cache.cc:293-300 | every handle that an insert evicts was last released before each one that stays idle |
| Coding.VarintRoundTrip | ios/Pods/leveldb-library/util/coding.cc:112-129 | a varint that fits its width is read back from any bytes that start with it |
| Coding.PutVarint32 | ios/Pods/leveldb-library/util/coding.cc:47-79 | the unrolled writer emits the varint |
| Coding.GetVarint | ios/Pods/leveldb-library/util/coding.cc:143-158 | the shift loop reads the varint cut to its width |
| Slices.StringBack | ios/Pods/leveldb-library/util/coding.cc:172-192 | a length-prefixed string is read back |
| Crc32c.ExtendByTables | ios/Pods/leveldb-library/util/crc32c.cc:299-347 | the four-bytes-a-step form with its alignment prologue is the bytewise CRC of section 12.1 of RFC 3720, for every input and alignment |
| Crc32c.Step4IsFourBytes | ios/Pods/leveldb-library/util/crc32c.cc:313-320 | one four-byte table step is four byte steps |
| Crc32c.ExtendConcat | ios/Pods/leveldb-library/util/crc32c.cc:299-347 | extending by a concatenation is extending twice |
| Crc32c.TableEntries | ios/Pods/leveldb-library/util/crc32c.cc:18-281 | 40 of the 1024 table constants: every single-bit entry, entry 0 and entry 255 of each table |
| Crc32c.TablesAreLinear | ios/Pods/leveldb-library/util/crc32c.cc:18-281 | every table entry is the exclusive or of single-bit entries |
| Nanopb.MessageRoundTrip | ios/Pods/nanopb/pb_decode.c:901-1049 | decoding the bytes of a message gives the message back: nested messages, packed and tagged arrays, optional and required fields, all scalar types |
| NanopbReaders.OtherReader | ios/Pods/nanopb/pb_decode.c:901-1049 | a reader with a different descriptor of the same message gets the values of the fields both know and defaults for those it alone knows; it fails exactly when a required field it checks for is unknown to the writer |
| NanopbReaders.UnknownValueIsSkipped | ios/Pods/nanopb/pb_decode.c:316-326 | a field the reader does not know changes nothing, whatever its type and value |
| NanopbReaders.UnknownWireIsRefused | ios/Pods/nanopb/pb_decode.c:316-326 | an unknown field of a wire type that does not exist is an error |
| NanopbReaders.AllRequiredAreChecked | ios/Pods/nanopb/pb_decode.c:1006-1046 | with at most 64 required fields all of them are checked for |
| NanopbReaders.DecodedFits | ios/Pods/nanopb/pb_decode.c:401-475 | on any bytes: a decoded message fits its descriptor, numbers in the range of their type, arrays and strings within their size, strings terminated |
| NanopbReaders.DecodedIsStable | ios/Pods/nanopb/pb_decode.c:1051-1063 | what was decoded from any bytes can be encoded, and decodes to itself |
| NanopbReaders.DocumentedBytes | ios/Pods/nanopb/pb_encode.c:416-431 | the example messages of the Protocol Buffers Encoding document have the bytes given there |
| NanopbMerge.MessageMerge | ios/Pods/nanopb/pb_decode.c:901-1049 | decoding into a message that has values merges the two: single values are replaced, nested messages merged, arrays joined; it fails exactly when an array overflows |
| NanopbMerge.ConcatIsMerge | ios/Pods/nanopb/pb_decode.c:901-1049 | two messages written one behind the other are read as their merge |
| Nanopb.ValueRoundTrip | ios/Pods/nanopb/pb_decode.c:1463-1485 | one value, nested messages included, is read back whatever follows |
| Nanopb.PackedRoundTrip | ios/Pods/nanopb/pb_decode.c:419-448 | a packed array is read back item by item |
| Nanopb.TaggedRoundTrip | ios/Pods/nanopb/pb_decode.c:449-459 | an array whose items each have a tag is read back, also one that could have been packed |
| Nanopb.FindByTag | ios/Pods/nanopb/pb_common.c:78-95 | with unique tags a field is found by its tag |
| Nanopb.ZigzagRoundTrip | ios/Pods/nanopb/pb_encode.c:596-605 | zigzag coding of signed numbers is undone |
| Nanopb.SignedRoundTrip | ios/Pods/nanopb/pb_decode.c:1289-1324 | two's complement in 64 bits is undone by the casts to every integer size |
| Nanopb.ReadVarint32RoundTrip | ios/Pods/nanopb/pb_decode.c:182-242 | a 32-bit varint is read back |
| NanopbStreams.Encode | ios/Pods/nanopb/pb_encode.c:494-516 | the size the counting pass reports is the number of bytes the writing pass emits, and writing succeeds exactly when they fit |
| NanopbStreams.WriteSubmessage | ios/Pods/nanopb/pb_encode.c:682-730 | a nested message is counted first and then written behind its length |
| NanopbStreams.WritePacked | ios/Pods/nanopb/pb_encode.c:126-181 | a packed array is counted first and then written behind its length |
| NanopbStreams.FindField | ios/Pods/nanopb/pb_common.c:78-95 | the cyclic search from the current field finds the field of a tag exactly if there is one |
| NanopbStreams.ReadMessage | ios/Pods/nanopb/pb_decode.c:901-1049 | the decoding loop, on any bytes, decodes as the function does that the laws of reading are about |
| NanopbStreams.ReadVarint32 | ios/Pods/nanopb/pb_decode.c:182-242 | the byte loop, on any bytes, decodes or rejects as specified |
| NanopbStreams.ReadBack | ios/Pods/nanopb/pb_decode.c:1051-1063 | what the writer writes, the reader reads |

## Left out

- The `Env` layer, threads, locks and memory barriers: files are sequences of bytes or records, loads and stores are sequentially consistent, and a crash ends the process and can cut only the record being written.
- I/O errors and `bg_error_`: every write that is taken as a step succeeds.
- Memtable flushes inside a table compaction (`db_impl.cc:917-927`): a table compaction is one step of the state machine.
- `Engine.EveryReadIsRight`: takes as a hypothesis that every compaction and move of the run is harmless, a condition on its inputs that the program does not check; without it the statement is false, as the findings show.
- `DB.DBImpl.Get`: takes the snapshot, if any, to be a live one.
- `CrashSafety.NoLoggedWriteIsLost`: concerns reads of the latest data after opening; snapshots do not outlive a process. `LogAndApply` is one step, justified at the level of bytes by `ManifestCodec.TornManifestWrite`; the log number it records may be any that leaves no needed log behind.
- Recovery reuses neither the old manifest nor the last log (`reuse_logs` is off, its default); the previous log number, the comparator's name and the compaction pointers are kept out of the engine's edits and appear only in `EditCodec`.
- Sequence numbers stay below their maximum of 56 bits; the smallest snapshot is below it too.
- Compaction scores, seek-triggered compactions, statistics, `GetProperty` and approximate sizes: the level to be compacted is the caller's choice.
- `CompactionInputs.SetupOtherInputs`: does not record the new compaction pointer, which is an argument of `CompactionInputs.PickFile`.
- `GroupCommit`: memtable switches and the waits of `MakeRoomForWrite` are not among its steps; batch sizes are numbers given with the batches.
- `SkipList`: random heights and node memory are given from outside; keys are numbers.
- `LogFormat`: `initial_offset` is 0, so there is no resynchronisation and no drop is suppressed; the checksum is any function.
- `LogBatches`: the mapping of keys and values to bytes is any that loses nothing of the entries logged.
- `WriteBatches`: batches hold fewer than 2^31 updates and strings shorter than 2^32 bytes, as their fields assume.
- `EditCodec.EditRoundTrip`: numbers fit 64 bits, lengths 32 bits and levels the tree, as their encodings assume.
- `ManifestCodec`: table files are identified by number; how a number leads to its file on disk is the business of `Reopen.FindMissing`.
- Iterators: the inner cursor of each is a plain cursor over sorted entries, and `Cursors.WalksAgree` is what lets one iterator stand for another; status, cleanup and corrupt internal keys are left out.
- `Blocks`: entry lengths are added without wrap-around at 32 bits. Block size estimates, compression, block trailers, footer, metaindex and the block cache's part in reading are left out; a block handle is its offset and block sizes are given by a function.
- `FilterBlock`: keys waiting for a filter are a list instead of one flattened buffer; the hash is any function.
- `Crc32c.TableEntries`: the tables are defined by what they are for; 40 of the 1024 listed constants are compared with the program's.
- `HandleTables`: buckets are chosen by remainder of a power of two, which is what the bit mask computes. In `LRUCaches` the intrusive lists are sequences, a deleter's call is an entry in a list, and the 16 shards, hashing and the mutex are left out.
- `Nanopb.MessageRoundTrip`: for static allocation without callbacks, extensions, pointers, oneof fields, fixed-count arrays and proto3 fields without presence. Of these, the last three are static too; they add further rules for which slot is present, and no new encoding. Messages are below 4 GB, which is what their lengths can express.
- Over-long varints in `pb_decode_varint32`: rejected or accepted as in the program, with no claim beyond that.
- Repair, dump and C bindings, file names, arena, histogram and random numbers: tools, wrappers or easy members.
- All other pods, headers and project files: declarations only.
