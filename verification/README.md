# Models and proofs for the vendored cores

The application keeps its data in vendored C and C++ libraries. This project models three of them
in Dafny and proves what they are relied on for.

**LevelDB** (`ios/Pods/leveldb-library`), a log-structured store:

- *Versions and compactions.* `DbFormat`, `Versions`, `Ranges`, `Inputs` and `Setup` choose the inputs
  of a compaction, `Compact`, `Tables` and `Preserve` drop entries and install the outputs, `Flush`
  places the table of a memtable, `Builder` and `Edits` apply version edits, `Lookup` reads a key, and
  `Store` puts them together as a machine whose steps are the stretches of code under the mutex.
- *Durability.* `LogFormat` and `LogReader` write and read the log, `Recovery` replays it, and
  `Durability` is the machine of group commits, memtable switches, flushes, manifest writes, log
  removal, crashes and reopening, and `Reopen` opens what a crash left. `GroupCommit` is the writer
  queue, `Collector` the removal of files.
- *Cursors.* `DbIter`, `Merger`, `TwoLevel` and `BlockIter` refine an index into a sorted sequence.
- *Tables.* `Coding`, `BlockFormat`, `BlockReader`, `Separators`, `Bloom`, `FilterBlock`, `TableLookup`,
  and `WholeTables`, which puts them together on bytes.
- *In memory.* `SkipList` with its lock-free readers, `HandleTable` and `LruCache`.

**BoringSSL's DTLS handshake messages** (section 4.2.3 of RFC 6347): `Reassembly`, `DtlsReceiver`
and `DtlsSender`.

**nanopb** (the Protocol Buffers Encoding specification, sections "Base 128 Varints" and
"Length-Delimited Records"): `Messages` and `FieldIterator` are descriptors and the walk over them,
`WireFormat` says what the bytes of a message are and `PbEncode` writes them, `WireReader` says what
any bytes mean and `PbDecode` reads them, `RoundTrip` and `DecodedMessages` relate the two, and
`UnknownFields`, `RequiredFields` and `OtherWriters` are about bytes of other writers.

## How it is modelled

- Code that changes things in place is a method or a class, proved against a function of its inputs
  or of the old state; lemmas about these functions carry the results. Protocols are predicates over
  a state and the next one, with results over all runs.
- In the version algebra a user key is a real number. Comparators order byte strings, of which there
  are countably many, and every countable total order embeds in the reals (`WholeTables.Rank` does it
  for the byte-wise comparator); this part of the code only compares keys. Parts that look at bytes work on bytes.
- The contents of a table file are held in its `File` value. Block, table and log modules show
  separately that the bytes read back.
- The skip list is sequentially consistent, with a step for each load and store of a link. A node is
  named by its key.
- A crash keeps every byte that was appended. A failing write means that the step fails.

## Where the code does not meet the plain claim

- *Compactions can resurrect a deleted key.* `SetupOtherInputs` extends the inputs of the level by
  boundary files, but not those of level+1 (`ios/Pods/leveldb-library/db/version_set.cc:1384-1399`).
  If the deletion marker of a key ends an input of level+1 and an older value begins the next file,
  the marker may be dropped while the value stays. `ReachableExample.DeletedKeyReturns` is a run from
  an empty store that ends so. `Preserve.ReadsPreservedIff` is the exact condition, and
  `Resurrection.CleanCutPreventsResurrection` a test on the inputs that rules it out; the results of
  `CleanRuns` assume this test and nothing else. The code does not make it.
- *One builder for many edits* keeps a file whose number is deleted and added again for another file
  (`ios/Pods/leveldb-library/db/version_set.cc:660-672`), as in `Builder.DeletedFileStays`.
  `Builder.BuilderKeepsMore` is the exact condition for any list of edits.
- *A manual compaction may leave gaps*, and a memtable's table can be flushed into one while the
  compaction works (`ios/Pods/leveldb-library/db/db_impl.cc:917-928`). `GapExample` has the inputs that
  `CompactRange` picks, the level that the table gets, and the overlapping level and wrong lookup that
  follow. `Flush.AddedInputsClosedIff` and `Preserve.InstalledVersionOKIff` are the exact conditions;
  the inputs of `PickCompaction` leave no gaps, so that they always hold.
- *A writer without a batch*, which asks for a memtable switch, is told of success without one when it is
  absorbed into another writer's group (`ios/Pods/leveldb-library/db/db_impl.cc:1268-1316`), as in
  `GroupCommit.AbsorbedWithoutSwitch`. `GroupCommit.SwitchedIffAtFront` is the exact condition.
- *A DTLS fragment at exactly the end of the window* passes the first range test and is then rejected
  as an error, instead of being ignored (`ios/Pods/BoringSSL-GRPC/src/ssl/d1_both.cc:375-377`).
  `DtlsReceiver.EndOfWindow` shows it, and `Receiver.FutureIsIgnoredIff` is the exact condition.
- *nanopb writes a text that fills its buffer without a NUL*, and refuses to read it back, as in
  `RoundTrip.UnterminatedTextIsRefused`. `RoundTrip.RoundTripIff` is the exact condition.

## Model

| member | source | states |
|---|---|---|
| `Ranges.GetOverlappingInputs` | ios/Pods/leveldb-library/db/version_set.cc:498-538 | The files found are exactly those that meet the final range, in their order; at level 0 that range is the least one that contains the asked range and the range of every file it meets. |
| `Inputs.FindSmallestBoundaryFile` | ios/Pods/leveldb-library/db/version_set.cc:1321-1339 | The file with the smallest start among those that continue the user key on which the inputs end, or none if no file does. |
| `Inputs.AddBoundaryInputs` | ios/Pods/leveldb-library/db/version_set.cc:1355-1378 | The result is the chain of boundary files from the inputs, each the first one behind the largest key so far, ending where no file continues the last user key. |
| `Inputs.BoundaryRun` | ios/Pods/leveldb-library/db/version_set.cc:1341-1378 | On a sorted level the chain turns a run of neighbouring files into a longer run of neighbours that ends between two user keys; every file it adds shares its first user key with the file before it. |
| `Setup.ReachesTheSame` | ios/Pods/leveldb-library/db/version_set.cc:1405-1415 | The expansion compares only the number of level+1 files; equal numbers mean equal files. |
| `Setup.Expand` | ios/Pods/leveldb-library/db/version_set.cc:1401-1428 | If there are level+1 files and expanding stays within the size limit and reaches no further level+1 file, the inputs become all files of the level that overlap the whole range; otherwise they stay. They are chosen by the same rule, and leave no gap if the first ones left none. |
| `Setup.SetupOtherInputs` | ios/Pods/leveldb-library/db/version_set.cc:1380-1439 | Seed, boundary files, level+1 files, expansion and grandparents are set as the code sets them, and the compaction pointer to the end of the inputs; inputs without gaps stay without gaps. |
| `Setup.ChosenIsClosed` | ios/Pods/leveldb-library/db/version_set.cc:1380-1439 | Chosen inputs are closed: files left at the level are newer wherever they share a user key, files left at level+1 share no user key with the level's inputs and lie outside the hull of all inputs. |
| `Setup.PickFile` | ios/Pods/leveldb-library/db/version_set.cc:1260-1275 | The first file behind the place where the last compaction of the level ended, or the first of all when none is. |
| `Setup.PickCompaction` | ios/Pods/leveldb-library/db/version_set.cc:1247-1299 | A compaction is picked exactly when a level is full or a file was sought too often. It starts from the first file of the full level that ends behind the compaction pointer, or from the first of all when none does, or else from the sought file; its inputs are closed and cover their whole hull, and the pointer moves to their end. |
| `Setup.CompactRange` | ios/Pods/leveldb-library/db/version_set.cc:1441-1472 | Inputs are found exactly when a file of the level meets the range; above level 0 the files that meet it are cut where the size limit is reached, and then completed as by SetupOtherInputs; at level 0 every file that meets the range is in. |
| `Lookup.FindFile` | ios/Pods/leveldb-library/db/version_set.cc:87-105 | Binary search splits the level: the files before the result end before the key, all others do not. |
| `Lookup.OneSeekDecides` | ios/Pods/leveldb-library/db/memtable.cc:101-135 | In a sorted run the first entry at or after the lookup key decides the read of that run: its value, its deletion, or nothing. |
| `Lookup.SearchLevel0` | ios/Pods/leveldb-library/db/version_set.cc:281-304 | Looking at the overlapping level-0 files newest first gives the newest visible entry over all files of the level. |
| `Lookup.SearchSortedLevel` | ios/Pods/leveldb-library/db/version_set.cc:306-321 | Looking at one file gives the newest visible entry over all files of a sorted level. |
| `Lookup.VersionGet` | ios/Pods/leveldb-library/db/version_set.cc:324-400 | The levels searched in turn give the newest visible entry over the whole version. |
| `Lookup.Get` | ios/Pods/leveldb-library/db/db_impl.cc:1110-1155 | Memtable, immutable memtable and version, in this order and stopping at the first answer, give the value of the newest visible entry over all of them, or nothing if that entry deletes. |
| `Versions.VersionIsUnique` | ios/Pods/leveldb-library/db/version_set.cc:717-730 | No two entries of a version have the same user key and sequence number. |
| `Compact.BaseLevelCursor.IsBaseLevelForKey` | ios/Pods/leveldb-library/db/version_set.cc:1510-1529 | With user keys asked in ascending order, the advancing positions answer exactly whether a deeper level has a file whose range holds the key. |
| `Compact.LastSequenceDecides` | ios/Pods/leveldb-library/db/db_impl.cc:952-978 | Remembering only the previous entry of the merged input is enough to know whether an entry is hidden from every live snapshot by a newer one. |
| `Compact.DoCompactionWork` | ios/Pods/leveldb-library/db/db_impl.cc:887-1046 | However the outputs are cut, of two output entries of a user key the newer is above the oldest snapshot; an output deletion marker that all readers see has a deeper file whose range holds its key; and only entries shadowed for all readers, and such markers without a deeper file, are gone. |
| `Compact.SurvivorsAreNeeded` | ios/Pods/leveldb-library/db/db_impl.cc:952-1010 | The entries that neither drop rule applies to are as few as that, and no others are missing. |
| `Compact.SurvivorsAreKept` | ios/Pods/leveldb-library/db/db_impl.cc:952-1010 | The surviving entries are those that neither drop rule applies to, and they stay sorted. |
| `Tables.LoopMakesOutputs` | ios/Pods/leveldb-library/db/db_impl.cc:795-867 | The tables made of the output runs are well formed, in order, disjoint, and hold exactly the entries that the compaction keeps. |
| `Preserve.InstalledVersionOK` | ios/Pods/leveldb-library/db/db_impl.cc:869-885 | Whatever a compaction drops, installing its outputs keeps the invariant of versions: sorted disjoint levels, newer entries in lower levels. |
| `Preserve.ChangedReadResurrects` | ios/Pods/leveldb-library/db/db_impl.cc:869-1046 | A read at or above the oldest snapshot that differs after the compaction is a resurrection: a dropped deletion marker exposed an older value at the output level. |
| `Preserve.ResurrectionChangesRead` | ios/Pods/leveldb-library/db/db_impl.cc:869-1046 | A resurrection really changes a read: the key was absent for the oldest snapshot and has a value afterwards. |
| `Preserve.ReadsPreservedIff` | ios/Pods/leveldb-library/db/db_impl.cc:887-1046 | All reads at or above the oldest snapshot are preserved if and only if the compaction resurrects no user key. |
| `Resurrection.ExampleIsChosen` | ios/Pods/leveldb-library/db/version_set.cc:1384-1399 | The inputs of the failing example are the ones that SetupOtherInputs chooses. |
| `Resurrection.ExampleResurrects` | ios/Pods/leveldb-library/db/version_set.cc:1384-1399 | A valid version and its chosen inputs on which the compaction resurrects a deleted user key. |
| `ReachableExample.DeletedKeyReturns` | ios/Pods/leveldb-library/db/db_impl.cc:697-776 | A complete sequence of steps from an empty store (writes with a snapshot between them, flushes, a move and two merging compactions) after which a deleted user key is read again. |
| `Resurrection.CleanCutPreventsResurrection` | ios/Pods/leveldb-library/db/version_set.cc:1355-1399 | If no level+1 file outside the inputs starts with the user key on which an input of that level ends, no key is resurrected. |
| `CleanRuns.SnapshotsReadTheSame` | ios/Pods/leveldb-library/db/db_impl.cc:1110-1184 | If the inputs of every compaction are cut cleanly when they are picked, a snapshot reads the same values in all states in which it is held, also when tables are flushed while a compaction works. |
| `Flush.SomeFileOverlapsRange` | ios/Pods/leveldb-library/db/version_set.cc:121-156 | True exactly when some file meets the range, by a scan or by binary search. |
| `Flush.PickLevelForMemTableOutput` | ios/Pods/leveldb-library/db/version_set.cc:470-495 | The level is 0 if a file of level 0 meets the range, and otherwise the first one at which the next level or the size of the one after stops it; above 0 no file of it or of a lower level meets the range. |
| `Flush.AddedVersionOK` | ios/Pods/leveldb-library/db/version_set.cc:470-495 | A table that is newer than the version, placed on such a level, keeps the invariant of versions. |
| `Flush.OutsideHull` | ios/Pods/leveldb-library/db/version_set.cc:1247-1299 | A range that meets none of the files of a gapless set lies before all of them or behind all of them. |
| `Flush.AddedInputsClosed` | ios/Pods/leveldb-library/db/db_impl.cc:917-928 | The inputs of an automatically picked compaction stay closed when a table is flushed while it works. |
| `Flush.AddedKeepsKept` | ios/Pods/leveldb-library/db/db_impl.cc:917-928 | The compaction drops the same entries as if the flushed table had been there from the start. |
| `Flush.AddedInputsClosedIff` | ios/Pods/leveldb-library/db/db_impl.cc:917-928 | For any closed inputs, with gaps or without: they stay closed when a table is flushed if and only if the table is not placed between them at the level of the outputs. |
| `Preserve.InstalledVersionOKIff` | ios/Pods/leveldb-library/db/db_impl.cc:869-885 | With a table in a gap, installing the outputs keeps the invariant of versions if and only if no output reaches across a file that stays. |
| `GapExample.GapIsPicked` | ios/Pods/leveldb-library/db/version_set.cc:1441-1472 | CompactRange over all of level 0 picks two files with a gap between them. |
| `GapExample.TableIsPlaced` | ios/Pods/leveldb-library/db/version_set.cc:470-495 | PickLevelForMemTableOutput places a table in that gap, at the level of the outputs. |
| `GapExample.GapBreaksOrder` | ios/Pods/leveldb-library/db/db_impl.cc:917-928 | Then the inputs are no longer closed, the output reaches across the table, and the installed level is not disjoint. |
| `GapExample.GapHidesNewest` | ios/Pods/leveldb-library/db/version_set.cc:306-321 | In that level the first file that ends at or after the sought key does not hold it, while the newest entry is in the file behind. |
| `Builder.Builder.Apply` | ios/Pods/leveldb-library/db/version_set.cc:629-669 | Applying an edit marks the deleted numbers except those added again, and adds the files in key order, level by level. |
| `Builder.SaveLevel` | ios/Pods/leveldb-library/db/version_set.cc:672-731 | Merging base and added files gives, in key order, exactly the files of both that are not deleted. |
| `Builder.BuilderKeepsMore` | ios/Pods/leveldb-library/db/version_set.cc:629-731 | For any list of edits one builder saves what applying them version by version gives, and besides exactly the files whose number an edit deleted and a later one added for another file without a deletion after that; so the two agree if and only if there is no such file. |
| `Builder.DeletedFileStays` | ios/Pods/leveldb-library/db/version_set.cc:660-672 | Two edits, deleting file 5 and adding another file 5: one builder keeps both files. |
| `Builder.OneBuilderForAll` | ios/Pods/leveldb-library/db/version_set.cc:909-968 | In particular the two agree if no edit adds a number that is already there, as is the case for numbers that are allotted only once. |
| `Builder.TwoEditsIff` | ios/Pods/leveldb-library/db/version_set.cc:660-672 | For two edits with such numbers in the first one, they differ if and only if the second adds the number of a base file that the first deleted. |
| `Edits.ApplyEdit` | ios/Pods/leveldb-library/db/version_set.cc:777-800 | A builder over the current version gives every level in key order with exactly the files that the edit leaves and adds, and numbers still name one file of a level. |
| `Edits.FlushEditAdds` | ios/Pods/leveldb-library/db/db_impl.cc:500-575 | The edit of a flush yields the version with the table added, as the results about flushes assume. |
| `Edits.CompactionEditInstalls` | ios/Pods/leveldb-library/db/db_impl.cc:869-885 | The edit of a compaction, which deletes by number, yields the version with exactly the inputs replaced by the outputs. |
| `Edits.RecoveryEditJoins` | ios/Pods/leveldb-library/db/db_impl.cc:289-378 | The edit of recovery yields the version with the tables of the replayed logs in level 0. |
| `Store.StepKeepsInv` | ios/Pods/leveldb-library/db/db_impl.cc:697-776 | Every step of writers, flushes, snapshots and compactions keeps the invariant of the store. |
| `Store.StepKeepsReads` | ios/Pods/leveldb-library/db/db_impl.cc:697-776 | Every step that resurrects no key keeps all reads from the oldest snapshot up to the last sequence number. |
| `Store.ReachableInv` | ios/Pods/leveldb-library/db/db_impl.cc:1195-1380 | In every reachable state levels above 0 are sorted and disjoint, a user key's entries are newer in lower levels, and the inputs of a working compaction are closed. |
| `Store.SnapshotReadsAreStable` | ios/Pods/leveldb-library/db/db_impl.cc:1176-1184 | A held snapshot reads the same values until it is released, if no compaction resurrects a key. |
| `DbIter.ViewIsSnapshotMap` | ios/Pods/leveldb-library/db/db_iter.cc:141-276 | The positions that a reader is shown are exactly the user keys that a point read at the snapshot finds, with the same values. |
| `DbIter.ViewKeysAscend` | ios/Pods/leveldb-library/db/db_iter.cc:141-276 | They have strictly ascending user keys: none is shown twice. |
| `DbIter.DBIter.Next` | ios/Pods/leveldb-library/db/db_iter.cc:141-207 | From index k of the snapshot map to index k+1, in either direction of travel. |
| `DbIter.DBIter.Prev` | ios/Pods/leveldb-library/db/db_iter.cc:209-276 | From index k of the snapshot map to index k-1, or off the map, in either direction of travel. |
| `DbIter.DBIter.Seek` | ios/Pods/leveldb-library/db/db_iter.cc:278-290 | The first index of the snapshot map whose user key is at or after the target. |
| `DbIter.DBIter.SeekToFirst` | ios/Pods/leveldb-library/db/db_iter.cc:292-301 | The first index of the snapshot map. |
| `DbIter.DBIter.SeekToLast` | ios/Pods/leveldb-library/db/db_iter.cc:303-308 | The last index of the snapshot map. |
| `Merger.MergingIterator.FindSmallest` | ios/Pods/leveldb-library/table/merger.cc:148-161 | The child with the smallest current key, or none if all are exhausted. |
| `Merger.MergingIterator.Seek` | ios/Pods/leveldb-library/table/merger.cc:45-53 | Stands at the first key of the union at or after the target. |
| `Merger.MergingIterator.Next` | ios/Pods/leveldb-library/table/merger.cc:55-79 | To the successor of the current key in the union of all children, also after a change of direction. |
| `Merger.MergingIterator.Prev` | ios/Pods/leveldb-library/table/merger.cc:81-108 | To the predecessor of the current key in the union of all children, also after a change of direction. |
| `TwoLevel.SeekInBlock` | ios/Pods/leveldb-library/table/two_level_iterator.cc:82-87 | Seeking in the one block that the index selects is seeking in the concatenation of all blocks. |
| `TwoLevel.LevelIsTwoLevelRun` | ios/Pods/leveldb-library/db/version_set.cc:163-245 | A sorted level of files is such an index over blocks, and its concatenation is sorted. |
| `TwoLevel.TwoLevelIterator.Current` | ios/Pods/leveldb-library/table/two_level_iterator.cc:32-39 | The entry under the data cursor is the entry of the concatenation at the iterator's position. |
| `TwoLevel.TwoLevelIterator.Seek` | ios/Pods/leveldb-library/table/two_level_iterator.cc:82-87 | Stands at the first entry of the concatenation at or after the target, past empty blocks. |
| `TwoLevel.TwoLevelIterator.Next` | ios/Pods/leveldb-library/table/two_level_iterator.cc:103-107 | One position on in the concatenation, past empty blocks. |
| `TwoLevel.TwoLevelIterator.Prev` | ios/Pods/leveldb-library/table/two_level_iterator.cc:109-113 | One position back in the concatenation, past empty blocks. |
| `Bytes.Fixed32RoundTrip` | ios/Pods/leveldb-library/util/coding.h:54-89 | Four little-endian bytes read back as the number. |
| `Bytes.UnmaskInvertsMask` | ios/Pods/leveldb-library/util/crc32c.h:29-38 | Unmasking a masked checksum gives the checksum back. |
| `Bytes.MaskedNumbers` | ios/Pods/leveldb-library/util/crc32c.h:29-32 | Three checksums and what they are masked to. |
| `LogFormat.FragmentProgress` | ios/Pods/leveldb-library/db/log_writer.cc:34-80 | A fragment takes some of the record unless the block has room for a header alone, which happens once at most. |
| `LogFormat.FragmentFillsItsBlock` | ios/Pods/leveldb-library/db/log_writer.cc:34-80 | No fragment crosses a block of 32768 bytes, one that does not end its record ends a block, only the last six bytes of a block are padding, and the type is 1 to 4 by the ends of the record. |
| `LogFormat.BytesOfRecord` | ios/Pods/leveldb-library/db/log_writer.cc:82-108 | A short record, byte by byte. |
| `LogFormat.Writer.AddRecord` | ios/Pods/leveldb-library/db/log_writer.cc:34-108 | Appends the fragments of the record as the format prescribes them for this offset, with trailers and zero-length fragments. |
| `LogReader.ParseWritten` | ios/Pods/leveldb-library/db/log_reader.cc:189-271 | A written fragment parses to itself if it is wholly there, and otherwise to the end of the file without a report. |
| `LogReader.AssembleWritten` | ios/Pods/leveldb-library/db/log_reader.cc:75-174 | Appending the fragments in the order in which they were cut completes exactly the record. |
| `LogReader.ReadAll` | ios/Pods/leveldb-library/db/log_reader.cc:56-271 | From any prefix of a written log exactly the records that lie wholly inside are read, in order, with no corruption reported. |
| `LogReader.WhollyInsideIsUnique` | ios/Pods/leveldb-library/db/log_reader.cc:56-174 | How many records those are depends only on the length of the prefix. |
| `LogReader.WriteAll` | ios/Pods/leveldb-library/db/log_writer.cc:34-80 | Appending records one after the other makes the log that ReadAll reads. |
| `Recovery.InsertInto` | ios/Pods/leveldb-library/db/write_batch.cc:115-136 | A batch adds to the memtable one entry for each update, under consecutive sequence numbers from its first. |
| `Recovery.RecoverLogFile` | ios/Pods/leveldb-library/db/db_impl.cc:380-498 | The tables written while a log is replayed hold exactly the entries of all batches replayed so far, wherever the memtable was cut, and the largest sequence number is found. |
| `Recovery.LogsToReplay` | ios/Pods/leveldb-library/db/db_impl.cc:312-349 | From a listing in any order, the logs at or above the manifest's number, ascending. |
| `Recovery.Recover` | ios/Pods/leveldb-library/db/db_impl.cc:289-378 | The tables of all live logs hold exactly the entries of their batches, under fresh numbers; the last sequence covers manifest and logs. |
| `Recovery.RecoveredVersion` | ios/Pods/leveldb-library/db/db_impl.cc:289-378 | These tables fit on top of the manifest's version, and together they hold exactly what was durable. |
| `Durability.CrashStep` | ios/Pods/leveldb-library/db/db_impl.cc:544-575 | A crash at any point leaves on disk everything acknowledged, and at most the group in flight besides. |
| `Durability.OpenStep` | ios/Pods/leveldb-library/db/db_impl.cc:1478-1519 | Opening after a crash yields a running store that reads like the durable history. |
| `Reopen.OpenStore` | ios/Pods/leveldb-library/db/db_impl.cc:289-378 | Whatever a crash left on disk can be opened: replaying the logs and applying the edit of their tables is a step of the machine, and every read is then of the durable history. |
| `Durability.StepKeepsStateInv` | ios/Pods/leveldb-library/db/db_impl.cc:1195-1380 | Group commit, memtable switch, flush, manifest write, log removal and the rest keep the agreement of memory, disk and history. |
| `Durability.HistoryGrows` | ios/Pods/leveldb-library/db/db_impl.cc:1195-1266 | A batch once acknowledged stays in the history through all later steps and crashes. |
| `Durability.EveryReadIsOfTheHistory` | ios/Pods/leveldb-library/db/db_impl.cc:289-498 | In every reachable running state, after any number of crashes, reads at or above the oldest snapshot are those of all batches ever acknowledged, and the last sequence number covers them, if no compaction resurrects a key. |
| `CrashExample.LoggedWriteReturns` | ios/Pods/leveldb-library/db/db_impl.cc:1195-1266 | A sequence of steps in which a write reaches the log, the process dies before its writer is told, and the opened store reads the write. |
| `CleanRuns.ReadsSurviveCrashes` | ios/Pods/leveldb-library/db/db_impl.cc:289-498 | The same, assuming only that the inputs of every compaction are cut cleanly when they are picked. |
| `GroupCommit.BuildBatchGroup` | ios/Pods/leveldb-library/db/db_impl.cc:1268-1316 | The group is the longest prefix of the queue that may join the leader, and its updates are those of its members in order; it stops only before a sync writer behind a leader without sync, or where it would grow beyond 1 MB, or by more than 128 KB over a leader of at most that. |
| `GroupCommit.GroupStopsForAReason` | ios/Pods/leveldb-library/db/db_impl.cc:1281-1302 | The longest such prefix ends at the end of the queue or for one of these reasons. |
| `GroupCommit.GroupIsBounded` | ios/Pods/leveldb-library/db/db_impl.cc:1281-1302 | A group is at most 1048576 bytes, and at most 131072 more than a leader of at most that. |
| `GroupCommit.GroupIsUnique` | ios/Pods/leveldb-library/db/db_impl.cc:1268-1316 | A queue has only one such prefix. |
| `GroupCommit.PopGroup` | ios/Pods/leveldb-library/db/db_impl.cc:1246-1258 | The loop pops exactly the writers of the group. |
| `GroupCommit.GroupIsItsMembers` | ios/Pods/leveldb-library/db/db_impl.cc:1220-1245 | One record and one insertion for the whole group come to the members' own batches, each under its own block of sequence numbers. |
| `GroupCommit.StepKeepsInv` | ios/Pods/leveldb-library/db/db_impl.cc:1195-1266 | Arrivals, building, logging, inserting entry by entry, and finishing keep the invariant of the protocol. |
| `GroupCommit.WritersAreServedInOrder` | ios/Pods/leveldb-library/db/db_impl.cc:1195-1266 | Writers finish in the order of arrival; their blocks of sequence numbers are contiguous and never used twice, even after a failure. |
| `GroupCommit.AnswersAreKept` | ios/Pods/leveldb-library/db/db_impl.cc:1268-1295 | Every finished writer's block is below the next free number; a writer that asked for a sync was told of success only with its record on stable storage. |
| `GroupCommit.SwitchedIffAtFront` | ios/Pods/leveldb-library/db/db_impl.cc:1195-1380 | In every reachable state, a writer without a batch that was told of success got its memtable switch if and only if it was served at the front of the queue; then all that was written before it is in memtables that were switched away, and behind a leader that writes something it is not. |
| `GroupCommit.AbsorbedWithoutSwitch` | ios/Pods/leveldb-library/db/db_impl.cc:1268-1316 | A sequence of steps in which a writer without a batch joins a group and is told of success though no memtable was ever switched. |
| `GroupCommit.TwoWritesShareARecord` | ios/Pods/leveldb-library/db/db_impl.cc:1195-1266 | A sequence of steps in which two writers come to share one log record. |
| `GroupCommit.NoPartOfABatch` | ios/Pods/leveldb-library/db/db_impl.cc:1230-1245 | A reader sees all of a batch or none of it, at every step of the insertion. |
| `GroupCommit.ViewIsStable` | ios/Pods/leveldb-library/db/db_impl.cc:1230-1245 | What a snapshot shows does not change while a later group is inserted. |
| `Collector.StepKeepsInv` | ios/Pods/leveldb-library/db/db_impl.cc:222-287 | Every step keeps the invariant: needed files are pending, live or protected by an uncommitted version. |
| `Collector.NoNeededFileIsDeleted` | ios/Pods/leveldb-library/db/db_impl.cc:222-287 | In every reachable state at most one job works, and no table of a referenced version, of the job, or of a version that may have been committed is missing, also between the end of a flush and the installation of its version. |
| `Collector.CollectedIsGone` | ios/Pods/leveldb-library/db/db_impl.cc:222-287 | Once a collector has nothing left to remove, what is on disk is exactly what was there and was pending or live when it began. |
| `SkipLists.PublishKeepsOK` | ios/Pods/leveldb-library/db/skiplist.h:336-368 | Each single link store of an insertion leaves every level a sorted list and part of the level below. |
| `SkipLists.ReaderStepIsSafe` | ios/Pods/leveldb-library/db/skiplist.h:260-302 | A reader's next load never follows an unset link and stays on linked nodes before its target. |
| `SkipLists.InterleavedSearch` | ios/Pods/leveldb-library/db/skiplist.h:260-302 | With stores and loads interleaved in any way, a finished search stands at or after the target and skips no key that was there when it began. |
| `SkipLists.SkipList.Insert` | ios/Pods/leveldb-library/db/skiplist.h:336-368 | Adds the key to the levels up to the drawn height and to no other; every intermediate memory is one that readers are safe in. |
| `SkipLists.SkipList.FindGreaterOrEqual` | ios/Pods/leveldb-library/db/skiplist.h:260-281 | The first key at or after the target, and for each level the node before it. |
| `SkipLists.SkipList.FindLessThan` | ios/Pods/leveldb-library/db/skiplist.h:283-302 | The last key before the target, or the head. |
| `SkipLists.SkipList.Contains` | ios/Pods/leveldb-library/db/skiplist.h:370-378 | True exactly for the keys of the list. |
| `SkipLists.NextUndoesPrev` | ios/Pods/leveldb-library/db/skiplist.h:200-239 | A key is the next of another exactly when that one is the previous of it. |
| `Coding.VarintRoundTrip` | ios/Pods/leveldb-library/util/coding.cc:21-102 | A varint reads back as its number and length, whatever follows, and takes no more bytes than its size class. |
| `Coding.VarintEnds` | ios/Pods/leveldb-library/util/coding.cc:84-142 | What is read ends with the first byte below 128, and within the allowed number of bytes. |
| `Coding.EncodeVarint32` | ios/Pods/leveldb-library/util/coding.cc:21-47 | The five cases write the same bytes as dividing by 128 repeatedly. |
| `Coding.GetVarint32` | ios/Pods/leveldb-library/util/coding.cc:84-102 | The loop and its one-byte fast path read the varint and cut it to 32 bits, as the shifts do. |
| `BlockFormat.RestartsAreRegular` | ios/Pods/leveldb-library/table/block_builder.cc:71-105 | A pair is a restart point exactly when its index is a multiple of the interval. |
| `BlockFormat.SharesAllItCan` | ios/Pods/leveldb-library/table/block_builder.cc:71-105 | Between restart points a key is stored without the longest prefix that it shares with the one before it, and in full at a restart point. |
| `BlockFormat.BytesOfBlock` | ios/Pods/leveldb-library/table/block_builder.cc:61-105 | A block of three pairs, byte by byte. |
| `BlockFormat.BlockBuilder.SharedLength` | ios/Pods/leveldb-library/table/block_builder.cc:78-85 | The loop finds the longest common prefix. |
| `BlockReader.FastIsSlow` | ios/Pods/leveldb-library/table/block.cc:55-75 | The fast path for three one-byte lengths decodes what the general path does. |
| `BlockReader.DecodePair` | ios/Pods/leveldb-library/table/block.cc:55-75 | A written pair decodes to its lengths, with the rest of its key and its value behind them. |
| `BlockReader.OpensRight` | ios/Pods/leveldb-library/table/block.cc:25-40 | A finished block opens with the restart array right behind its pairs. |
| `BlockReader.RestartReadsBack` | ios/Pods/leveldb-library/table/block.cc:105-113 | Each element of the array is the offset of its restart pair. |
| `BlockIter.BlockIsLaidOut` | ios/Pods/leveldb-library/table/block_builder.cc:61-105 | Every finished block is a layout on which the iterator's results hold. |
| `BlockIter.Iter.ParseNextKey` | ios/Pods/leveldb-library/table/block.cc:225-250 | From the end of a pair, the next pair's key and value are rebuilt, and there is one exactly before the end of the block. |
| `BlockIter.Iter.Next` | ios/Pods/leveldb-library/table/block.cc:138-141 | From pair k to pair k+1. |
| `BlockIter.Iter.Prev` | ios/Pods/leveldb-library/table/block.cc:143-162 | From pair k to pair k-1, or invalid from the first. |
| `BlockIter.Iter.Seek` | ios/Pods/leveldb-library/table/block.cc:164-202 | The first pair whose key is at or after the target, through binary search among the restart points. |
| `Separators.FindShortestSeparator` | ios/Pods/leveldb-library/util/comparator.cc:31-52 | Where the strings first differ by more than one, a shortest string strictly between them; otherwise unchanged. |
| `Separators.FindShortSuccessor` | ios/Pods/leveldb-library/util/comparator.cc:54-66 | A shortest string after the given one, unless all its bytes are the highest. |
| `Separators.FindShortestInternalSeparator` | ios/Pods/leveldb-library/db/dbformat.cc:65-82 | The internal key is at or after the first and before the second, and its user key is replaced, under the first tag, exactly when that makes it shorter. |
| `Separators.FindShortInternalSuccessor` | ios/Pods/leveldb-library/db/dbformat.cc:84-97 | The internal key is at or after the given one, and its user key is replaced exactly when that makes it shorter. |
| `Bloom.OwnKeysMatch` | ios/Pods/leveldb-library/util/bloom.cc:28-80 | A filter matches every key that it was made of. |
| `Bloom.OnlyProbesAreSet` | ios/Pods/leveldb-library/util/bloom.cc:28-54 | A bit of a filter is set exactly when a probe of one of its keys hits it. |
| `Bloom.ProbesAreEquallySpaced` | ios/Pods/leveldb-library/util/bloom.cc:41-52 | Probe j is j rotated hash values behind the hash value, on 32 bits. |
| `Bloom.FilterNumbers` | ios/Pods/leveldb-library/util/bloom.cc:28-47 | Three rotated hash values, and the sizes of three filters. |
| `Bloom.CreateFilter` | ios/Pods/leveldb-library/util/bloom.cc:28-54 | Writes the filter in place, bit by bit, with the number of probes as its last byte; every key matches it. |
| `Bloom.KeyMayMatch` | ios/Pods/leveldb-library/util/bloom.cc:56-80 | Matches exactly when all probes of the key hit set bits, except for short filters and reserved probe counts. |
| `Bloom.PolicyIsOK` | ios/Pods/leveldb-library/util/bloom.cc:28-80 | The Bloom filter is a filter policy without false negatives, as the filter block needs it. |
| `FilterBlock.FilterBlockBuilder.GenerateFilter` | ios/Pods/leveldb-library/table/filter_block.cc:51-75 | The waiting keys become the group of the current 2 KB of the file; every key stays in the group of its block. |
| `FilterBlock.OffsetReadsBack` | ios/Pods/leveldb-library/table/filter_block.cc:35-104 | The offset array of a finished filter block reads back as the start of each filter. |
| `FilterBlock.NeverMisses` | ios/Pods/leveldb-library/table/filter_block.cc:77-104 | A key is never rejected for the block that it was added under. |
| `FilterBlock.FilterAnswers` | ios/Pods/leveldb-library/table/filter_block.cc:77-104 | The reader asks exactly the filter of the key's 2 KB of the file, and lets every key behind the last filter pass. |
| `TableLookup.SoughtInBlock` | ios/Pods/leveldb-library/table/table.cc:214-242 | What the one chosen block decides for a key is what the whole table decides. |
| `TableLookup.InternalGet` | ios/Pods/leveldb-library/table/table.cc:214-242 | Index, filter and one block give the newest entry of the user key at or below the snapshot over the whole table, whenever there is one. |
| `TableLookup.TableBuilder.Add` | ios/Pods/leveldb-library/table/table_builder.cc:94-123 | The entry joins the block, the block before it is indexed by the separator if it waited for that, and a full block is written under the offset at which it starts. |
| `TableLookup.TableBuilder.Flush` | ios/Pods/leveldb-library/table/table_builder.cc:125-139 | A full block is written, and its index entry waits for the next key. |
| `TableLookup.TableBuilder.Finish` | ios/Pods/leveldb-library/table/table_builder.cc:198-253 | The table holds exactly the added entries, and with short separators and any filter that matches its own keys it is one that InternalGet is right on. |
| `WholeTables.RankOrders` | ios/Pods/leveldb-library/util/comparator.cc:27-29 | Byte strings embed in the reals: ranks compare as the comparator does and tell strings apart. |
| `WholeTables.Builder.Separator` | ios/Pods/leveldb-library/table/table_builder.cc:94-114 | The shortened byte-wise separator is an index key that the lookup results need. |
| `WholeTables.Builder.Finish` | ios/Pods/leveldb-library/table/table_builder.cc:198-253 | The table with its filter block holds exactly the rows, and a lookup of any key that asks the filter's bytes is right on it. |
| `WholeTables.Get` | ios/Pods/leveldb-library/table/table.cc:214-242 | Separators, filter bytes and one block together give the newest entry of a key at or below the snapshot, whenever there is one. |
| `WholeTables.BuildWithBloom` | ios/Pods/leveldb-library/table/table_builder.cc:94-253 | With Bloom filters, and wherever the blocks are cut, the finished table is one that Get is right on. |
| `Reassembly.BitRangeBits` | ios/Pods/BoringSSL-GRPC/src/ssl/d1_both.cc:198-200 | The mask has exactly the bits from start to end. |
| `Reassembly.MarkedByteBits` | ios/Pods/BoringSSL-GRPC/src/ssl/d1_both.cc:206-235 | Marking a range sets exactly its bits in each byte. |
| `Reassembly.MarkRange` | ios/Pods/BoringSSL-GRPC/src/ssl/d1_both.cc:206-235 | First, middle and last byte of the range are marked, all others stay. |
| `Reassembly.IsComplete` | ios/Pods/BoringSSL-GRPC/src/ssl/d1_both.cc:237-246 | The byte-wise test is true exactly when every byte of the message was received. |
| `DtlsReceiver.HmFragment.Receive` | ios/Pods/BoringSSL-GRPC/src/ssl/d1_both.cc:345-398 | Copies the body to its place, and adds exactly its range to what was received. |
| `DtlsReceiver.Receiver.GetIncomingMessage` | ios/Pods/BoringSSL-GRPC/src/ssl/d1_both.cc:260-290 | The slot of the message, empty or as it was; none exactly when type or length differ from an earlier fragment of the same message. |
| `DtlsReceiver.Receiver.OpenFragment` | ios/Pods/BoringSSL-GRPC/src/ssl/d1_both.cc:345-398 | A fragment is rejected exactly when it reaches beyond its message or the message is too long, when it is encrypted and not of the next message, when it is numbered at the end of the window, or when it is in the window and disagrees with earlier fragments of its message; one in the window is accepted otherwise, and any other is ignored. |
| `DtlsReceiver.Receiver.OpenHandshake` | ios/Pods/BoringSSL-GRPC/src/ssl/d1_both.cc:345-398 | All fragments of a packet are taken exactly when each is harmless after those before it; then just those from the window are added. |
| `DtlsReceiver.ReplayIsIgnored` | ios/Pods/BoringSSL-GRPC/src/ssl/d1_both.cc:375-380 | A delivered flight that comes once more changes nothing. |
| `DtlsReceiver.FlightIsAccepted` | ios/Pods/BoringSSL-GRPC/src/ssl/d1_both.cc:345-398 | Fragments cut from one flight, old ones among them, are all taken. |
| `DtlsReceiver.Receiver.FutureIsIgnoredIff` | ios/Pods/BoringSSL-GRPC/src/ssl/d1_both.cc:375-398 | Of the well-formed fragments from behind the window all are ignored except those numbered exactly at its end, which are an error. |
| `DtlsReceiver.EndOfWindow` | ios/Pods/BoringSSL-GRPC/src/ssl/d1_both.cc:375-398 | Two fragments that show it: the first number behind the window is rejected, the next is ignored. |
| `DtlsReceiver.Receiver.GetMessage` | ios/Pods/BoringSSL-GRPC/src/ssl/d1_both.cc:403-419 | A message is there exactly when the accepted fragments cover it, and it is made of their bytes. |
| `DtlsReceiver.Receiver.NextMessage` | ios/Pods/BoringSSL-GRPC/src/ssl/d1_both.cc:421-433 | The slot is freed for a later number, and the ring still matches the accepted fragments. |
| `DtlsReceiver.RingReceives` | ios/Pods/BoringSSL-GRPC/src/ssl/d1_both.cc:292-401 | After one more fragment every slot of the ring still describes exactly the fragments of its message. |
| `DtlsReceiver.RingMovesOn` | ios/Pods/BoringSSL-GRPC/src/ssl/d1_both.cc:421-433 | Freeing the current slot moves the window by one without mixing up numbers. |
| `DtlsReceiver.DeliveredIsSent` | ios/Pods/BoringSSL-GRPC/src/ssl/d1_both.cc:260-419 | Whatever the order, overlap, duplication or loss, a delivered message is the one that was cut into the fragments. |
| `DtlsSender.Sender.SealNextMessage` | ios/Pods/BoringSSL-GRPC/src/ssl/d1_both.cc:626-709 | The next fragment starts where the last one ended. It is the rest of the message exactly when that fits the room, and otherwise fills the room; there is none exactly when the room is too small for a byte of body. |
| `DtlsSender.Sender.SealNextPacket` | ios/Pods/BoringSSL-GRPC/src/ssl/d1_both.cc:714-755 | A packet within the MTU whose records continue the tiling of the flight, and which ends only where nothing more fits; it fails exactly when the MTU is too small for the next message. |
| `DtlsSender.Sender.SendFlight` | ios/Pods/BoringSSL-GRPC/src/ssl/d1_both.cc:757-800 | The packets that were really written tile the flight up to where the sender stands, with every failed write taken back; it stops only at the end, at a failed write or at a message too large for the MTU, and with an MTU for every message and enough successful writes it reaches the end. |
| `DtlsSender.Sender.Retransmit` | ios/Pods/BoringSSL-GRPC/src/ssl/d1_both.cc:809-818 | The whole flight once more, with the same promises. |
| `DtlsSender.TilingCarries` | ios/Pods/BoringSSL-GRPC/src/ssl/d1_both.cc:626-800 | Every byte of the flight before that place is in some record. |
| `DtlsSender.FlightArrives` | ios/Pods/BoringSSL-GRPC/src/ssl/d1_both.cc:292-800 | If all records of a flight are accepted, in any order and any number of times, each message can be delivered and equals the one that was sent. |
| `HandleTables.MaskIsRemainder` | ios/Pods/leveldb-library/util/cache.cc:115-121 | Masking with a power of two less one is taking the remainder. |
| `HandleTables.HandleTable.FindPointer` | ios/Pods/leveldb-library/util/cache.cc:115-121 | The place of the key in its chain exactly when the table maps it, else the end of the chain. |
| `HandleTables.HandleTable.Insert` | ios/Pods/leveldb-library/util/cache.cc:79-93 | The map with the key added or replaced, the replaced handle returned, and twice as many chains once there are more entries than chains. |
| `HandleTables.HandleTable.Resize` | ios/Pods/leveldb-library/util/cache.cc:123-147 | Twice as many chains, and the same map. |
| `LruCaches.TakingUses` | ios/Pods/leveldb-library/util/cache.cc:218-224 | Taking a reference moves an unreferenced cached entry to the in-use list; usage and deleter calls stay. |
| `LruCaches.GivingBack` | ios/Pods/leveldb-library/util/cache.cc:226-238 | The last client reference given back makes a cached entry the newest evictable one, and runs the deleter of one that is no longer cached; in no other case does the deleter run. |
| `LruCaches.ErasingFrees` | ios/Pods/leveldb-library/util/cache.cc:308-322 | Erasing takes the entry off lists, table and usage; its deleter runs at once if no client holds it, else with the last release. |
| `LruCaches.RemoveKeepsOrder` | ios/Pods/leveldb-library/util/cache.cc:240-244 | Taking an entry off a list leaves the others in their order. |
| `LruCaches.UsedIsYoungest` | ios/Pods/leveldb-library/util/cache.cc:218-238 | Looking an unreferenced entry up and releasing it makes it the last to be evicted and changes nothing else. |
| `LruCaches.LookupKeeps` | ios/Pods/leveldb-library/util/cache.cc:253-260 | A lookup keeps the invariant: references add up, each cached entry is on exactly one list by its references, the table maps exactly the cached keys, usage is the sum of charges, and every entry ever made is there or was given to the deleter once. |
| `LruCaches.ReleaseKeeps` | ios/Pods/leveldb-library/util/cache.cc:262-265 | A release keeps the invariant. |
| `LruCaches.EraseKeeps` | ios/Pods/leveldb-library/util/cache.cc:308-322 | Erasing keeps the invariant. |
| `LruCaches.OldestGoes` | ios/Pods/leveldb-library/util/cache.cc:295-302 | Erasing the oldest unreferenced entry is one more eviction: that entry alone leaves handles, list, table and usage, and its deleter runs. |
| `LruCaches.LRUCache.Evict` | ios/Pods/leveldb-library/util/cache.cc:295-302 | The n oldest unreferenced entries, and no others, are given to the deleter in order; afterwards usage fits or nothing is evictable, and with fewer gone it would not fit. |
| `LruCaches.LRUCache.Insert` | ios/Pods/leveldb-library/util/cache.cc:267-304 | The new entry is held by the client and replaces one with the same key; then evictions as above. |
| `LruCaches.LRUCache.Prune` | ios/Pods/leveldb-library/util/cache.cc:324-334 | All unreferenced entries are given to the deleter, oldest first, and nothing else changes. |
| `FieldIterators.FieldIterator.Find` | ios/Pods/nanopb/pb_common.c:87-104 | From any place in its walk, wrapping around, the iterator finds the field with the number exactly when there is one, and otherwise stands where it stood; it knows how many required fields precede it. |
| `PbEncode.OutStream.EncodeVarint` | ios/Pods/nanopb/pb_encode.c:608-628 | The loop writes the number's varint, or fails exactly when it does not fit. |
| `PbEncode.OutStream.EncodeValue` | ios/Pods/nanopb/pb_encode.c:769-910 | Each field encoder writes its value's bytes, or fails exactly when they do not fit or the value exceeds its field. |
| `PbEncode.OutStream.EncodeSubmessage` | ios/Pods/nanopb/pb_encode.c:717-765 | The sizing pass counts exactly the bytes that the writing pass emits: the error for a changed size is never returned. |
| `PbEncode.OutStream.EncodeArray` | ios/Pods/nanopb/pb_encode.c:147-236 | A packed record or a record for each item, or failure exactly when there are too many items, an item cannot be written, or there is no room. |
| `PbEncode.OutStream.Encode` | ios/Pods/nanopb/pb_encode.c:528-550 | On a sizing and on a writing stream alike the call succeeds exactly when the message can be written and fits, and then counts, respectively appends, the same bytes. |
| `WireFormat.WrittenUnlessUnset` | ios/Pods/nanopb/pb_encode.c:240-426 | A field takes no bytes exactly when its has-flag is false, its array is empty, its union stores another member, or, without a has-flag, its value is zero; a required field always takes some. |
| `WireFormat.DefaultsAreNotWritten` | ios/Pods/nanopb/pb_encode.c:240-330 | A message of zero values takes no bytes, in whatever depth. |
| `RoundTrip.ShortVarint` | ios/Pods/nanopb/pb_decode.c:187-252 | A varint of at most five bytes is read exactly when its number is below 2^32. |
| `RoundTrip.FromVarintReads` | ios/Pods/nanopb/pb_decode.c:1345-1428 | Two's complement, zigzag and narrowing to the size of the field give every number of the field back. |
| `RoundTrip.PackedReads` | ios/Pods/nanopb/pb_decode.c:424-452 | The items of a packed record come back one after the other. |
| `RoundTrip.DecodeUndoesEncode` | ios/Pods/nanopb/pb_decode.c:934-1096 | Decoding what encoding wrote gives the message with the default wherever nothing was written, if and only if every written text leaves room for its NUL; otherwise decoding fails. |
| `RoundTrip.NormalIsSame` | ios/Pods/nanopb/pb_encode.c:240-426 | That message equals the first one up to values under a false has-flag and members that no union stores. |
| `RoundTrip.RoundTripIff` | ios/Pods/nanopb/pb_decode.c:934-1096 | Both together: the decoder takes all bytes and returns the same message exactly when every written text is terminated. |
| `RoundTrip.UnterminatedTextIsRefused` | ios/Pods/nanopb/pb_decode.c:1487-1523 | Two letters in a buffer of two bytes are encoded, and the bytes are refused. |
| `RoundTrip.ConcatenationMerges` | ios/Pods/nanopb/pb_decode.c:934-1082 | The bytes of two messages, one behind the other, are read as the two messages merged. |
| `RoundTrip.MergedField` | ios/Pods/nanopb/pb_decode.c:406-483 | In merged messages the last value of a field wins, items are added behind those that are there, and nested messages are merged, unless a union stored another member. |
| `RoundTrip.MessageEnds` | ios/Pods/nanopb/pb_decode.c:934-1082 | Reading what was written of a message into any other message with room merges them, or fails exactly when a text is not terminated. |
| `UnknownFields.RecordIsIgnored` | ios/Pods/nanopb/pb_decode.c:321-331 | Whatever follows: a record of a field that the reader does not know, of any kind, changes nothing. |
| `UnknownFields.NewFieldsAreIgnored` | ios/Pods/nanopb/pb_decode.c:991-995 | The same for all that a newer writer wrote of fields unknown to the reader: packed arrays, items, nested messages and unions. |
| `UnknownFields.OldReaderReadsNewMessage` | ios/Pods/nanopb/pb_decode.c:934-1082 | A message with such fields is read like the message without them. |
| `UnknownFields.FourBytesAreSkipped` | ios/Pods/nanopb/pb_decode.c:321-331 | A message of seven bytes with an unknown four-byte field. |
| `UnknownFields.BytesOfNumbers` | ios/Pods/nanopb/pb_encode.c:640-715 | Examples of the Protocol Buffers Encoding specification, byte by byte: a varint, a zigzag number and a packed array. |
| `UnknownFields.BytesOfMinusTwo` | ios/Pods/nanopb/pb_encode.c:608-628 | A negative number of 32 bits takes ten bytes. |
| `UnknownFields.BytesOfOthers` | ios/Pods/nanopb/pb_encode.c:640-715 | A text and fixed numbers of 32 and 64 bits, byte by byte. |
| `RequiredFields.RequiredIsThere` | ios/Pods/nanopb/pb_decode.c:1042-1079 | In bytes that are accepted the tag of each of the first 64 required fields can be read. |
| `RequiredFields.EmptyInput` | ios/Pods/nanopb/pb_decode.c:1042-1079 | No bytes at all are accepted exactly when no field is required, and then give the defaults. |
| `OtherWriters.UnpackedItemsAreRead` | ios/Pods/nanopb/pb_decode.c:424-483 | Items of a packed kind that were written one by one are read like a packed record. |
| `OtherWriters.SignExtensionIsRead` | ios/Pods/nanopb/pb_decode.c:187-252 | A negative number that was written as one of 64 bits is read into 32 bits. |
| `OtherWriters.NumbersThatFit` | ios/Pods/nanopb/pb_decode.c:1345-1428 | A varint is refused exactly when it stands for no number of the field; of a signed field below 64 bits only the lowest 32 bits count. |
| `OtherWriters.TextIsCut` | ios/Pods/nanopb/pb_decode.c:1487-1523 | A text is refused exactly when it leaves no room for a NUL, and is cut at its first NUL. |
| `OtherWriters.EmptyIsZeros` | ios/Pods/nanopb/pb_decode.c:1549-1570 | An empty record for a byte array of fixed size gives zeros. |
| `DecodedMessages.DecodedIsWritable` | ios/Pods/nanopb/pb_decode.c:406-483 | For any bytes at all: a message that decodes fits every array and buffer of its struct, can be encoded, and decodes again to the same message. |
| `PbDecode.InStream.DecodeVarint32` | ios/Pods/nanopb/pb_decode.c:187-252 | The loop agrees with the definition on all inputs, including sign extension and overlong forms, and consumes just the varint. |
| `PbDecode.InStream.DecodeVarint64` | ios/Pods/nanopb/pb_decode.c:255-275 | The loop agrees with the definition on all inputs: ten bytes at most, bits above 64 lost. |
| `PbDecode.InStream.SkipField` | ios/Pods/nanopb/pb_decode.c:321-331 | The bytes passed over for an unknown field are those that Skip names, or the call fails exactly when there are too few; UnknownFields.RecordIsIgnored says what they are. |
| `PbDecode.InStream.DecodePackedItems` | ios/Pods/nanopb/pb_decode.c:424-452 | The loop over the substream takes exactly the items of the record, or fails exactly when there are too many or one is malformed. |
| `PbDecode.InStream.DecodeInto` | ios/Pods/nanopb/pb_decode.c:406-483 | One record changes the field as its repetition rule says, with a union's submessage reset first when another member was stored. |
| `PbDecode.InStream.DecodeMessage` | ios/Pods/nanopb/pb_decode.c:934-1082 | The loop over records, with unknown fields skipped and required fields tracked by bits, agrees with the recursive definition on all inputs. |
| `PbDecode.SeenAll` | ios/Pods/nanopb/pb_decode.c:1042-1079 | The walk to the last field counts the required ones; the result is whether each of the first 64 was seen. |

## Left out

- Durability.EveryReadIsOfTheHistory: assumes that no compaction resurrects a key, because the code does not ensure it; CleanRuns.ReadsSurviveCrashes replaces this by a test on the inputs.
- Store.SnapshotReadsAreStable: assumes the same, and CleanRuns.SnapshotsReadTheSame replaces it in the same way.
- Setup.CompactRange: promises no cover of the hull, because the code may leave gaps; Store has no manual compactions, and what a flush does to one is said by Flush.AddedInputsClosedIff and GapExample.
- Compact.DoCompactionWork: leaves open where outputs are cut, because sizes and grandparent overlap do not matter to the results.
- Durability.CrashStep: does not model the loss of bytes that were written but not synced, nor a failed sync that leaves behind a logged record which was never inserted, nor the manifest as a list of edits; a manifest holds the version of its last edit, and Builder.BuilderKeepsMore says when replay builds it.
- GroupCommit.AnswersAreKept: models the sync of a log as one step that may fail, not the states of the file system behind it.
- SkipLists.InterleavedSearch: does not model memory orders weaker than sequential consistency, nor the random choice of heights.
- WholeTables.Get: asks for a filter block below 2^32 bytes, because its offsets are 32-bit numbers.
- BlockIter.Iter.Seek: assumes blocks that the builder wrote, below 2^32 bytes; corrupt blocks are not modelled.
- TableLookup.InternalGet: takes the table as its blocks, its index and its filter, which WholeTables.Get reads from the bytes of the filter block; block handles, footer, compression and checksums are not modelled.
- Bloom.CreateFilter: does not look into the hash function, and takes the number of probes as given instead of computing it in floating point.
- LruCaches.LRUCache.Insert: keeps neither values nor deleters, only which entry was given to its deleter and when; the lists are sequences, without their links.
- HandleTables.HandleTable.Resize: chains are sequences, so that relinking nodes in place is not captured.
- DtlsSender.Sender.SealNextMessage: takes sealing as adding at most a fixed number of bytes; record encryption, epochs, alerts, timers and the transcript are not modelled.
- DtlsReceiver.Receiver.OpenFragment: message numbers do not wrap at 16 bits, and the size of the window is any constant above 0.
- PbEncode.OutStream.Encode: sizes do not overflow, callbacks, extensions, allocated fields and arrays of fixed count are not modelled, and a struct is a value with a cell for each field, so that the shared memory of a union, padding, and the bytes behind a text's NUL are not captured.
- PbDecode.InStream.DecodeMessage: what a failed call leaves in the struct is not modelled; neither is a record with field number 0 for a message type without fields, for which the code takes the end of the descriptor for a field.
- RoundTrip.RoundTripIff: assumes less than 2^32 written bytes, because lengths are read as 32-bit numbers.
- PbDecode.InStream.DecodeVarint32: the bit position does not wrap, as a counter of eight bits would after 37 bytes.
- Write batch and version edit encodings: tagged lists of varints and length-prefixed strings, which would add only easy round trips.
- Read statistics, seek-triggered compactions beyond their use in picking inputs, and the scoring of levels in floating point.
- Appending to a reused log, repair, the sharded front of the cache, and the environment's files, threads and locks.
- CRC32C itself is any function of the bytes; corrupt input beyond truncation and wrong checksums is not modelled.
- Unsigned 32-bit and 64-bit overflow of sizes, offsets and sequence numbers.
