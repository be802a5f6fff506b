# A verified model of the LevelDB store and the nanopb codec

The application vendors two libraries whose correctness is not obvious from
reading them: the LevelDB storage engine and the nanopb encoder and decoder for
the Protocol Buffers wire format. This project models both in Dafny and proves
what they are for. Verify it with `dafny verify dfyconfig.toml`.

## What is modelled

**The store as a state machine.** `Engine` and `Steps` define the state (the
memtable, the frozen memtable, seven levels of files, the last sequence number,
the snapshots) and its atomic steps: group write, memtable rotation, flush,
trivial move, compaction, taking and releasing a snapshot. `Memory`,
`LevelSteps`, `MoveDown` and `Compactions` show that every step keeps the
invariant, and `Runs` that after every run each live snapshot reads what a plain
map would give. `Picking`, `Inputs`, `Compaction`, `Search` and `Database` are
the code itself: input selection, the compaction loop, the search through the
levels, and a class whose methods take exactly those steps.

User keys are real numbers in the engine model. `Keys.CompareIsRankOrder` and
`InternalKeys.EncodedOrder` show that this loses nothing for byte strings.

**Iterators.** `DbIterator`, `Merging`, `TwoLevel` and `BlockIterators` are the
four bidirectional iterators as classes, each proved to be an index into one
sorted sequence for every sequence of calls, direction switches included.

**Formats.** Log files with torn tails (`LogFormat`, `Log`) and with any damage
(`LogReads`), prefix-compressed blocks (`BlockFormat`, `Blocks`), tables with
shortened index keys (`InternalKeys`, `TableFormat`, `TableBuilders`, `Tables`),
Bloom filters and filter blocks (`Bloom`, `FilterBlocks`), version edits and the
manifest (`EditCodec`, `Manifest`, `ManifestFiles`, `ManifestLaws`,
`VersionBuilder`), write batches (`WriteBatches`). `Coding`, `LogLayout` and
`Layouts` give the bytes of all of these in figures.

**Concurrency and heap.** The skip list with one writer and any number of readers
(`SkipLists`), group commit (`WriteQueue`, `NullWrites`, `Draining`), recovery after a crash
(`Recovery`), and, with real heap nodes, the LRU cache (`HandleTables`,
`LruCaches`) and the list of snapshots (`SnapshotLists`).

**nanopb.** `PbMessages` and `PbFormat` say what is written for a message and
what is made of any bytes; `PbStreams`, `PbIterators`, `PbEncoders` and
`PbDecoders` are the code on its streams, proved against that; `PbRoundTrip`,
`PbSafety`, `PbSkip` (fields of other schemas) and `PbLaws` (missing fields, arrays,
unions) are the theorems, and `PbBytes` gives bytes and bounds in figures. The width of `pb_size_t` is 32 bits, which the
message definitions of this repository ask for
(FamilyNight/Pods/GoogleDataTransport/GoogleDataTransport/GDTCCTLibrary/Protogen/nanopb/cct.nanopb.c:105).

## Where the code falls short of what it is for

* **A compaction can bring back a deleted value.** Boundary files are added to
  the inputs of the upper level only (version_set.cc:1407). If the lower level
  splits the versions of one user key over two files and only the first is an
  input, a deletion can be dropped while the older value stays.
  `OpenParents.StoreIsReached` is a run that leads to such a store, and
  `OpenParents.CompactionResurrects` the compaction that goes wrong there.
  `Compactions.CompactionKeepsReads` says exactly when it does not, and
  `Behind.CompactionKeepsReadsUnlessBehind` the same in terms of files: only the
  file directly behind a parent matters, and only if it starts with a value of
  the user key on which the parent ends. `Compactions.NoResurrection` shows that
  it cannot happen when the lower inputs are closed under shared user keys, which
  the runs of `Runs` therefore ask of a compaction step.
* **A field with a default but no has-flag loses zeros.** nanopb leaves a zero in
  such a field out and reads the default back: `PbRoundTrip.ZeroReturnsAsDefault`
  is an example. `PbRoundTrip.RoundTrip` covers schemas with such fields and says
  exactly which messages agree with what comes back;
  `PbAgreement.ZeroDefaultsSurvive` that all do in a schema without them.
* **A char array without a NUL cannot be read back**:
  `PbRoundTrip.StringRoundTrip` is an equivalence. Lengths that need 33 to 35
  bits are refused by the decoder (`PbWire.RefusesLong`), and tags from 2^29 on do
  not fit the key of a field, so the round trip asks for shorter payloads and
  smaller tags, as the Protocol Buffers encoding does.
* **A write without a batch may be absorbed.** A forced memtable switch that
  queues up behind a leader joins its group and returns without making room
  itself (db_impl.cc:1260-1306): `NullWrites.SwitchIsSkipped` is a run in which
  it happens, and `NullWrites.NullIsAbsorbed` says exactly when it does.

## Model

| member | source | states |
|---|---|---|
| Keys.CompareIsRankOrder | FamilyNight/Pods/leveldb-library/util/comparator.cc:16-29 | The bytewise order of all byte strings embeds in the reals, and only equal strings share a place: modelling user keys as reals loses nothing |
| Files.FindFile | FamilyNight/Pods/leveldb-library/db/version_set.cc:88-106 | The binary search returns the least index whose largest key is at or after the key, and every later file qualifies too |
| Files.SomeFileOverlapsRange | FamilyNight/Pods/leveldb-library/db/version_set.cc:122-157 | Both branches answer the same question: whether some file of the list overlaps the range, with open ends |
| Files.OverlapIsShared | FamilyNight/Pods/leveldb-library/db/version_set.cc:108-120 | A file overlaps a range exactly when some user key lies in both, with open ends |
| Inputs.GetOverlappingInputs | FamilyNight/Pods/leveldb-library/db/version_set.cc:519-559 | The restart loop ends; on level 0 the files delivered are those overlapping the least overlap-closed range that contains the request, elsewhere those overlapping the request |
| Inputs.ContainsIsSubset | FamilyNight/Pods/leveldb-library/db/version_set.cc:539-552 | The ranges that level 0 widens to are compared by their bounds, which is to compare the user keys in them |
| Inputs.FindLargestKey | FamilyNight/Pods/leveldb-library/db/version_set.cc:1326-1340 | The largest key over all files, or nothing exactly for no files |
| Inputs.GetRange | FamilyNight/Pods/leveldb-library/db/version_set.cc:1205-1224 | The smallest and the largest key over all files |
| Inputs.FindSmallestBoundaryFile | FamilyNight/Pods/leveldb-library/db/version_set.cc:1344-1362 | Among the files that start after the key with the same user key, one with the least start, or nothing exactly when there are none |
| Inputs.AddBoundaryInputs | FamilyNight/Pods/leveldb-library/db/version_set.cc:1378-1401 | The loop ends; it only appends level files, none twice, each continuing the user key of a file before it, and leaves no boundary file; a gap-free choice stays gap-free |
| Inputs.GapFreeIsClosed | FamilyNight/Pods/leveldb-library/db/version_set.cc:1364-1377 | On a sorted level a gap-free choice without boundary files leaves no file behind that shares a user key at or above a chosen one |
| Inputs.SameCountSameFiles | FamilyNight/Pods/leveldb-library/db/version_set.cc:1419-1447 | When a widened range overlaps as many next-level files as before, they are the same files |
| Inputs.SetupOtherInputs | FamilyNight/Pods/leveldb-library/db/version_set.cc:1403-1462 | The chosen files are closed under shared user keys and the parents are exactly the next-level files in their range; the expansion is taken exactly when it adds files, stays below the size limit and keeps the same parents |
| Picking.NextFile | FamilyNight/Pods/leveldb-library/db/version_set.cc:1284-1296 | The first file whose largest key is strictly behind the compact pointer, or the first file of the level when there is none or no pointer |
| Picking.PickCompaction | FamilyNight/Pods/leveldb-library/db/version_set.cc:1270-1322 | Whichever file is due, on level 0 with the files its range leads to: the inputs contain it, are closed under shared user keys, and the parents are exactly the next-level files in their range; by size it is a file behind the pointer, or the first of the level |
| Picking.CompactRange | FamilyNight/Pods/leveldb-library/db/version_set.cc:1464-1495 | Nothing exactly when no file of the level overlaps the range; else the same for a seed that on level 0 holds every file in the range and elsewhere is a prefix of them |
| Picking.PrefixIsGapFree | FamilyNight/Pods/leveldb-library/db/version_set.cc:1473-1488 | Cutting the files in the range off at a size limit leaves no gap, so no older version is left behind |
| Inputs.PickLevelForMemTableOutput | FamilyNight/Pods/leveldb-library/db/version_set.cc:491-516 | The level is at most 2 and nothing up to it overlaps the flushed range if it is above 0; no level passed has too much grandparent data, and it stops only for one of these reasons: with no file in the range in levels 0 to 3 it is 2 |
| Compaction.BaseLevelScan.IsBaseLevelForKey | FamilyNight/Pods/leveldb-library/db/version_set.cc:1533-1552 | With its remembered pointers it answers, for every non-decreasing sequence of user keys, what a scan of all deeper levels would |
| Compaction.DoCompactionWork | FamilyNight/Pods/leveldb-library/db/db_impl.cc:906-999 | Split into non-empty tables in any way, the output is ascending and holds an input entry exactly when no newer entry of its user key is at or below the oldest snapshot and it is not a deletion at or below it whose user key lies in no file two or more levels down |
| Compaction.KeptExactly | FamilyNight/Pods/leveldb-library/db/db_impl.cc:944-964 | The same rule for what is kept of any ascending input, in terms of input, snapshot and files alone |
| Compaction.KeptInOrder | FamilyNight/Pods/leveldb-library/db/db_impl.cc:906-999 | What a merge keeps is in internal key order |
| DropRules.OlderIsHidden | FamilyNight/Pods/leveldb-library/db/db_impl.cc:944-949 | Every later entry of a user key with an entry at or below the oldest snapshot is dropped |
| DropRules.DropsKeepReads | FamilyNight/Pods/leveldb-library/db/db_impl.cc:944-964 | For each user key, all reads at the oldest snapshot or later over output and untouched files equal those before the merge if and only if no dropped deletion uncovers a value in the untouched files |
| Search.SeekFinds | FamilyNight/Pods/leveldb-library/db/dbformat.h:178-192 | Seeking the lookup key of a user key and a snapshot lands on the newest visible entry of that user key, if there is one |
| Search.LevelGet | FamilyNight/Pods/leveldb-library/db/version_set.cc:374-386 | Searching one binary-searched file of a sorted level finds the level's newest visible entry, also when a user key is split across adjacent files |
| Search.LevelZeroGet | FamilyNight/Pods/leveldb-library/db/version_set.cc:349-373 | Searching the overlapping level-0 files newest first finds the newest visible entry over all of them |
| Search.VersionGet | FamilyNight/Pods/leveldb-library/db/version_set.cc:326-421 | The search level by level returns the entry of greatest sequence number at or below the snapshot over all files of all levels, or nothing exactly when there is none |
| Memory.WriteKeeps | FamilyNight/Pods/leveldb-library/db/db_impl.cc:1209-1241 | A group write keeps the invariant: layered levels, one entry per user key and number, and reads that agree with everything written |
| Memory.RotateKeeps | FamilyNight/Pods/leveldb-library/db/db_impl.cc:1345-1364 | Freezing the memtable keeps the invariant |
| Memory.TakeSnapshotKeeps | FamilyNight/Pods/leveldb-library/db/db_impl.cc:1166-1169 | Taking a snapshot keeps the invariant |
| Memory.ReleaseSnapshotKeeps | FamilyNight/Pods/leveldb-library/db/db_impl.cc:1171-1174 | Releasing any snapshot keeps the invariant |
| LevelSteps.FlushKeepsLayers | FamilyNight/Pods/leveldb-library/db/db_impl.cc:491-533 | A flush to any level its guard allows keeps every level sorted and disjoint and, for each user key, newer entries in smaller levels |
| LevelSteps.FlushKeeps | FamilyNight/Pods/leveldb-library/db/db_impl.cc:535-566 | A flush keeps the invariant |
| MoveDown.ShiftKeepsLayers | FamilyNight/Pods/leveldb-library/db/db_impl.cc:860-876 | Replacing closed inputs and their parents by tables of their entries one level down keeps levels disjoint, numbers unique and newer entries in smaller levels |
| MoveDown.TrivialMoveKeeps | FamilyNight/Pods/leveldb-library/db/db_impl.cc:718-733 | A trivial move keeps the invariant |
| Compactions.CompactKeepsLayers | FamilyNight/Pods/leveldb-library/db/db_impl.cc:860-876 | A compaction keeps the layers; afterwards exactly the untouched entries and the output are stored |
| Compactions.OutputExactly | FamilyNight/Pods/leveldb-library/db/db_impl.cc:878-1036 | The tables of a compaction step hold exactly what that rule keeps of its inputs, the oldest snapshot being the first live one or the last sequence number |
| Compactions.NoResurrection | FamilyNight/Pods/leveldb-library/db/version_set.cc:1533-1552 | When the parents are closed under shared user keys, no dropped deletion uncovers a value in an untouched file |
| Compactions.CompactionKeepsReads | FamilyNight/Pods/leveldb-library/db/db_impl.cc:878-1036 | A compaction leaves every read at the oldest snapshot or later as it was if and only if, for every user key, no dropped deletion uncovers a value in the untouched files |
| Compactions.CompactKeeps | FamilyNight/Pods/leveldb-library/db/db_impl.cc:878-1036 | A compaction with closed parents keeps the invariant |
| Behind.ResurrectsFromBehind | FamilyNight/Pods/leveldb-library/db/version_set.cc:1533-1552 | An older value of a user key comes back if and only if the key's newest visible version is a deletion that the merge drops as obsolete and the file directly behind a parent that ends on the key stays and starts with a value of the key |
| Behind.CompactionKeepsReadsUnlessBehind | FamilyNight/Pods/leveldb-library/db/db_impl.cc:878-1036 | A compaction leaves every read at the oldest snapshot or later as it was if and only if no file that stays directly behind a parent and starts with a value of the user key the parent ends on belongs to a key whose newest version, a deletion, is dropped |
| OpenParents.StoreIsReached | FamilyNight/Pods/leveldb-library/db/db_impl.cc:688-760 | A run of ten enabled steps from the empty store (writes, a snapshot taken and released, two flushes to level 2, one compaction) ends in the store in question |
| OpenParents.InputsArePicked | FamilyNight/Pods/leveldb-library/db/version_set.cc:1403-1462 | In that store the input selection, started from the one file of level 2, delivers that file and one parent, whatever the limit; the file of level 3 in which the parent's last user key goes on stays behind |
| OpenParents.CompactionResurrects | FamilyNight/Pods/leveldb-library/db/version_set.cc:1407-1411 | In that store the compaction of these inputs turns a deleted key's read from nothing into its old value: boundary files are added to the first input list only |
| Runs.StepKeeps | FamilyNight/Pods/leveldb-library/db/db_impl.cc:688-767 | Every step (write, rotation, flush, trivial move, compaction with closed parents, snapshot) keeps the invariant |
| Runs.RunKeeps | FamilyNight/Pods/leveldb-library/db/db_impl.cc:688-767 | So does every run |
| Runs.ReadIsLookup | FamilyNight/Pods/leveldb-library/db/db_impl.cc:1100-1145 | Reading the newest visible entry over all operations written equals looking the key up in a plain map after the first `s` operations |
| Runs.RunsReadLikeTheMap | FamilyNight/Pods/leveldb-library/db/db_impl.cc:1100-1145 | After every run, at the latest sequence number and at every live snapshot `s`, a read equals the lookup in the plain map after `s` operations, and the levels are layered |
| Database.InsertEntry | FamilyNight/Pods/leveldb-library/db/memtable.cc:75-98 | Adding an entry keeps the memtable in internal key order and holds the old entries and the new one |
| Database.LogAndApply | FamilyNight/Pods/leveldb-library/db/version_set.cc:801-884 | The new file lists are sorted and hold exactly the old files less the deleted numbers plus the added files |
| Database.MergeFiles | FamilyNight/Pods/leveldb-library/db/version_set.cc:1226-1268 | What the merging iterator over the files delivers is ascending and holds exactly their entries |
| Database.MergeTables | FamilyNight/Pods/leveldb-library/db/db_impl.cc:878-1036 | The output tables hold, cut into files with fresh numbers, exactly what the drop rules keep of the merged inputs |
| Database.FlushTable | FamilyNight/Pods/leveldb-library/db/db_impl.cc:491-533 | The frozen memtable becomes one table with the next number at a level where nothing up to that level overlaps it, level 2 when nothing in levels 0 to 3 does |
| Database.Db.Get | FamilyNight/Pods/leveldb-library/db/db_impl.cc:1100-1145 | Memtable, frozen memtable and levels in turn: the value is the plain map's after the first `s` operations, for the latest and every live snapshot |
| Database.Db.Write | FamilyNight/Pods/leveldb-library/db/db_impl.cc:1209-1241 | The operations are appended to the history, numbered consecutively; the object takes the write step of the state machine |
| Database.Db.SwitchMemTable | FamilyNight/Pods/leveldb-library/db/db_impl.cc:1345-1364 | The object takes the rotation step; the history is unchanged |
| Database.Db.GetSnapshot | FamilyNight/Pods/leveldb-library/db/db_impl.cc:1166-1169 | The snapshot is the latest sequence number and is live from then on |
| Database.Db.ReleaseSnapshot | FamilyNight/Pods/leveldb-library/db/db_impl.cc:1171-1174 | The object takes the release step; the history is unchanged |
| Database.Db.CompactMemTable | FamilyNight/Pods/leveldb-library/db/db_impl.cc:535-566 | The object takes a flush step that the state machine allows, to level 2 when the store has no files; the history is unchanged |
| Database.Db.MoveFile | FamilyNight/Pods/leveldb-library/db/db_impl.cc:718-733 | The object takes a trivial move step that the state machine allows |
| Database.Db.MergeDown | FamilyNight/Pods/leveldb-library/db/db_impl.cc:878-1036 | The object takes a compaction step; levels stay layered in any case, and all reads stay right when the parents are closed |
| Database.Db.RunCompaction | FamilyNight/Pods/leveldb-library/db/db_impl.cc:718-750 | The object takes a trivial move exactly when there is one input, no parent and the code allows it, else the compaction of these inputs; it stays valid if the parents are closed |
| Database.Db.BackgroundCompaction | FamilyNight/Pods/leveldb-library/db/db_impl.cc:688-760 | A frozen memtable is flushed first; else the object takes a move or compaction whose inputs hold a file of the range asked for, the file that is due, a file behind the pointer or the first of the level, and does nothing exactly when there is nothing to do; a manual compaction never moves |
| VersionBuilder.Builder.Apply | FamilyNight/Pods/leveldb-library/db/version_set.cc:650-692 | The builder's state stands for one more edit, provided no file number is added again once present |
| VersionBuilder.Builder.SaveTo | FamilyNight/Pods/leveldb-library/db/version_set.cc:695-738 | The files saved are sorted by smallest key and are the fold of delete-then-add over all edits applied |
| VersionBuilder.SaveLevel | FamilyNight/Pods/leveldb-library/db/version_set.cc:703-722 | Merging the base list with the added files and skipping deleted ones yields a sorted list of exactly the surviving files |
| EditCodec.EncodeTo | FamilyNight/Pods/leveldb-library/db/version_edit.cc:41-85 | The bytes appended are those of the edit's items in the order of the format |
| EditCodec.DecodeFrom | FamilyNight/Pods/leveldb-library/db/version_edit.cc:107-205 | The loop decodes any bytes item by item, with the error of the first bad item |
| EditCodec.EditRoundTrip | FamilyNight/Pods/leveldb-library/db/version_edit.cc:41-205 | Every edit whose numbers fit their widths is decoded as it was encoded |
| Layouts.ItemIs | FamilyNight/Pods/leveldb-library/db/version_edit.cc:41-76 | The bytes of every kind of item: its tag number and its varints and length-prefixed strings |
| Layouts.NewFileIs | FamilyNight/Pods/leveldb-library/db/version_edit.cc:77-84 | The bytes of a new file: 7, level, number, size, smallest and largest key |
| Layouts.EditIs | FamilyNight/Pods/leveldb-library/db/version_edit.cc:41-85 | The order of the items: comparator, log numbers, next file, last sequence, pointers, deleted and new files |
| Layouts.DecodesUpTo | FamilyNight/Pods/leveldb-library/db/version_edit.cc:107-205 | Items in any order are taken one by one, and what follows is decoded on top of them |
| Layouts.RefusesItem | FamilyNight/Pods/leveldb-library/db/version_edit.cc:87-105 | Tags other than 1 to 7 and 9 are refused as unknown, and levels from 7 on by the name of the item |
| Layouts.RefusesTornItem | FamilyNight/Pods/leveldb-library/db/version_edit.cc:107-205 | A tag with nothing behind it is refused with the message of its kind |
| Layouts.InsertsPair | FamilyNight/Pods/leveldb-library/db/version_edit.h:86-86 | The deleted files of an edit are a set |
| Manifest.ReplayStep | FamilyNight/Pods/leveldb-library/db/version_set.cc:930-985 | If the edits replay to the levels before, then with one more edit they replay to the levels after it |
| Manifest.SnapshotReplays | FamilyNight/Pods/leveldb-library/db/version_set.cc:1088-1116 | Replaying a snapshot edit from nothing yields the levels it lists |
| Manifest.Recover | FamilyNight/Pods/leveldb-library/db/version_set.cc:886-1011 | Recovery from any list of records yields sorted levels that are the fold of the acceptable edits, the last log number, file number and sequence number set, and fails as the source does when one is missing |
| ManifestLaws.ForeignFails | FamilyNight/Pods/leveldb-library/db/version_set.cc:933-943 | Recovery fails whenever some record does not decode or names another comparator |
| ManifestLaws.AllAreTaken | FamilyNight/Pods/leveldb-library/db/version_set.cc:886-1011 | When every record decodes and none names another comparator, recovery fails only if the log number, next file number or last sequence is given in no record; else it yields those given last, 0 for a previous log number never given, and on each of 7 levels, by smallest key, the files added by some edit and deleted by no later one |
| ManifestLaws.FileIs | FamilyNight/Pods/leveldb-library/db/version_set.cc:644-692 | The file that a new-file item stands for: its number, its size and its two parsed keys |
| Manifest.VersionSet.WriteSnapshot | FamilyNight/Pods/leveldb-library/db/version_set.cc:1088-1116 | The snapshot edit adds exactly the files of the current levels |
| Manifest.VersionSet.LogAndApply | FamilyNight/Pods/leveldb-library/db/version_set.cc:801-884 | The new levels and log numbers are installed, the manifest only grows, its last record is the edit with all four numbers filled in, and its records replay to what is installed |
| Manifest.VersionSet.Reopen | FamilyNight/Pods/leveldb-library/db/version_set.cc:886-1011 | Decoding and replaying the manifest gives back the installed levels, log numbers and sequence number, and the next file number plus one |
| ManifestFiles.RecoverFile | FamilyNight/Pods/leveldb-library/db/version_set.cc:886-985 | On any bytes of a manifest: the replay of the records the log format gives, or a failure when the reader reports a corruption |
| ManifestFiles.ReopenTorn | FamilyNight/Pods/leveldb-library/db/version_set.cc:886-1011 | A manifest cut off after any number of bytes recovers the fold of its whole edits, and the whole one exactly what was installed last |
| Cursors.Seek | FamilyNight/Pods/leveldb-library/db/skiplist.h:224-226 | The least index whose key is at or after the target |
| DbIterator.VisibleMapIsRead | FamilyNight/Pods/leveldb-library/db/db_iter.cc:41-58 | The sorted map the iterator shows at a sequence number has one entry per user key, in order, and holds exactly the values that reads at that number find |
| DbIterator.DbIter.FindNextUserEntry | FamilyNight/Pods/leveldb-library/db/db_iter.cc:168-198 | It stops at the first entry at or behind the position that the map shows, past the user key to skip, and marks the end otherwise |
| DbIterator.DbIter.FindPrevUserEntry | FamilyNight/Pods/leveldb-library/db/db_iter.cc:227-267 | It stops before the last shown entry at or in front of the position, with its key and value saved, and marks the end otherwise |
| DbIterator.DbIter.Next | FamilyNight/Pods/leveldb-library/db/db_iter.cc:141-166 | One position on in the map, also after moving backward |
| DbIterator.DbIter.Prev | FamilyNight/Pods/leveldb-library/db/db_iter.cc:200-225 | One position back in the map, or invalid from the first, also after moving forward |
| DbIterator.DbIter.Seek | FamilyNight/Pods/leveldb-library/db/db_iter.cc:269-281 | The first position of the map whose user key is at or after the target |
| DbIterator.DbIter.SeekToFirst | FamilyNight/Pods/leveldb-library/db/db_iter.cc:283-292 | The first position of the map |
| DbIterator.DbIter.SeekToLast | FamilyNight/Pods/leveldb-library/db/db_iter.cc:294-299 | The last position of the map |
| DbIterator.DbIter.Key | FamilyNight/Pods/leveldb-library/db/db_iter.cc:64-67 | The user key at the map's position, in either direction |
| DbIterator.DbIter.ValueOf | FamilyNight/Pods/leveldb-library/db/db_iter.cc:68-71 | The value at the map's position, in either direction |
| Merging.MergeExists | FamilyNight/Pods/leveldb-library/table/merger.cc:18-25 | For any sorted children with pairwise distinct keys the sorted merge exists, with the place of every child entry in it |
| Merging.MergingIterator.FindSmallest | FamilyNight/Pods/leveldb-library/table/merger.cc:148-161 | When the children stand around a position of the merge, the smallest current child is at that position |
| Merging.MergingIterator.FindLargest | FamilyNight/Pods/leveldb-library/table/merger.cc:163-176 | When the children stand before a position of the merge, the largest current child is just before it |
| Merging.MergingIterator.SeekToFirst | FamilyNight/Pods/leveldb-library/table/merger.cc:31-37 | The first position of the merge |
| Merging.MergingIterator.SeekToLast | FamilyNight/Pods/leveldb-library/table/merger.cc:39-45 | The last position of the merge |
| Merging.MergingIterator.Seek | FamilyNight/Pods/leveldb-library/table/merger.cc:47-53 | The first position of the merge at or after the target |
| Merging.MergingIterator.Next | FamilyNight/Pods/leveldb-library/table/merger.cc:55-79 | One position on in the merge, also after moving backward |
| Merging.MergingIterator.Prev | FamilyNight/Pods/leveldb-library/table/merger.cc:81-108 | One position back in the merge, also after moving forward |
| Merging.MergingIterator.NoEqualKey | FamilyNight/Pods/leveldb-library/table/merger.cc:66-69 | With distinct keys no other child stands at the current key, so the step past an equal key is never taken |
| Merging.MergingIterator.CurrentEntry | FamilyNight/Pods/leveldb-library/table/merger.cc:110-118 | The entry of the merge at the position |
| TwoLevel.TwoLevelIterator.SkipEmptyDataBlocksForward | FamilyNight/Pods/leveldb-library/table/two_level_iterator.cc:115-126 | Skipping exhausted and empty blocks forward keeps the position in the concatenation of all blocks |
| TwoLevel.TwoLevelIterator.SkipEmptyDataBlocksBackward | FamilyNight/Pods/leveldb-library/table/two_level_iterator.cc:128-139 | Skipping backward ends on the last entry before the position |
| TwoLevel.TwoLevelIterator.SeekThroughIndex | FamilyNight/Pods/leveldb-library/table/two_level_iterator.cc:82-87 | With separating index keys, seeking the index and then the block is seeking the concatenation |
| TwoLevel.TwoLevelIterator.Seek | FamilyNight/Pods/leveldb-library/table/two_level_iterator.cc:82-87 | The first position of the concatenation at or after the target |
| TwoLevel.TwoLevelIterator.SeekToFirst | FamilyNight/Pods/leveldb-library/table/two_level_iterator.cc:89-94 | The first position of the concatenation |
| TwoLevel.TwoLevelIterator.SeekToLast | FamilyNight/Pods/leveldb-library/table/two_level_iterator.cc:96-101 | The last position of the concatenation |
| TwoLevel.TwoLevelIterator.Next | FamilyNight/Pods/leveldb-library/table/two_level_iterator.cc:103-107 | One position on in the concatenation |
| TwoLevel.TwoLevelIterator.Prev | FamilyNight/Pods/leveldb-library/table/two_level_iterator.cc:109-113 | One position back in the concatenation |
| TwoLevel.TwoLevelIterator.InitDataBlock | FamilyNight/Pods/leveldb-library/table/two_level_iterator.cc:146-161 | Afterwards the data iterator, if any, is over the block the index stands on, rebuilt or reused |
| SkipLists.StepKeeps | FamilyNight/Pods/leveldb-library/db/skiplist.h:337-368 | Each pointer store of an insertion and each pointer load of any reader keeps: every level is linked in order through exactly its keys, higher levels hold fewer keys, and every search is on course |
| SkipLists.RunKeeps | FamilyNight/Pods/leveldb-library/db/skiplist.h:337-368 | So does every interleaving of one writer and any number of readers whose steps the code allows |
| SkipLists.SearchIsRight | FamilyNight/Pods/leveldb-library/db/skiplist.h:262-302 | In every such run from the empty list, a search that ended, whatever happened meanwhile, found the least key at or after its target (or the greatest before it) in a set between the contents at its start and at its end, and found every key linked before it began |
| SkipLists.LoadAdvances | FamilyNight/Pods/leveldb-library/db/skiplist.h:260-302 | Each load brings a search strictly nearer to its end: along its level, one level down, or to its result on the lowest |
| SkipLists.SearchEnds | FamilyNight/Pods/leveldb-library/db/skiplist.h:260-302 | From every state with a search on course there is a run of its loads alone in which it ends |
| SkipLists.ListsAreLevels | FamilyNight/Pods/leveldb-library/db/skiplist.h:337-368 | In every intermediate state the list of each level is sorted, holds exactly the level's keys, and is a sublist of the list of every lower level |
| SkipLists.ListEnds | FamilyNight/Pods/leveldb-library/db/skiplist.h:304-322 | From any node of a level, following its pointers reaches the end |
| SkipLists.SkipList.FindGreaterOrEqual | FamilyNight/Pods/leveldb-library/db/skiplist.h:260-281 | The least key at or after the target, and the last node before it on every level |
| SkipLists.SkipList.FindLessThan | FamilyNight/Pods/leveldb-library/db/skiplist.h:283-302 | The greatest key before the target, or the head |
| SkipLists.SkipList.Contains | FamilyNight/Pods/leveldb-library/db/skiplist.h:371-378 | Whether the key is in the list |
| SkipLists.SkipList.Insert | FamilyNight/Pods/leveldb-library/db/skiplist.h:337-368 | The contents of each of the 12 levels gain the key exactly below the height drawn, and the maximum height follows |
| Coding.FixedRoundTrip | FamilyNight/Pods/leveldb-library/util/coding.cc:9-19 | A number that fits is read back from its little-endian bytes |
| Coding.UnfixedRoundTrip | FamilyNight/Pods/leveldb-library/util/coding.h:58-84 | Every byte string is the encoding of the number it decodes to |
| Coding.FixedIs | FamilyNight/Pods/leveldb-library/util/coding.h:58-84 | The bytes in figures, least significant first |
| Coding.VarintDigits | FamilyNight/Pods/leveldb-library/util/coding.cc:21-67 | The bytes of a varint are the digits to the base 128, lowest first, with 128 added to all but the last, and no leading zero |
| Coding.EncodeVarint32 | FamilyNight/Pods/leveldb-library/util/coding.cc:21-49 | The unrolled encoder writes the same varint as the recursive definition |
| Coding.EncodeVarint64 | FamilyNight/Pods/leveldb-library/util/coding.cc:57-67 | The loop writes the same varint |
| Coding.VarintLength | FamilyNight/Pods/leveldb-library/util/coding.cc:103-110 | The length that the encoder would write |
| Coding.DecodeVarint | FamilyNight/Pods/leveldb-library/util/coding.cc:112-157 | For any input, what at most five or ten bytes spell, cut to 32 or 64 bits, or a failure |
| Coding.GetsVarint32 | FamilyNight/Pods/leveldb-library/util/coding.cc:112-140 | What the encoder wrote is read back with the rest of the input left over |
| Coding.GetsVarint64 | FamilyNight/Pods/leveldb-library/util/coding.cc:142-169 | The same for 64 bits |
| Coding.CutsVarint | FamilyNight/Pods/leveldb-library/util/coding.cc:112-169 | Of a varint of up to 35 or 70 bits the low 32 or 64 are read, and a longer one is refused |
| Coding.GetsLengthPrefixed | FamilyNight/Pods/leveldb-library/util/coding.cc:98-101 | A length-prefixed slice is read back with the rest of the input left over |
| Crc.UnmaskMask | FamilyNight/Pods/leveldb-library/util/crc32c.h:24-38 | Unmasking a masked checksum gives it back, for all 2^32 words |
| Crc.StoredChecksum | FamilyNight/Pods/leveldb-library/util/crc32c.h:24-38 | Also through its four stored bytes |
| Crc.MaskIs | FamilyNight/Pods/leveldb-library/util/crc32c.h:24-31 | The masked checksum and its bytes in figures: rotated right by 15 bits, plus 2726488792 |
| Crc.SameChecksum | FamilyNight/Pods/leveldb-library/util/crc32c.h:33-38 | Stored bytes unmask to a checksum exactly when they are the bytes of the masked checksum |
| LogFormat.ReadsRecord | FamilyNight/Pods/leveldb-library/db/log_reader.cc:56-174 | At the position where a record, or the rest of one, was written, reading any prefix of the file delivers it if it lies wholly inside and otherwise ends without reporting a drop |
| LogFormat.TornLogIsRead | FamilyNight/Pods/leveldb-library/db/log_reader.cc:56-271 | For every list of records and every byte prefix of the file written for them, reading delivers exactly the records wholly inside the prefix, in order, and reports no corruption |
| LogLayout.PhysicalIs | FamilyNight/Pods/leveldb-library/db/log_writer.cc:82-108 | A physical record in figures: masked checksum of type and data, length in two bytes, type, data |
| LogLayout.SplitIs | FamilyNight/Pods/leveldb-library/db/log_writer.cc:34-80 | At any position of a file: less than 7 bytes before a multiple of 32768 are zeros, a record that fits is written whole with type 1 or 4, and else its first part fills the block with type 2 or 3 |
| LogLayout.ShortRecord | FamilyNight/Pods/leveldb-library/db/log_writer.cc:34-108 | The bytes of a file of one record of up to 32761 bytes |
| LogLayout.TwoFragments | FamilyNight/Pods/leveldb-library/db/log_writer.cc:34-108 | A record of 32762 to 65522 bytes is one of type 2 with 32761 bytes and one of type 4 with the rest |
| LogLayout.SpaceTaken | FamilyNight/Pods/leveldb-library/db/log_writer.cc:34-80 | From the start of a block a record takes 7 bytes more for each 32761 begun |
| LogLayout.HeaderIs | FamilyNight/Pods/leveldb-library/db/log_reader.cc:213-271 | What the reader makes of any header of any file: bad or the end when it runs over its block, set-aside room for type and length 0, bad for a wrong checksum, each up to the block's end; else its type and data |
| LogLayout.NoHeaderIs | FamilyNight/Pods/leveldb-library/db/log_reader.cc:189-212 | Where no header fits it goes on at the next block, or the file ends |
| LogReads.DeliversWholeRuns | FamilyNight/Pods/leveldb-library/db/log_reader.cc:56-174 | From any position of any file, damaged or not, the records delivered are exactly the whole runs of fragments, a type 1 or a type 2 with types 3 and a type 4, in order |
| LogReads.AllIsAccountedFor | FamilyNight/Pods/leveldb-library/db/log_reader.cc:56-174 | Every byte of payload found is delivered or reported as dropped, but for those of a run that the file ends in |
| Log.Writer.AddRecord | FamilyNight/Pods/leveldb-library/db/log_writer.cc:34-80 | The file grows by exactly the record's fragments and block trailers, for every length and every position in a block |
| Log.Writer.EmitPhysicalRecord | FamilyNight/Pods/leveldb-library/db/log_writer.cc:82-108 | The file grows by one physical record |
| Log.Reader.ReadPhysicalRecord | FamilyNight/Pods/leveldb-library/db/log_reader.cc:189-271 | Through the block buffer, the type, payload, next position and drops that the format defines at the current position of any byte string |
| Log.Reader.ReadRecord | FamilyNight/Pods/leveldb-library/db/log_reader.cc:56-174 | The logical record that the format defines at the current position of any byte string, joining fragments, with the drops reported |
| Log.ReadLog | FamilyNight/Pods/leveldb-library/db/log_reader.cc:56-174 | All records and drops of any byte string |
| Log.WriteLog | FamilyNight/Pods/leveldb-library/db/log_writer.cc:34-80 | The file that the torn-tail theorem speaks of |
| BlockFormat.DecodesEntry | FamilyNight/Pods/leveldb-library/table/block.cc:54-74 | The three lengths of an entry are decoded, by the fast and the slow path alike |
| BlockFormat.ParsesEntry | FamilyNight/Pods/leveldb-library/table/block.cc:224-251 | In a built block, parsing at an entry's offset with the key before it gives the entry's key, value and end |
| BlockFormat.StartsShareNothing | FamilyNight/Pods/leveldb-library/table/block_builder.cc:77-91 | The entries that restart points point at are stored whole |
| BlockFormat.RestartPointIs | FamilyNight/Pods/leveldb-library/table/block.cc:99-102 | The stored restart points are the offsets of those entries |
| BlockFormat.CounterIs | FamilyNight/Pods/leveldb-library/table/block_builder.cc:72-106 | The counter of the builder in closed form |
| BlockFormat.StartsAre | FamilyNight/Pods/leveldb-library/table/block_builder.cc:72-106 | Restart point k is at entry k times the interval, and there are as many as intervals begun |
| Blocks.BlockBuilder.Add | FamilyNight/Pods/leveldb-library/table/block_builder.cc:72-106 | The buffer gains the three lengths, the key behind the part shared with the last key, as long as possible, and the value; every interval-th entry shares nothing and starts a restart point |
| Blocks.BlockBuilder.SharedPart | FamilyNight/Pods/leveldb-library/table/block_builder.cc:77-86 | The length of the longest common prefix with the last key, or 0 exactly at a restart |
| Blocks.BlockBuilder.Finish | FamilyNight/Pods/leveldb-library/table/block_builder.cc:62-70 | The block is the entries, the offsets of entries k times the interval in four bytes each, and their number in four bytes |
| Blocks.BlockBuilder.CurrentSizeEstimate | FamilyNight/Pods/leveldb-library/table/block_builder.cc:56-60 | The estimate is the exact size of the block that would be finished |
| BlockIterators.BlockIter.Next | FamilyNight/Pods/leveldb-library/table/block.cc:137-140 | From a finished block's bytes alone, one pair on |
| BlockIterators.BlockIter.Prev | FamilyNight/Pods/leveldb-library/table/block.cc:142-161 | One pair back, through a restart point: it undoes `Next` |
| BlockIterators.BlockIter.Seek | FamilyNight/Pods/leveldb-library/table/block.cc:163-201 | The first pair at or after the target, as a linear scan would find |
| BlockIterators.BlockIter.FindRestart | FamilyNight/Pods/leveldb-library/table/block.cc:166-190 | The binary search ends at a restart point before which all keys are below the target |
| BlockIterators.BlockIter.SeekToFirst | FamilyNight/Pods/leveldb-library/table/block.cc:203-206 | The first pair |
| BlockIterators.BlockIter.SeekToLast | FamilyNight/Pods/leveldb-library/table/block.cc:208-213 | The last pair |
| BlockIterators.BlockIter.Key | FamilyNight/Pods/leveldb-library/table/block.cc:128-131 | The key of the pair at the position, rebuilt from its shared prefix |
| BlockIterators.BlockIter.ValueOf | FamilyNight/Pods/leveldb-library/table/block.cc:132-135 | The value of the pair at the position |
| BlockIterators.BlockIter.ParseNextKey | FamilyNight/Pods/leveldb-library/table/block.cc:224-251 | It reads the next pair, or marks the end exactly behind the last |
| InternalKeys.FindShortestSeparator | FamilyNight/Pods/leveldb-library/util/comparator.cc:29-50 | The start up to its first difference from limit with that byte raised, exactly if the byte is below 0xff and below the limit's by more than one, else the start: never longer, and strictly between the two when it is not the start |
| InternalKeys.FindShortSuccessor | FamilyNight/Pods/leveldb-library/util/comparator.cc:52-64 | The key up to its first byte that can be raised, raised: a larger string no longer than the key, or the key itself exactly when all its bytes are 0xff |
| InternalKeys.ParsesEncoded | FamilyNight/Pods/leveldb-library/db/dbformat.h:165-175 | An internal key is parsed as it was packed |
| InternalKeys.ParsesExactly | FamilyNight/Pods/leveldb-library/db/dbformat.h:165-175 | Only packed keys are parsed; a string is refused exactly when it is shorter than 8 bytes or its type is neither 0 nor 1 |
| InternalKeys.EncodedIs | FamilyNight/Pods/leveldb-library/db/dbformat.cc:14-23 | The packed key in figures: the user key, one byte for the type, 1 for a value and 0 for a deletion, and seven of the number |
| InternalKeys.EncodedOrder | FamilyNight/Pods/leveldb-library/db/dbformat.cc:51-67 | The comparator on packed keys is the order by user key, then falling sequence number and type, that the engine model uses, and distinct keys have distinct places |
| InternalKeys.FindShortestInternalSeparator | FamilyNight/Pods/leveldb-library/db/dbformat.cc:69-86 | The shortened user key with the earliest tag when it is physically shorter and logically larger, else the start |
| InternalKeys.FindShortInternalSuccessor | FamilyNight/Pods/leveldb-library/db/dbformat.cc:88-101 | The raised user key with the earliest tag when it is physically shorter and logically larger, else the key |
| InternalKeys.SeparatorFacts | FamilyNight/Pods/leveldb-library/db/dbformat.cc:69-86 | A separator is at or after start and before limit, and no key above start that is at or below it shares limit's user key |
| TableFormat.HandleRoundTrip | FamilyNight/Pods/leveldb-library/table/format.cc:15-29 | A block handle is decoded as it was encoded |
| TableFormat.BlockRoundTrip | FamilyNight/Pods/leveldb-library/table/format.cc:64-139 | Reading a block at its handle checks and returns the contents that were stored |
| Layouts.StoredIs | FamilyNight/Pods/leveldb-library/table/table_builder.cc:177-194 | A stored block in figures: contents, type 0, masked checksum of both |
| Layouts.ReadsBlock | FamilyNight/Pods/leveldb-library/table/format.cc:64-102 | A block is read from any file exactly when it is there, its type is 0 and, if asked, its four checksum bytes are right |
| TableFormat.IndexKeySeparates | FamilyNight/Pods/leveldb-library/table/table_builder.cc:99-106 | Every index key is at or after all keys of its block and the blocks before, and before all keys of the blocks behind |
| TableFormat.SeparatorsIncrease | FamilyNight/Pods/leveldb-library/table/table_builder.cc:99-106 | Index keys strictly increase |
| TableFormat.SameUserIsInBlock | FamilyNight/Pods/leveldb-library/table/table.cc:216-244 | When the first entry at or after a key has its user key, it is in the block that the index points at, although a shortened separator may point at a block without such an entry |
| TableBuilders.TableBuilder.Add | FamilyNight/Pods/leveldb-library/table/table_builder.cc:94-123 | The entries of the table so far gain exactly the pair; a block is closed exactly when its size estimate reaches the block size; the pending index entry and the filter keep the table well formed |
| TableBuilders.TableBuilder.Flush | FamilyNight/Pods/leveldb-library/table/table_builder.cc:125-139 | The open block goes to the file; the entries stay the same |
| TableBuilders.TableBuilder.Finish | FamilyNight/Pods/leveldb-library/table/table_builder.cc:198-253 | The file holds blocks, index and filter of exactly the entries added, in order, and the filter denies none of them |
| Tables.OpenBlock | FamilyNight/Pods/leveldb-library/table/table.cc:155-208 | A cursor over the pairs stored at a handle |
| Tables.InternalGet | FamilyNight/Pods/leveldb-library/table/table.cc:216-244 | An entry with the sought user key is delivered exactly when the first entry at or after the key in the whole table has that user key; anything delivered with another user key is ignored by the caller |
| Tables.FilterHidesNothing | FamilyNight/Pods/leveldb-library/table/table.cc:222-229 | A filter that matches the user keys of every block never hides the block that holds the answer |
| Bloom.BloomFilterPolicy.CreateFilter | FamilyNight/Pods/leveldb-library/util/bloom.cc:28-54 | In figures: bit p is set exactly when p is (h + j * d) mod 2^32 mod the number of bits for some key with hash h, its rotation d and some j below the number of probes; the array has 8 bytes or as many as the keys ask for, and the number of probes behind it |
| Bloom.BloomFilterPolicy.KeyMayMatch | FamilyNight/Pods/leveldb-library/util/bloom.cc:56-80 | True exactly when the number of probes is above 30 or all those bits of the filter are set, with the array size recovered from the filter length |
| Bloom.MatchesExactly | FamilyNight/Pods/leveldb-library/util/bloom.cc:56-80 | The same for the predicate that the filter blocks are stated with |
| Bloom.OnesExactly | FamilyNight/Pods/leveldb-library/util/bloom.cc:28-54 | The same for the bits of a built filter |
| FilterBlocks.FilterBlockBuilder.StartBlock | FamilyNight/Pods/leveldb-library/table/filter_block.cc:21-27 | One filter is generated for every 2 KB started before the block's offset; the keys added so far stay covered |
| FilterBlocks.FilterBlockBuilder.AddKey | FamilyNight/Pods/leveldb-library/table/filter_block.cc:29-33 | The key is recorded for the offset of the current block |
| FilterBlocks.FilterBlockBuilder.GenerateFilter | FamilyNight/Pods/leveldb-library/table/filter_block.cc:51-75 | The pending keys get their filter and its offset, and nothing is pending any more |
| FilterBlocks.FilterBlockBuilder.Finish | FamilyNight/Pods/leveldb-library/table/filter_block.cc:35-49 | The finished block holds, for every 2048 bytes of offsets, the filter of exactly the keys added there, and ends in the byte 11; every key added while a block started at an offset may match at that offset |
| FilterBlocks.FilterBlockReader.KeyMayMatch | FamilyNight/Pods/leveldb-library/table/filter_block.cc:90-104 | On any contents: true unless the filter of the offset's 2 KB range, found through the offset array, denies the key |
| FilterBlocks.AsksOneFilter | FamilyNight/Pods/leveldb-library/table/filter_block.cc:90-104 | In a finished filter block the reader asks exactly the filter that the builder made for the offset's range |
| HandleTables.LruRemove | FamilyNight/Pods/leveldb-library/util/cache.cc:239-242 | Unlinking a node leaves the ring of the others, in order |
| HandleTables.LruAppend | FamilyNight/Pods/leveldb-library/util/cache.cc:244-250 | The node becomes the newest of the ring |
| HandleTables.HandleTable.FindPointer | FamilyNight/Pods/leveldb-library/util/cache.cc:114-120 | The place in its chain of the entry with the key, or of the chain's end exactly when there is none |
| HandleTables.HandleTable.Lookup | FamilyNight/Pods/leveldb-library/util/cache.cc:74-76 | The entry with key and hash, or nothing exactly when there is none |
| HandleTables.HandleTable.Insert | FamilyNight/Pods/leveldb-library/util/cache.cc:78-92 | The entry takes the place of one with its key, which is returned, or is added; the table grows exactly when it holds more entries than chains |
| HandleTables.HandleTable.Remove | FamilyNight/Pods/leveldb-library/util/cache.cc:94-102 | Exactly the entry with the key leaves the table |
| HandleTables.HandleTable.Resize | FamilyNight/Pods/leveldb-library/util/cache.cc:122-147 | Rehashing all chains in place keeps the set of entries; the number of chains is the least power of two from 4 on that is at least the number of entries |
| HandleTables.HandleTable.ByHash | FamilyNight/Pods/leveldb-library/util/cache.cc:109-120 | Every entry is in the chain of its hash modulo the number of chains, and in no other |
| LruCaches.LRUCache.Ref | FamilyNight/Pods/leveldb-library/util/cache.cc:217-223 | An idle entry moves to the in-use list, the others keep their order; one more reference is out |
| LruCaches.LRUCache.Unref | FamilyNight/Pods/leveldb-library/util/cache.cc:225-237 | The deleter runs exactly when the last reference goes; a cached entry whose last outside reference goes becomes the newest idle one |
| LruCaches.LRUCache.Lookup | FamilyNight/Pods/leveldb-library/util/cache.cc:252-259 | The entry with the key, pinned, or nothing exactly when there is none; the other idle entries keep their order |
| LruCaches.LRUCache.Release | FamilyNight/Pods/leveldb-library/util/cache.cc:261-264 | One pin less, with the same effects as dropping a reference |
| LruCaches.LRUCache.Insert | FamilyNight/Pods/leveldb-library/util/cache.cc:266-303 | The entry replaces one with its key, and is in the table unless the capacity is zero; afterwards the usage is within capacity or nothing is idle; the victims are the oldest idle entries, deleted in that order, and with one fewer the usage would be above the capacity |
| LruCaches.LRUCache.FinishErase | FamilyNight/Pods/leveldb-library/util/cache.cc:307-316 | An entry taken from the table leaves its list and is deleted at once exactly when it was idle |
| LruCaches.LRUCache.Erase | FamilyNight/Pods/leveldb-library/util/cache.cc:318-321 | Exactly the entries with the key leave the table; an idle one is deleted, a pinned one stays pinned |
| LruCaches.LRUCache.Prune | FamilyNight/Pods/leveldb-library/util/cache.cc:323-333 | All idle entries are deleted, oldest first, and no others |
| SnapshotLists.SnapshotList.New | FamilyNight/Pods/leveldb-library/db/snapshot.h:57-72 | The snapshot is linked in last; numbers stay in order |
| SnapshotLists.SnapshotList.Delete | FamilyNight/Pods/leveldb-library/db/snapshot.h:79-86 | Exactly the snapshot is unlinked, wherever it stands |
| SnapshotLists.SnapshotList.Oldest | FamilyNight/Pods/leveldb-library/db/snapshot.h:47-50 | The first of the list has the least number |
| SnapshotLists.SnapshotList.Newest | FamilyNight/Pods/leveldb-library/db/snapshot.h:51-54 | The last of the list has the greatest number |
| WriteBatches.WriteBatch.Put | FamilyNight/Pods/leveldb-library/db/write_batch.cc:98-103 | The batch gains a put; its bytes stay its encoding |
| WriteBatches.WriteBatch.Delete | FamilyNight/Pods/leveldb-library/db/write_batch.cc:105-109 | The batch gains a deletion |
| WriteBatches.WriteBatch.Append | FamilyNight/Pods/leveldb-library/db/write_batch.cc:144-148 | The batch gains the other batch's operations in order and keeps its own number |
| WriteBatches.WriteBatch.SetSequence | FamilyNight/Pods/leveldb-library/db/write_batch.cc:94-96 | Only the number changes |
| WriteBatches.WriteBatch.InsertInto | FamilyNight/Pods/leveldb-library/db/write_batch.cc:42-80 | On any bytes: the operations that can be read are applied in order with consecutive numbers, and success means all were read and their count is right |
| WriteBatches.BatchRoundTrip | FamilyNight/Pods/leveldb-library/db/write_batch.cc:42-109 | Number, count and operations are read back as they were written |
| Layouts.BatchIs | FamilyNight/Pods/leveldb-library/db/write_batch.cc:5-14 | A batch in figures: eight bytes of number, four of count, the operations |
| Layouts.OperationIs | FamilyNight/Pods/leveldb-library/db/write_batch.cc:98-109 | A put is 1 and two length-prefixed strings, a deletion 0 and one |
| Layouts.ParsesUpTo | FamilyNight/Pods/leveldb-library/db/write_batch.cc:42-80 | Operations in front of bytes that cannot be read are applied |
| Layouts.RefusesOp | FamilyNight/Pods/leveldb-library/db/write_batch.cc:42-80 | Tags from 2 on, and every operation that is cut short, end the batch with an error |
| WriteQueue.BuildBatchGroup | FamilyNight/Pods/leveldb-library/db/db_impl.cc:1260-1306 | In figures: all the requests ride up to the first that asks for a sync the leader does not do or whose batch brings the sizes above the leader's plus 131072, or above 1048576 for a leader above 131072; their operations in order of arrival |
| WriteQueue.GroupExactly | FamilyNight/Pods/leveldb-library/db/db_impl.cc:1260-1306 | The same for the groups that the protocol allows |
| WriteQueue.AllRide | FamilyNight/Pods/leveldb-library/db/db_impl.cc:1260-1306 | A queue whose sizes fit and that needs no sync its leader does not do goes as one group |
| WriteQueue.SyncLeads | FamilyNight/Pods/leveldb-library/db/db_impl.cc:1280-1284 | No sync write rides in a group whose leader does not sync |
| WriteQueue.StepKeeps | FamilyNight/Pods/leveldb-library/db/db_impl.cc:1185-1256 | Every step of any writer, inside or outside the mutex, keeps the invariant of queue, log, memtable and durability |
| WriteQueue.RunKeeps | FamilyNight/Pods/leveldb-library/db/db_impl.cc:1185-1256 | So does every interleaving of steps that the code allows |
| WriteQueue.GroupsCommitInOrder | FamilyNight/Pods/leveldb-library/db/db_impl.cc:1185-1256 | In every interleaving the log is the batches in order of arrival, each once, with contiguous numbers; the memtable holds the same; and a writer returns only after its batch is in both, and on disk if it asked |
| Draining.AllReturn | FamilyNight/Pods/leveldb-library/db/db_impl.cc:1185-1256 | From every state of the protocol some run without further calls ends with the queue empty and every call returned: nothing gets stuck |
| NullWrites.NullIsAbsorbed | FamilyNight/Pods/leveldb-library/db/db_impl.cc:1260-1306 | A write without a batch that waits behind a leader is completed with the leader's group, without having made room, if and only if every request before it is taken and it asks for a sync only when the leader does |
| NullWrites.SwitchIsSkipped | FamilyNight/Pods/leveldb-library/db/db_impl.cc:1185-1256 | A run from the empty queue in which a forced memtable switch returns although no step of the run made room for it |
| Recovery.RecoverLogFile | FamilyNight/Pods/leveldb-library/db/db_impl.cc:371-489 | On any bytes, with or without paranoid checks: the memtable entries, greatest number and status that the definition of replay gives |
| Recovery.ReplaysRecords | FamilyNight/Pods/leveldb-library/db/db_impl.cc:400-441 | Without paranoid checks recovery of any file never fails, and applies, of the records that the reader delivers, all operations that can be read |
| Recovery.ParanoidReplays | FamilyNight/Pods/leveldb-library/db/db_impl.cc:371-441 | With paranoid checks it succeeds exactly when nothing was dropped and every record is a whole batch of at least 12 bytes with the right count, and then does the same |
| Recovery.AppliedIs | FamilyNight/Pods/leveldb-library/db/db_impl.cc:418-441 | What one record does to memtable, status and greatest number, in figures |
| Recovery.CrashRecovers | FamilyNight/Pods/leveldb-library/db/db_impl.cc:371-489 | After any run of concurrent writers and a crash that leaves any file prefix holding the synced records, recovery yields without error the operations of a whole number of commit groups: a prefix of the calls in order of arrival with no completed sync write missing |
| PbWire.ZigzagRoundTrip | FamilyNight/Pods/nanopb/pb_encode.c:630-639 | Zigzag is a bijection between the signed and the unsigned 64-bit numbers |
| PbWire.SignedRoundTrip | FamilyNight/Pods/nanopb/pb_decode.c:1339-1373 | A signed number cast to an unsigned word and back is itself, also through the cast to 32 bits for narrow fields |
| PbWire.ShortVarint32 | FamilyNight/Pods/nanopb/pb_decode.c:187-247 | A varint of up to five bytes is read exactly or refused for being too large; nothing is truncated |
| PbWire.ReadsVarint32 | FamilyNight/Pods/nanopb/pb_decode.c:187-247 | What the encoder writes below 2^32 is read back |
| PbWire.RefusesLong | FamilyNight/Pods/nanopb/pb_decode.c:240-244 | A length or tag of 33 to 35 bits is refused |
| PbBytes.ReadsNegative32 | FamilyNight/Pods/nanopb/pb_decode.c:187-247 | The ten bytes of a negative 32-bit number are read as that number by the 32-bit rules |
| PbMessages.SlotInside | FamilyNight/Pods/nanopb/pb_common.c:20-76 | The data pointer of every field stays inside the message |
| PbMessages.SharedMemory | FamilyNight/Pods/nanopb/pb_common.c:20-76 | Two fields have the same data pointer exactly when all from the first to the second are members of one union, each joined to the one before it |
| PbIterators.FieldIter.Next | FamilyNight/Pods/nanopb/pb_common.c:20-76 | On to the next field, with the data pointer and the number of required fields passed being functions of the position, or back to the first |
| PbIterators.FieldIter.Find | FamilyNight/Pods/nanopb/pb_common.c:78-95 | Once around from any position: it stands on a field with the tag if there is one and where it started if not |
| PbIterators.SetToDefaults | FamilyNight/Pods/nanopb/pb_decode.c:911-922 | Every field in turn is set to its default, submessages recursively |
| PbIterators.SetFieldToDefault | FamilyNight/Pods/nanopb/pb_decode.c:839-909 | What the default does to has-flag, count, selector and value |
| PbAgreement.DefaultsFresh | FamilyNight/Pods/nanopb/pb_decode.c:839-922 | Any laid-out memory is fresh afterwards: nothing present, no items, no member selected, every value its default |
| PbAgreement.AllZeroAgrees | FamilyNight/Pods/nanopb/pb_encode.c:240-337 | A message that the zero check lets the encoder leave out agrees with the defaults if and only if every field without a has-flag has the zero value as its default |
| PbAgreement.ReturnsAgreeing | FamilyNight/Pods/nanopb/pb_encode.c:240-337 | A message that comes back with its left-out fields at their defaults agrees with the original if and only if every field without a has-flag, through all nesting, is written or has a zero default |
| PbAgreement.ZeroDefaultsSurvive | FamilyNight/Pods/nanopb/pb_decode.c:839-922 | In a schema where no field without a has-flag has a default other than zero, that holds of every message |
| PbStreams.OutStream.Write | FamilyNight/Pods/nanopb/pb_encode.c:103-125 | Succeeds exactly when the data fits or the stream only counts, and then the buffer gains exactly the data |
| PbStreams.OutStream.EncodeVarint | FamilyNight/Pods/nanopb/pb_encode.c:608-628 | The loop that clears the last high bit writes the varint |
| PbStreams.OutStream.EncodeSvarint | FamilyNight/Pods/nanopb/pb_encode.c:630-639 | The shift and complement of the 64-bit word is the zigzag number |
| PbStreams.InStream.Read | FamilyNight/Pods/nanopb/pb_decode.c:102-137 | The next bytes, or failure exactly when too few are left |
| PbStreams.InStream.DecodeVarint32 | FamilyNight/Pods/nanopb/pb_decode.c:187-247 | On any bytes, the value and rest that the 32-bit rules give, sign extensions included |
| PbStreams.InStream.DecodeVarint | FamilyNight/Pods/nanopb/pb_decode.c:255-275 | On any bytes, up to ten of them, cut to 64 bits |
| PbStreams.InStream.MakeSubstream | FamilyNight/Pods/nanopb/pb_decode.c:372-402 | A length and that many bytes become a stream of their own, and the outer stream goes on behind them |
| PbEncoders.EncodeScalar | FamilyNight/Pods/nanopb/pb_encode.c:769-850 | The bytes of a number by the kind and size of its field, or the invalid-size error |
| PbEncoders.EncodeValue | FamilyNight/Pods/nanopb/pb_encode.c:852-913 | The bytes of any value by the kind of its field, with the size errors |
| PbBytes.KeyIs | FamilyNight/Pods/nanopb/pb_encode.c:669-705 | The key of a field: 8 times its tag plus 0, 1, 2 or 5 by its kind |
| PbBytes.ScalarIs | FamilyNight/Pods/nanopb/pb_encode.c:769-850 | The bytes of every number in figures: varints, two's complement, zigzag and little-endian words |
| PbBytes.DataIs | FamilyNight/Pods/nanopb/pb_encode.c:852-913 | The bytes of bytes and of text up to its NUL, behind their length |
| PbEncoders.EncodeSubmessage | FamilyNight/Pods/nanopb/pb_encode.c:717-765 | Sizing first and then writing through a substream yields the length and the bytes of the message, and the size never changes in between |
| PbEncoders.EncodeArray | FamilyNight/Pods/nanopb/pb_encode.c:147-236 | The bytes of an array, packed with its exact size or entry by entry, or the array-size error |
| PbEncoders.EncodeField | FamilyNight/Pods/nanopb/pb_encode.c:341-426 | The bytes of a field when it is present by its has-flag, zero check, count or selector, and none otherwise |
| PbLaws.LeftOutIs | FamilyNight/Pods/nanopb/pb_encode.c:240-337 | A value without a has-flag is left out exactly when it is 0, empty or of length 0 |
| PbLaws.NestedLeftOut | FamilyNight/Pods/nanopb/pb_encode.c:311-337 | A submessage without a has-flag is left out exactly when none of its fields would be written |
| PbLaws.SubmessageLeftOut | FamilyNight/Pods/nanopb/pb_encode.c:311-337 | So for the field that holds the submessage |
| PbEncoders.Encode | FamilyNight/Pods/nanopb/pb_encode.c:528-550 | Succeeds exactly when the message can be written and fits the stream, and then the stream has gained exactly its bytes |
| PbDecoders.SkipOverField | FamilyNight/Pods/nanopb/pb_decode.c:321-331 | An unknown field is skipped by its wire type, or refused for a bad type or missing bytes; `PbSkip` says what that is in bytes |
| PbSkip.SkipsPayload | FamilyNight/Pods/nanopb/pb_decode.c:321-331 | For wire types 0, 1, 2 and 5: a varint, eight bytes, a length with as many bytes, and four bytes are skipped whole |
| PbSkip.RefusesSkip | FamilyNight/Pods/nanopb/pb_decode.c:321-331 | All other wire types are refused, and so are fields cut short |
| PbSkip.UnknownIsSkipped | FamilyNight/Pods/nanopb/pb_decode.c:928-1002 | A field with a tag that is not in the schema, with any payload of its wire type, changes nothing |
| PbSkip.ForeignIsSkipped | FamilyNight/Pods/nanopb/pb_decode.c:928-1002 | All bytes of any well-formed message of another schema without a tag in common change nothing, wherever they stand |
| PbSkip.ReadsAmongForeign | FamilyNight/Pods/nanopb/pb_decode.c:928-1090 | So a message with such fields in front is read as without them |
| PbDecoders.DecodeInteger | FamilyNight/Pods/nanopb/pb_decode.c:1339-1422 | The value cast to the field's size, refused exactly when the cast would change it |
| PbBytes.StoredIs | FamilyNight/Pods/nanopb/pb_decode.c:1339-1422 | The number stored and the refusals in figures, for each size of the C types |
| PbBytes.BoolReads | FamilyNight/Pods/nanopb/pb_decode.c:1328-1337 | Every varint but 0 is read as true |
| PbDecoders.DecodeData | FamilyNight/Pods/nanopb/pb_decode.c:1441-1564 | Bytes, terminated string or fixed-length bytes, refused exactly when too long, of the wrong length or cut short |
| PbBytes.BytesFit | FamilyNight/Pods/nanopb/pb_decode.c:1441-1480 | Bytes are taken exactly when they fit behind their four-byte count |
| PbBytes.TextFits | FamilyNight/Pods/nanopb/pb_decode.c:1481-1517 | Text is taken exactly when it fits with its NUL, over the front of the array |
| PbBytes.FixedLengthFits | FamilyNight/Pods/nanopb/pb_decode.c:1543-1564 | Fixed-length bytes are taken exactly at their length, or cleared when there are none |
| PbDecoders.DecodeSubmessage | FamilyNight/Pods/nanopb/pb_decode.c:1519-1541 | The message that the substream's bytes make of the memory there, starting from the defaults for a new array entry |
| PbBytes.SubmessageContinues | FamilyNight/Pods/nanopb/pb_decode.c:1519-1541 | A single submessage is laid over the one that is there, an array entry over the defaults |
| PbDecoders.DecodePacked | FamilyNight/Pods/nanopb/pb_decode.c:432-452 | The items of a packed array, refused when one is bad or there are too many |
| PbLaws.PackedIsUnpacked | FamilyNight/Pods/nanopb/pb_decode.c:420-483 | Entries with keys of their own mean the same as a packed array: the array gains them |
| PbLaws.TooManyRefused | FamilyNight/Pods/nanopb/pb_decode.c:455-483 | An entry without room is refused |
| PbLaws.PackedTooManyRefused | FamilyNight/Pods/nanopb/pb_decode.c:432-452 | A packed array with more entries than there is room for is refused |
| PbDecoders.DecodeField | FamilyNight/Pods/nanopb/pb_decode.c:406-483 | What a field's bytes do to its has-flag, count, selector and memory, by the rule of the field |
| PbLaws.LastOneCounts | FamilyNight/Pods/nanopb/pb_decode.c:406-431 | Of two values of a field the last one counts |
| PbLaws.OneofReplaces | FamilyNight/Pods/nanopb/pb_decode.c:462-478 | A member of a union replaces the member before it and is selected |
| PbDecoders.DecodeTag | FamilyNight/Pods/nanopb/pb_decode.c:298-319 | Tag and wire type, the zero that ends a message, or a failure |
| PbLaws.ZeroEnds | FamilyNight/Pods/nanopb/pb_decode.c:298-319 | A zero byte in place of a key ends the message there |
| PbDecoders.DecodeNoInit | FamilyNight/Pods/nanopb/pb_decode.c:928-1076 | On any bytes, ending because bytes run out: the message that the fields read in turn make of the memory, with the checks for fixed counts and required fields |
| PbLaws.MissingIsRefused | FamilyNight/Pods/nanopb/pb_decode.c:1034-1070 | Bytes in which the key of one of the first 64 required fields does not occur are refused |
| PbLaws.UnfilledIsRefused | FamilyNight/Pods/nanopb/pb_decode.c:1016-1032 | A fixed-count array that is not full at the end is refused |
| PbLaws.UnfinishedIsRefused | FamilyNight/Pods/nanopb/pb_decode.c:996-1010 | While a fixed-count array is not full, no entry of another one is taken |
| PbLaws.EmptySchemaReads | FamilyNight/Pods/nanopb/pb_decode.c:959-989 | Only for a schema without fields does tag 0 stand for a field: its varint is passed over, whatever the wire type |
| PbDecoders.CountRequired | FamilyNight/Pods/nanopb/pb_decode.c:1034-1051 | The number of required fields, from wherever the iterator stands |
| PbDecoders.Decode | FamilyNight/Pods/nanopb/pb_decode.c:1078-1090 | The same after setting the defaults |
| PbRoundTrip.MessageWritten | FamilyNight/Pods/nanopb/pb_encode.c:528-550 | Every well-formed message can be encoded |
| PbRoundTrip.ValueReads | FamilyNight/Pods/nanopb/pb_decode.c:1328-1564 | Every well-formed value is read back from its bytes, with the rest left over |
| PbRoundTrip.StringRoundTrip | FamilyNight/Pods/nanopb/pb_decode.c:1481-1517 | A char array that is written is read back if and only if it holds a NUL; then the strings agree |
| PbRoundTrip.RoundTrip | FamilyNight/Pods/nanopb/pb_decode.c:928-1090 | For every valid schema and well-formed message, and any memory, decoding what was encoded succeeds and uses up the bytes; the result agrees on every present field, count, has-flag and selector, through all nesting, if and only if every field without a has-flag is written or has a zero default |
| PbRoundTrip.ZeroReturnsAsDefault | FamilyNight/Pods/nanopb/pb_encode.c:240-337 | A zero in a submessage's field with the default 7 and no has-flag is not written and comes back as 7 |
| PbSafety.DefaultsSound | FamilyNight/Pods/nanopb/pb_decode.c:839-922 | Setting the defaults keeps sound memory sound |
| PbSafety.DecodedIsOk | FamilyNight/Pods/nanopb/pb_decode.c:928-1090 | Whatever the bytes, a decoding that succeeds leaves counts, sizes, terminators and selectors in bounds, and a message that can be encoded again |
| PbCopies.Copy | FamilyNight/Pods/nanopb/pb_encode.c:528-550 | Encoding into a buffer and decoding what it holds fails only when the buffer is too small, and gives an agreeing message under exactly that condition on defaults |

## Left out

Parts of the repository:

- The Swift application, Firebase, the fetcher libraries and BoringSSL: user interface, clients and tables.
- I/O errors, background errors, file deletion, locks and the environment: files are byte strings, and every operation on them succeeds. `DeleteObsoleteFiles` and the order of `DBImpl::Recover` around the replay of one log are not modelled.
- When to compact: scores, seek counters, read samples and the upkeep of compact pointers; which level and file are due is a parameter, and where outputs are cut is left open (the size and grandparent limits are arbitrary functions).
- A flush inside a running compaction: flush and compaction are separate steps.
- The table footer, the meta index block and block compression; the index handle is passed on directly, and other blocks in front of it are arbitrary bytes.
- The block cache and table cache in front of the readers, the shards of the cache, and its destructor.
- Reading logs from an offset other than 0, and everything `repair.cc` and `dumpfile.cc` do.
- CRC32C and the Bloom hash: any function that extends over concatenation, and any function at all.
- Weak memory orderings: the skip list and the writers interleave step by step.
- nanopb callbacks, extensions, pointer fields and `PB_WITHOUT_64BIT`.
- Integer widths of lengths in memory: sizes of buffers, files and arrays are unbounded except where a format stores them.

Members whose contracts say less than the code does:

- Database.Db.Write: asks that the last sequence number stays below the largest one; the source does not check, and 2^56 writes are out of reach.
- Database.LogAndApply: asks that no file number is added to a level that holds it; the code takes every number from a counter.
- VersionBuilder.Builder.Apply: the same, for all edits applied so far.
- VersionBuilder.SaveLevel: the same, for the base and the added files.
- Database.MergeFiles: the merging iterator runs over one cursor for every file; the source puts the files of a level above 0 behind one concatenating iterator, which `TwoLevel` covers.
- Database.Db.BackgroundCompaction: whether the overlap with the level two below allows a move is a parameter; the part of a manual range left over is not asked for again.
- Compaction.DoCompactionWork: entries are parsed internal keys, so the branch for corrupted keys is missing.
- DbIterator.DbIter.Prev: in reverse the inner cursor may stand further back than just before the entry shown; only entries that are not shown lie between.
- Merging.MergingIterator.Seek: like all members of the iterator, asks for children with pairwise distinct keys, as internal keys are.
- SkipLists.SkipList.Insert: nodes are named by their keys, the drawn height is a parameter, and a search may start on any level, which covers a stale maximum height.
- BlockFormat.DecodesEntry: the sum of the two lengths is not cut to 32 bits, which only a corrupted entry could need.
- BlockIterators.BlockIter.Next: like all members of the iterator, speaks of blocks that a builder wrote.
- BlockIterators.BlockIter.ParseNextKey: the branch for a corrupted entry is asserted to be unreachable on such a block.
- BlockIterators.BlockIter.Seek: the branches for corrupted entries are asserted to be unreachable on a built block.
- Tables.OpenBlock: the handle is one at which a block was stored; other bytes are covered by the block format's checksum only.
- Tables.InternalGet: the table is one that the builder wrote.
- TableBuilders.TableBuilder.Finish: the footer and the metaindex block are arbitrary bytes.
- LruCaches.LRUCache.Insert: the deleters called are kept as a list of entries; values and the total of charges in other shards are left out.
- Bloom.BloomFilterPolicy.constructor: the number of probes is computed with real arithmetic from the bits per key, not in floating point.
- EditCodec.EditRoundTrip: strings need to be shorter than 2^32 bytes, the longest length that the format can store.
- Manifest.ReplayStep: asks that the edit adds no file number to a level that has held it.
- Manifest.Recover: the same, for all edits of the records.
- Manifest.VersionSet.LogAndApply: asks that no file number is added to a level again once present; compact pointers of the version state are not part of the edit.
- Recovery.CrashRecovers: one log file.
- Recovery.RecoverLogFile: entries go to one memtable; when it grows over the limit the source writes it out as a table and starts another.
- WriteQueue.GroupsCommitInOrder: making room happens in other steps of the store; the queue model has no failing log or sync.
- PbEncoders.Encode: says nothing about the bytes already in the buffer after a failure.
- PbDecoders.DecodeNoInit: says nothing about the memory after a failure; the set of required fields seen stands for the two 32-bit words that hold it; a bit position that wraps around in a varint of 37 or more bytes is not modelled; the terminator of an empty schema is met by tag 0 as in the source, but the byte it then overwrites is not modelled.
- PbIterators.SetFieldToDefault: the count of zero that the source writes over the first bytes of a fixed-count array is not modelled; such an array keeps its contents.
- PbIterators.FieldIter.Next: the pointers into the message are slot numbers; offsets, padding and alignment are not modelled.
- PbAgreement.DefaultsFresh: memory that another union member used last reads as zeros.
