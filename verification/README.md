# Barista, modelled and proved in Dafny

Barista is a build tool for Maven projects. This project models the parts of it whose correctness is hardest to see from
the code and proves what they promise:

- the **artifact cache**: an append-only, checksummed journal and an atomically renamed snapshot behind an in-memory
  index; a content-addressed blob store beside it; garbage collection, recovery, hard-link mirrors, locks and the fetch
  pipeline;
- the **calendar arithmetic** behind build timestamps, in its unsigned and its signed form;
- the **`settings.xml` reader**, a set of event loops that should compute a function of the element tree;
- the **promotion of finding drafts**, a frontmatter parser and a textual rewrite that have to agree.

`dafny verify dfyconfig.toml` checks everything.

## How it is laid out

| files | what they hold |
|---|---|
| `Bytes`, `Records`, `Codec`, `KeyOrder` | bytes, index keys and entries, a concrete payload codec, the order of keys |
| `Framing`, `Mutations`, `IndexFiles`, `CrashSafety`, `IndexRuns`, `CrashRuns` | journal frames and scanning, replay, opening, crashes, whole runs of one handle with any number of crashes |
| `DiskStates`, `Disk` | the list of file states every operation passes through, and the disk that records them |
| `Journal`, `Index`, `MultiWriter`, `WriterOutcomes` | the journal and index objects, many writers at once and what each gets done |
| `BufferedReader`, `BufferedOpen` | replaying and opening through the 8192-byte read buffer |
| `BlobStore`, `CasProtocol`, `CasOutcomes`, `CasEntries`, `GcSpec`, `Gc`, `Recovery`, `Mirrors` | blobs, concurrent storing and what it owes its callers, the walk over the stored objects, collection, the recovery scan, mirrors |
| `Hex`, `Text`, `Sidecar`, `RemoteCache`, `CoordLocks`, `SingleFlight`, `FetchOutcomes`, `LockPolling` | digests, checksum sidecars, the remote cache, locks and the fetch pipeline |
| `Calendar`, `Decimals`, `Timestamps` | day counts, decimal text, timestamps |
| `XmlEvents`, `SettingsXml`, `SettingsFields`, `SettingsRecords` | XML events and trees, the settings reader, what each field of each record holds |
| `Findings`, `FindingIds` | frontmatter and promotion, id allocation |

Objects that the program updates in place (the disk, the journal, its iterator, the index, the object iterator, the lock
map, the event reader) are classes whose methods are proved against functions on values; the theorems are about those
functions. A disk keeps the sequence of all the states it has been in. The methods say exactly what they add to that
sequence, and the crash theorems range over exactly those states.
Protocols with several participants are state machines over single steps, and their theorems range over every
interleaving. SHA-256, SHA-1 and CRC-32 are arbitrary functions, so nothing depends on their values; results that would
need collision freedom say "equal, or a collision". The journal payload codec is an arbitrary codec with the proved laws
of the concrete one in `Codec`. Collection and recovery start from a blob store whose objects are complete and named by
their hash, which is what `CasProtocol` proves of every interleaving.

## What turned out differently from what the code suggests

- **Coordinates that do not survive storage.** Coordinates are stored as `group:artifact`. A key whose group or artifact
  is empty or holds a colon is accepted by the journal and refused by every later open
  (`CrashSafety.UnstorableBlocksOpen`); `IndexRuns.MutateAgreesIff` says exactly when memory and disk still agree.
- **A length prefix is read with one buffered read.** At the end of a buffer it can come back short, and an intact
  journal is then taken for a torn one. A recovering open cuts off the records from there on, although they were
  acknowledged: `BufferedOpen.StandardCodecLosesRecord` gives such a journal of two records for the 8192-byte buffer.
  `BufferedOpen.RecoveringOpenIff` says for arbitrary files exactly when the buffer makes no difference,
  `BufferedOpen.IntactOpenIff` for intact journals. `OpenIndex` opens through the buffer. The crash results of
  `CrashSafety`, `IndexRuns` and `CrashRuns` are about the open that reads a prefix short only at the end of the file.
- **A mutation can fail and be in.** When the compaction behind a mutation is refused its lock the call reports an
  error, though the mutation is in memory and on disk (`IndexHandle.OutcomeMeans`).
- **Shared blobs.** Two rows may share one blob and a collection pass removes it for the first of them;
  `Recovery.GcThenScan` says which rows are left without one and that the scan drops exactly those.
- **A root that is not `settings`.** A comment says the reader looks for a `settings` element inside it; the code skips
  the whole element, and the model follows the code (`SettingsXml.NoSettingsGivesDefaults`).
- **The raw id line.** A comment says it keeps trailing whitespace; the code trims it, and the model follows the code.
- **The last good offset.** It is documented as lying past the last decoded record; the code also moves it past a record
  whose checksum is right but whose payload does not decode. Such a record is not recoverable, so nothing is cut there.
- **The last digest check of the remote cache cannot fail** (`RemoteCache.TryRemote`).
- **The signed day-count formula adds the year in 32 bits.** A build that wraps is exact exactly while the year fits
  (`Calendar.WrappingExact`). A build with overflow checks faults on some of the earliest years that do fit
  (`Calendar.CheckedExact`, `Calendar.FaultAtFittingYear`).

## Model

| member | source | states |
|---|---|---|
| `Records.CoordsRoundTrip` | crates/barista-coords/src/lib.rs:117-139 | coordinates read back from their text if and only if both parts are non-empty and free of colons |
| `Codec.MutationRoundTrip` | crates/barista-cache/src/journal.rs:579-600 | a journal payload decodes to the mutation it encodes exactly when its coordinates are storable, and to nothing otherwise |
| `Codec.RowsRoundTrip` | crates/barista-cache/src/index.rs:452-553 | a snapshot payload decodes to the rows it encodes exactly when all of them are storable |
| `Codec.StandardIsLawful` | crates/barista-cache/src/journal.rs:579-600 | the concrete codec has every law the other modules assume of the codec |
| `KeyOrder.KeyTotal` | crates/barista-cache/src/index.rs:75-86 | keys are totally ordered, field by field |
| `KeyOrder.KeyTransitive` | crates/barista-cache/src/index.rs:75-86 | the key order is transitive |
| `KeyOrder.KeyLeMeans` | crates/barista-cache/src/index.rs:75-86 | group, artifact, version, type and classifier decide in this order, and no classifier comes before any |
| `KeyOrder.BytesLeMeans` | crates/barista-cache/src/index.rs:75-86 | each of them is compared as in a dictionary |
| `KeyOrder.FromSortedRows` | crates/barista-cache/src/index.rs:400-406 | listing a map in key order and inserting the rows again gives the map back |
| `Framing.HeaderAccepted` | crates/barista-cache/src/journal.rs:535-577 | a written header passes validation whatever follows it |
| `Framing.HeaderFaultMeans` | crates/barista-cache/src/journal.rs:542-577 | for arbitrary bytes: a file passes validation if and only if it has ten bytes and starts with "BCAS" and version 1; otherwise which of the three errors it gets, and the version reported |
| `Framing.ReadFrame` | crates/barista-cache/src/journal.rs:361-411 | a framed mutation is read back as itself, or reported undecodable with its size if its coordinates are not storable |
| `Framing.ReadTorn` | crates/barista-cache/src/journal.rs:622-690 | a proper non-empty prefix of a frame is always reported truncated, never a record and never a checksum error |
| `Framing.ScanImage` | crates/barista-cache/src/journal.rs:622-690 | scanning a log and more bytes yields the log and then what the bytes yield |
| `Framing.ScanCut` | crates/barista-cache/src/journal.rs:622-690 | scanning a log cut at any byte yields exactly the records wholly before the cut, the offset after the last of them, and a truncation iff the cut is not on a boundary |
| `Framing.WholeIsLargest` | crates/barista-cache/src/journal.rs:604-617 | the records wholly before a cut are the longest prefix of the log that fits |
| `Mutations.ReplayConcat` | crates/barista-cache/src/index.rs:277-300 | replaying two logs in turn is replaying their concatenation |
| `Mutations.ReplayIsNetEffect` | crates/barista-cache/src/index.rs:277-300 | replay gives each key the net effect of the log on it, independent of the other keys |
| `Mutations.ReplayIdempotent` | crates/barista-cache/src/index.rs:268-300 | replaying a log on top of its own result changes nothing |
| `IndexFiles.ScanExtends` | crates/barista-cache/src/journal.rs:622-690 | appending bytes to a file that scans cleanly appends what they scan to |
| `IndexFiles.ScanGoodPart` | crates/barista-cache/src/journal.rs:611-690 | for arbitrary bytes, cutting at the last good offset leaves the same mutations and no fault |
| `IndexFiles.RecoverThenStrict` | crates/barista-cache/src/index.rs:258-322 | for arbitrary files, whatever a recovering open accepts a strict open accepts afterwards with the same rows and count |
| `IndexFiles.StrictOpenAgrees` | crates/barista-cache/src/index.rs:235-322 | a strict open that succeeds is what a recovering open would have done |
| `IndexFiles.OpenedRowsStorable` | crates/barista-cache/src/index.rs:258-322 | every row an open rebuilds has storable coordinates |
| `IndexFiles.OpenOnlyFormat` | crates/barista-cache/src/index.rs:235-322 | for arbitrary files, strict or recovering: an open succeeds only if the snapshot, when there is one, starts that way and the journal is missing, empty or starts that way |
| `CrashSafety.SnapshotRoundTrip` | crates/barista-cache/src/index.rs:452-553 | a snapshot loads back to the rows it was written from iff all are storable, and is malformed otherwise |
| `CrashSafety.TornTailIsExact` | crates/barista-cache/src/index.rs:277-311 | for every log and every cut at or past the header, a recovering open yields the rows of exactly the records before the cut, ends the file there, reports truncation iff the cut missed a boundary, and a strict open afterwards agrees |
| `CrashSafety.DamagedRecord` | crates/barista-cache/src/journal.rs:651-690 | for every log followed by a record of any payload and checksum and by anything else: if the checksum is wrong a recovering open keeps exactly the log and cuts the file there, and a strict one names the offset; if it is right and the payload does not decode no open succeeds |
| `CrashSafety.CompletedAppend` | crates/barista-cache/src/journal.rs:361-411 | one more whole record makes disk agree with one more applied mutation and one more count |
| `CrashSafety.InterruptedAppend` | crates/barista-cache/src/journal.rs:361-411 | part of a record makes a strict open refuse and a recovering open restore the files from before |
| `CrashSafety.AppendCrashSafe` | crates/barista-cache/src/journal.rs:361-411 | a crash at any byte of an append leaves the old rows, or the new ones once the whole record is there |
| `CrashSafety.UnstorableBlocksOpen` | crates/barista-cache/src/index.rs:327-340 | once a mutation with unstorable coordinates is appended no open succeeds, recovering or not |
| `CrashSafety.CompactCrashSafe` | crates/barista-cache/src/index.rs:410-416 | a crash anywhere in a compaction leaves files from which any open rebuilds exactly the rows from before, or refuses over 1 to 9 bytes of header |
| `CrashSafety.OpenCrashSafe` | crates/barista-cache/src/index.rs:258-322 | for arbitrary files, a recovering open can be stopped anywhere and the next one rebuilds the same rows and count, or refuses over 1 to 9 bytes of header |
| `IndexRuns.StepAgrees` | crates/barista-cache/src/index.rs:327-376 | every operation keeps memory, counter and disk in agreement whatever the lock answers, and leaves the counter below any positive threshold after a mutation |
| `IndexRuns.CompactAgrees` | crates/barista-cache/src/index.rs:410-416 | compaction keeps agreement even when its truncation is refused the lock |
| `IndexRuns.MutateAgreesIff` | crates/barista-cache/src/index.rs:327-376 | the exact condition under which a mutation of any key keeps agreement |
| `IndexRuns.RunAgrees` | crates/barista-cache/src/index.rs:258-446 | after every run of put, remove, touch, compact, threshold change and reopen, replaying the disk gives the memory and the counter |
| `IndexRuns.CrashSurvives` | crates/barista-cache/src/index.rs:327-446 | a crash at any byte of any operation leaves the rows from before or after it, or a partial header |
| `IndexRuns.RunCrashSurvives` | crates/barista-cache/src/index.rs:258-446 | the same after any run |
| `IndexRuns.CrashCases` | crates/barista-cache/src/index.rs:327-446 | what each operation can leave behind when stopped: the files from before, a torn record of an accepted mutation, or a state of the compaction behind it |
| `CrashRuns.EveryLife` | crates/barista-cache/src/index.rs:258-446 | over any number of operations, crashes at any byte and recovering opens, themselves cut short any number of times: memory and disk agree whenever the handle is up, the rows are those of every completed operation in order with each interrupted one done or not, and an open that is refused is refused over 1 to 9 bytes of header |
| `DiskStates.GrowingIsTornAppend` | crates/barista-cache/src/journal.rs:361-411 | the states a write passes through are exactly the files with some prefix of it appended |
| `DiskStates.HeaderStatesAreTorn` | crates/barista-cache/src/journal.rs:535-540 | the states of writing a header are exactly the files with some prefix of it |
| `DiskStates.CompactStatesAreCrashes` | crates/barista-cache/src/index.rs:410-416 | the states a compaction passes through are exactly those `CrashSafety.CompactCrashSafe` speaks of |
| `DiskStates.OpenStatesAreCrashes` | crates/barista-cache/src/index.rs:258-322 | the states a successful recovering open passes through are exactly those `CrashSafety.OpenCrashSafe` speaks of |
| `DiskStates.RefusedOpenStates` | crates/barista-cache/src/index.rs:258-322 | an open that is refused leaves the files as they were at every moment |
| `JournalFile.Journal.WriteHeader` | crates/barista-cache/src/journal.rs:535-540 | the header is written; the states on the way are exactly its prefixes, in order |
| `JournalFile.Journal.Open` | crates/barista-cache/src/journal.rs:296-350 | a missing or empty file gets a header, any other is left alone and accepted exactly when it starts with the magic and the version; exactly which states are passed, also when the lock is refused |
| `JournalFile.Journal.Append` | crates/barista-cache/src/journal.rs:361-411 | the record goes to the end of the file and its offset comes back; oversized payloads and lock timeouts change nothing; the states on the way are exactly the prefixes of the record |
| `JournalFile.Journal.TruncateTo` | crates/barista-cache/src/journal.rs:464-486 | the file is cut or extended to the offset, but never into the header |
| `JournalFile.Journal.Truncate` | crates/barista-cache/src/journal.rs:490-517 | the file becomes a bare header; exactly which states are passed |
| `JournalFile.JournalIter.Read` | crates/barista-cache/src/journal.rs:628-634 | one read returns at most what is buffered and refills an empty buffer first |
| `JournalFile.JournalIter.ReadExact` | crates/barista-cache/src/journal.rs:651-664 | reading on until the count is reached succeeds iff the file has that many bytes, and leaves the buffer at the level the replay functions compute |
| `JournalFile.JournalIter.ReadRecord` | crates/barista-cache/src/journal.rs:651-678 | payload and checksum behind a length |
| `JournalFile.JournalIter.NextRecord` | crates/barista-cache/src/journal.rs:648-690 | a record whose length was read whole is judged as if there were no buffer |
| `JournalFile.JournalIter.Next` | crates/barista-cache/src/journal.rs:622-690 | each call returns the next record or fault as seen through the 8192-byte buffer, moves the position only past whole records, and stops for good at the end or a torn or corrupt record |
| `IndexHandle.Index.Put` | crates/barista-cache/src/index.rs:327-340 | the new memory and disk, the reported outcome, and exactly the disk states passed: those of the append and of the compaction behind it |
| `IndexHandle.Index.Remove` | crates/barista-cache/src/index.rs:344-356 | the same, reporting whether the key was there |
| `IndexHandle.Index.Touch` | crates/barista-cache/src/index.rs:359-376 | the same, changing only the access time |
| `IndexHandle.OutcomeMeans` | crates/barista-cache/src/index.rs:327-376 | a mutation reported as done is in memory and, if its key can be stored, on disk; one reported as failed left all as it was, unless only the compaction behind it was refused its lock, when it is in all the same; with both locks granted only an oversized payload fails |
| `IndexHandle.Index.WriteSnapshot` | crates/barista-cache/src/index.rs:489-553 | the snapshot is replaced in one rename; exactly which states are passed |
| `IndexHandle.Index.Compact` | crates/barista-cache/src/index.rs:410-416 | snapshot first, then an empty journal and a zero counter; exactly which states are passed, also when the truncation is refused the lock |
| `IndexHandle.Index.MaybeCompact` | crates/barista-cache/src/index.rs:436-446 | compacts exactly when the counter has reached the threshold |
| `IndexHandle.ReplayJournal` | crates/barista-cache/src/index.rs:277-300 | the replay loop computes the rows, count, last good offset and fault of the buffered scan |
| `IndexHandle.OpenIndex` | crates/barista-cache/src/index.rs:258-322 | for arbitrary files, strict or recovering and whatever the two locks answer: the files left, the index built or the error, and exactly the states passed |
| `BufferedReader.BufferedScanExact` | crates/barista-cache/src/journal.rs:622-690 | the buffered replay yields the records before the first one whose length prefix straddles a buffer |
| `BufferedReader.FirstStraddlingIsFirst` | crates/barista-cache/src/journal.rs:622-650 | that record is the first to start in the last three bytes of a buffer |
| `BufferedReader.BufferedScanKeeps` | crates/barista-cache/src/journal.rs:622-690 | for every log, whatever its record sizes, and every buffer: the replay yields exactly the records before the first short read and reports a truncation there |
| `BufferedReader.BufferedAgreesExactly` | crates/barista-cache/src/journal.rs:622-690 | the buffered replay equals the exact one if and only if no length prefix is read short |
| `BufferedReader.SteadyIffAlike` | crates/barista-cache/src/journal.rs:622-690 | for arbitrary bytes: if every short read is where the bytes are damaged anyway, both replays find the same records and end, and faults that a recovering open treats alike; if not, the buffered replay reports a truncation and stops earlier, or where the exact one meets a record that does not decode |
| `BufferedReader.BufferedAgreesIff` | crates/barista-cache/src/journal.rs:622-650 | for records shorter than the buffer: the buffered replay equals the exact one if and only if no record starts there |
| `BufferedOpen.RecoveringOpenIff` | crates/barista-cache/src/index.rs:258-322 | for arbitrary files a recovering open through a buffer equals the exact one if and only if the open does not get as far as the replay, or every length prefix that is read short stands where the file is damaged anyway |
| `BufferedOpen.BufferedOpenOnlyFormat` | crates/barista-cache/src/index.rs:235-322 | through the buffer, too, only files of this format and version are opened |
| `BufferedOpen.IntactOpenKeeps` | crates/barista-cache/src/index.rs:258-322 | an intact journal opened through a buffer: a recovering open keeps exactly the records before the first short read and cuts off the rest, a strict one refuses |
| `BufferedOpen.IntactOpenIff` | crates/barista-cache/src/index.rs:258-322 | on an intact journal the buffer goes unnoticed, strict or recovering, if and only if no read is short |
| `BufferedOpen.SecondRecordCut` | crates/barista-cache/src/index.rs:277-311 | any intact journal whose first payload has 8183 bytes loses its second record to a recovering open with the 8192-byte buffer, and the file is cut there |
| `BufferedOpen.LongPayload` | crates/barista-cache/src/journal.rs:361-411 | a removal with an 8173-byte version has such a payload in the concrete codec |
| `BufferedOpen.StandardCodecLosesRecord` | crates/barista-cache/src/index.rs:277-311 | with the concrete codec, that removal and any record after it: the record after it was acknowledged, an exact open returns it, the open cuts it off |
| `MultiWriter.StepKeepsInv` | crates/barista-cache/src/journal.rs:296-517 | every step of every handle keeps: one holder at a time, and what is in the file plus what is left to write is a whole file |
| `MultiWriter.EveryInterleaving` | crates/barista-cache/src/journal.rs:296-517 | in every interleaving of opens, appends and truncations, whenever the lock is free the file is one header and each record since the last truncation once, in lock order, each at the offset returned for it, and no open is refused |
| `WriterOutcomes.AppendEnds` | crates/barista-cache/src/journal.rs:361-411 | whenever the lock is free, an append that keeps going, however its write is cut up, ends with its record at the end of the file, returns the offset where it starts, and frees the lock |
| `WriterOutcomes.OpenEnds` | crates/barista-cache/src/journal.rs:296-350 | likewise an open: a new file gets a header, any other stays |
| `WriterOutcomes.TruncateEnds` | crates/barista-cache/src/journal.rs:490-517 | likewise a truncation: a bare header is left |
| `CasProtocol.StepKeepsInv` | crates/barista-cache/src/cas.rs:166-267 | every step of every process keeps objects finished, named by their hash and open for writing nowhere |
| `CasProtocol.ObjectsAlwaysComplete` | crates/barista-cache/src/cas.rs:166-267 | in every interleaving with processes stopping anywhere, each object is complete and hashes to its name, and what a reader got hashes to what it asked for |
| `CasOutcomes.AcknowledgedIsStored` | crates/barista-cache/src/cas.rs:166-267 | in every interleaving with processes stopping anywhere: a process that was told its blob is stored was told the digest of the bytes it put or fed, and the object is there with those bytes, short of a hash collision |
| `CasOutcomes.PutStores` | crates/barista-cache/src/cas.rs:166-187 | a put of an absent blob that nobody interrupts, however its write is cut up, ends acknowledged with the object holding exactly the bytes, and leaves no other trace |
| `CasOutcomes.PutKnown` | crates/barista-cache/src/cas.rs:166-174 | a put of a blob that is there is acknowledged at once and changes no file |
| `CasOutcomes.StreamStores` | crates/barista-cache/src/cas.rs:195-246 | a stream that nobody interrupts ends acknowledged with an object of its chunks' digest and no temporary file of its own |
| `CasOutcomes.GetDelivers` | crates/barista-cache/src/cas.rs:269-273 | a reader that asks for a digest that is there never fails, whatever others do meanwhile, and gets exactly the bytes that were there when it asked |
| `CasOutcomes.GetEnds` | crates/barista-cache/src/cas.rs:269-273 | a reader that keeps going gets to its end; one that asks for a digest that is not there fails |
| `CasOutcomes.TmpsAccounted` | crates/barista-cache/src/cas.rs:166-267 | every temporary file there is in use, or was left by a process that stopped or whose clean-up failed |
| `CasWalk.PathInjective` | crates/barista-cache/src/cas.rs:288-333 | different objects and temporary files have different paths as text |
| `CasWalk.TmpIsNoObject` | crates/barista-cache/src/cas.rs:322-333 | a temporary file is never at the path of an object, and its 48-digit name is no digest |
| `CasWalk.CasEntries.Next` | crates/barista-cache/src/cas.rs:352-407 | the two-level iterator returns the entries of the directory listing one by one, then nothing for good |
| `CasWalk.WalkLists` | crates/barista-cache/src/cas.rs:352-407 | for an arbitrary directory tree the walk lists exactly the leaves of shard directories whose name is a digest |
| `CasWalk.WalkListsObjects` | crates/barista-cache/src/cas.rs:352-407 | in every state of every interleaving, in whatever order directories are read, the walk lists exactly the digests with an object, each once at `objects/`, two digits, all digits, and never a temporary file, live or abandoned |
| `CasProtocol.BytesNeverChange` | crates/barista-cache/src/cas.rs:166-280 | an object never disappears and its bytes never change, short of a hash collision |
| `GcSpec.SortByAgeOrdered` | crates/barista-cache/src/gc.rs:112-116 | a stable sort by access time of the key-ordered listing gives the order of (access time, key) |
| `GcSpec.SortByAgeSame` | crates/barista-cache/src/gc.rs:112-116 | sorting permutes the rows |
| `BlobStore.PinnedIffShared` | crates/barista-cache/src/gc.rs:127-137 | a link count of two or more says exactly that the object's inode has a second name |
| `GcSpec.NeededIsShortest` | crates/barista-cache/src/gc.rs:118-180 | the number of rows to take is the smallest that brings the total strictly below the low mark, or all |
| `GcSpec.TakenOldestAndFewest` | crates/barista-cache/src/gc.rs:99-186 | what a pass takes: nothing below the high mark; otherwise, if second names are to be kept, only rows whose blob has no second name, each older than every such row left, as few as bring the total strictly below the low mark, or all of them |
| `GcSpec.LeftOnlyIfShared` | crates/barista-cache/src/gc.rs:99-186 | if the total after a pass is at or above the low mark, every row left has a blob with a second name, and without regard to second names no row is left |
| `GcSpec.TotalAfterPass` | crates/barista-cache/src/gc.rs:104-105 | the bytes still indexed after a pass are the bytes before it less those of the rows it took |
| `Disks.Disk.Remove` | crates/barista-cache/src/gc.rs:140-170 | a name goes away and nothing else; whether it was there; the one new state |
| `Gc.VisitRow` | crates/barista-cache/src/gc.rs:118-180 | a row is left alone exactly if second names count and its blob has one; otherwise its blob goes before its row; exactly the moments passed: the removal of the blob and every state of the removal of the row |
| `Gc.RemoveOldest` | crates/barista-cache/src/gc.rs:118-180 | the loop's books are right after every row: blobs, rows, running total, statistics, and exactly the moments passed; where it stops on an index error |
| `Gc.RunGc` | crates/barista-cache/src/gc.rs:99-186 | the rows of `GcSpec.Taken` and their blobs are removed, up to and including the first whose removal the journal refuses; the statistics are right, and a pass that misses its target leaves only rows whose blobs have a second name; the disk goes through exactly the moments of that pass, and in each of them no blob has become unreferenced that was referenced |
| `Gc.ReportedEvictions` | crates/barista-cache/src/gc.rs:140-180 | the evictions reported are the blobs removed, or all rows taken if second names do not count |
| `Gc.GcCrashSafe` | crates/barista-cache/src/gc.rs:99-186 | a pass stopped anywhere, between any two writes or at any byte of one, never leaves a blob unreferenced that was referenced, as seen by the next recovering open |
| `Gc.PartialPass` | crates/barista-cache/src/gc.rs:99-186 | the moments of the first part of a pass are among the moments a pass can be stopped at |
| `Gc.PassSafe` | crates/barista-cache/src/gc.rs:118-180 | after any number of rows memory and disk agree, and every row that is gone had its blob removed before it |
| `Gc.PassTraceSafe` | crates/barista-cache/src/gc.rs:118-180 | what a pass adds to the trace of the disk holds no moment with a newly unreferenced blob |
| `Gc.PinnedStays` | crates/barista-cache/src/gc.rs:127-137 | removing unpinned blobs changes the link count of no other, so which rows are pinned does not depend on how far the pass has got |
| `Recovery.SecondScan` | crates/barista-cache/src/recovery.rs:66-93 | after a scan every row has its blob; a second scan drops nothing and reports the same orphans |
| `Recovery.ScanSplitsObjects` | crates/barista-cache/src/recovery.rs:66-93 | every object is referenced by a surviving row or an orphan, never both |
| `Recovery.GcThenScan` | crates/barista-cache/src/recovery.rs:66-93 | after a pass over backed rows, the rows without a blob are exactly those sharing a hash with a taken row, and the scan drops exactly those |
| `Recovery.DropDangling` | crates/barista-cache/src/recovery.rs:66-82 | the index walk remembers the hashes in use and removes the rows without a blob |
| `Recovery.ListOrphans` | crates/barista-cache/src/recovery.rs:83-93 | the blob walk lists every unreferenced object once with its size, in whatever order it meets them |
| `Recovery.ScanAndRecover` | crates/barista-cache/src/recovery.rs:66-93 | the whole scan: rows, counts, orphans and their total size |
| `Mirrors.Materialize` | crates/barista-cache/src/m2.rs:108-169 | the destination becomes a link to the object's inode, or on another device a copy of it, replacing what was there, and holds bytes of the asked-for digest; a missing object changes nothing |
| `Mirrors.MirrorsStayPinned` | crates/barista-cache/src/m2.rs:108-169 | in every run of storing, mirroring, collecting and scanning, a mirror neither deleted nor replaced still shares its inode with its object, whose bytes have its hash |
| `Mirrors.MirroredStays` | crates/barista-cache/src/m2.rs:108-169 | after any run: a blob that is stored and mirrored stays at its destination with bytes of its digest, through every later storing, mirroring elsewhere, collection and scan |
| `Hex.ToHex` | crates/barista-cache/src/cas.rs:93-101 | the loop writes two lowercase digits a byte |
| `Hex.FromHex` | crates/barista-cache/src/cas.rs:76-90 | exactly 64 hex digits of either case are accepted, and the digest prints as the input in lower case |
| `Hex.HexInjective` | crates/barista-cache/src/cas.rs:288-294 | different digests have different text, so different objects have different paths |
| `Hex.HexRoundTrip` | crates/barista-cache/src/cas.rs:76-101 | a digest's text reads back as the digest |
| `Sidecar.Parse` | crates/barista-cache/src/checksum.rs:78-115 | the first token of the first line that is neither blank nor a comment decides, and must have the right length and digits |
| `Sidecar.Verify` | crates/barista-cache/src/checksum.rs:164-207 | bytes pass iff every sidecar present names their digest; which verdict is reported, and which error: that of the SHA-256 sidecar if it has one, else that of the SHA-1 sidecar |
| `Sidecar.FirstTokenIsCandidate` | crates/barista-cache/src/checksum.rs:78-115 | if the first token of the whole text is a well-formed digest it is the token the parser judges |
| `Sidecar.CommentIgnored` | crates/barista-cache/src/checksum.rs:78-83 | a comment, indented or not, or a blank line in front of a sidecar changes nothing |
| `Sidecar.DigestIsNamed` | crates/barista-cache/src/checksum.rs:78-115 | a sidecar that starts with the digest in either letter case, with whatever behind it after whitespace, names it |
| `RemoteCache.ParseDigest` | crates/barista-roastery-client/src/digest.rs:62-78 | exactly 64 lowercase hex digits are accepted |
| `RemoteCache.NamesIffAsked` | crates/barista-cache/src/source.rs:917-942 | the digest asked for and the digest the sidecar check insists on are the same |
| `RemoteCache.TryRemote` | crates/barista-cache/src/source.rs:861-1091 | for arbitrary answers, exactly when there is a hit, and what each refusal reports; a hit stores and returns bytes of the asked-for digest with a matching row; the final digest check never fails; anything else stores nothing |
| `CoordLocks.CoordLockMap.GetOrCreate` | crates/barista-cache/src/lock.rs:108-160 | the sharded map behaves as one flat map that never replaces a key's mutex and never shares one |
| `CoordLocks.CoordLockMap.Len` | crates/barista-cache/src/lock.rs:140-143 | the number of keys that have a mutex |
| `SingleFlight.StepKeepsInv` | crates/barista-cache/src/source.rs:587-762 | every step of every task keeps: critical sections exclude each other per artifact, and a task past its look-up finds no row until it writes one |
| `SingleFlight.AtMostOneRemote` | crates/barista-cache/src/source.rs:587-762 | in every interleaving of tasks for one artifact at most one succeeds from the network, and every other success is from disk with bytes of the same digest |
| `SingleFlight.DiskAnswersAgree` | crates/barista-cache/src/source.rs:600-660 | all disk successes for one artifact return the same bytes |
| `FetchOutcomes.ErrorHasCause` | crates/barista-cache/src/source.rs:587-762 | in every interleaving a request ends in an error only if its file lock timed out, its fetch failed, its row could not be written or it was cancelled |
| `FetchOutcomes.LookAnswers` | crates/barista-cache/src/source.rs:600-650 | a request that looks, the first or the second time, while its row is there is answered from disk with the bytes stored under the row's digest |
| `FetchOutcomes.NoLockLeftBehind` | crates/barista-cache/src/source.rs:598-762 | in every interleaving each held mutex is held by a request inside the section it guards |
| `FetchOutcomes.AnsweredFromDisk` | crates/barista-cache/src/source.rs:598-613 | whenever its lock is free, a new request for a row that is there ends answered from disk and frees the lock |
| `FetchOutcomes.AnsweredFromNetwork` | crates/barista-cache/src/source.rs:598-762 | whenever its lock is free, a new request for a row that is not there, whose fetch succeeds, ends with the fetched bytes, which are stored and have their row, and frees the lock |
| `FetchOutcomes.FetchedThenFound` | crates/barista-cache/src/source.rs:587-762 | after any run: one request fetches an artifact, the next one for it is answered from disk with the same bytes |
| `LockPolling.AcquireJournalLock` | crates/barista-cache/src/journal.rs:204-224 | at most D/100 + 6 tries for a timeout of D milliseconds; gives up only past the deadline and, with exact sleeps, before D + 100 |
| `LockPolling.AcquireFileLock` | crates/barista-cache/src/lock.rs:259-283 | the same bound on tries; with exact sleeps it gives up exactly at D |
| `Calendar.EraArithmetic` | roastery/build.rs:168-188 | no subtraction goes below zero, and year, day of year and month come out in range |
| `Calendar.YearOfEraRight` | roastery/build.rs:179-184 | the closed form picks the year whose days include the given day |
| `Calendar.DateInEraValid` | roastery/build.rs:168-188 | every day of every 400-year era gives a month and day valid under the leap-year rule, and that date counts back to the day |
| `Calendar.DateOfItsDays` | roastery/build.rs:168-188 | the date of a date's day count is the date |
| `Calendar.NextDayCounts` | roastery/build.rs:168-188 | one more day is the calendar's next day |
| `Calendar.DayCountBijection` | roastery/build.rs:168-188 | day counts and Gregorian dates correspond one to one |
| `Calendar.UnsignedExact` | roastery/build.rs:168-188 | the unsigned formula is exact on every count |
| `Calendar.SignedResult` | crates/barista-config/examples/survey-extensions.rs:182-194 | what the signed formula gives, with its cast and its two 32-bit additions, in a build that wraps and in one that checks |
| `Calendar.WrappingExact` | crates/barista-config/examples/survey-extensions.rs:182-194 | a build that wraps gives the right date if and only if the day lies between 1 January of year -2147483648 and 31 December of year 2147483647 |
| `Calendar.CheckedExact` | crates/barista-config/examples/survey-extensions.rs:182-194 | a build that checks gives the right date if and only if the day lies in a 400-year era that starts in range, up to 31 December of year 2147483647 |
| `Calendar.CheckedFaults` | crates/barista-config/examples/survey-extensions.rs:182-194 | for every day before that whose year fits 32 bits, a build that checks faults |
| `Calendar.FaultAtFittingYear` | crates/barista-config/examples/survey-extensions.rs:182-194 | day -784353015773: its year fits, a build that wraps is right, a build that checks faults |
| `Calendar.DayAfterLast` | crates/barista-config/examples/survey-extensions.rs:182-194 | the day after the last: a build that checks faults, one that wraps gives year -2147483648 |
| `Timestamps.FormatIsRender` | roastery/build.rs:168-191 | below the year 10000 the text is 20 characters in the layout of section 5.6 of RFC 3339 |
| `Timestamps.TimestampRoundTrip` | roastery/build.rs:168-191 | it parses back to the same seconds |
| `Timestamps.TextOrderIsTimeOrder` | roastery/build.rs:168-191 | its text order is the order of time, as section 5.1 of RFC 3339 asks |
| `XmlEvents.EventsBuildForest` | crates/barista-config/src/settings_xml.rs:299-332 | the events of a tree build that tree again, whatever follows |
| `XmlEvents.ForestIsRead` | crates/barista-config/src/settings_xml.rs:778-792 | what is built is exactly what was read, up to the matching end tag |
| `XmlEvents.ForestOfCut` | crates/barista-config/src/settings_xml.rs:778-792 | a stream cut before the matching end tag builds nothing, and what comes after that tag does not matter |
| `SettingsXml.LocalName` | crates/barista-config/src/settings_xml.rs:800-803 | the part of a name after its last colon |
| `SettingsXml.Reader.Next` | crates/barista-config/src/settings_xml.rs:204-212 | one event at a time, then the end of the file for good |
| `SettingsXml.Reader.SkipElement` | crates/barista-config/src/settings_xml.rs:778-792 | the depth loop stops exactly after the matching end tag, or fails iff there is none |
| `SettingsXml.Reader.ReadText` | crates/barista-config/src/settings_xml.rs:736-763 | the text directly inside an element with nested elements skipped; an error iff the element is not closed or some of that text does not decode |
| `SettingsXml.Reader.ParseElement` | crates/barista-config/src/settings_xml.rs:299-734 | on every stream, each element loop returns the tree's value and stops exactly after the element, or fails |
| `SettingsXml.Reader.ParseChild` | crates/barista-config/src/settings_xml.rs:308-322 | what each loop does with a child element: skip it, read its text, parse it, or let it fill the same record |
| `SettingsXml.Reader.ParseDocument` | crates/barista-config/src/settings_xml.rs:272-297 | the top-level loop computes the document's value |
| `SettingsXml.ParsedIffTree` | crates/barista-config/src/settings_xml.rs:299-734 | an element parses if and only if a balanced tree stands there, to that tree's value, consuming exactly it |
| `SettingsXml.ReadMeans` | crates/barista-config/src/settings_xml.rs:299-734 | a tree has no value iff some text that is read does not decode; otherwise each field of a record has the value of the last child that fills it, or its default, and a list has its items in document order |
| `SettingsXml.ReadStoresFound` | crates/barista-config/src/settings_xml.rs:299-734 | reading an element is storing, in order, what is found in it |
| `SettingsXml.TextJoins` | crates/barista-config/src/settings_xml.rs:736-763 | the text of an element is that of its pieces of text and CDATA, in order |
| `SettingsXml.TextOf` | crates/barista-config/src/settings_xml.rs:736-763 | one piece of text or CDATA gives what it decodes to, an element or a comment nothing |
| `SettingsFields.ParseBoolMeans` | crates/barista-config/src/settings_xml.rs:770-776 | true, 1 and yes mean true, false, 0 and no mean false, in any letter case and with whitespace around them; every other text means the default |
| `SettingsFields.PortMeans` | crates/barista-config/src/settings_xml.rs:682-685 | a port is read if and only if the text is a decimal number up to 65535, with leading zeros, a plus sign and whitespace around it or not |
| `SettingsFields.FieldRead` | crates/barista-config/src/settings_xml.rs:299-734 | every field of every record has the value of the last child of its name, or its value from before |
| `SettingsRecords.SettingsRead` | crates/barista-config/src/settings_xml.rs:299-332 | what each of the nine settings holds: the last element of its name, with the lists' items in document order, and its default |
| `SettingsRecords.ServerRead` | crates/barista-config/src/settings_xml.rs:370-399 | likewise the seven fields of a server |
| `SettingsRecords.MirrorRead` | crates/barista-config/src/settings_xml.rs:401-428 | likewise the five fields of a mirror |
| `SettingsRecords.ProfileRead` | crates/barista-config/src/settings_xml.rs:430-462 | likewise the five fields of a profile |
| `SettingsRecords.PropertiesRead` | crates/barista-config/src/settings_xml.rs:464-487 | every child element is a property, and the last one of a name counts |
| `SettingsRecords.ActivationRead` | crates/barista-config/src/settings_xml.rs:489-604 | the ten conditions of an activation; those inside `os`, `property` and `file` come from all such elements together |
| `SettingsRecords.RepositoryRead` | crates/barista-config/src/settings_xml.rs:606-634 | the six fields of a repository |
| `SettingsRecords.PolicyRead` | crates/barista-config/src/settings_xml.rs:636-666 | the three fields of a policy |
| `SettingsRecords.ProxyRead` | crates/barista-config/src/settings_xml.rs:668-701 | the eight fields of a proxy |
| `SettingsRecords.RepositoryPolicies` | crates/barista-config/src/settings_xml.rs:606-666 | for every repository element that is read: without a `releases` (or `snapshots`) child that policy is off; otherwise it is on unless the last `enabled` of the last such child says false, 0 or no |
| `SettingsXml.NoSettingsGivesDefaults` | crates/barista-config/src/settings_xml.rs:272-297 | a document without a top-level `settings` element gives the defaults, whatever its elements hold |
| `SettingsXml.FirstSettingsDecides` | crates/barista-config/src/settings_xml.rs:272-332 | otherwise the first one decides and nothing after it matters; cut anywhere between its start and its end tag the document is refused |
| `SettingsXml.UnknownIgnored` | crates/barista-config/src/settings_xml.rs:299-792 | removing unknown elements and stray text at every depth changes nothing |
| `Findings.ParseFrontmatter` | xtask/src/findings.rs:449-524 | the parser computes the frontmatter or its first fault |
| `Findings.AcceptedMeans` | xtask/src/findings.rs:449-524 | a draft is accepted if and only if it has an opening line, a closing line and between them a value for each of the six fields, which then have their last line's value; otherwise the fault is the first thing missing |
| `Findings.NoteLines` | xtask/src/findings.rs:470-504 | the line loop computes what the lines set |
| `Findings.LastValuesNoted` | xtask/src/findings.rs:470-504 | each field has the value of the last line that sets it, and no other field is kept |
| `Findings.OpeningMeans` | xtask/src/findings.rs:449-454 | a draft opens with three dashes on a line of their own, after a byte order mark or not |
| `Findings.LineMeans` | xtask/src/findings.rs:470-504 | a line with a key, a colon and a value sets the key to the value, each without the whitespace around it |
| `Findings.SkippedMeans` | xtask/src/findings.rs:470-491 | which lines say nothing: blank, comments, indented, without a colon, or with nothing after it |
| `Findings.UnquotedMeans` | xtask/src/findings.rs:526-534 | a value in matching double or single quotes loses them, any other stays |
| `Findings.FindIdLine` | xtask/src/findings.rs:470-504 | the id and its raw line are those of the last id line |
| `Findings.IdReplaced` | xtask/src/findings.rs:470-504 | another id line in its place changes the id and nothing else |
| `Findings.LinesConcat` | xtask/src/findings.rs:470-473 | text that stops at a line end can be read apart from what follows |
| `Findings.OnlyOccurrence` | xtask/src/findings.rs:409-424 | the id line's text occurs, and if it occurs once it is found at the id line |
| `Findings.ClosingMoves` | xtask/src/findings.rs:455-460 | exchanging a line moves the closing line by the difference in length |
| `Findings.PromotionKeepsFrontmatter` | xtask/src/findings.rs:409-424 | for every accepted draft, promotion is refused iff the id line's text occurs again; otherwise the result re-parses to the new id and the same other fields and differs in nothing but the id line |
| `FindingIds.Highest` | xtask/src/findings.rs:359-381 | an upper bound of the catalogued numbers that is attained unless it is zero |
| `FindingIds.AllocateNextId` | xtask/src/findings.rs:359-381 | the loop computes the next id in whatever order the directory is read |
| `FindingIds.IdReadsBack` | xtask/src/findings.rs:380-388 | the number reads back from the file name made of it |
| `FindingIds.NextIdIsFree` | xtask/src/findings.rs:359-381 | the new number is above every catalogued one; its file name is taken iff the largest number is already catalogued under its usual name |
| `FindingIds.PromotedReadsBack` | xtask/src/findings.rs:290-355 | the promoted text's id is the name of the file it goes to |

## Left out

- Network clients and servers, TLS, authentication, pushing to the remote cache, observers, logging: their answers are arbitrary inputs here.
- The configuration layers, `barista.toml`, the command line and the benchmark tools: wide but branch by branch.
- SHA-256, SHA-1, CRC-32 and the exact bincode layout: library code; `Codec` is a concrete codec of the same shape.
- I/O errors other than lock timeouts, oversized payloads and refused headers.
- fsync and directory durability: a completed write or rename survives a crash; a write may be cut at any byte.
- The UTF-8 validity of strings: journal strings are bytes.
- 64-bit overflow of the record counter, of file offsets and of size sums; 32-bit record lengths are modelled.
- The floating-point watermarks of collection: the high and low marks are given numbers.
- Operating-system file locks: a lock is granted, refused or exclusive as a step; unsafe lock guards are not modelled.
- Recovering opens next to live appenders, and several handles that compact: `IndexRuns` is about one handle, `MultiWriter` about strict opens.
- Single-flight across processes: the second look-up reads this process's rows only, and so does the model.
- Building Maven paths when mirroring: a destination is an arbitrary path.
- The CAS methods are steps of `CasProtocol` rather than methods of a class; only the iterator over the objects is a class.
- The XML tokenizer: the reader starts from its events; trimming of text and expansion of empty elements are its work.
- The records of `settings.xml` are maps from field names to values, filled by one table-driven loop instead of one loop per record type; password decryption is not modelled.
- The canonical path check and the required body sections of a draft.
- Calendar.WrappingExact: speaks of the days for which the 64-bit additions do not overflow; a build that checks faults on the others (`Calendar.CheckedExact`).
- LockPolling.AcquireJournalLock: times are whole milliseconds.
