# Verified models of RRFlow

Dafny models of the parts of this repository whose correctness rests on an argument
over many steps: the storage engine in `crates/persistence/rrd-lsm`, and the scripts
that keep evidence, packages and generated code honest. Each module states what its
source promises and proves it for every input, every run or every reachable state.

## The storage engine

`Batch` and `Wal` are the byte formats. `Batch` proves that decoding accepts exactly
the encodings of valid batches. `Wal` proves that a log cut at any byte recovers
exactly the frames before the cut, and `WalWriter` is the writer that poisons itself
on a failed write. `WalIntegrity` proves for every byte string what replay accepts: exactly
the logs of contiguous frames, checksums included, with at most the beginning of one more.

`Versions` is the multi-version store: a memtable and segments of versioned keys,
read against a plain history of committed mutations. `Maintenance`, `Compaction` and
`Levels` are flush, merge and candidate selection, with the proof that they change
no answer at any sequence still protected and keep the levels' key ranges apart.
`Transactions` puts transactions, flushes, compactions and crashes into one state
machine and proves snapshot reads, repeatable reads, atomic commits and the absence
of lost updates over every run. `Database` is the class whose methods are the steps
of that machine, and `TransactionScan` is the bounded merge scan. `Buffering` follows
buffered writes through whole runs, and `Retention` says which versions a compaction
keeps and for whom.

`Recovery` is opening after a crash. A log prefix opens if and only if it ends with a
whole frame. Inside a frame the open is refused with the offset at which that frame
begins, and only after an explicit truncation to that offset does it succeed. In every
state of every run, what is reached this way is exactly the crash steps of the state
machine. `Durability` runs the system and its log file together, with writes and syncs
that fail at any point, and proves that a batch acknowledged as authoritative is in the
history of every later state.

One promise does not hold as written. The module comment of `transaction.rs` says
that commit detects conflicts for every key in the write set. A compaction that
prunes versions drops a key whose retained versions are all tombstones
(`database.rs`, line 2946), even while an older transaction is live, and a later
commit of that transaction does not see the write. `ConflictExample.ConflictMissed` is such a
run. `ConflictGuarantee` proves when the promise holds. A compaction takes a key out of a
live transaction's sight if and only if it drops the key by that branch, the key is not
in the memtable, and its newest stored version is later than the transaction's
snapshot. In a run without such a compaction, and only there, every state keeps the
promise for every live transaction and whatever it may still write.
`Transactions.CommitLosesNoUpdate` holds in all runs: an undetected write always
leaves the key absent, as the snapshot shows it.

## The scripts

`ObservationLog`, `LogWriters` and `TamperEvidence` are the hash-chained observation
log: its append, any number of concurrent and crashing writers, and what its last
identity proves. `KnowledgeCodec`, `KnowledgeChecker`, `KnowledgePaths` and
`KnowledgeBuilder` are the knowledge package: decodable digest pre-images, the
independent checker, the owner tree, and the exporter that satisfies both.
`KnowledgeRules` spells out the names they accept.
`ProgressReader` is the incremental reader of a growing file. `Detach` is the
bounded detach protocol against an arbitrary environment. `Navigation` regenerates
marked indexes, and `NavigationRows` says what they show. `Names`, `Surfaces` and
`Catalogues` are the generated client catalogues and the parsers that check them;
`SurfaceParsing` and `CatalogueOrder` say exactly what is parsed and printed. `LongestSteps`, `Conflicts`, `Review`
and `MaskPaths` are smaller algorithms of the evidence scripts. `Sorting`, `Bytes`
and `Wrappers` are shared.

SHA-256 and CRC-32C are parameters. Lemmas that need an injective digest say so.
Canonical JSON is a parameter with two laws: it parses back, and its only newline is
its last byte. Clocks, file systems and command replies are parameters or free
choices of the environment. Byte order on UTF-8 stands for Python's order on strings.

## Model

| member | source | states |
|---|---|---|
| Batch.DecodeInvertsEncode | crates/persistence/rrd-lsm/src/batch.rs:161-302 | decoding accepts a byte string if and only if it is the encoding of some valid batch, and then returns that batch; both round trips for every input |
| Batch.EncodeThenDecode | crates/persistence/rrd-lsm/src/batch.rs:196-302 | every valid batch decodes back to itself |
| Batch.DecodeThenEncode | crates/persistence/rrd-lsm/src/batch.rs:227-302 | every accepted byte string is canonical: encoding the result reproduces it byte for byte |
| Batch.FinalValidationIsRedundant | crates/persistence/rrd-lsm/src/batch.rs:227-302 | the validation at the end of decode never refuses anything that passed the header checks and the cursor walk |
| Batch.EncodedLengthIsExact | crates/persistence/rrd-lsm/src/batch.rs:187-225 | the length computed before encoding is the length of the encoding |
| Batch.Decode | crates/persistence/rrd-lsm/src/batch.rs:227-302 | the cursor loop of decode accepts and returns exactly what the specification of the format says, trailing bytes and reserved tags refused |
| Batch.DecodeBody | crates/persistence/rrd-lsm/src/batch.rs:254-302 | the operation loop, for any count and any bytes |
| Wal.ReplayFile | crates/persistence/rrd-lsm/src/wal.rs:457-573 | the replay loop equals the recursive reading of header, frames and torn tail, including every corruption case |
| Wal.ReplayOfCut | crates/persistence/rrd-lsm/src/wal.rs:457-573 | cutting the encoded frames at any byte recovers exactly the frames wholly before the cut and reports a torn tail exactly when bytes are left over |
| Wal.ReplayOfCutFile | crates/persistence/rrd-lsm/src/wal.rs:457-573 | the same for a log file with its header: no cut is ever read as corruption |
| Wal.WalWriter.constructor | crates/persistence/rrd-lsm/src/wal.rs:110-135 | a new log holds its header and no frame and expects the given sequence |
| Wal.WalWriter.Append | crates/persistence/rrd-lsm/src/wal.rs:209-330 | a frame is acknowledged if and only if the writer is not poisoned, the frame is valid and next in sequence, all its bytes reached the file and the requested sync succeeded; an admitted frame that is not acknowledged poisons the writer and is the one it failed on; a frame that is not admitted changes nothing; the whole new state, with what is known to be synced |
| Wal.WalWriter.Sync | crates/persistence/rrd-lsm/src/wal.rs:388-398 | a successful sync makes the whole file durable; a failed one poisons the writer and secures nothing new; a poisoned writer syncs nothing |
| Wal.WalWriter.PoisonedRefuses | crates/persistence/rrd-lsm/src/wal.rs:209-225 | once poisoned, the writer refuses every append without effect, whatever the system would answer |
| Wal.AppendKeepsValid | crates/persistence/rrd-lsm/src/wal.rs:209-330 | whatever the file system answers, the file stays the log of the acknowledged frames followed by at most a prefix of the failed one, and the synced length stays the end of a frame |
| Wal.SurvivorsOf | crates/persistence/rrd-lsm/src/wal.rs:457-573 | what replay makes of any surviving prefix at or past the synced length |
| Wal.ReopenedIsValid | crates/persistence/rrd-lsm/src/wal.rs:171-191 | the log reopened on the surviving frames is a valid log again |
| Wal.WalWriter.RecoverAfterCrash | crates/persistence/rrd-lsm/src/wal.rs:577-599 | after a crash at any byte at or past the synced length, recovery keeps every synced frame, invents none, and repair leaves exactly the log of the recovered frames |
| Wal.LogAppend | crates/persistence/rrd-lsm/src/wal.rs:209-330 | appending one encoded frame to a log is the log of one more frame, and sequences stay contiguous |
| Wal.RecordHeaderDecodes | crates/persistence/rrd-lsm/src/wal.rs:650-710 | a record header reads back the sequences, length and checksum it was made from |
| Wal.HeadOfCutFrame | crates/persistence/rrd-lsm/src/wal.rs:490-557 | a frame cut short is read as torn and a whole one as itself, whatever follows |
| WalIntegrity.ReplayIsExact | crates/persistence/rrd-lsm/src/wal.rs:457-573 | for every byte string: replay recovers given frames if and only if the file is the log of exactly those contiguous valid frames, checksums included, followed by nothing or by the beginning of one more frame; the valid length is that log's and the tail is torn exactly when bytes are left over |
| WalIntegrity.CorruptIsExact | crates/persistence/rrd-lsm/src/wal.rs:457-573 | replay reports corruption if and only if the file is no such log |
| WalIntegrity.DamageIsCorruption | crates/persistence/rrd-lsm/src/wal.rs:520-533 | a payload changed without its checksum is corruption, wherever in the log it is and whatever follows |
| WalIntegrity.WholeIsEncoded | crates/persistence/rrd-lsm/src/wal.rs:490-557 | the front of any bytes is taken for a frame exactly when it is the encoding of that valid frame with the expected sequence |
| WalIntegrity.TornIsIncomplete | crates/persistence/rrd-lsm/src/wal.rs:490-518 | it is taken for a torn tail exactly when it is part of a header, or a whole header that announces the expected sequence and more bytes than there are |
| Versions.GetIsReadAt | crates/persistence/rrd-lsm/src/database.rs:2439-2476 | reading the memtable first and then the newest version over all segments returns what the committed history holds, at every sequence the store still keeps |
| Versions.LatestStoredIsLastWrite | crates/persistence/rrd-lsm/src/database.rs:974-990 | the sequence that conflict detection reads is the key's last write, unless that was a deletion of which no version is stored any more |
| Versions.RecentIsLastWrite | crates/persistence/rrd-lsm/src/memtable.rs:334-340 | the memtable alone decides every read after the durable sequence |
| Versions.ReadAtPrefix | crates/persistence/rrd-lsm/src/database.rs:691-695 | a read at a sequence does not depend on later commits |
| Versions.TableOfHolds | crates/persistence/rrd-lsm/src/memtable.rs:543-568 | replaying mutations into the memtable leaves each key's chain with exactly its writes in the range |
| Maintenance.WritePartitions | crates/persistence/rrd-lsm/src/database.rs:1391-1502 | the flush loop cuts a table into segments that are in key order, hold their ranges, and together hold exactly the table's versions |
| Maintenance.CollectVersions | crates/persistence/rrd-lsm/src/database.rs:2172-2298 | merging one key over the inputs yields all its versions, and fails only if two inputs disagree about a version |
| Maintenance.MergeKey | crates/persistence/rrd-lsm/src/database.rs:2172-2298 | one key of the merge: its kept versions are added to the open partition or, if none is kept, nothing is |
| Maintenance.Merge | crates/persistence/rrd-lsm/src/database.rs:2172-2298 | the whole merge: in-order output segments whose versions are, for every key, exactly the retained ones, or none where the key is dropped |
| Compaction.FlushRefines | crates/persistence/rrd-lsm/src/database.rs:1391-1502 | a flush changes no answer: the new store refines the same history at every kept sequence |
| Compaction.CompactRefines | crates/persistence/rrd-lsm/src/database.rs:1909-2007 | a compaction changes no answer at any sequence that stays protected, with or without pruning of old versions and erasure of tombstones |
| Compaction.CompactFaithful | crates/persistence/rrd-lsm/src/database.rs:2946-2957 | key by key: a retained key reads as before, an erased key already read as absent |
| Compaction.RetainedKeepsNewest | crates/persistence/rrd-lsm/src/database.rs:2172-2298 | version pruning keeps the newest version at every protected sequence |
| Compaction.SoundAgrees | crates/persistence/rrd-lsm/src/database.rs:2172-2298 | segments that hold only versions of the history never disagree, so the merge cannot fail on them |
| Retention.CompactKeepsWanted | crates/persistence/rrd-lsm/src/database.rs:1924-1931 | after a compaction every readable sequence that the caller supplied, that a live transaction reads at, or that is not older than the durable head stays readable, with the same answer for every key; with all versions retained every readable sequence does |
| Retention.CompactWritesWorth | crates/persistence/rrd-lsm/src/database.rs:2226-2266 | a compaction writes, for each key, exactly the newest version at or below each such sequence, or nothing if those are all deletions and no segment outside the merge can hold the key |
| Levels.OverlapCandidate | crates/persistence/rrd-lsm/src/database.rs:2100-2140 | the candidate is the sources plus every overlapping segment of the target level, over the exact hull of the sources' ranges; it is refused exactly when a target is found and the limit is exceeded |
| Levels.KeyHull | crates/persistence/rrd-lsm/src/database.rs:2106-2115 | the least first key and the greatest last key of the sources |
| Levels.CompactionKeepsLevelsApart | crates/persistence/rrd-lsm/src/manifest.rs:215-270 | after any such compaction the segments of every level below the first still have disjoint key ranges, as the manifest requires |
| Transactions.StepKeepsInvariant | crates/persistence/rrd-lsm/src/database.rs:803-1045 | beginning, buffering, committing, writing a batch outside a transaction, ending, flushing, compacting and crashing each keep the invariant that ties the store to the committed history |
| Transactions.RunInvariant | crates/persistence/rrd-lsm/src/database.rs:803-1045 | the invariant holds in every state of every run, in any interleaving |
| Transactions.TransactionReadsItsSnapshot | crates/persistence/rrd-lsm/src/transaction.rs:243-250 | in every run a transaction reads its own buffered cells over the history exactly as it was when it began |
| Transactions.ReadsRepeat | crates/persistence/rrd-lsm/src/transaction.rs:1-9 | whatever commits, flushes or compacts in between, a live transaction reads an unwritten key the same twice |
| Transactions.ConflictIsExact | crates/persistence/rrd-lsm/src/database.rs:877-961 | a commit is refused if and only if some written key was written since the snapshot and still has a stored version |
| Transactions.CommitLosesNoUpdate | crates/persistence/rrd-lsm/src/transaction.rs:1-9 | at a successful commit every written key still has the value the snapshot shows; an undetected write in between can only have left the key absent, as it was |
| Transactions.CommitInstalls | crates/persistence/rrd-lsm/src/database.rs:877-961 | a commit installs exactly its buffered cells and no other key changes |
| Buffering.BufferIsReadBack | crates/persistence/rrd-lsm/src/transaction.rs:269-292 | a transaction reads back the cell it has just buffered; all its other reads, and all reads of other transactions, are as before |
| Buffering.WriteSetIsLastBuffered | crates/persistence/rrd-lsm/src/transaction.rs:269-292 | in every run the write set of a live transaction is exactly the last cell buffered for each key since it began |
| Buffering.ReadsLastBuffered | crates/persistence/rrd-lsm/src/transaction.rs:243-250 | in every run a transaction reads the last cell it buffered for a key |
| Buffering.CommitInstallsLastBuffered | crates/persistence/rrd-lsm/src/database.rs:877-961 | in every run a commit leaves each key at the last cell its transaction buffered for it, and every other key as it was |
| Buffering.BeginReadsTheHead | crates/persistence/rrd-lsm/src/database.rs:803-813 | a new transaction reads everything committed before it began |
| Transactions.CommitIsAtomic | crates/persistence/rrd-lsm/src/database.rs:877-1045 | no readable sequence ever falls inside a commit or a batch write, in any later state that still holds it |
| Transactions.BatchIsUnique | crates/persistence/rrd-lsm/src/transaction.rs:351-360 | a write set has only one batch |
| Transactions.ApplyBatchIsTableOf | crates/persistence/rrd-lsm/src/memtable.rs:257-328 | applying a batch to the memtable is replaying the longer history |
| Transactions.WrittenSinceIsLastWrite | crates/persistence/rrd-lsm/src/database.rs:877-961 | a key was written since a snapshot exactly when its last write is later |
| ConflictExample.ConflictMissed | crates/persistence/rrd-lsm/src/database.rs:2946-2957 | a complete run from the empty database in which a key of a live transaction's write set has been written since its snapshot and the commit check does not see it, because compaction erased the key's tombstones |
| ConflictGuarantee.DetectsIsThePromise | crates/persistence/rrd-lsm/src/transaction.rs:1-9 | a state detects if and only if, for every live transaction and every write set it might commit, the commit is refused exactly when one of the keys was written since the snapshot |
| ConflictGuarantee.FirstCommitterWins | crates/persistence/rrd-lsm/src/transaction.rs:1-9 | in a detecting state a commit is refused if and only if a key of its write set was written since the snapshot |
| ConflictGuarantee.CompactStores | crates/persistence/rrd-lsm/src/database.rs:2946-2957 | a compaction leaves some version of a key in the segments if and only if there was one and the key does not take the branch that drops it |
| ConflictGuarantee.CompactKeepsSight | crates/persistence/rrd-lsm/src/database.rs:2946-2957 | a compaction keeps a key in a live transaction's sight if and only if it does not drop that key while it is absent from the memtable and its newest stored version is later than the transaction's snapshot |
| ConflictGuarantee.BlindsWrittenSince | crates/persistence/rrd-lsm/src/database.rs:2946-2957 | that condition in terms of the history: the dropped key was written since the snapshot |
| ConflictGuarantee.OtherStepKeepsSight | crates/persistence/rrd-lsm/src/database.rs:803-1502 | no step other than a compaction hides a key from a transaction, and a new transaction sees every key |
| ConflictGuarantee.StepKeepsDetection | crates/persistence/rrd-lsm/src/database.rs:1909-2007 | from a detecting state every step leads to a detecting state, except exactly the compactions that blind some live transaction to some key |
| ConflictGuarantee.DetectionOverRuns | crates/persistence/rrd-lsm/src/transaction.rs:1-9 | a run detects in all its states if and only if none of its compactions blinds a live transaction to a key |
| ConflictGuarantee.DetectionIsExactBeforeBlinding | crates/persistence/rrd-lsm/src/transaction.rs:1-9 | up to the first such compaction of any run, every live transaction's commit is refused exactly when one of its keys was written since its snapshot |
| Database.Database.SelectVersion | crates/persistence/rrd-lsm/src/database.rs:2439-2476 | the loop over segments finds the newest version at or below the bound, skipping segments whose range excludes the key |
| Database.Database.Read | crates/persistence/rrd-lsm/src/database.rs:2439-2476 | a read returns what the history holds at the snapshot |
| Database.Database.LatestSequence | crates/persistence/rrd-lsm/src/database.rs:974-990 | the newest stored sequence of a key, memtable first |
| Database.Database.BeginTransaction | crates/persistence/rrd-lsm/src/database.rs:803-813 | one begin step: the current sequence is pinned and the transaction reads the committed head |
| Database.Database.BufferWrite | crates/persistence/rrd-lsm/src/transaction.rs:269-292 | one buffering step: the transaction reads the given cell back, and no other read of any transaction changes |
| Database.Database.CheckConflicts | crates/persistence/rrd-lsm/src/database.rs:877-961 | the loop over the write set clears exactly the transactions without a later stored version |
| Database.Database.CommitTransaction | crates/persistence/rrd-lsm/src/database.rs:877-961 | one commit step if and only if the conflict check is clear, something was written and it makes a batch the log accepts; otherwise the transaction just ends, and success is reported exactly when nothing had to be refused |
| Database.Database.WriteBatch | crates/persistence/rrd-lsm/src/database.rs:992-1045 | a batch outside any transaction is one write step if and only if it is valid and its sequences fit; otherwise nothing changes |
| Database.Database.ApplyOperations | crates/persistence/rrd-lsm/src/memtable.rs:257-328 | a batch takes consecutive sequences in the memtable, in order |
| Database.Database.FlushMemtable | crates/persistence/rrd-lsm/src/database.rs:1391-1502 | one flush step of the state machine |
| Database.Database.CompactSegments | crates/persistence/rrd-lsm/src/database.rs:1909-2007 | merges exactly when the sources and their overlap at the next level fit one quantum or there is no overlap; then one compaction step after which every wanted sequence (supplied, pinned by a transaction, or not older than the durable head) still answers as before; otherwise nothing changes; the disagreement error cannot arise |
| Database.TakeMutations | crates/persistence/rrd-lsm/src/transaction.rs:351-360 | one mutation per buffered key, in strictly ascending key order |
| Recovery.ReplayRebuildsTable | crates/persistence/rrd-lsm/src/memtable.rs:164-175 | replaying the frames of whole commits rebuilds the memtable of the history |
| Recovery.OpenLog | crates/persistence/rrd-lsm/src/database.rs:592-611 | replay, decoding and the refusal of a torn tail, as the open runs them |
| Recovery.ReopenIsCrashStep | crates/persistence/rrd-lsm/src/database.rs:592-611 | for every prefix of the log: the open succeeds exactly if the prefix ends with a whole frame, and otherwise is refused with the offset at which the incomplete frame begins; truncating there makes it succeed; either way the state reached is the crash step that keeps a whole number of batches, all those inside the surviving bytes |
| Recovery.OpensAtFrameEnds | crates/persistence/rrd-lsm/src/database.rs:592-611 | a prefix opens if and only if it ends at the end of a frame, and is corruption if and only if it cuts the file header |
| Recovery.OpenIsExact | crates/persistence/rrd-lsm/src/database.rs:592-611 | for every byte string: the open is not corruption if and only if the file is the log of some valid batches, followed by at most the beginning of one more frame |
| Recovery.LogOpens | crates/persistence/rrd-lsm/src/database.rs:592-611 | and then it gives the memtable of the history those batches extend, or the offset of the incomplete frame |
| Recovery.StepKeepsLogged | crates/persistence/rrd-lsm/src/database.rs:992-1045 | every step keeps the log in step with the history: a commit or write appends its batch, a flush empties the log, a crash leaves a prefix of the batches, nothing else touches it; and the sequences a crash may stop at are exactly the ends of the logged batches |
| Recovery.RunIsLogged | crates/persistence/rrd-lsm/src/database.rs:992-1045 | so it is in every state of every run |
| Recovery.EveryStateReopens | crates/persistence/rrd-lsm/src/database.rs:592-611 | every state of every run reopens from whatever its log leaves behind as one of its crash steps, and every crash step is reached that way |
| Recovery.ReplayIsCrashStep | crates/persistence/rrd-lsm/src/database.rs:592-608 | the recovered table and sequence are those of the shortened history |
| Durability.ActKeepsSound | crates/persistence/rrd-lsm/src/database.rs:992-1045 | commits, batch writes, failing and partial appends, failing syncs, flushes, compactions, crashes and repairs all keep the log file, its batches and the system in step |
| Durability.RepairOpens | crates/persistence/rrd-lsm/src/tail_repair.rs:1-104 | cutting off the incomplete last frame of what a crash left, then opening, gives the first batches that the file may hold, with every batch inside the surviving bytes among them |
| Durability.ReopenSucceeds | crates/persistence/rrd-lsm/src/tail_repair.rs:1-104 | repair and open never fail on what a crash leaves of a log |
| Durability.SecuredForever | crates/persistence/rrd-lsm/src/wal.rs:209-330 | mutations inside the synced bytes or flushed segments stay in the history of every later state |
| Durability.AuthoritativeSurvives | crates/persistence/rrd-lsm/src/wal.rs:209-330 | a batch acknowledged as authoritative is in the history of every later state, in its place, whatever fails, crashes or is repaired in between |
| Durability.SyncedSurvives | crates/persistence/rrd-lsm/src/wal.rs:388-398 | a successful sync makes everything acknowledged so far survive in the same way |
| Durability.MachineRunIsRun | crates/persistence/rrd-lsm/src/database.rs:532-677 | every state the database reaches together with its log is a state of a run of the transaction state machine, so every theorem about runs holds of it; a failed append that a crash leaves behind whole counts as written |
| TransactionScan.Scan | crates/persistence/rrd-lsm/src/transaction/scan.rs:113-184 | an empty or invalid range and a zero limit are refused; otherwise the first rows, up to the limit, of exactly the keys in the range that a point read of the transaction would find, with those values, in key order |
| TransactionScan.OverlayIsRange | crates/persistence/rrd-lsm/src/transaction/scan.rs:113-184 | the overlay of the snapshot's rows with the buffered writes is exactly what point reads of the transaction would find in the range |
| TransactionScan.RangeIsUnique | crates/persistence/rrd-lsm/src/transaction/scan.rs:113-184 | there is only one such listing |
| TransactionScan.ScanReadsItsSnapshot | crates/persistence/rrd-lsm/src/transaction.rs:252-265 | in every run a scan shows the transaction's own writes over the history as it was when it began |
| TransactionScan.BoundedScan | crates/persistence/rrd-lsm/src/transaction/scan.rs:160-183 | the merge loop returns the first rows of the full overlay, up to the limit |
| TransactionScan.PendingRange | crates/persistence/rrd-lsm/src/transaction/scan.rs:150-153 | the buffered writes of the range, in key order |
| TransactionScan.OverlayIsVisible | crates/persistence/rrd-lsm/src/transaction/scan.rs:113-184 | the overlay yields exactly the visible rows (buffered puts, and snapshot rows whose key has no buffered write), each once, in key order |
| ObservationLog.Log.Append | scripts/inference/capture_observations.py:138-178 | an existing lock leaves lock and file alone; otherwise one append as specified, and the lock is gone again; on a chained log it writes exactly when the log accepts the candidate |
| ObservationLog.AppendIsExact | scripts/inference/capture_observations.py:148-178 | on a chained log an append writes if and only if the log is within its bound, the candidate has both hashes, the stream has no record yet or its last one shows another snapshot, and the candidate, linked to that record and carrying its own digest, is a valid record within both budgets; it then writes exactly that record |
| LogWriters.WriterDecidesExactly | scripts/inference/capture_observations.py:166-174 | the same decision of a concurrent writer that has read the whole log |
| LogWriters.UndisturbedWriterAppends | scripts/inference/capture_observations.py:138-178 | a writer that finds the lock free and is left alone does exactly what an append does and gives the lock back |
| LogWriters.RecordsClaimNoAuthority | scripts/inference/capture_observations.py:119-135 | in every state of every run each record is an unreviewed local observation that claims no authority, whose snapshot is the digest of its source and whose identity is the digest of everything else in it |
| ObservationLog.ScanOfChained | scripts/inference/capture_observations.py:157-170 | the scan of a well-chained log accepts it and ends with the stream's last record |
| ObservationLog.ScanOfTorn | scripts/inference/capture_observations.py:157-170 | the scan refuses every log with a torn tail |
| LogWriters.ActKeepsInvariant | scripts/inference/capture_observations.py:138-178 | every step of every writer (lock, measure, read a line, decide, write some bytes, fail, release, die) keeps one current holder and a chained log |
| LogWriters.RunInvariant | scripts/inference/capture_observations.py:138-178 | the same in every state of every interleaving of any number of writers |
| LogWriters.WritersMayFailAnywhere | scripts/inference/capture_observations.py:138-178 | the runs cover every failure: a writer past the lock may die at any point, and a writing one may get any number of its bytes into the file or fail |
| LogWriters.StreamsNeverFork | scripts/inference/capture_observations.py:138-178 | in every such state each stream is one unforked chain: no predecessor first, then each names the one before it, adjacent snapshots differ; the file is those records plus a tail without newline, within its bound |
| LogWriters.TornLogIsFrozen | scripts/inference/capture_observations.py:148-178 | once a write was cut and no writer is writing, no later step of any writer changes a byte |
| LogWriters.RecordsOnlyGrow | scripts/inference/capture_observations.py:148-178 | complete records are never lost, reordered or rewritten |
| LogWriters.AppendExtendsChain | scripts/inference/capture_observations.py:148-178 | an append to a chained log writes the log of one more record, which is the given one but for its predecessor and identity, or changes nothing |
| LogWriters.AppendRefusesTornLog | scripts/inference/capture_observations.py:148-178 | an append to a torn log writes nothing |
| TamperEvidence.LastIdentityFixesStream | scripts/inference/capture_observations.py:119-170 | with an injective digest, two logs that the scan accepts for a stream and that end in the same record identity hold the same records of that stream, however other streams interleave |
| TamperEvidence.SameEndOrCollision | scripts/inference/capture_observations.py:119-170 | for any digest: such logs hold the same records of the stream, or two of their records have different contents and one digest |
| TamperEvidence.LastIdentityFixesChain | scripts/inference/capture_observations.py:119-135 | the same for bare linked chains of any two lengths |
| TamperEvidence.ScanIsExact | scripts/inference/capture_observations.py:157-170 | for every byte string: the scan accepts it for a stream if and only if it is a sequence of whole lines within their bound, each a valid record, in which the stream's records are linked |
| TamperEvidence.AcceptedIsLinked | scripts/inference/capture_observations.py:157-170 | whatever the scan accepts is a linked chain of valid records |
| ProgressReader.EveryScheduleParsesThePrefix | scripts/ci/sustained_progress.py:40-95 | for every append-only file and every poll schedule, the polls all succeed if and only if the prefix they reached parses at once, with the same counts and the same partial line |
| ProgressReader.SchedulesAgree | scripts/ci/sustained_progress.py:40-95 | two schedules that reached the same offset are indistinguishable |
| ProgressReader.ParseResumes | scripts/ci/sustained_progress.py:78-95 | carrying the partial line over a block boundary changes neither the verdict nor the counts |
| ProgressReader.PendingIsBounded | scripts/ci/sustained_progress.py:78-95 | the carried partial line has no newline and never exceeds the line bound |
| ProgressReader.PollsCatchUp | scripts/ci/sustained_progress.py:40-95 | polls of a quiet file reach its end or advance by the full block each time |
| ProgressReader.ProgressReader.Poll | scripts/ci/sustained_progress.py:40-95 | one poll: the report or the error raised and the state left behind, in every case; an oversized partial line is raised before any line is counted, an unacceptable line after the lines before it; errors before the read change nothing |
| ProgressReader.OutcomeIsPolled | scripts/ci/sustained_progress.py:78-95 | a poll raises nothing if and only if the carried line and the block parse at once, and then leaves that parse's state |
| ProgressReader.AdmittedIs | scripts/ci/sustained_progress.py:41-77 | a poll gets past its checks exactly when nothing was seen yet and nothing is there, or the file is the one seen before, still holds everything read, and was opened as itself; the block is the next bytes of it, up to the bound |
| ProgressReader.RefusedIs | scripts/ci/sustained_progress.py:41-77 | exactly when each refusal is raised |
| ProgressReader.CountsPerKind | scripts/ci/sustained_progress.py:93-94 | each listed kind is counted as many times as lines parse to it, every other line under one remaining name, and nothing else is counted |
| ProgressReader.AcceptedLines | scripts/ci/sustained_progress.py:84-92 | lines are accepted exactly when each is nonempty, within the bound and an object |
| ProgressReader.ProgressReader.TakeLines | scripts/ci/sustained_progress.py:84-94 | the line loop accepts exactly the acceptable lines; the counts grow by the buckets of all lines before the first bad one |
| ProgressReader.ProgressObserver.Emit | scripts/ci/sustained_progress.py:153-174 | one emission: the poll's error leaves the output alone; otherwise one row with the reader's counts and offset and the poll's report is written whole, or refused exactly when it would exceed the byte budget; the output is always the rendered rows |
| KnowledgeCodec.PackagePreimageRoundTrip | scripts/knowledge/export.py:155-217 | a decoder recovers the whole package, but its digest, from the bytes the package digest covers |
| KnowledgeCodec.RecordPreimageRoundTrip | scripts/knowledge/export.py:126-152 | a decoder recovers the whole record, but its digest, from the bytes the record digest covers |
| KnowledgeCodec.PreimagesAreInjective | scripts/knowledge/export.py:155-217 | different packages never share a digest pre-image |
| KnowledgeCodec.RecordPreimagesAreInjective | scripts/knowledge/export.py:126-152 | different records never share a digest pre-image |
| KnowledgeCodec.EntryRoundTrip | scripts/knowledge/export.py:155-172 | included and excluded manifest entries decode back, told apart by their tag |
| KnowledgeCodec.CollectionsRoundTrip | scripts/knowledge/export.py:198-217 | three count-prefixed collections in a row decode back |
| KnowledgeChecker.Check | scripts/ci/check_documentation.py:435-539 | the accumulated failures are empty if and only if the package is ordered, duplicate-free, partitioned, backed entry by entry and correctly digested |
| KnowledgeChecker.CheckShape | scripts/ci/check_documentation.py:435-485 | order, duplicates, overlap and coverage, both directions |
| KnowledgeChecker.CheckRecords | scripts/ci/check_documentation.py:491-500 | body and record digests, both directions |
| KnowledgeChecker.CheckEntries | scripts/ci/check_documentation.py:502-531 | every manifest entry against its record or exclusion, both directions; a reason of white space only, in any Unicode white space, is refused |
| KnowledgeBuilder.Build | scripts/knowledge/export.py:318-506 | a tree is exported if and only if it is admissible, and every exported package passes the independent check against the discovered sources, carries every source as what its header says with its owner's coordinate or the reason for its exclusion, has all its owners inside, and shows one provenance throughout |
| KnowledgeBuilder.ExportsIsAdmissible | scripts/knowledge/export.py:354-455 | the loop and its bounds accept exactly the trees in which every path is a source path; every body with a coordinate has a current status, a well-formed coordinate, a class, and an owner index that is present, has a well-formed coordinate and links it (but for docs/README.md); no coordinate repeats; and the counts and bytes are within bounds |
| KnowledgeBuilder.PlacementIsAcceptance | scripts/knowledge/export.py:354-437 | the same for one source, and it becomes a record exactly when it has a coordinate |
| KnowledgeBuilder.ClassificationIsTheTable | scripts/knowledge/export.py:31-45 | the class of a directory is that of the frozen table, and there is none outside it |
| KnowledgeRules.CanonicalIdIs | scripts/knowledge/export.py:68-75 | identifiers by their alphabet and length |
| KnowledgeRules.CoordinateIs | scripts/knowledge/export.py:105-123 | a coordinate is an instance, the word data and at least two identifiers joined behind the scheme, within its length |
| KnowledgeRules.SourcePathIs | scripts/knowledge/export.py:90-103 | a source path is solid segments joined by slashes, without control characters or backslashes, within its length |
| KnowledgeRules.TokenIs | scripts/knowledge/export.py:78-87 | a revision is visible ASCII within its length |
| KnowledgeRules.BlankIsWhite | scripts/ci/check_documentation.py:527 | text counts as blank only if it is the encoding of white space characters |
| KnowledgeRules.WhiteIsBlank | scripts/ci/check_documentation.py:527 | the encoding of any white space characters counts as blank |
| KnowledgeBuilder.PlaceAll | scripts/knowledge/export.py:350-437 | the classification loop fails exactly when a source cannot be placed or a coordinate repeats |
| KnowledgeBuilder.WriteManifest | scripts/knowledge/export.py:456-483 | one manifest entry per source in order; the lookup cannot miss |
| KnowledgeBuilder.NormalizeAll | scripts/knowledge/export.py:334-340 | every body is normalised or the export fails |
| KnowledgeBuilder.PackageHasIntegrity | scripts/knowledge/export.py:439-506 | what the builder assembles satisfies the checker's predicate, digests included |
| KnowledgeBuilder.SourcesArePartitioned | scripts/knowledge/export.py:354-437 | records and exclusions partition the discovered paths |
| KnowledgeBuilder.PackageIsOwned | scripts/knowledge/export.py:406-423 | each record's owner coordinate is the coordinate of the record at its owner index in the same package |
| KnowledgeBuilder.OwnersLeadToTheDocsIndex | scripts/knowledge/export.py:264-269 | following owner coordinates from any record under docs reaches the record of docs/README.md, which owns itself, in as many steps as the path is deep |
| KnowledgePaths.ClimbReachesTheDocsIndex | scripts/knowledge/export.py:264-269 | climbing owner indexes from any path under docs takes exactly its depth and never leaves docs |
| KnowledgePaths.PartsJoin | scripts/knowledge/export.py:264-269 | splitting and joining paths are inverse on slash-free parts |
| Detach.DetachOwnedImage | scripts/ci/run_filesystem_containment.py:16-62 | against any replies and clock: at most six inspections and five detaches, each detach of the one device the inspection just before it confirmed, always the same device, only after busy replies; every act allowed by its own clock reading before the deadline; a pause after each busy reply but the last, doubling and cut at the deadline, and no other sleep; every outcome is explained by the trace, and normal return means the last inspection saw no attachment |
| Detach.ReplySays | scripts/ci/run_filesystem_containment.py:35-48 | what an inspection shows is read off its rows: absent, attached twice, attached once without a disk, or attached once with that first disk |
| Detach.WholeDeviceIs | scripts/ci/run_filesystem_containment.py:44-46 | a disk is the prefix and then at least one digit and nothing else |
| Detach.Detaching | scripts/ci/run_filesystem_containment.py:39-55 | a confirmed detach keeps all of that |
| Navigation.OnePassSettles | scripts/knowledge/render_navigation.py:91-154 | after one pass the drift check reports nothing, a second pass changes no file, and in every index all text outside the markers is unchanged, for markers below the header lines and the title |
| Navigation.Checkout.WriteIndexes | scripts/knowledge/render_navigation.py:179-188 | for every tree: the state and error of rewriting the marked indexes one after another, nothing but text between markers changed, the changed files listed; with markers below the header lines and the title it succeeds exactly when every index can be rendered from the original tree, ends in the tree that gives, and after a failure every file has its old or its regenerated text |
| Navigation.PassWhenSettled | scripts/knowledge/render_navigation.py:179-188 | with markers below header and title the order of rewriting does not show, at every point of the pass |
| Navigation.IndexDriftFailures | scripts/knowledge/render_navigation.py:141-154 | one failure for each marked index that is not what it should be, in order, with what is wrong; none exactly when every marked index is as it should be |
| Navigation.GeneratedIndexBody | scripts/knowledge/render_navigation.py:91-112 | the row loop, with missing metadata and duplicate coordinates |
| Navigation.MarkedIndexes | scripts/knowledge/render_navigation.py:128-138 | exactly the listed indexes with a marker line, each once, in order |
| Navigation.RenderIs | scripts/knowledge/render_navigation.py:115-125 | rendering succeeds exactly on a text with one start line before one end line, and replaces what lies between |
| Navigation.RenderTwice | scripts/knowledge/render_navigation.py:115-125 | rendering is idempotent for rows that are no markers |
| Navigation.RowsAreUnmarked | scripts/knowledge/render_navigation.py:104-109 | generated rows are never marker lines |
| Navigation.BodySame | scripts/knowledge/render_navigation.py:28-112 | generated rows depend on headers and titles only |
| NavigationRows.IndexListsChildren | scripts/knowledge/render_navigation.py:71-112 | an index is generated if and only if its directory has a child with a coordinate, each of them has its metadata and no two share a coordinate; it then has one row per such child, in name order: another Markdown file, or a directory with a README |
| NavigationRows.RowShows | scripts/knowledge/render_navigation.py:104-109 | what a row shows: the escaped title linking the child, the coordinate linking itself, and the status |
| NavigationRows.EscapeReadsBack | scripts/knowledge/render_navigation.py:104 | the shown title is the title with every bracket escaped and nothing else touched |
| NavigationRows.MetadataIs | scripts/knowledge/render_navigation.py:39-68 | title, status and the unquoted coordinate, which must be an RRFlow address |
| NavigationRows.StripTicksIs | scripts/knowledge/render_navigation.py:60 | the coordinate is what stands between the enclosing backticks |
| NavigationRows.MarkerIs | scripts/knowledge/render_navigation.py:16-17 | a marker line is the marker and then only blanks and tabs |
| Surfaces.JavaRoundTrip | sdks/java/scripts/generate.py:58-92 | parsing the printed Java file gives back exactly the printed catalogue, for every list of endpoints with supported names and quote-free fields |
| Surfaces.DotnetRoundTrip | sdks/dotnet/scripts/generate.py:58-99 | the same for the printed .NET file, whose enum members are not mistaken for cases |
| Surfaces.JavaLineReads | scripts/ci/check_generated_surfaces.py:214-233 | one Java constant reads back as its endpoint |
| Surfaces.DotnetLineReads | scripts/ci/check_generated_surfaces.py:236-255 | one .NET case reads back as its endpoint |
| Surfaces.CallRoundTrip | scripts/ci/check_generated_surfaces.py:214-255 | the shared argument list reads back, whatever follows it |
| Surfaces.JavaFrameIsSilent | sdks/java/scripts/generate.py:65-92 | no fixed line of the Java file matches the parser's pattern |
| Surfaces.DotnetFrameIsSilent | sdks/dotnet/scripts/generate.py:59-99 | no fixed line and no enum member of the .NET file matches |
| SurfaceParsing.JavaIsExact | scripts/ci/check_generated_surfaces.py:214-233 | for every line: it is read as an endpoint if and only if it prints that endpoint as a constant of some name |
| SurfaceParsing.DotnetIsExact | scripts/ci/check_generated_surfaces.py:236-255 | for every line: it is read as an endpoint if and only if it prints that endpoint as a case of some member |
| SurfaceParsing.CallIs | scripts/ci/check_generated_surfaces.py:214-255 | an argument list is accepted exactly when it prints the fields returned |
| CatalogueOrder.GeneratedInOrder | sdks/java/scripts/generate.py:37-58 | both generated files list exactly the endpoints that the document's named operations describe, in the order of their identifiers |
| CatalogueOrder.EndpointsAre | scripts/ci/check_generated_surfaces.py:104-150 | the collected endpoints are exactly those that a kept operation describes: identifier, upper-case method, path, the authentication its first scheme asks for, and the flag |
| Catalogues.CanonicalEndpoints | scripts/ci/check_generated_surfaces.py:104-150 | the nested loops fail exactly on a canonical operation without identifier or Boolean flag or with a repeated identifier, and otherwise collect exactly the canonical endpoints |
| Catalogues.GeneratedFilesParse | sdks/java/scripts/generate.py:37-71 | both generated files of a well-formed document parse back to the document's named operations, sorting included |
| Catalogues.GeneratedAgreesWithCanonical | scripts/ci/check_generated_surfaces.py:104-255 | both projections equal the canonical catalogue if and only if no named operation uses a method other than GET, POST and DELETE |
| Names.MarkerName | crates/transport/rrd-client/build_support.rs:21-37 | a marker is made exactly for the supported operation names, part by part |
| Names.MarkerDecodes | crates/transport/rrd-client/build_support.rs:21-37 | a marker decodes back to its operation |
| Names.MarkersAreDistinct | crates/transport/rrd-client/build_support.rs:21-37 | markers are equal only for equal operations |
| Names.Markers | crates/transport/rrd-client/build_support.rs:39-50 | the duplicate check fires, on supported names, exactly when an operation is repeated |
| Names.MemberIsMarker | sdks/dotnet/scripts/generate.py:14-15 | the .NET member name of a supported operation is its Rust marker |
| Names.EnumNamesAreDistinct | sdks/java/scripts/generate.py:14-15 | Java constant names are equal only for equal supported operations |
| LongestSteps.Summarize | scripts/ci/inspect_candidate_runs.py:81-117 | keeping the list sorted and cut at each step ends with exactly the first ten of the full sort of all timed steps, and counts them all |
| LongestSteps.OnlineIsFullSort | scripts/ci/inspect_candidate_runs.py:99-101 | one insertion into the cut list is one insertion into the full one, for any total preorder and any size |
| LongestSteps.ReportIgnoresOrder | scripts/ci/inspect_candidate_runs.py:81-117 | with unique job identifiers the ten reported rows do not depend on the order of the jobs |
| LongestSteps.TimedStepsAre | scripts/ci/inspect_candidate_runs.py:89-99 | the timed steps are exactly the completed steps with a known duration and both names, each with its job's and its own data |
| LongestSteps.SlowestAreReported | scripts/ci/inspect_candidate_runs.py:98-101 | the report is in order of duration, holds ten steps or all, and nothing left out took longer |
| LongestSteps.CollectJobs | scripts/ci/inspect_candidate_runs.py:34-52 | an inventory is accepted exactly when its one or two pages are complete, bounded and free of duplicate jobs |
| Conflicts.Admit | scripts/ci/analyze_sustained_conflicts.py:133-185 | admission keeps every row in order and fails exactly on too many, an invalid one or a repeated identity |
| Conflicts.CollectTraces | scripts/ci/analyze_sustained_conflicts.py:194-207 | traces are collected if and only if no line is malformed, no identity is repeated and there are no more than allowed; otherwise the first line that breaks this decides the error |
| Conflicts.Analyze | scripts/ci/analyze_sustained_conflicts.py:209-257 | the join reports exactly the traced attempts, in order, and fails exactly when a traced attempt was not rejected |
| Conflicts.CountsAreConserved | scripts/ci/analyze_sustained_conflicts.py:209-257 | rejected attempts are the conflicts plus those without trace; traces are the conflicts plus the unmatched |
| Conflicts.OverlapIsMutual | scripts/ci/analyze_sustained_conflicts.py:219-227 | one attempt counts another as overlapping exactly when the other counts it |
| Conflicts.OverlapsShareAnInstant | scripts/ci/analyze_sustained_conflicts.py:219-227 | the counted attempts are exactly the others of the same point and seed that were under way at some instant of this one |
| Conflicts.OverlapsAreEarliest | scripts/ci/analyze_sustained_conflicts.py:228-241 | they are listed by start, and the ones cut off started no earlier |
| Conflicts.AttemptIs | scripts/ci/analyze_sustained_conflicts.py:139-185 | a row becomes an attempt exactly when no field is missing and it does not finish before it starts, with those fields |
| Conflicts.ConflictShowsOverlaps | scripts/ci/analyze_sustained_conflicts.py:219-241 | the overlap count is the number of overlapping attempts, and the list shows them all unless it is marked as cut |
| Review.UniqueRows | scripts/inference/review_outcomes.py:98-115 | rows are accepted exactly when they are in number and no task repeats |
| Review.EnterOutcomes | scripts/inference/review_outcomes.py:152-163 | one candidate's outcomes are entered under their tasks, or the first unsupported one is refused |
| Review.BuildPacket | scripts/inference/review_outcomes.py:118-175 | a packet is built exactly from complete exports, and then every task carries exactly one outcome per candidate |
| Review.HeldOutcomesAreTheCandidates | scripts/inference/review_outcomes.py:152-175 | an outcome under a task belongs to that task and comes from that candidate |
| Review.ValidateReview | scripts/inference/review_decisions.py:29-61 | a review is accepted exactly when it has one sound decision per packet entry on distinct known tasks; counts and labels are those of the decisions |
| Review.EveryTaskIsDecidedOnce | scripts/inference/review_decisions.py:29-61 | every accepted review decides each packet task exactly once and the three counts add up to the number of tasks |
| MaskPaths.MaskRoots | scripts/ci/run_offline_lifecycle.py:61-82 | it refuses exactly when a path is not allowed, and otherwise returns the minimal paths, each once and by depth, whatever the order of ties |
| MaskPaths.RootsPartition | scripts/ci/run_offline_lifecycle.py:61-82 | no root contains another, every input lies under exactly one, none overlaps the stage |
| MaskPaths.GreedyStep | scripts/ci/run_offline_lifecycle.py:61-82 | going by depth, a path is new exactly when no chosen root contains it |

## Left out

- Engine budgets and limits: elapsed-time limits, memory charges, stalls and admission of writers only refuse work earlier; the model has no clock inside the engine.
- Segment files, point indexes, bloom filters, block caches and range cursors: a segment is its table of versions and its key range.
- Manifest files, checkpoints and value-file garbage collection: only the manifest's rule on key ranges is modelled; the approval plan and digests of a tail repair are left out, its truncation is modelled.
- Wal.WalWriter.Append: the free-space reserve that can refuse a frame before anything is written is left out; batches are written one at a time, because a group is one longer frame sequence.
- Recovery.ReopenIsCrashStep: the surviving log is a prefix of what was written; a file system that keeps later bytes and loses earlier ones would be caught by the checksum, which is a parameter here. Memory and time budgets of the open are left out.
- Durability.AuthoritativeSurvives: a flush publishes its segments and its new log in one step; a crash inside that publication is left out, as is the writer that must be reopened after the memtable could not be updated.
- Database.Database.CompactSegments: which source segments to compact, by level, trigger and budget, is an input.
- TransactionScan.Scan: the snapshot's rows arrive as an input in key order; the projected read that streams them, and the byte budget of the output, are left out.
- ProgressReader.ProgressObserver.Emit: elapsed time, resource counters and the JSON text of a row are inputs; the thread that calls it is left out.
- Transactions.ConflictIsExact: read-only keys and predicates are not conflict ranges, as the source says; serializability is not claimed.
- Query, vector and transport crates, CLI adapters and HTTP clients: mostly one branch at a time over code whose laws are elsewhere.
- LogWriters.ActKeepsInvariant: a lock file left by a dead process is removed by an operator between runs; that removal is a step of the environment, allowed only for a dead holder.
- ObservationLog.Log.Append: what JSON text looks like, beyond parsing back and being one line, is not modelled.
- KnowledgeBuilder.Build: reading a coordinate, a status and links out of Markdown is a parameter; which of several errors is reported first is not modelled.
- Navigation.OnePassSettles: headers and titles are read by parameters, the title with the stated law that it is decided above the marker; file names with line breaks and other line separators than the newline are not modelled; the relationship graph is left out.
- Surfaces.JavaRoundTrip: the patterns are matched line by line, which is exact for fields without line breaks.
- Catalogues.GeneratedFilesParse: a mutation flag that is present but not Boolean is treated as missing; Go, TypeScript and Python catalogues are left out.
- LongestSteps.Summarize: the list of jobs that need attention is left out; run and commit identity checks around the job pages are left out.
- Conflicts.Admit: segment headers (index, format, campaign digest, phase) are left out.
- Conflicts.CollectTraces: an error for a repeated trace and for too many is one error, as in the source.
- Review.ValidateReview: the header of a review (purpose, people, date) is left out.
- Detach.DetachOwnedImage: a clock reading may be any number; nothing assumes that time passes.
- MaskPaths.MaskRoots: the list of protected directories is a parameter.
- Windows access control, disk-image creation, process capture and repository policy checks: operating-system calls and text searches.
