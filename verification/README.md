# A model of blop-db, with proofs

blop-db writes each transaction to a log first, executes independent transactions on
several workers at once, and promises the results of executing the log one record after
another. This project states that promise, and the promises of the storage it rests on, as
Dafny models of the Rust sources, and proves them for every input, every interleaving and
every crash the models can express.

The files follow four layers.

**Scheduling.** `Scheduler` is the coordinator as a machine over values: log, versioned store,
outcomes, published image, schedule, workers and receipts. `SchedulerSafety` and
`SchedulerRecovery` prove that each step keeps one invariant that ties the store, the image and
the receipts to the serial execution of the log (`Serial`, `Versions`). `SchedulerRuns` draws
the conclusions about whole runs, in which a crash may strike between steps or inside one, and
`SchedulerProgress` and `SchedulerLiveness` prove that the internal steps drain every backlog in
whatever order they come and that an accepted transaction is always acknowledged.
`Coordinator` is the same coordinator in the imperative form of the source: an object whose
fields its methods update, each method proved equal to the machine's step; `Groups` says which
requests a group takes.

**Versioned storage.** `KeyEncoding` is the order-preserving codec of typed keys, `Mvcc` the
encoding of versioned rows, `StateReads` the point reads and scans over those bytes,
`Collection` and `Compaction` the maintenance passes, `Maintenance` their composition, and
`Retention` the registry of snapshots and cursors that decides how far maintenance may go.

**Incremental validation.** `Wal`, `Manifest.dfy` and `LogValidation` give the full check of a log
and the incremental check of what was added to it, `LogCompleteness` shows that the second refuses
nothing the first accepts, and `WalFormat` that both accept only what the writer writes;
`LogAppend` is the writer whose appends the proof follows. `Checkpoint` is the cache of checkpoint scans.

**Exchanged forms.** `Records`, `Access`, `Page`, `PageNode`, `PageFile.dfy`, `Exchange`, `Feed`,
`LogicalPages`, `Polling`, `Derived` and `Bind` are the record envelope, access manifests, slotted
pages with overflow chains, feed batches and their paging, polling a source that moves between
pages, the exactly-once consumer, and program binding.

Conventions. Integers are unbounded in Dafny; where the source's width matters (the last
sequence is never assigned, sign bits, page counts, two-, four- and eight-byte fields) the bound
is written out. SHA-256 (section 6.2 of FIPS 180-4) and CRC-32C are uninterpreted functions over
byte sequences. A directory is a map from file to bytes, a B+ tree its entries in order, and one
publication is atomic. The interpreter is an arbitrary deterministic function of a record, its
sequence and the store at the sequence before it, under the contract that it depends only on the
addresses in its declared read scopes and writes only inside its declared write scopes
(`Serial.Contract`). `Serial.OneByOne` is the promise itself: each record runs on what the records
before it left. A transaction also reads the limit policy, and administrative records read
and write anything.

## Model

| member | source | states |
|---|---|---|
| SchedulerRuns.SerialEquivalence | src/database/scheduler.rs:230-480 | In every reachable state of every run, whatever the dispatch order, window, grouping, checkpoints, imports and crashes, the outcome stored for record n is the serial outcome of record n, each visible uncollected record has one, and each receipt sent equals it |
| SchedulerRuns.OneAfterAnother | README.md:3-5 | There is one way to run the log record by record, each record on what the last writers before it left at the addresses it may read; in every reachable state the stored outcomes, the receipts sent and every visible read are those of that run |
| SchedulerRuns.OneByOneExists | README.md:3-5 | In every reachable state such a run exists and is the only one |
| SchedulerRuns.VisibleReads | src/database/scheduler.rs:406-480 | Every read of any address at any sequence between the history floor and the visible frontier returns what the serial state at that sequence holds, although later records may already be installed |
| SchedulerRuns.CrashReproducesReceipts | src/database/engine.rs:30-184 | Crash at any later point of a run, between steps or inside one (after an append before its publication, after a publication before its replies, between the two publications of maintenance, among the appends of an import), keep only the published image and the log: replay reaches the whole log and gives every receipt ever sent again |
| SchedulerRuns.CutRecoverable | src/database/scheduler.rs:454-481 | Wherever a step is cut after some of its appends, publications and replies, what is durable is enough to recover from, holds the old log and covers every reply already out |
| SchedulerRuns.CutBarrierStrikes | src/database/engine.rs:30-55 | A crash can strike with a barrier record in the log and in no published image |
| SchedulerRuns.CutReleaseStrikes | src/database/scheduler.rs:454-481 | A crash can strike after the checkpoint of a release and exactly any number of its replies, oldest first |
| SchedulerRuns.CutOthersStrike | src/database/maintenance.rs:192-250 | A crash can strike between the two publications of maintenance and after any number of imported records |
| SchedulerRuns.ExactVersions | src/database/feed.rs:111-170 | For every visible record above the floor, each effect of its stored outcome is in the store at exactly its sequence with exactly its value, so reading an outcome back never finds a version missing or different |
| SchedulerRuns.RunInvariant | src/database/scheduler.rs:585-912 | The invariant holds in every state of every run from a created database |
| SchedulerRuns.StepKeeps | src/database/scheduler.rs:585-912 | Each of the thirteen kinds of step, crashes inside the others among them, keeps the invariant |
| SchedulerRuns.RunExtends | src/database/scheduler.rs:585-912 | Along a run the log only grows and receipts are never withdrawn or changed |
| SchedulerSafety.ReadyReads | src/database/scheduler.rs:379-401 | When an entry has no dependencies left, each address it may read has in the live store exactly its serial value before that record, although later writers may have installed already |
| SchedulerSafety.WaitsForWriter | src/database/scheduler.rs:324-332 | An unresolved entry waits for each earlier unresolved entry that may write an address it may read |
| SchedulerSafety.HoldsReads | src/storage/mvcc.rs:226-272 | A store that holds every finished version of an address at or below n reads that address at n as the serial store does, ignoring later versions |
| SchedulerSafety.HoldsInstall | src/database/scheduler.rs:425-432 | Installing one record's serial outcome out of order adds exactly that record to what the store holds of the serial run |
| SchedulerSafety.DispatchKeeps | src/database/scheduler.rs:371-404 | Handing a ready entry to an idle worker keeps the invariant, and so the captured view gives that record its serial reads |
| SchedulerSafety.WorkKeeps | src/database/workers.rs:78-110 | A worker's completion carries the serial outcome of its record |
| SchedulerSafety.WorkSees | src/database/workers.rs:80-90 | A completion is the record run on any snapshot that shows, at each address it may read, what the last writer before it put there |
| SchedulerSafety.CompletionFound | src/database/scheduler.rs:420-425 | A queued completion names an assigned, unresolved record above the checkpoint, at the place the frontier predicts, so the lookup and the installation cannot fail |
| SchedulerSafety.InstallKeeps | src/database/scheduler.rs:406-440 | Installing a completion out of order keeps the invariant and empties the queue by one |
| SchedulerSafety.PublishImage | src/database/cursor.rs:373-379 | Published at n below the live frontier, the image holds exactly the serial versions at or below n, though later records are installed |
| SchedulerSafety.PublishKeeps | src/database/scheduler.rs:454-465 | Publishing any visible prefix keeps the invariant |
| SchedulerSafety.ReleaseFits | src/database/scheduler.rs:468-475 | Releasing the resolved prefix never subtracts more bytes or reservations than are counted |
| SchedulerSafety.ReleasedReceipts | src/database/scheduler.rs:466-481 | Every record the frontier passes gets a receipt, with its serial outcome |
| SchedulerSafety.FinishKeeps | src/database/scheduler.rs:441-482 | Advancing, checkpointing when the interval is reached and releasing keep the invariant |
| SchedulerSafety.FinishExact | src/database/scheduler.rs:441-482 | The frontier stops just below the first unresolved record, and a checkpoint is published there exactly when the old one trails by the interval |
| SchedulerSafety.BlockingExact | src/database/scheduler.rs:325-332 | The dependency list holds exactly the unresolved entries with a write scope overlapping the new record's read scopes |
| SchedulerSafety.PreparedIsNext | src/database/scheduler.rs:137-219 | A prepared head is the canonical record D+1 linked to record D, and only transactions are prepared |
| Scheduler.PrepareExact | src/database/scheduler.rs:137-219 | A transaction is admitted exactly when a sequence is left, its reservation is within both limits and its record within the format and the backlog; an administrative request exactly when its record is within the backlog; else the error is the first that applies, with what it requires |
| Scheduler.CommitExact | src/database/engine.rs:30-55 | A record commits exactly when nothing is in flight, a sequence is left and the format has room; it then ends the log, visible, published and acknowledged |
| SchedulerSafety.AssignedEntry | src/database/scheduler.rs:325-346 | The appended entry is the last in order and waits for exactly the unresolved records that may write what it may read |
| SchedulerSafety.AssignKeeps | src/database/scheduler.rs:310-359 | Assigning a fitting head keeps the invariant |
| SchedulerSafety.AcceptKeeps | src/database/scheduler.rs:144-219 | Taking a request as the head keeps the invariant |
| SchedulerSafety.RepublishKeeps | src/database/cursor.rs:354-380 | Republishing the checkpoint for cursor metadata while later records are installed keeps the invariant |
| SchedulerRecovery.DrainKeeps | src/database/engine.rs:110-116 | Publishing the drained frontier as the checkpoint keeps the invariant |
| SchedulerRecovery.CommitKeeps | src/database/engine.rs:30-55 | A record committed with nothing in flight is appended, executed, installed and published, and the invariant holds |
| SchedulerRecovery.AppendedRecoverable | src/database/engine.rs:50-53 | A record appended by a commit and not yet executed or published is recovered with everything before it |
| SchedulerRecovery.ReleasingRecoverable | src/database/scheduler.rs:454-481 | After the checkpoint of a release is published and any number of its replies are out, what is durable recovers every reply |
| SchedulerRecovery.PrefixContinues | src/database/replica.rs:421-428 | Any prefix of an imported batch continues the log |
| SchedulerRecovery.BarrierKeeps | src/database/scheduler.rs:714-738 | An administrative record executes after every record before it and none after it; it is logged and acknowledged with its serial outcome exactly when a sequence and room in the format are left |
| SchedulerRecovery.BarrierCommit | src/database/engine.rs:30-55 | The commit behind a barrier succeeds exactly then, and otherwise fails for lack of sequences or for its size |
| SchedulerRecovery.MaintainKeeps | src/database/maintenance.rs:192-250 | Collecting at any floor up to the drained frontier changes no read at or above the floor and keeps the invariant |
| SchedulerRecovery.MaintainCollects | src/storage/maintenance.rs:37-94 | Maintenance does collect: at or below the floor one version of a row and no outcome is left, and everything above it and all metadata stays |
| SchedulerRecovery.ReplayIs | src/database/engine.rs:122-184 | Replaying (C, n] from the published image rebuilds the serial state and outcomes of n, for every n |
| SchedulerRecovery.RecoverKeeps | src/database/engine.rs:122-184 | From any state whose log, image and receipts are sound, in the middle of a step or not, recovery restores the whole invariant with everything settled |
| SchedulerRecovery.ImportKeeps | src/database/replica.rs:298-437 | Importing records that continue the log keeps the invariant and the log is the old one followed by the batch |
| SchedulerProgress.CoordinatorInvariants | src/database/scheduler.rs:243-359 | At every step of every run: C <= F <= D, F-C below the interval, D-C below interval plus backlog, entries are exactly F+1..D with the digests of their records, byte counters are the sums over entries and within limits, and a prepared head is record D+1 |
| SchedulerProgress.LowestReady | src/database/scheduler.rs:362-404 | With no worker busy the lowest unresolved entry is ready and inside the window |
| SchedulerProgress.SomeStep | src/database/scheduler.rs:371-480 | While anything is assigned, some internal step is enabled: no deadlock |
| SchedulerProgress.InternalDecreases | src/database/scheduler.rs:371-480 | Every internal step decreases an explicit measure of the backlog and leaves the log alone |
| SchedulerProgress.EveryDriveDrains | src/database/scheduler.rs:371-480 | Every sequence of internal steps, in whatever order, is no longer than the backlog, and each that goes on until no internal step is left ends with an empty schedule, frontier D and a receipt for every record |
| SchedulerProgress.DriveBounded | src/database/scheduler.rs:371-480 | Along any internal steps the steps taken plus the backlog left never exceed the backlog at the start, and each record the frontier passes is acknowledged |
| SchedulerProgress.BacklogDrains | src/database/scheduler.rs:371-480 | Such a complete sequence exists from every reachable state |
| SchedulerProgress.DispatchedOnce | src/database/scheduler.rs:371-404 | In a whole run, crashes included, no sequence is dispatched twice |
| SchedulerProgress.WithinWindow | src/database/scheduler.rs:362-369 | In every reachable state whatever a worker has lies above the frontier and at most a window ahead of it |
| SchedulerLiveness.AcceptedIsAcknowledged | src/database/scheduler.rs:585-912 | From any reachable state with a free head, a request within the limits, transaction or administrative, is accepted; every way of serving it (internal steps, registering, executing the barrier, in any order) is bounded, and every one that goes on until no such step is left has put it in the log right after everything already there and sent its serial outcome |
| SchedulerLiveness.ServeKeeps | src/database/scheduler.rs:585-912 | Each serving step lowers an explicit measure and loses nothing that is owed |
| SchedulerLiveness.SomeService | src/database/scheduler.rs:371-480 | While anything is assigned or waiting some serving step is enabled |
| SchedulerLiveness.HeadFitsEmpty | src/database/scheduler.rs:691-696 | A prepared head always fits an empty schedule, so nothing that was accepted can starve |
| SchedulerLiveness.FreshDatabase | src/storage/store.rs:149-232 | Every legal configuration has a created database, from which runs start |
| Coordinator.IntakesKeep | src/database/scheduler.rs:243-350 | Forming a group, whatever mix of accepted, rejected and barrier requests the queue holds, keeps the invariant and only appends to the log |
| Groups.GroupExact | src/database/scheduler.rs:243-350 | A group reads the front of the queue; the transactions within the limits become records in queue order behind the waiting head, with at most the last left as head; it ends at a barrier, an exhausted log, a head that does not fit, an empty or interrupted queue, or its last round |
| Groups.Polled | src/database/scheduler.rs:268-308 | A rejection ends the group exactly when no sequence is left; a request over a limit is turned away and the group goes on |
| Coordinator.DispatchExhausts | src/database/scheduler.rs:371-404 | After dispatch either no worker is idle or no entry is ready |
| Coordinator.ReadyExact | src/database/scheduler.rs:362-404 | An assigned record is ready exactly when no worker has had it, it is among the first `window` above the frontier, and no earlier unresolved record may write what it may read |
| Coordinator.IdleMeansWaiting | src/database/scheduler.rs:371-404 | After dispatch with a worker idle, each of those records is taken, done, or waits for such an earlier record |
| Coordinator.CompletionsKeep | src/database/scheduler.rs:406-483 | Installing all queued completions never fails, and releasing after it keeps the invariant |
| Coordinator.CrashInvariant | src/database/engine.rs:122-169 | What a crash leaves, wherever it strikes, is what reopening demands: anchored checkpoint, digests of retained outcomes matching the log |
| Coordinator.Coordinator.PrepareHead | src/database/scheduler.rs:144-219 | A request becomes the head exactly when it is within the limits; a rejected one leaves the coordinator alone |
| Coordinator.Coordinator.TakeRecord | src/database/scheduler.rs:310-349 | Moving the head to the end of the schedule is one assignment step of the machine with the group's records pending |
| Coordinator.Coordinator.NextHead | src/database/scheduler.rs:244-308 | Polling the queue stops, rejects, hands over a barrier or prepares exactly as the group by definition |
| Coordinator.Coordinator.Register | src/database/scheduler.rs:230-360 | The loop over the queue leaves exactly the state, the rest of the queue, the barrier and the failure of the group by definition; a failure leaves the durable log untouched |
| Coordinator.Coordinator.Dispatch | src/database/scheduler.rs:371-404 | The nested loops reach the exhausted state of the machine and report whether anything was handed out |
| Coordinator.Coordinator.ResolveEntry | src/database/scheduler.rs:426-432 | The in-place loop resolves one entry and drops its sequence from every dependency list, and changes nothing else |
| Coordinator.Coordinator.InstallNext | src/database/scheduler.rs:415-432 | One completion is installed in place as the machine's step, errors included |
| Coordinator.Coordinator.AdvanceFrontier | src/database/scheduler.rs:441-453 | The loop moves the frontier over exactly the leading resolved entries |
| Coordinator.Coordinator.Complete | src/database/scheduler.rs:406-483 | Always succeeds, and equals installing every queued completion and then finishing |
| Coordinator.Coordinator.ReleasePrefix | src/database/scheduler.rs:466-481 | The pop loop releases exactly the resolved prefix, with counters and receipts to match, and no subtraction underflows |
| Coordinator.Coordinator.Release | src/database/scheduler.rs:441-482 | Advancing, checkpointing if due and releasing, in place, is the machine's finishing step |
| Coordinator.Coordinator.CommitRecord | src/database/engine.rs:30-55 | The imperative commit is the machine's commit, and an error changes nothing |
| Coordinator.Coordinator.PublishDurable | src/database/engine.rs:110-116 | Publishing the live roots at the durable end is publishing the roots cut there |
| Coordinator.Coordinator.Administer | src/database/scheduler.rs:714-738 | The barrier arm of the loop keeps the invariant and leaves everything settled; it returns the serial outcome of the record it logged exactly when there is room for it, and otherwise the reason |
| Coordinator.Coordinator.ReplayLog | src/database/engine.rs:127-179 | The replay loop over the retained log, which checks retained outcomes and skips what the checkpoint covers, gives the replayed state and never fails on a sound image |
| Coordinator.Coordinator.Reopen | src/database/engine.rs:122-184 | Reopening after a crash, also one inside a step, succeeds and restores the invariant |
| Serial.SerialPrefix | README.md:3-5 | Appending to the log changes no earlier serial state or outcome |
| Serial.ExecuteSees | src/storage/mvcc.rs:226-272 | A record is run on any snapshot that shows, wherever it may read, the newest version below its own sequence, a deletion or no version meaning absent |
| Serial.SerialSees | src/vm/mod.rs:430-436 | A serial outcome is the record run on any snapshot of what the outcomes before it left |
| Serial.SerialIsOneByOne | README.md:3-5 | The outcomes of a run one record after another, stated without stores or sequences, are exactly the serial ones: it is such a run and the only one |
| Serial.SerialVersions | src/storage/store.rs:381-427 | The serial store holds a version of sequence k exactly where record k wrote, with the value it wrote |
| Serial.SerialUpTo | src/storage/store.rs:429-507 | The serial state at k is the one at any later n cut at k |
| Versions.CollectedReads | src/storage/maintenance.rs:37-57 | Collection changes no read at or above its floor |
| Versions.CollectMinimal | src/storage/maintenance.rs:37-57 | Each row keeps at most one version at or below the floor |
| Versions.UpToReads | src/storage/store.rs:429-507 | Cutting a store at n changes no read at or below n |
| Records.ReadOfEnvelope | src/database/engine.rs:64-92 | A written record is read back from the front of any longer input |
| Records.AcceptedRecord | src/storage/metadata.rs:611-668 | The readers accept nothing but envelopes: sequence, predecessor, kind and body determine every byte |
| Access.OverlapMeets | src/vm/access.rs:217-228 | `overlap` holds exactly when some address lies in both scopes |
| Access.NormalizePreserves | src/vm/access.rs:77-104 | Normalising keeps the read and the write address sets and yields a normal form |
| Access.NormalFormUnique | src/vm/access.rs:77-104 | Two normal forms with equal read and write sets are the same list |
| Access.NormalizeByMeaning | src/vm/access.rs:77-104 | Two inputs normalise alike exactly when they grant the same addresses: order, duplicates and redundant points do not matter |
| Access.NormalizeFixedPoint | src/vm/access.rs:77-104 | Normal forms are exactly the fixed points of normalisation |
| Access.Combine | src/vm/access.rs:77-85 | The first loop rejects an invalid scope or merges modes per scope in order |
| Access.SuppressPoints | src/vm/access.rs:86-104 | The second loop drops, per mode, the points a table scope already grants |
| Access.New | src/vm/access.rs:77-104 | The two loops compute the normal form |
| Access.DecodeExactlyEncodings | src/vm/access.rs:133-200 | The bytes decode to a manifest exactly when the manifest is a normal form and the bytes are its encoding |
| Access.DecodeManifest | src/vm/access.rs:151-200 | The decoding loop with its running scope and modes is that decoder |
| Access.CoverageExact | src/vm/access.rs:241-275 | The lookup test passes exactly when each required address is granted, per mode |
| Access.Validate | src/vm/access.rs:241-275 | Accepts exactly when counts and tables are in order and every required access is declared, per mode |
| KeyEncoding.UnescapeOfEscape | src/storage/encoding.rs:294-324 | A frame is read back from any suffix, with its length |
| KeyEncoding.EscapeOfUnescape | src/storage/encoding.rs:309-324 | Only frames the writer produces are accepted |
| KeyEncoding.EscapeOrder | src/storage/encoding.rs:294-307 | Frames of different bytes compare as the bytes do, whatever follows |
| KeyEncoding.EscapePrefixFree | src/storage/encoding.rs:294-307 | Equal concatenations split equally: no frame is a prefix of another |
| KeyEncoding.EscapeInto | src/storage/encoding.rs:294-307 | The writing loop appends exactly the frame |
| KeyEncoding.ReadFrame | src/storage/encoding.rs:309-324 | The reading loop accepts and returns exactly what the frame reader by definition does |
| KeyEncoding.ReadValueOf | src/storage/encoding.rs:185-231 | A typed value's bytes in front of any suffix give its key bytes and that suffix |
| KeyEncoding.AcceptedValue | src/storage/encoding.rs:185-231 | What the value reader accepts is the encoding of one value of the type |
| KeyEncoding.ReadKeyOf | src/storage/encoding.rs:252-292 | A typed value's key bytes in front of any suffix give its value bytes and that suffix |
| KeyEncoding.AcceptedKey | src/storage/encoding.rs:252-292 | What the key reader accepts is the key of one value of the type |
| KeyEncoding.KeyOrder | src/storage/encoding.rs:185-231 | For arbitrarily nested types, byte order of keys under any suffixes is field-by-field order of the values, signed integers included |
| KeyEncoding.EncodedSizes | src/storage/encoding.rs:85-145 | No value or key is longer than the maximum computed from its type |
| KeyEncoding.DecodeOfDescribe | src/storage/encoding.rs:85-145 | The description of a legal type decodes to it, with its exact maxima |
| KeyEncoding.AcceptedDescriptor | src/storage/encoding.rs:85-145 | Only descriptions of legal types are accepted: depth, arity, bounds and sizes in range |
| KeyEncoding.DecodedSchema | src/storage/encoding.rs:34-58 | A decoded schema is well formed and its bytes are the version and the description |
| KeyEncoding.EncodeKeyAccepts | src/storage/encoding.rs:166-183 | `encode_key` succeeds exactly on encodings of typed values of a schema usable as a key |
| KeyEncoding.DecodeUndoesEncode | src/storage/encoding.rs:166-250 | `decode_key` undoes `encode_key`, and the key is within the schema's maximum |
| KeyEncoding.EncodeUndoesDecode | src/storage/encoding.rs:166-250 | `encode_key` undoes `decode_key`: one key per value |
| KeyEncoding.EncodedKeyOrder | src/storage/encoding.rs:166-183 | Encoded keys compare, and are equal, as the values are |
| KeyEncoding.PushKey | src/storage/encoding.rs:185-231 | The recursive reader with its input and output cursors appends the key bytes of one value |
| KeyEncoding.PushValue | src/storage/encoding.rs:252-292 | The recursive reader with its input and output cursors appends the value bytes of one key |
| KeyEncoding.EncodeKey | src/storage/encoding.rs:166-183 | The imperative encoder is the codec the laws above are about |
| KeyEncoding.DecodeKey | src/storage/encoding.rs:233-250 | The imperative decoder is the codec the laws above are about |
| Utf8Text.Utf8Exact | src/storage/encoding.rs:216-218 | The text check accepts exactly the UTF-8 forms of sequences of scalar values (section 3 of RFC 3629) |
| Bytes.LittleEndianDigit | src/database/engine.rs:64-92 | Byte i of a fixed-width integer has the weight of 256 to the power i |
| Mvcc.DecodeOfEncode | src/storage/mvcc.rs:62-84 | A version key decodes to its table, row and sequence |
| Mvcc.AcceptedStateKey | src/storage/mvcc.rs:66-84 | An accepted key is the one encoding of what it decodes to |
| Mvcc.EncodedOrder | src/storage/mvcc.rs:62-66 | Byte order is table, then row, then newest version first |
| Mvcc.PrefixIsRow | src/storage/mvcc.rs:146-164 | The prefix test of a point read recognises exactly the versions of its row |
| Mvcc.AfterOrder | src/storage/mvcc.rs:166-175 | The raised terminator lies after every version of a row and before every greater row |
| Mvcc.LowerExact | src/storage/mvcc.rs:303-307 | The physical lower bound admits exactly the versions the user's lower bound admits |
| Mvcc.UpperExact | src/storage/mvcc.rs:308-312 | The physical upper bound admits exactly the versions the user's upper bound admits |
| StateReads.PayloadOfEncode | src/storage/mvcc.rs:88-124 | A stored Put or Delete reads back |
| StateReads.AcceptedPayload | src/storage/mvcc.rs:104-124 | Only canonical value frames are accepted |
| StateReads.SeekMeets | src/storage/mvcc.rs:226-272 | The single seek meets the newest version at or below s exactly when the row has one |
| StateReads.ReadValueExact | src/storage/mvcc.rs:226-272 | A point read by seek and prefix test equals the newest version at or below s, a tombstone meaning absent |
| StateReads.StoredExact | src/storage/mvcc.rs:62-124 | A version is in the store a tree means exactly when the tree holds the very bytes the writer makes of its key and value |
| StateReads.PointReadExact | src/storage/mvcc.rs:226-272 | A point read returns a value exactly when the bytes of the tree put it there at a version at or below the snapshot, with no version of the row in between |
| StateReads.RowsExact | src/storage/mvcc.rs:328-350 | `advance` yields, for each key but the one already selected, its first visible version if that is a Put |
| StateReads.RowsAscend | src/storage/mvcc.rs:328-350 | Rows come in strictly ascending key order |
| StateReads.ScanExact | src/storage/mvcc.rs:290-350 | For every combination of bounds a scan returns exactly the live rows at s within them, each once, in key order |
| StateReads.ScanResumes | src/database/snapshot.rs:341-391 | Seeking again after the last key returned gives exactly the rest of the scan |
| StateReads.StateScan.Next | src/storage/mvcc.rs:352-378 | Each call takes the next row of the scan; an error or the end is final |
| StateReads.Scan | src/storage/mvcc.rs:290-326 | Opens the scan of the translated bounds, or rejects the input |
| StateReads.Claim.Revoke | src/database/snapshot.rs:173-185 | Only the first revocation releases the view all iterators share |
| StateReads.SnapshotScan.Next | src/database/snapshot.rs:341-391 | While the claim is held, successive calls, each of which opens a new scan, together yield the rows of one scan; once it is revoked every call says so and changes nothing |
| StateReads.OpenScan | src/database/snapshot.rs:301-339 | Rejects exactly revoked claims and reversed bounds, and otherwise will yield the scan of the bounds |
| Collection.FirstBelowIsNewest | src/storage/maintenance.rs:37-57 | The first entry of a row at or below the floor is what a read at the floor sees |
| Collection.KeepStateExact | src/storage/maintenance.rs:37-57 | The running baseline decides each entry as the definition of retention does |
| Collection.KeptIsCollect | src/storage/maintenance.rs:59-94 | The kept entries mean exactly the collected store |
| Collection.CollectState | src/storage/maintenance.rs:59-94 | The deleting loop leaves exactly the kept entries in order, which mean the collected store, and counts what it removed |
| Collection.CollectOutcomes | src/storage/maintenance.rs:59-94 | The deleting loop leaves the outcomes above the floor and no others, in order, and counts what it removed; a malformed key is an error |
| Collection.SequenceExact | src/storage/store.rs:679-694 | An outcome key names a sequence exactly when it is its eight big-endian bytes and the sequence is not reserved |
| Collection.CollectionPreserves | src/storage/maintenance.rs:37-94 | At any s at or above the floor, every point read and every scan by the byte-level code is unchanged; no version above the floor goes, and each row keeps at most one at or below it |
| Compaction.CopyTree | src/storage/maintenance.rs:171-194 | The copied tree has exactly the rows of the validated source in the same order, at any height, and older pages are untouched; it succeeds exactly when writes do and the file has room for as many pages as the source tree reaches, and takes exactly that many |
| Compaction.CopyLeaf | src/storage/maintenance.rs:181-185 | Copied values read back the same, the new leaf is legal, and exactly the overflow pages of the values are taken |
| Compaction.CopyChildren | src/storage/maintenance.rs:186-190 | The children are copied in order with their rows, exactly when there is room for all their pages |
| Compaction.CopiedFits | src/storage/maintenance.rs:171-194 | A copied node fits a page because the node it copies did |
| Compaction.RowsKept | src/storage/page.rs:215-238 | Appending pages changes no row of any tree already in the file |
| Maintenance.CollectedPreserves | src/storage/maintenance.rs:96-121 | The collected tree answers every point read and every scan at or above the floor as the tree before did |
| Maintenance.CompactCollected | src/storage/maintenance.rs:133-152 | Collected at g and then compacted, the tree in the new file answers every point read and every scan at any s at or above g as the tree before the pass did; it succeeds exactly when writes do and there is room |
| Wal.DecodeOfEncodeGroup | src/storage/wal.rs:64-124 | A group header reads back |
| Wal.AcceptedGroup | src/storage/wal.rs:91-124 | Only canonical group headers are accepted |
| Wal.DrainedRecords | src/storage/wal.rs:255-325 | A fully read prefix holds one record per sequence and ends at the stated digest |
| Wal.DrainExtends | src/storage/wal.rs:201-235 | A prefix that reads, with bytes behind it, reads in full exactly when those bytes read on from its end, and gives the records of the two in a row |
| Wal.DrainOfFramed | src/storage/store/wal.rs:75-141 | A written group reads back as exactly its records |
| WalFormat.AcceptedBytes | src/storage/wal.rs:238-325 | Bytes that read in full are exactly their records, linked in one sequence and framed in groups of 1 to 64 with header, trailer and padding: no byte is free |
| WalFormat.AcceptedHeader | src/storage/metadata.rs:586-610 | An accepted first block is the one the writer makes for the descriptor |
| WalFormat.AcceptedSegment | src/storage/wal.rs:139-325 | The committed bytes of an accepted segment are that header followed by the frames of its records |
| Wal.RecordReader.Next | src/storage/wal.rs:238-325 | The iterator's in-place step is the reader by definition, and it ends after an error or the last record |
| Wal.ReadPrefix | src/storage/log_validation.rs:222-232 | The loop accepts exactly the prefixes that read, and collects their records |
| Manifests.GroupingPossible | src/storage/metadata.rs:185-199 | However n records are grouped and padded, the committed length lies in the interval the descriptor check accepts |
| Manifests.PossibleSum | src/storage/metadata.rs:185-199 | A possible segment length plus a possible group length is a possible length for their records together |
| Manifests.ExtendedValid | src/storage/store/wal.rs:84-123 | Appending a group of 1 to 64 records to a valid manifest, growing the tail or starting a segment with a free ID, gives a valid manifest exactly when a new segment finds room in the table |
| Manifests.SegmentsPartition | src/storage/metadata.rs:373-418 | Each sequence from the log floor to the durable end lies in a segment of a valid manifest |
| Manifests.SegmentsAscend | src/storage/metadata.rs:373-418 | Segments are disjoint and ascend in sequence and ID |
| Manifests.ValidateManifest | src/storage/metadata.rs:325-418 | The loop with its running sequence, ID and predecessor accepts exactly the valid manifests |
| LogValidation.ExtensionSound | src/storage/log_validation.rs:82-203 | If the old proof holds for the old log and its committed bytes are unchanged, each proof the incremental check returns holds: the full check accepts the new manifest and the pending digests are exactly those above its checkpoint |
| LogCompleteness.ExtensionExact | src/storage/log_validation.rs:82-203 | For a log the full check accepts: an error exactly when the publication contradicts a digest the old one fixed, a proof exactly when it agrees, shares the lineage, adds at most one segment and keeps at most 4096 digests, and otherwise a request for the full check |
| LogCompleteness.ExtensionComplete | src/storage/log_validation.rs:82-203 | A publication one step on, in a log the full check accepts that carries on the old one, is never refused, and only more than 4096 digests send it to the full check |
| LogCompleteness.PublicationExtends | src/storage/log_validation.rs:105-163 | Publishing any checkpoint from the old one to the durable end of the same log is accepted without reading a byte, and the proof keeps exactly the digests above it |
| LogCompleteness.RepublishedValid | src/storage/store.rs:540-570 | Such a publication is valid and its log passes the full check |
| LogCompleteness.GrownSegmentReads | src/storage/log_validation.rs:170-196 | What the full check accepts of a grown segment is accepted from its old end on |
| LogValidation.GrownSegment | src/storage/log_validation.rs:205-234 | A grown segment reads in full exactly when its new part reads on from the old end, and then as its old records followed by the new ones |
| LogValidation.ProofKept | src/storage/log_validation.rs:82-110 | A proof survives any change that leaves committed bytes alone |
| LogValidation.NewDigestsAre | src/storage/log_validation.rs:229-231 | The digests kept are those of the records above the checkpoint, in order |
| LogValidation.AtCheckpoint | src/storage/log_validation.rs:60-80 | Seeding after a full check gives a proof that holds, always so when the log ends at the checkpoint |
| LogAppend.WrittenHeader | src/storage/wal.rs:139-154 | A written segment header is accepted in front of any records |
| LogAppend.CommittedSound | src/storage/store/wal.rs:41-156 | After a group is appended or a segment rotated, the proof extended with the appended digests holds for the file actually written, with no byte read back; it is given up exactly above 4096 pending digests |
| LogAppend.AppendAccepted | src/storage/store/wal.rs:41-156 | An append succeeds exactly when its records, its file and the segment table allow it: the guard on the new manifest rejects nothing else, and the result is valid |
| LogAppend.ValidateSegmentExtension | src/storage/log_validation.rs:205-234 | The loop accepts exactly the suffixes that read and agree with the checkpoint, and extends the pending digests |
| LogAppend.ValidateExtension | src/storage/log_validation.rs:82-203 | The imperative check is the incremental check proved sound, and rejects invalid manifests |
| LogAppend.ExtendOne | src/storage/log_validation.rs:159-193 | One pass of its loop over the segments |
| LogAppend.ValidateLogs | src/storage/metadata.rs:554-571 | The full check's loop accepts exactly the valid logs |
| Retention.RunProtected | src/database/cursor.rs:488-568 | Over whole runs of capture, revoke, checkout, acknowledge, release, commit, publication, restart and maintenance: each held claim stays between the history floor and the frontier, each logical cursor keeps its log, the manifest stays valid with every digest the one the log fixes, and neither floors nor frontier move back |
| Retention.SnapshotHolds | src/database/snapshot.rs:111-146 | Over any run, a snapshot captured in one state and not revoked, dropped or lost in a restart since is still registered, and nothing at or above its sequence is collected |
| Retention.CursorHolds | src/database/cursor.rs:382-502 | Over any run, a cursor checked out in one state and not released since is found again with its kind and name, at its baseline or at what was acknowledged since, and the history and log from there on are kept |
| Retention.CursorStep | src/database/cursor.rs:504-595 | A step leaves a cursor as it was, raises its baseline to an acknowledged watermark, or releases it |
| Retention.CheckoutExact | src/database/cursor.rs:382-431 | A checkout succeeds exactly when the name is legal, an ID and a generation are left and the history asked for is there; it adds exactly that cursor |
| Retention.AckExact | src/database/cursor.rs:548-566 | An acknowledgement succeeds exactly between the baseline and the frontier, and moves that baseline alone |
| Retention.ReleaseExact | src/database/cursor.rs:567-577 | A release takes away exactly the cursor it names; releasing again changes nothing |
| Retention.RebindExact | src/database/cursor.rs:532-547 | A cursor is taken up again exactly while it exists, from its baseline to the frontier |
| Retention.StepKeeps | src/database/cursor.rs:504-595 | Each single step does so, with no assumption about the manifest it leaves |
| Retention.CommitKeeps | src/storage/store/wal.rs:41-156 | A commit group of any size, growing or rotating, keeps the manifest valid and every claim protected |
| Retention.PublishKeeps | src/database/engine.rs:110-116 | Any visible sequence can become the checkpoint: its digest agrees with every segment |
| Retention.CreatedProtected | src/storage/store.rs:149-232 | The manifest of a new database is valid and its state protected, so runs have somewhere to start |
| Retention.CaptureKeeps | src/database/snapshot.rs:111-128 | A capture registers a claim at the frontier beside every claim not dropped, and everything stays protected |
| Retention.CheckoutKeeps | src/database/cursor.rs:382-405 | A cursor that checks out is protected from its baseline on |
| Polling.CheckAvailable | src/database/cursor.rs:407-431 | On a sound source the scans of outcomes and segments past the baseline find everything exactly when the floors say so |
| Polling.LogAvailable | src/database/cursor.rs:433-482 | The loop over segments finds them contiguous to the durable end exactly when the log floor allows the baseline |
| Retention.AckKeeps | src/database/cursor.rs:539-557 | An acknowledgement moves a baseline up and leaves all else protected |
| Retention.ReleaseKeeps | src/database/cursor.rs:558-568 | A release drops one claim and leaves the others protected |
| Retention.CursorsReadable | src/database/cursor.rs:264-323 | Every stored cursor decodes and is found under its own kind |
| Retention.CursorsResume | src/database/cursor.rs:524-538 | A cursor can be rebound at any position from its baseline to the frontier |
| Retention.FloorsAccepted | src/storage/maintenance.rs:103-115 | The floors computed from the claims always pass maintenance's own test |
| Retention.PreparedValid | src/storage/maintenance.rs:103-132 | After retiring segments the manifest is valid, its segments still partition the log from the new floor, and no floor moves back or past what was asked |
| Retention.PreparedExact | src/storage/maintenance.rs:103-132 | Exactly floors between the old ones and the drained checkpoint are accepted; history is collected up to the floor asked for, and exactly the segments that end below the log floor go |
| Retention.UnclaimedCollected | src/database/maintenance.rs:192-250 | Without a claim maintenance collects up to the drained frontier and drops the whole log |
| Retention.DropIsSuffix | src/storage/maintenance.rs:123-130 | Filtering by last sequence leaves a suffix of the segments |
| Retention.MaintainKeeps | src/database/maintenance.rs:192-250 | Maintenance at the drained frontier succeeds and keeps every claim protected |
| Retention.Registry.TakeSnapshot | src/database/snapshot.rs:111-128 | Registers a claim at the frontier, returns it, keeps every claim not dropped and forgets the others |
| Retention.Registry.SnapshotFloor | src/database/snapshot.rs:130-146 | The loop returns the least held sequence, or the frontier when none is held, and keeps exactly the held claims |
| Retention.Registry.CursorFloors | src/database/cursor.rs:488-502 | The loop lowers both floors to what every cursor allows and no further |
| Retention.Registry.RetentionFloors | src/database/cursor.rs:488-502 | Returns the greatest floors every claim allows |
| Retention.Registry.Maintain | src/database/maintenance.rs:192-250 | Computing floors and preparing with them never fails, is one maintenance step of the machine, and keeps every held claim with its history |
| Checkpoint.ScanTree | src/storage/checkpoint.rs:166-187 | The loop over one tree accepts exactly what the full scan accepts and reports the greatest sequence in it |
| Checkpoint.Validate | src/storage/checkpoint.rs:147-196 | With any set of sound proofs it accepts exactly what validation without proofs accepts, cursors included, and returns sound proofs for every system tree |
| Checkpoint.ScanCursors | src/storage/checkpoint.rs:166-181 | The loop over the cursor tree accepts exactly the trees whose every value is well formed and covered by the floors |
| Checkpoint.EditAccepted | src/storage/checkpoint.rs:72-97 | An accepted tree stays accepted after a valid edit, at the raised bound |
| Checkpoint.SequenceExact | src/storage/store.rs:662-694 | Which keys of each system tree name a sequence, and which |
| Checkpoint.TrackExact | src/storage/checkpoint.rs:98-116 | After each edit the pending index is exactly the live keys above the checkpoint with its exact byte count of at most 1 MiB, or is given up |
| Checkpoint.TrackComplete | src/storage/checkpoint.rs:98-116 | The index is given up exactly when the key names no sequence or the keys above the checkpoint weigh more than 1 MiB |
| Checkpoint.TrackAllComplete | src/storage/checkpoint.rs:72-117 | Over a batch of edits it survives exactly when that never happens on the way |
| Checkpoint.RuntimeValidation.ObserveOne | src/storage/checkpoint.rs:72-117 | One pass of the loop carries one tree's proof and the index across one edit, and touches no other proof |
| Checkpoint.RuntimeValidation.Observe | src/storage/checkpoint.rs:59-123 | After any list of edits each live proof belongs to the new root and still implies that a full scan accepts it; a proof survives exactly when it was of the edited root and every edit of its tree is valid, bounded by the greatest sequence put there; the index is exact, or absent exactly when an edit gave it up |
| Checkpoint.RuntimeValidation.Publish | src/storage/checkpoint.rs:125-145 | Publication keeps proofs sound, adopts those of published roots that are live, and prunes or rebuilds the index exactly for the new checkpoint |
| Checkpoint.PruneExact | src/storage/checkpoint.rs:137-141 | Keeping the keys above a higher checkpoint keeps the index exact |
| Checkpoint.NothingAbove | src/storage/checkpoint.rs:142-144 | When the published roots are live, the empty index is exact |
| Checkpoint.FastCheckpoint | src/storage/store.rs:437-490 | Deleting the indexed keys from a live tree gives exactly the filtered checkpoint tree, which a scan accepts |
| Checkpoint.TotalBytes | src/storage/checkpoint.rs:137-141 | The counting loop gives the weight of the index |
| Checkpoint.OpenedExact | src/storage/checkpoint.rs:48-57 | Right after the opening scan accepted a live checkpoint, the empty index is exact |
| Checkpoint.Serve | src/storage/checkpoint.rs:59-196 | Over any sequence of edits and publications an owner that reuses its proofs accepts each publication exactly when a full scan would, and its proofs and index stay sound |
| Exchange.ReadOfBlob | src/database/exchange.rs:371-393 | A length-prefixed blob reads back in front of any rest |
| Exchange.AcceptedBlob | src/database/exchange.rs:371-381 | What is read is a blob and the rest, nothing lost |
| Exchange.ValidatedLog | src/database/exchange.rs:412-450 | The exchange check of a log record is the log reader's own check on the sequence, kind and digest of its outcome |
| Exchange.EncodeAccepts | src/database/exchange.rs:227-270 | A batch encodes exactly when its interval matches its count, each record is in place, encodes and names the one before it, and all of it fits 256 MiB |
| Exchange.DecodeOfEncode | src/database/exchange.rs:227-330 | Every batch that encodes decodes to itself, within the size limits |
| Exchange.EncodeOfDecode | src/database/exchange.rs:272-369 | Bytes that decode re-encode to themselves: one encoding per batch |
| Exchange.EncodeBatch | src/database/exchange.rs:227-270 | The loop, which patches the length in afterwards, is that encoder |
| Exchange.DecodeBatch | src/database/exchange.rs:272-330 | The loop over the input slice is that decoder |
| Feed.ReadFeed | src/database/feed.rs:56-108 | Returns the longest run of complete outcomes after a position that fits both limits, or the exact size the first one needs |
| Feed.PageEncodes | src/database/feed.rs:76-108 | The bytes a page was charged are exactly the bytes of its encoding, within the limit |
| Feed.RetryProgresses | examples/derived_sqlite.rs:233-244 | A retry with the reported size and at least one record returns at least one |
| Feed.PollOnce | examples/derived_sqlite.rs:233-244 | One poll with its retry takes at least one record unless none is left |
| Feed.PollAll | examples/derived_sqlite.rs:223-253 | Polling from each returned position, retrying with the reported size, ends with all of (after, F], once and in order, provided each record fits a batch |
| Feed.PageSegment | src/database/replica.rs:104-144 | Reading one segment extends the page by exactly its records that fit, or reports the size needed; no corruption branch is reachable on a sound log |
| Feed.ReadLogicalFeed | src/database/replica.rs:58-153 | Across segments, returns the longest run of log records with their outcomes that fits, without gap; the retained log always suffices for a claimed position |
| Feed.PollLogical | src/database/replica.rs:58-153 | Polling the logical feed from each returned position ends with all of (after, F], once and in order, provided each record fits a batch |
| LogicalPages.LoggedIsValid | src/database/exchange.rs:412-450 | A record the log reader accepted, with its own outcome, passes the exchange check, with or without a known predecessor |
| LogicalPages.LogicalPageEncodes | src/database/exchange.rs:227-270 | Every logical page from a linked log encodes to exactly the bytes it was charged, within the limit, and decodes to itself |
| Polling.ViewLinked | src/database/replica.rs:98-118 | What a source still holds of its append-only log after any steps is linked record by record |
| Polling.ViewStretch | src/database/cursor.rs:488-502 | From any position the floors allow, the outcomes and records a source still holds are exactly that stretch of its append-only log |
| Polling.MovesKeep | src/database/cursor.rs:504-595 | Whatever the source does between polls, it stays sound and its log only grows |
| Polling.ReachKept | src/database/cursor.rs:539-557 | A cursor that is neither released nor acknowledged past a position still reaches it after any step |
| Polling.PagesJoin | src/database/replica.rs:58-153 | Logical pages read one after another from a source that commits, publishes, collects and restarts in between are together exactly that stretch of its log |
| Polling.ResolvedPagesJoin | src/database/feed.rs:56-108 | Resolved pages read so are together exactly the outcomes of that stretch |
| Polling.FollowLogical | src/database/replica.rs:58-153 | A reader that polls a moving source, one page at each of its states and the rest at the last, has read all of (after, F] of the log, once and in order |
| Polling.FollowResolved | examples/derived_sqlite.rs:223-253 | The same for the resolved feed and its outcomes |
| Derived.Connection.Begin | examples/derived_sqlite.rs:76-126 | A fresh mirror starts at watermark zero; one with rows but no watermark is refused |
| Derived.Connection.Stage | examples/derived_sqlite.rs:128-221 | Staging applies the batch and moves the watermark, or leaves tables and watermark as they were |
| Derived.StagedIsFold | examples/derived_sqlite.rs:128-221 | Staging the next stretch takes the fold of outcomes at w to the fold at the new watermark |
| Derived.FoldExact | examples/derived_sqlite.rs:128-221 | The fold exists exactly when every put meets a live table; a row has a value in it exactly when it was last put with it and neither overwritten, deleted nor dropped with its table since; a table is what its last catalogue effect says; the audit table lists exactly the records |
| Derived.StepExact | examples/derived_sqlite.rs:223-253 | Each read, commit, acknowledgement, source step or crash of either side keeps the mirror exact |
| Derived.RunExact | examples/derived_sqlite.rs:76-253 | Over all interleavings the mirror at committed watermark w is the fold of outcomes 1..w, the cursor's baseline is at most w, and w is at most the source's frontier |
| Derived.RunMirror | examples/derived_sqlite.rs:76-253 | Over all interleavings the mirror at its watermark holds exactly those rows, tables and records |
| Derived.ResumeFinds | examples/derived_sqlite.rs:76-126 | Resuming at any point finds its cursor and all the history it needs, and its acknowledgement is accepted while publication numbers remain |
| Page.DecodeOfEncodeCell | src/storage/page.rs:493-577 | A legal leaf or branch cell reads back |
| Page.AcceptedCell | src/storage/page.rs:493-577 | Only canonical cells are accepted, including the choice of inline or overflow storage |
| Page.BodyPlaced | src/storage/page.rs:588-660 | In an encoded body each slot points at its cell and the gap is zero |
| Page.PlacedIsBody | src/storage/page.rs:408-491 | A page whose slots and cells are so placed is the encoder's body |
| PageNode.HeadOfHeader | src/storage/page.rs:386-406 | A written header reads back |
| PageNode.HeaderOfHead | src/storage/page.rs:408-491 | A framed page with a good checksum is the sealed form of its own header fields and body |
| PageNode.DecodeOfEncode | src/storage/page.rs:493-660 | A legal node's page is valid where it was written and decodes to the node |
| PageNode.EncodeOfDecode | src/storage/page.rs:408-660 | Every accepted page is the one page of the node it decodes to at that ID |
| PageNode.NodeFits | src/storage/page.rs:588-660 | A legal node fits a page exactly when it has a cell and header, slots and cells take at most 16384 bytes |
| PageFiles.WalkKept | src/storage/page.rs:354-384 | An overflow value reads the same after any pages are appended |
| PageFiles.NodeKept | src/storage/page.rs:258-268 | A node reads the same after any pages are appended |
| PageFiles.ChainGrows | src/storage/page.rs:188-213 | A page written in front of a chain makes a chain one page and one chunk longer |
| PageFiles.PageFile.Append | src/storage/page.rs:215-238 | Adds one sealed page or, on failure, changes no page; an interrupted write poisons the file |
| PageFiles.PageFile.StoreValue | src/storage/page.rs:188-213 | The stored value reads back; above the inline limit it occupies exactly ceil(len/16320) new distinct pages, and older pages are unchanged; it is stored exactly when it is at most 128 MiB, writes succeed and there is room |
| PageFiles.PageFile.AppendNode | src/storage/page.rs:180-186 | The node reads back from the new page; it is appended exactly when it fits a page, the write succeeds and there is room |
| Bind.SortBounds | src/bind.rs:139-140 | The sorted declarations are an ascending permutation of the input |
| Bind.NeighboursSuffice | src/bind.rs:141-145 | In sorted order no equal neighbours means no equal IDs anywhere |
| Bind.DuplicatesFound | src/bind.rs:139-145 | The adjacent check reports exactly the inputs with a duplicate |
| Bind.FillTables | src/bind.rs:147-158 | The table array is written in order and each declaration learns its slot; other bytes are unchanged |
| Bind.PatchOperands | src/bind.rs:159-171 | Each operand that no later patch overlaps names its declaration's slot, and other bytes are unchanged |
| Bind.BindProgram | src/bind.rs:112-174 | Succeeds exactly on valid input; then tables ascend strictly, each unoverlapped operand resolves to the ID bound to its declaration, and all other bytes are the template's |

## Left out

- The bytecode interpreter, type checker, outcome codec and macro compiler: the interpreter is any function under `Serial.Contract`, the outcome codec any canonical codec of at least 76 bytes per record.
- B+ tree edits, the store layer and the page cache: a tree is its entries in order; `apply`, `get`, `scan` and `prepare_checkpoint` are operations on it.
- SHA-256 and CRC-32C internals: uninterpreted.
- Threads, channels, wakers, permits, queue budgets, status sampling and panics: nondeterministic steps over a set of workers. A worker fault or a failed write poisons the coordinator in the source; in the model such a run is one that ends in a crash step.
- The memory a preparation reserves and the checks the interpreter makes before a record is encoded: the reservation is a parameter of a request, and a request the interpreter would reject is not submitted.
- Error messages: errors are kept apart where callers act on them and merged otherwise.
- Fixed layouts with nothing to prove beyond field positions: cursor tokens, watermarks, stored cursor values, the current pointer, genesis and manifest encodings.
- File allocation, reclamation, backup copying, directory locks, tail recovery after a torn append, and replacement of the page file.
- Replica import's re-execution of the batch and comparison with its stated outcomes: an import is a batch of records that continue the log.
- Memory overflow of `usize` on 32-bit platforms.
- KeyEncoding.DecodedSchema: descriptors are decoded by functions on values; the consuming slice of `decode_node` is not modelled as a loop.
- Coordinator.Coordinator.Register: the group is complete once its file write succeeds; a write that fails after some bytes reached the disk is a crash before the group.
- LogValidation.ExtensionSound: a segment file shorter than its committed length is refused when the reader opens, where the source fails on reaching its end.
- Collection.CollectOutcomes: outcomes are entries keyed by sequence; catalogue and policy trees are untouched by collection and are not shown.
- Feed.ReadLogicalFeed: stated for a log that passed validation, so the source's corruption errors do not arise; their checks are still made in the body.
- Derived.Connection.Stage: the schema of the mirror is a catalogue, rows and audit records; SQL and its storage are not modelled.
- PageFiles.PageFile.Append: whether the write succeeds is a parameter; partial writes beyond the page count are not visible.
- Compaction.CopyTree: the source tree is one the physical validation before it accepted, so its nodes and values read and levels fall by one; that validation is not part of this model.
- Maintenance.CompactCollected: the deletions of collection act on the tree's entries; how they rewrite pages is a B+ tree edit.
- Checkpoint.Validate: the physical checks of pages are not part of this model.
- Retention.StepKeeps: publications and maintenance keep the roots as they are, and page file generations are not tracked.
- Retention.CheckoutKeeps: availability is the floor comparison that `Polling.CheckAvailable` proves the scans equal to; validation of the checkpointed history is not modelled.
- Feed.ReadFeed: stated for a source whose outcomes above the floor are all present, which `SchedulerRuns.SerialEquivalence` establishes; the versions it reads beside each outcome are always there and equal by `SchedulerRuns.ExactVersions`, and the decoding of catalogue entries is not modelled.
- LogicalPages.LogicalPageEncodes: stated for a linked log, which `Polling.ViewLinked` derives for every state a source reaches.
- Polling.FollowLogical: the reader acknowledges after the whole pass; `Polling.PagesJoin` allows acknowledgements between pages.
- SchedulerLiveness.AcceptedIsAcknowledged: only serving steps are taken, so no crash and no publication of cursors happens in between.
