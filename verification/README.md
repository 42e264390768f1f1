# varlog storage-node core, modelled in Dafny

This project models the storage-node side of varlog's report/commit protocol
and a few small stand-alone pieces of the repository:

- **The per-replica log store** (`internal/storage`). It has a data column
  (LLSN → payload), a commit column (GLSN → LLSN) and one commit-context
  record. The model covers reads by GLSN and by LLSN, scanners, write, commit
  and append batches, `Trim`, and the recovery points read back at restart.
  The ordered key-value engine is three abstract values. Its iterator moves
  are "seek ≥", "last below a bound" and "walk a range forward"
  (`OrderedKeys`). GLSNs and LLSNs are 64-bit unsigned. Every place where the
  Go code adds or subtracts them wraps modulo 2^64, written out with
  `Types.Wrap`.
- **The executor's report/commit entry points** (`GetReport`, `Commit`) and the
  pooled **commit task** with its `stale` check and `release`.
- **The replicator's bookkeeping**: the `running` flag, the task queue, the
  `inflight` counter and the seal reasons. Two ghost counters track callbacks
  that are owed and calls that will never be answered, which gives `inflight`
  its meaning as an invariant.
- **The in-memory metadata repository**: one projection descriptor guarded by
  its epoch.
- **The benchmark `test` command**: parsing `topic:logstream` targets and
  spreading the size lists over the targets.

Files: `types.dfy` (sequence numbers, uint64 wrap), `wrappers.dfy` (Option,
Result), `ordered_keys.dfy`, `storage.dfy`, `recovery_points.dfy`,
`commit_task.dfy`, `report_commit.dfy`, `replicator.dfy`,
`in_memory_metadata_repository.dfy`, `benchmark_test_command.dfy`.

The engine's contents are a value, `Storage.Columns`. The class
`Storage.Storage` holds the three parts as fields. Its state-changing
operations (`Apply`, `Trim`) are methods proved against the functions
`ApplyBatch` and `Trimmed`. `ReadLLSN` is the source's seek loop, proved
against the specification `LookupLLSN`.

Where a doc comment and the code differ, the model follows the code. The
comment on `Trim` (internal/storage/storage.go:265-268) says it deletes the
entries whose GLSN is at most the argument. The code (storage.go:283-294)
deletes the commit records up to the located GLSN and the data up to the
located record's LLSN, so data written but not committed at or below that LLSN
goes too.

## Model

| member | source | states |
|---|---|---|
| OrderedKeys.SeekGE | internal/storage/storage.go:246 | the iterator lands on the least key ≥ the target; none exactly when every key is below it |
| OrderedKeys.SeekLT | internal/storage/storage.go:310-318 | `Last()` under an exclusive upper bound gives the greatest key below it; none exactly when no key is below |
| OrderedKeys.KeysInRange | internal/storage/storage.go:183-200 | a forward scan of [lo, hi) visits exactly the keys in the range, strictly ascending; an empty or inverted range visits nothing |
| Storage.NewScanner | internal/storage/storage.go:183-200 | a GLSN range yields a commit scan of the range (as for `ScanCommitColumn`); an LLSN range walks the data column and yields every entry in range, ascending, with an invalid GLSN |
| Storage.ScanCommitColumn | internal/storage/storage.go:188-191 | as many results as commit keys in [begin, end); each success is the entry of a commit key in range, with that record's LLSN and data; every other result is ErrInconsistentWriteCommitState, which a record whose data is missing yields; successes strictly ascend in GLSN; every commit key's result appears |
| Storage.ScanDataColumn | internal/storage/storage.go:193-196 | exactly the data entries in range, ascending, uncommitted ones included |
| Storage.ReadGLSN | internal/storage/storage.go:211-220 | succeeds iff a commit record exists at exactly that GLSN, its data exists and the GLSN is below MaxGLSN; ErrNoLogEntry if no record (or at MaxGLSN, where glsn+1 wraps); ErrInconsistentWriteCommitState if the data is missing |
| Storage.ReadCommitContext | internal/storage/storage.go:251-263 | the stored context, or ErrNoCommitContext iff none is stored |
| Storage.FindLTE | internal/storage/storage.go:301-323 | the greatest committed GLSN ≤ g with its LLSN; ErrNoLogEntry iff every committed GLSN is above g; g = MaxGLSN uses the sentinel bound, so g+1 is never computed |
| Storage.NewCommitBatch | internal/storage/storage.go:167-175 | a new commit batch always stages the commit context it is given |
| Storage.NewAppendBatch | internal/storage/storage.go:177-181 | a new append batch stages no commit context |
| Storage.PutAll | internal/storage/storage.go:167-181 | applying staged sets adds exactly the staged keys and keeps other keys' values; every set that no later set of the same key overrides is the key's value, so the last set of a key wins |
| Storage.Storage.constructor | internal/storage/storage.go:40-100 | a newly opened store is empty |
| Storage.Storage.Apply | internal/storage/storage.go:162-181 | applying a batch changes the store exactly as `ApplyBatch` describes |
| Storage.Storage.ReadLLSN | internal/storage/storage.go:222-249 | terminates; a returned entry has exactly the requested LLSN and is the GLSN read of its commit record; ErrNoLogEntry when no record has the LLSN; with a monotone commit index the result is the specification `LookupLLSN` |
| Storage.Storage.Read | internal/storage/storage.go:202-209 | a valid GLSN option takes the GLSN path, otherwise the LLSN path |
| Storage.Storage.Trim | internal/storage/storage.go:265-299 | on ErrNoLogEntry nothing changes; otherwise the store becomes `Trimmed`: both columns range-deleted up to one past the located boundary, context kept |
| Storage.LookupAgreesWithCommitIndex | internal/storage/storage.go:222-249 | under a monotone commit index, reading a record's LLSN and reading its GLSN give the same entry |
| Storage.PassedLLSN | internal/storage/storage.go:235-237 | under a monotone commit index, once the iterator reaches a record whose LLSN exceeds the one sought, no record holds the sought LLSN |
| Storage.FoundLLSN | internal/storage/storage.go:239-242 | under a monotone commit index, a record holding the sought LLSN is the only one holding it |
| Storage.GuessKeepsCandidates | internal/storage/storage.go:244-246 | under a monotone commit index, seeking to currGLSN + (llsn − currLLSN) skips no record that holds llsn |
| Storage.UncommittedInvisibleToReads | internal/storage/storage_test.go:205-245 | an entry written but never committed is invisible to both reads, yet an LLSN scan over it returns it with an invalid GLSN |
| Storage.SetLogEntryReadable | internal/storage/storage_test.go:262-322 | after an append batch's SetLogEntry, the entry is readable by GLSN with both sequence numbers; the context changes only if one was staged |
| Storage.WriteCommitRoundTrip | internal/storage/storage_test.go:358-417 | writing a payload at an LLSN and committing it at a GLSN makes both reads return the same {LLSN, GLSN, Data} |
| Storage.WriteCommitExample | internal/storage/storage_test.go:358-417 | LLSNs 1, 2 committed as GLSNs 11, 12: reads by LLSN i and GLSN 10+i give identical entries, and the context is the committed one |
| Storage.WriteCommitBatchesApplied | internal/storage/storage_test.go:358-417 | the scenario's write batch and commit batch leave data {1 → "1", 2 → "2"}, commits {11 → 1, 12 → 2} and the committed context |
| Storage.TwoCommittedEntriesReadable | internal/storage/storage_test.go:358-417 | on those columns, GLSN reads of 11 and 12 and LLSN reads of 1 and 2 return the matching entries |
| Storage.CommitContextIsLastStaged | internal/storage/storage_test.go:169-203 | after a series of batches the stored context is the one staged by the last batch that staged one; a final commit batch's context is what ReadCommitContext returns; ErrNoCommitContext iff none was ever stored |
| Storage.TrimRemovesPrefix | internal/storage/storage.go:265-299 | Trim fails with ErrNoLogEntry iff no committed GLSN ≤ g; otherwise every commit record above g and every data record above the boundary LLSN stays unchanged, none at or below remains, and the context is kept |
| Storage.TrimExample | internal/storage/storage_test.go:821-943 | entries 1..3: Trim(MinGLSN) leaves 2 and 3; Trim(3) and Trim(MaxGLSN) empty both columns; the context survives |
| Storage.TrimFirstOfThree | internal/storage/storage_test.go:821-943 | Trim(MinGLSN) of entries 1..3 removes entry 1 from both columns and keeps the context |
| Storage.TrimAllOfThree | internal/storage/storage_test.go:821-943 | Trim at any GLSN ≥ 3 of entries 1..3 empties both columns and keeps the context |
| Storage.TrimEmptyStore | internal/storage/storage_test.go:784-819 | Trim on an empty store fails with ErrNoLogEntry for every argument |
| Storage.SeekTargetAsWritten | internal/storage/storage.go:244-245 | the uint64 seek target is ahead of the current GLSN only without overflow; with overflow it lands behind it |
| Storage.ReadLLSNRepeatsAsWritten | internal/storage/storage.go:232-247 | commit record 5 → 1 and a read of MaxLLSN: the wrapped target is 3 and the seek lands on GLSN 5 again, the same state as the first step |
| RecoveryPoints.ReadLastCommitContext | internal/storage/recovery_points.go:55-64 | a missing context reads as absent, not as an error; otherwise the stored context |
| RecoveryPoints.ReadLogEntryBoundaries | internal/storage/recovery_points.go:66-101 | empty commit column gives nil, nil; failing to read the lowest record returns nothing and its error; failing on the highest keeps the first; otherwise the (LLSN, GLSN) of the least and greatest commit keys |
| RecoveryPoints.UncommittedBegin | internal/storage/recovery_points.go:41-44 | MinLLSN without a context; otherwise CommittedLLSNBegin + (CommittedGLSNEnd − CommittedGLSNBegin), exact when it does not overflow |
| RecoveryPoints.ReadUncommittedBoundaries | internal/storage/recovery_points.go:103-127 | no data key at or above begin gives Invalid/Invalid; an error iff the first such key is not begin (naming the expected and found LLSNs); otherwise [begin, greatest data key + 1) |
| RecoveryPoints.ReadRecoveryPoints | internal/storage/recovery_points.go:31-51 | the three reads in order; a boundary error stops it with the uncommitted range unset; otherwise the uncommitted range starts at `UncommittedBegin` of the context |
| RecoveryPoints.BoundariesOfResolvableStore | internal/storage/recovery_points.go:79-100 | when every commit record has its data, the boundaries are read without error, bracket every committed GLSN, and under a monotone index first.LLSN ≤ last.LLSN |
| RecoveryPoints.MissingDataFailsRecovery | internal/storage/recovery_points.go:80-83 | a lowest commit record without data makes recovery fail with the inconsistency error and no first entry |
| RecoveryPoints.RecoveryOfEmptyStore | internal/storage/storage_test.go:681-687 | an empty store recovers to no context, no entries and no error |
| RecoveryPoints.SingleCommitBoundaries | internal/storage/recovery_points.go:79-100 | with the single commit record GLSN 1 → LLSN 1 and its data present, both boundaries are (1, 1) and there is no error |
| RecoveryPoints.RecoveryExample | internal/storage/storage_test.go:713-746 | a context over GLSNs [1, 2) with entry 1 committed: first = last = (1, 1) and no uncommitted range; the second half, a further write at LLSN 2 giving the uncommitted range [2, 3), goes beyond what the test checks |
| RecoveryPoints.RecoveryWithoutUncommitted | internal/storage/storage_test.go:713-746 | commit record 1 → 1, data {1} and a context over GLSNs [1, 2): first = last = (1, 1), no uncommitted range, no error |
| RecoveryPoints.RecoveryWithUncommitted | internal/storage/storage_test.go:713-746 | the same with data {1, 2}, a case beyond what the test checks: the uncommitted range is [2, 3) |
| ExecutorCommitTask.CommitTask.constructor | internal/storagenode/executor/commit_task.go:29-33 | a task from the pool is cleared and stamped with its creation time |
| ExecutorCommitTask.CommitTask.Release | internal/storagenode/executor/commit_task.go:35-45 | every sequence number becomes invalid and every timestamp zero; the task is then stale for every watermark |
| ExecutorCommitTask.StaleIsMonotone | internal/storagenode/executor/commit_task.go:47-49 | a task stale for h is stale for every h' ≥ h |
| ExecutorCommitTask.ReleasedIsStale | internal/storagenode/executor/commit_task.go:35-49 | a released task (highWatermark = InvalidGLSN) is stale for every watermark |
| ExecutorReportCommit.Report | internal/storagenode/executor/reportcommit.go:18-25 | the report carries the global HWM and the uncommitted begin; offset + length equals the live uncommitted end when end ≥ begin, and wraps past 2^64 otherwise |
| ExecutorReportCommit.Translate | internal/storagenode/executor/reportcommit.go:41-46 | watermarks copied, GLSN begin = offset, LLSN begin = offset, GLSN end − begin = length when offset + length does not overflow |
| ExecutorReportCommit.Executor.constructor | internal/storagenode/executor/reportcommit.go:18-19 | an executor with the given report base and uncommitted end, nothing handed to the committer |
| ExecutorReportCommit.Executor.GetReport | internal/storagenode/executor/reportcommit.go:12-26 | a failing guard gives InvalidLogStreamUncommitReport and its error; otherwise the `Report` of the current base and end |
| ExecutorReportCommit.Executor.Commit | internal/storagenode/executor/reportcommit.go:28-52 | a guard error or a too-old result (HighWatermark ≤ global HWM) enqueues nothing; an accepted result is translated field by field into a fresh task that is not stale; a failed hand-off releases the task and returns its error |
| ExecutorReportCommit.TranslatedTaskStaleness | internal/storagenode/executor/reportcommit.go:35-46 | a task built from a result is stale exactly for watermarks ≥ the result's HighWatermark |
| ExecutorReplicator.Validate | internal/storagenode/executor/replicator.go:28-39 | accepted iff queueSize > 0, a state provider and a measurable executor are present; otherwise ErrInvalid |
| ExecutorReplicator.QueuedReplicasAppend | internal/storagenode/executor/replicator.go:144-146 | queueing a task adds its replica count to the queued total |
| ExecutorReplicator.FirstErrorIsFirst | internal/storagenode/executor/replicator.go:191-210 | the fan-out reports no error iff every connector lookup succeeded (then every replica got a callback), else the error of the first failing lookup |
| ExecutorReplicator.Replicator.constructor | internal/storagenode/executor/replicator.go:81-126 | a replicator from a validated configuration is running with nothing queued or in flight |
| ExecutorReplicator.Replicator.SendAsWritten | internal/storagenode/executor/replicator.go:128-147 | nil task → ErrInvalid, stopped → ErrClosed, barrier error returned, all with inflight untouched; otherwise inflight grows by the replica count even when the push fails |
| ExecutorReplicator.Replicator.Send | internal/storagenode/executor/replicator.go:128-147 | the same failure cases; a queued task adds its replica count to inflight and a failed push leaves inflight as it was; the inflight invariant is kept |
| ExecutorReplicator.Replicator.Dispatch | internal/storagenode/executor/replicator.go:149-211 | pops the oldest task; each replica whose lookup succeeds owes one callback, each failure is a call never answered; a failed fan-out seals with the first error; inflight unchanged |
| ExecutorReplicator.Replicator.ReplicateCallback | internal/storagenode/executor/replicator.go:213-226 | inflight drops by exactly 1; an error seals the replica with it as reason |
| ExecutorReplicator.Replicator.DrainQueue | internal/storagenode/executor/replicator.go:240-247 | empties the queue and takes the total replica count of the dropped tasks off inflight |
| ExecutorReplicator.Replicator.Stop | internal/storagenode/executor/replicator.go:228-238 | running is cleared, so every later send fails with ErrClosed; the queue is drained and inflight = owed callbacks + unanswered calls |
| ExecutorReplicator.Replicator.WaitForDrainage | internal/storagenode/executor/replicator.go:275-278 | nil whenever the queue is empty after waiting, the context's error otherwise |
| ExecutorReplicator.InflightLeakAsWritten | internal/storagenode/executor/replicator.go:144-146 | with the source's send, a two-replica task whose push fails leaves inflight at 2 after stop empties the queue |
| ExecutorReplicator.InflightSettledWhenPushFails | internal/storagenode/executor/replicator.go:144-146 | with the corrected send, the same sequence leaves inflight at 0 |
| InMemoryMetadataRepository.Proposed | internal/metadata_repository/in_memory_metadata_repository.go:21-29 | ErrSealedEpoch iff the epoch argument is below the stored Epoch, state unchanged; otherwise the whole descriptor becomes the projection (an equal epoch is accepted) |
| InMemoryMetadataRepository.EpochNeverDecreases | internal/metadata_repository/in_memory_metadata_repository.go:24-27 | when every projection's Epoch is at least the epoch it is proposed under, the stored Epoch never decreases, and the final descriptor is the initial one or one of the proposed projections |
| InMemoryMetadataRepository.EpochComesFromProjection | internal/metadata_repository/in_memory_metadata_repository.go:27 | the stored Epoch is the projection's, not the argument's: proposing under 5 a projection with Epoch 1 on a repository at Epoch 3 leaves Epoch 1 |
| InMemoryMetadataRepository.Repository.constructor | internal/metadata_repository/in_memory_metadata_repository.go:15-19 | a new repository starts at Epoch 0 |
| InMemoryMetadataRepository.Repository.Propose | internal/metadata_repository/in_memory_metadata_repository.go:21-29 | the stored descriptor and the error are those of `Proposed` |
| InMemoryMetadataRepository.Repository.Get | internal/metadata_repository/in_memory_metadata_repository.go:31-35 | returns the stored descriptor, never an error, changes nothing |
| BenchmarkTestCommand.Split | cmd/benchmark/test_command.go:108 | strings.Split with one separator character: one more piece than separators, no piece contains it, and joining the pieces gives the string back |
| BenchmarkTestCommand.SplitJoin | cmd/benchmark/test_command.go:108 | splitting the join of separator-free pieces gives the pieces back |
| BenchmarkTestCommand.SplitSepFree | cmd/benchmark/test_command.go:108 | a string without the separator splits into itself alone |
| BenchmarkTestCommand.SplitPrefix | cmd/benchmark/test_command.go:108 | splitting `a:b` with a separator-free `a` gives `a` followed by the pieces of `b` |
| BenchmarkTestCommand.ParseTarget | cmd/benchmark/test_command.go:107-124 | not exactly two tokens → malformed; bad topic → invalid topic; "*" leaves the log stream 0, else it must parse; success iff all three hold; pipeline size as given, sizes zero |
| BenchmarkTestCommand.TargetRoundTrip | cmd/benchmark/test_command.go:107-122 | formatting `topic:logstream` from colon-free tokens and parsing it back recovers the topic and the log stream (0 for "*") |
| BenchmarkTestCommand.SetSizes | cmd/benchmark/test_command.go:174-185 | the setter runs once per index in order; target i gets sizes[i], or the last size past the end; the same targets are returned |
| BenchmarkTestCommand.ParseTargets | cmd/benchmark/test_command.go:106-125 | each target string is parsed into its slot in order; success iff every string parses; otherwise the error of the first string that does not |
| BenchmarkTestCommand.RunCommandTest | cmd/benchmark/test_command.go:96-140 | positional args → "unexpected args"; bad cluster ID → its error; success iff every target string parses, with one target per string in order and all four sizes applied; otherwise the error of the first bad string |

## Left out

- Opening a store (`New`, `newDB`, the directory-layout check), `Path`, `DiskUsage`, `Close` and the metrics logger: filesystem I/O, engine tuning and timers. `Storage.Storage.constructor` stands for opening an empty directory.
- Engine I/O failures (a failing `Get`, iterator or batch commit) and the `errors.Join` of the two batch commits in `Trim`: the engine is abstract and its operations always succeed here.
- The byte-level key and value codec, `CommitContext.Empty`/`Equal`, and the bodies of the write, commit and append batches and of the scanner: these are not part of this model. Keys are integers whose order is numeric order. A batch is a staged list of sets plus an optional context, applied atomically with the last set of a key winning. A commit record whose data is missing is assumed to surface as ErrInconsistentWriteCommitState.
- `Storage.Storage.Trim`: when the located boundary is MaxGLSN (or its LLSN is MaxLLSN), `trim+1` wraps to 0. The model then deletes the range [1, 0), which is nothing. Pebble's behaviour on such an inverted range is not modelled.
- `Storage.Storage.ReadLLSN` is proved complete (it finds an existing record) only for commit columns where LLSNs grow with GLSNs and never faster (`CommitIndexMonotone`). On other columns it only promises soundness: an entry it returns has the requested LLSN.
- `RecoveryPoints.ReadLastCommitContext`: the "any other read error is propagated" path is not modelled, since engine reads do not fail here.
- `commitTask.annotate`, `newCommitTask`'s clock and `sync.Pool`: wall-clock time, float metrics and pooling. Timestamps are integer inputs, and a task from the pool is modelled as a new cleared object.
- The executor's guard, `reportCommitBase()` and the committer's `sendCommitTask` are not part of this model. Their outcomes are inputs to `GetReport` and `Commit`. `InvalidLogStreamUncommitReport` is not part of this model either and is taken as the all-zero report.
- Replicator concurrency: the dispatcher goroutine, the errgroup fan-out, the condition-variable wait in `waitForDrainage` (only its return rule is modelled), connectors and `resetConnector`, `clientOf`, `replicateTask` pooling and latency metrics. Which connector error the errgroup reports is modelled as the first by replica order. A pop on an empty queue blocks in the source, so `Dispatch` requires a non-empty queue. The queue's capacity (a full queue blocks `push`) is not modelled: a push either succeeds or returns its error.
- `Storage.ScanCommitColumn`: the contract does not fix where an ErrInconsistentWriteCommitState result sits among the successes, because that error carries no GLSN. The body yields it at its commit key's position.
- `InMemoryMetadataRepository.Repository.Get`: Go returns `&r.ProjectionDescriptor`, a pointer that aliases the stored descriptor; the model returns a copy. Through the pointer a caller sees later `Propose` calls, and a write through it bypasses the epoch guard, so `EpochNeverDecreases` holds only for callers that do not write through it.
- `InMemoryMetadataRepository.Repository.Propose` with a nil projection (a nil dereference in Go), and the descriptor's fields other than Epoch, which are not part of this model.
- Parsing of cluster, topic and log-stream IDs (`types.Parse*ID`): these are not part of this model and are partial functions passed in. The benchmark run itself (durations, encoders, metadata-repository addresses, `benchmark.New`/`Run`) is I/O.
- Metadata-repository consensus and everything outside the files named in the table.

## Findings

| source | as written | input that shows it | evidently intended | confidence | as-written member | corrected member |
|---|---|---|---|---|---|---|
| internal/storage/storage.go:244-246 | `readLLSN` seeks to `currGLSN + GLSN(llsn − currLLSN)` in uint64; when the sum overflows, the target lands behind the current key | commit column {GLSN 5 → LLSN 1}, `Read(AtLLSN(MaxLLSN))`: the target wraps to 3, `SeekGE` returns GLSN 5 again, and the loop never ends | a target past the last possible GLSN exhausts the column, and the read returns ErrNoLogEntry | medium; not executed | Storage.ReadLLSNRepeatsAsWritten | Storage.Storage.ReadLLSN |
| internal/storagenode/executor/replicator.go:144-146 | `send` adds the replica count to `inflight` before `pushWithContext` and does not subtract it when the push fails | a running replicator; send a two-replica task whose push fails (context cancelled); then stop: the queue is empty, no callback is owed, and `inflight` stays 2, so `waitForDrainage` waits until its context expires | a task that never enters the queue leaves `inflight` unchanged. The fan-out (replicator.go:191-210) leaks the same way: a replica whose connector lookup fails gets no callback and its count stays in `inflight`. The model keeps that leak, counted in the ghost `lost` (`Dispatch`), and corrects only `send` | medium; not executed | ExecutorReplicator.InflightLeakAsWritten | ExecutorReplicator.Replicator.Send |
