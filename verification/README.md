# A verified model of a raft-backed store and a column expression evaluator

The project models two parts of the repository and proves properties of them.

**The raft-backed store** (`matrixone/distributed/consensus/pkg/store`). A replica keeps its
raft log as single byte-keyed records beside three state records, applies committed commands
to a key-value store, compacts its log, generates and installs snapshots, and answers reads
through a queue that is matched against raft's read states.

- `PairCodec`, `MetaKey`, `Disk`, `Storage`, `Engines`, `MetaValue`: the snapshot codec, the
  byte keys, and the two databases with their atomic writes.
- `RaftLog`, `StorageState`, `LogRefinement`, `PeerStorage`, `LogRuns`: the abstract log, the
  record store, the class that updates it, and the refinement over whole runs.
- `SnapshotTries`: requests for a snapshot and when they give up.
- `Commands`, `SnapshotReplay`: the in-memory store, replay, snapshot plus suffix.
- `PeerState`, `Peer`, `Crash`: the apply loop, compaction, the collector, and crashes between
  two writes.
- `Cluster`, `ClusterInvariant`, `ClusterTheorems`, `UncleanInstall`: N replicas of one
  committed sequence.
- `ReadQueue`, `ReadProtocol`, `ReadFiling`, `ReadScan`, `AnsweredReads`: the queue of pending reads, its
  protocol, and what an answered read returns.

Raft itself is the environment. It produces `Ready` batches that keep a contract
(`PeerState.ReadyOk`, `Cluster.Enabled`): entries are contiguous and terms do not fall; the
first entry is at most the last index plus one and above the apply index; a snapshot's index
is above the apply index; committed entries continue the applied prefix and are in the saved
log; and all replicas draw from one append-only committed sequence. Background is the extended
Raft paper by Ongaro and Ousterhout, sections 5.3, 5.4.3 and 7, and section 6.4 of Ongaro's
dissertation.

The classes carry a ghost `disk` and `journal`, and each method is proved against a function
on values that says which writes happen in which order. The theorems are about those functions.

**The column expression evaluator** (`matrixone/execution/homework/pkg/vm`). `Values`, `Util`,
`Overload`, `Extend`, `Projection` and `Pruning` model typed operators on columns, expression
trees, and a projection that reads only the columns it needs. Floating point is uninterpreted;
integers wrap at 64 bits.

Where the code differs from what it is for, the code is modelled and the difference is a result:

- The README of the store requires that the raft log be deleted. A compaction raises the
  truncated index before its collection reads the range, and the range check then refuses it,
  so nothing is ever reclaimed (`LogRuns.CompactedRecordsStay`,
  `LogRuns.CollectedRecordRemains`, `ClusterTheorems.CollectionIsSafe`). A collection deletes exactly when its range is live
  (`PeerState.GcDeletesOnlyLiveRecords`).
- `applySnapshot` does not clear the store. A replica that has caught up equals the replay
  exactly when no key is stray (`ClusterTheorems.ReplicaExactly`,
  `SnapshotReplay.SnapshotThenSuffix`), and replicas can differ (`UncleanInstall.StoresDiffer`).
- An append that overwrites or shortens the log is not atomic (`Crash.SaveIsAtomicIff`,
  `Crash.SaveIsTorn`).
- `process` persists the apply index before the command, so a crash between the two loses the
  command (`Crash.CrashDuringProcess`, `Crash.PutIsLost`).
- One signal is sent for each `Ready`, however many read states it has, so the others are
  stranded until the next signal (`ReadProtocol.StrandedAnswers`,
  `ReadProtocol.AnswerIsStranded`).
- An answer that comes after its read expired takes a signal from another read. The handler
  falls through exactly when late answers use up what is owed (`ReadScan.SignalServedIff`),
  by a nil dereference or by serving an unanswered read
  (`ReadProtocol.LateAnswerFallsThrough`, `ReadProtocol.LateAnswerServesAnother`).
- The handler can block for good on a full queue (`ReadProtocol.BusyHandlerMovesIff`,
  `ReadProtocol.HandlerBlocks`).
- The emptiness guard of the projection looks an output name up among the inputs, so renamed
  columns can be lost (`Pruning.ReadExactly`, `Pruning.RenamedColumnIsLost`).
- The declared type of `float + int` is int although the result is a float
  (`Extend.ReturnTypeAgreesIff`, `Extend.DeclaredTypeIsWrong`).
- The counter of `Snapshot` restarts with every snapshot that arrives, so only interrupted or
  empty generations make it give up (`SnapshotTries.GivesUpIff`); its message then reports 0
  times, since the counter is reset first, and only the error kind is modelled.

## Model

| member | source | states |
|---|---|---|
| LogRuns.RunRefinesLog | matrixone/distributed/consensus/pkg/store/raftstore/peer_storage.go:51-106 | After any run of saves (appends, overwrites, snapshot installs), applies (late, repeated or stale compactions included), collections and restarts from empty databases, `Entries`, `Term`, `FirstIndex` and `LastIndex` answer as the abstract log that took the same steps, for every 64-bit argument, and a restart reads the cached state back; stale records never show |
| LogRuns.RunRecovers | matrixone/distributed/consensus/pkg/store/raftstore/peer_storage.go:224-233 | After any run, restarts included, a restart reads back the last hard state saved that was not all zero, the conf state of the last snapshot installed, and the index last applied or installed; zero where there was none |
| LogRuns.CompactedRecordsStay | matrixone/distributed/consensus/pkg/store/raftstore/peer.go:260-282 | In every run, installs included: once an index is at or below the truncated index its record on disk never changes again, neither freed nor rewritten by any later save, install, apply, collection or restart |
| LogRuns.CompactionFreesNothing | matrixone/distributed/consensus/pkg/store/raftstore/peer.go:260-282 | In every run each index from 1 to the last one has its record on disk, whatever was compacted and collected, unless a snapshot that covers it was installed: the required deletion of the raft log does not happen |
| LogRuns.CollectedRecordRemains | matrixone/distributed/consensus/pkg/store/raftstore/peer.go:265-282 | A run from empty databases that compacts its first entry and runs the collection spawned for it: the record is still on disk |
| StorageState.ReadsRefineLog | matrixone/distributed/consensus/pkg/store/raftstore/peer_storage.go:51-106 | On the window (truncated index, last index] every read equals the abstract log's read for all arguments, errors included; no read comes up short |
| RaftLog.Log.EntriesAre | matrixone/distributed/consensus/pkg/store/raftstore/peer_storage.go:51-76 | When the abstract log's `Entries` succeeds, with which error it fails below the window, and which entry it returns at each index |
| RaftLog.Log.TermIs | matrixone/distributed/consensus/pkg/store/raftstore/peer_storage.go:78-98 | When the abstract log's `Term` succeeds and which term it returns |
| StorageState.EntriesRefineLog | matrixone/distributed/consensus/pkg/store/raftstore/peer_storage.go:51-76 | The range check and the read loop together answer as the abstract log: out of range, compacted, or exactly the entries |
| PeerStorage.PeerStorage.Entries | matrixone/distributed/consensus/pkg/store/raftstore/peer_storage.go:51-76 | The read loop returns what the records of the range determine: the range error, the missing or foreign record, the early stop, or the entries |
| PeerStorage.PeerStorage.Term | matrixone/distributed/consensus/pkg/store/raftstore/peer_storage.go:78-98 | The truncated term, the cached last term, the stored term or the error, each in its range |
| PeerStorage.PeerStorage.TruncateAndAppend | matrixone/distributed/consensus/pkg/store/raftstore/peer_storage.go:159-186 | The in-place operation carries out exactly the writes of the append, in order, and updates the cached last index and term as they prescribe; it panics, with nothing written, exactly when the slice is out of range, which needs a batch that is not contiguous |
| LogRefinement.KeptIsUncompacted | matrixone/distributed/consensus/pkg/store/raftstore/peer_storage.go:170-172 | In 64-bit arithmetic the reslice never underflows or leaves the batch, and drops exactly the compacted part |
| LogRefinement.KeptSlice | matrixone/distributed/consensus/pkg/store/raftstore/peer_storage.go:170-172 | The slice of a contiguous batch is always in range |
| StorageState.SliceFailsIff | matrixone/distributed/consensus/pkg/store/raftstore/peer_storage.go:170-172 | The slice of a batch is out of range if and only if the batch is shorter than its indexes say |
| LogRefinement.AppendRefines | matrixone/distributed/consensus/pkg/store/raftstore/peer_storage.go:159-186 | For every contiguous batch that starts at or below the last index plus one: the window becomes the old log below the batch followed by the uncompacted part of the batch, the old suffix is off the disk, the cached last term stays right, a wholly compacted batch changes nothing, and no other record changes; if the terms rise, the storage invariant is kept too |
| RaftLog.Log.AppendWellFormed | matrixone/distributed/consensus/pkg/store/raftstore/peer_storage.go:159-186 | Terms stay non-decreasing and indexes contiguous across an append that overwrites |
| RaftLog.Log.AppendIs | matrixone/distributed/consensus/pkg/store/raftstore/peer_storage.go:159-186 | What the abstract append leaves, index by index: the batch from its first index on, the old log below it, nothing above it, and only what is not compacted |
| LogRefinement.CompactRefines | matrixone/distributed/consensus/pkg/store/raftstore/peer.go:265-268 | Raising the truncated index in the apply state drops exactly a prefix of the log |
| LogRefinement.InstallRefines | matrixone/distributed/consensus/pkg/store/raftstore/peer_storage.go:202-222 | After a snapshot install the log is empty at the snapshot's index whatever log records stay on disk, and the pairs are put over the old store without clearing it |
| PeerStorage.PeerStorage.ApplySnapshot | matrixone/distributed/consensus/pkg/store/raftstore/peer_storage.go:202-222 | The install writes apply state, conf state and the decoded pairs in that order and sets the cached state to the metadata; data that does not decode panics after the two state records |
| PeerStorage.PeerStorage.SaveReadyState | matrixone/distributed/consensus/pkg/store/raftstore/peer_storage.go:224-233 | Snapshot, entries and hard state of a `Ready` are saved by exactly the modelled write sequence, local state last; a panic on the way leaves what was written before it |
| PeerStorage.PeerStorage.AppendLogEntries | matrixone/distributed/consensus/pkg/store/raftstore/peer_storage.go:245-253 | One put per entry, in order |
| PeerStorage.PeerStorage.DeleteLogEntries | matrixone/distributed/consensus/pkg/store/raftstore/peer_storage.go:235-243 | One delete per entry, in order |
| PeerState.SaveKeeps | matrixone/distributed/consensus/pkg/store/raftstore/peer_storage.go:224-233 | Saving a `Ready` that meets raft's promises keeps truncated index <= apply index <= last index, makes the log the abstract install and append, and leaves disk and cache in agreement |
| PeerState.SavedRecords | matrixone/distributed/consensus/pkg/store/raftstore/peer_storage.go:202-233 | After a save the cached and the recovered hard state is that of the `Ready` unless it is all zero, conf state and apply state are the snapshot's if there is one, and otherwise each is what it was |
| PeerStorage.NewPeerStorage | matrixone/distributed/consensus/pkg/store/raftstore/peer_storage.go:28-37 | Starting recovers the cached state from the three records, or panics exactly when one of them is of another kind |
| StorageState.RecoverExactly | matrixone/distributed/consensus/pkg/store/raftstore/meta/value.go:10-81 | Start-up reads back exactly the three records, zero where there is none, and panics if and only if one is of another kind |
| MetaValue.GetRaftLocalState | matrixone/distributed/consensus/pkg/store/raftstore/meta/value.go:10-25 | The stored record, the zero record if there is none, a panic for a record of another kind |
| MetaValue.GetRaftApplyState | matrixone/distributed/consensus/pkg/store/raftstore/meta/value.go:35-50 | The same for the apply state |
| MetaValue.GetRaftConfState | matrixone/distributed/consensus/pkg/store/raftstore/meta/value.go:60-73 | The same for the conf state |
| Crash.CrashDuringPureAppend | matrixone/distributed/consensus/pkg/store/raftstore/peer_storage.go:224-233 | A crash after any number of the writes of an append at the end of the log recovers the log before the batch or the log after it, consistent with the cached last index and term |
| Crash.CutKeepsLogIff | matrixone/distributed/consensus/pkg/store/raftstore/peer_storage.go:159-186 | A crash at any point before the last write of a save without a snapshot recovers the cached state, and the old log if and only if no delete has happened and the puts so far repeat the log |
| Crash.SaveIsAtomicIff | matrixone/distributed/consensus/pkg/store/raftstore/peer_storage.go:224-233 | A save without a snapshot is atomic (the old log at every cut before its last write, the new one after it) if and only if its batch deletes nothing and repeats the log wherever they meet |
| Crash.SaveIsTorn | matrixone/distributed/consensus/pkg/store/raftstore/peer_storage.go:159-186 | A `Ready` that raft may hand over and that a crash after its first write tears: the recovered log is neither the old nor the new one and its terms fall |
| Crash.FirstPutKeepsLogExactly | matrixone/distributed/consensus/pkg/store/raftstore/peer_storage.go:159-186 | The first put of an overwriting append keeps the log if and only if it extends the log or repeats the entry already there |
| Crash.CrashDuringProcess | matrixone/distributed/consensus/pkg/store/raftstore/peer.go:231-245 | Inside `process` the store is the replay to the apply index or to one less; a crash between the writes loses the command, exactly when the command would have changed the store |
| Crash.PutIsLost | matrixone/distributed/consensus/pkg/store/raftstore/peer.go:231-245 | A put saved on an empty replica and lost by a crash after the first write of `process`: the restart counts it as applied and the store does not have it |
| Peer.Peer.Process | matrixone/distributed/consensus/pkg/store/raftstore/peer.go:231-245 | The apply index is written before the command takes effect; state, log and spawned collections follow the specification |
| Peer.Peer.ProcessRequest | matrixone/distributed/consensus/pkg/store/raftstore/peer.go:247-258 | A put or delete reaches the key-value store as one write; any other request writes nothing |
| Peer.Peer.ProcessAdminRequest | matrixone/distributed/consensus/pkg/store/raftstore/peer.go:260-273 | A compaction at or above the truncated index raises it, persists it and spawns the next range; an older one changes nothing |
| Peer.Peer.HandleReady | matrixone/distributed/consensus/pkg/store/raftstore/peer.go:216-229 | Save, file the read states, send at most one signal, then apply every committed entry in order, with the exact write sequence; a panic while saving ends it there |
| Peer.Peer.GcRaftLog | matrixone/distributed/consensus/pkg/store/raftstore/peer.go:275-282 | The collection deletes exactly the records its range read returns |
| Peer.Peer.TickLogGC | matrixone/distributed/consensus/pkg/store/raftstore/peer.go:163-170 | Every hundredth tick resets the counter and runs the check |
| PeerState.ProcessKeeps | matrixone/distributed/consensus/pkg/store/raftstore/peer.go:231-273 | Applying the next entry performs its command on the store, compacts or keeps the log, keeps the storage invariant, and leaves at least one applied entry after an effective compaction |
| PeerState.ProcessIs | matrixone/distributed/consensus/pkg/store/raftstore/peer.go:231-273 | The effect of an entry read off the entry: a put, a delete, or for an admin command alone a compaction at or above the truncated index with the range it spawns; nothing else changes |
| PeerState.ProposalInWindow | matrixone/distributed/consensus/pkg/store/raftstore/peer.go:172-195 | What a leader proposes: the fatal exit is unreachable; a proposal is made exactly when the gap exceeds the limit, lies strictly between truncated and apply index and carries the right term |
| PeerState.GcDeletesOnlyLiveRecords | matrixone/distributed/consensus/pkg/store/raftstore/peer.go:275-282 | A collection deletes something if and only if its whole range is inside the live window, and would then destroy the log; otherwise it changes nothing |
| PeerState.GcRemovesExactly | matrixone/distributed/consensus/pkg/store/raftstore/peer.go:275-282 | When a collection deletes, it deletes the records of its range and touches nothing else |
| PeerState.TilesPartition | matrixone/distributed/consensus/pkg/store/raftstore/peer.go:269-270 | Adjacent ranges are disjoint and together hold exactly the indexes of (from, to] |
| PeerState.SpawnedCollectsNothing | matrixone/distributed/consensus/pkg/store/raftstore/peer.go:269-282 | A spawned collection, run at any later time, deletes nothing |
| ClusterInvariant.RunKeeps | matrixone/distributed/consensus/pkg/store/raftstore/peer.go:216-282 | In every reachable state of N replicas (late, repeated and lost snapshots and proposals, restarts) each replica's applied log is the committed sequence, its disk agrees with its cache, and its store tracks a committed prefix key by key |
| ClusterTheorems.CompactionSafety | matrixone/distributed/consensus/pkg/store/raftstore/peer.go:172-273 | In every reachable state truncated index <= apply index <= last index, the truncated term is the committed term, and a leader's proposal is in the window with the committed term |
| ClusterTheorems.IndexesNeverDecrease | matrixone/distributed/consensus/pkg/store/raftstore/peer.go:231-273 | Truncated and apply index never decrease between two points of a run, restarts included, and the committed sequence only grows |
| ClusterTheorems.CollectionIsSafe | matrixone/distributed/consensus/pkg/store/raftstore/peer.go:260-282 | At every moment the spawned ranges are disjoint, cover exactly (truncated index at start-up, last compaction], and running any of them removes no record |
| ClusterTheorems.ReplicasAgree | matrixone/distributed/consensus/pkg/store/raftstore/peer.go:231-258 | In every run, whatever was installed anywhere: two replicas that have caught up to the same index hold the same store if and only if they have the same stray keys with the same values; without stray keys both are the memory store after the applied prefix |
| ClusterTheorems.ReplicaExactly | matrixone/distributed/consensus/pkg/store/raftstore/peer_storage.go:217-221 | In every run, for every replica, with no condition on installs: once it has applied what its data may reflect, its store differs from the memory store after its applied prefix in exactly its stray keys, so the two are equal if and only if it has none; before that its apply index is below a committed horizon |
| ClusterTheorems.ExactRunsAgree | matrixone/distributed/consensus/pkg/store/raftstore/peer.go:231-258 | If every install of a run is exact (none, say), every replica at every step boundary holds the memory store after its applied prefix |
| UncleanInstall.StoresDiffer | matrixone/distributed/consensus/pkg/store/raftstore/peer_storage.go:202-222 | A run of two replicas that ends at the same apply index with different stores: the second applied a put, then installed the snapshot of the first, where the key was deleted again |
| UncleanInstall.AheadOfReplay | matrixone/distributed/consensus/pkg/store/raftstore/peer_storage.go:188-222 | A run after which a replica without stray keys, but below its horizon, is not at the replay: it installed metadata captured at index 1 with data captured at index 2 |
| ClusterTheorems.ReadsAreLinearizable | matrixone/distributed/consensus/pkg/store/raftstore/peer.go:323-352 | Once an index is applied, a key that is not stray has its value after some committed prefix of at least that length; on a replica that has caught up the keys with the value of the applied prefix are exactly those that are not stray |
| AnsweredReads.AnsweredReadIsLinearizable | matrixone/distributed/consensus/pkg/store/raftstore/peer.go:299-334 | The value the store holds at the key of a served read, once the index raft gave for the read is applied, is the value the memory store holds after a committed prefix at least that long (the empty value if it holds none), in every interleaving, unless the key is stray |
| AnsweredReads.StrayReadIsStale | matrixone/distributed/consensus/pkg/store/raftstore/peer.go:299-334 | A run in which a read answered with index 2 and served once 2 entries were applied returns a value that no committed prefix of that length holds, because its key is stray |
| ClusterTheorems.HandedSnapshotConnects | matrixone/distributed/consensus/pkg/store/raftstore/peer_storage.go:108-144 | A generated snapshot that still passes the validity check lies between truncated and apply index, has the current term there, and every entry after it can be read, whatever was applied or compacted since its capture |
| ClusterTheorems.HandleReadyIsRun | matrixone/distributed/consensus/pkg/store/raftstore/peer.go:216-229 | One `handleReady` of the running replica is a run of the cluster's steps: a save, then one apply for each committed entry |
| PeerStorage.PeerStorage.Snapshot | matrixone/distributed/consensus/pkg/store/raftstore/peer_storage.go:108-144 | A snapshot is handed over if and only if one arrived, is not empty and is not below the truncated index; otherwise the wait, retry or give-up branch with its counter and state |
| SnapshotTries.GivesUpIff | matrixone/distributed/consensus/pkg/store/raftstore/peer_storage.go:108-144 | In every run of requests, arrivals and installs a request fails for good if and only if exactly five generations were wasted, by an install or an empty result, since the last snapshot that arrived or the last failure |
| SnapshotTries.NeverGivesUp | matrixone/distributed/consensus/pkg/store/raftstore/peer_storage.go:120-130 | Without an install and without an empty snapshot no request ever fails for good |
| SnapshotTries.FiveInterruptionsGiveUp | matrixone/distributed/consensus/pkg/store/raftstore/peer_storage.go:127-143 | Five requests whose generations are interrupted by installs make the sixth fail for good |
| PeerStorage.PeerStorage.CaptureMeta | matrixone/distributed/consensus/pkg/store/raftstore/peer_storage.go:188-194 | Index and term of a generating task, captured in one step; a failed `Term` reads as term 0 |
| PeerState.CapturedMetaIs | matrixone/distributed/consensus/pkg/store/raftstore/peer_storage.go:188-194 | The captured metadata are the apply index, the term of the log entry there, and the conf state |
| PeerStorage.PeerStorage.CaptureData | matrixone/distributed/consensus/pkg/store/raftstore/peer_storage.go:195-199 | The data is the codec image of the store at that moment, sent on the task's channel |
| SnapshotReplay.SnapshotThenSuffix | matrixone/distributed/consensus/pkg/store/raftstore/peer_storage.go:188-222 | Install over any store, then replay i+1..k: every key that is not stray agrees with the leader at k, and the states are equal if and only if no key is stray, where stray means held before, absent from the snapshot and untouched by the suffix |
| Commands.ReplayIdempotent | matrixone/distributed/consensus/pkg/store/raftstore/peer.go:247-258 | Replaying blind puts and deletes that a state already includes changes nothing |
| Commands.LastWriteWins | matrixone/distributed/consensus/pkg/store/raftstore/peer.go:247-258 | A touched key forgets where the replay began; an untouched key keeps what it had |
| Commands.LastWriteIs | matrixone/distributed/consensus/pkg/store/raftstore/peer.go:247-258 | What a replay leaves at a key, read off the entries: the value of the last put, nothing after a last delete, and what was there before if no entry writes the key |
| Commands.MemoryStore.Set | matrixone/distributed/consensus/pkg/store/store_memory.go:18-24 | The map changes at the key only, to the value, which is the command the replay performs |
| Commands.MemoryStore.Get | matrixone/distributed/consensus/pkg/store/store_memory.go:26-37 | The whole value stored at the key, nil for a missing key |
| Commands.MemoryStore.Delete | matrixone/distributed/consensus/pkg/store/store_memory.go:39-45 | The map loses the key only, which is the command the replay performs |
| PairCodec.RoundTripExactly | matrixone/distributed/consensus/pkg/store/storage/pair.go:17-53 | `Decode` undoes `Encode` on a list if and only if every record length fits in 32 bits |
| PairCodec.EncodeDecode | matrixone/distributed/consensus/pkg/store/storage/pair.go:17-53 | Whatever `Decode` accepts, `Encode` restores byte for byte |
| PairCodec.DecodesExactlyEncodings | matrixone/distributed/consensus/pkg/store/storage/pair.go:25-35 | Without spare capacity `Decode` ends without a panic exactly on the images of `Encode` |
| PairCodec.DecodesExactly | matrixone/distributed/consensus/pkg/store/storage/pair.go:25-35 | On a buffer with spare capacity `Decode` gives a list exactly when the list fits and the buffer, with some spare bytes if its last record is cut short after its length, is its encoding |
| PairCodec.NothingSpare | matrixone/distributed/consensus/pkg/store/storage/pair.go:29-30 | Without spare capacity the two decoders are one |
| PairCodec.EncodedConcat | matrixone/distributed/consensus/pkg/store/storage/pair.go:17-23 | `Encode` distributes over concatenation |
| PairCodec.Encode | matrixone/distributed/consensus/pkg/store/storage/pair.go:17-23 | The loop builds the encoding of the whole list |
| PairCodec.PairRoundTrip | matrixone/distributed/consensus/pkg/store/storage/pair.go:37-53 | Decoding one encoded record gives its key and value back when its length fits in 32 bits |
| PairCodec.EncodeOne | matrixone/distributed/consensus/pkg/store/storage/pair.go:37-45 | Two truncated 32-bit little-endian lengths, then key and value |
| PairCodec.RecordLayout | matrixone/distributed/consensus/pkg/store/storage/pair.go:37-45 | The layout of a record: its whole length and the key's in four little-endian bytes each, then the key, then the value |
| PairCodec.Decode | matrixone/distributed/consensus/pkg/store/storage/pair.go:25-35 | On a buffer with any spare capacity behind it the loop terminates with every slice in bounds or panics, as the recursive decoder does |
| MetaKey.KeyRoundTrip | matrixone/distributed/consensus/pkg/store/raftstore/meta/key.go:12-35 | A reference decoder recovers every key from its bytes |
| MetaKey.KeyBytes | matrixone/distributed/consensus/pkg/store/raftstore/meta/key.go:5-35 | The bytes of each key: the kind, and for a log entry its index in eight little-endian bytes |
| MetaKey.KeysDisjoint | matrixone/distributed/consensus/pkg/store/raftstore/meta/key.go:12-35 | Different structured keys have different bytes, over all 64-bit indexes and the three state keys |
| Disk.BytesRefineKeys | matrixone/distributed/consensus/pkg/store/raftstore/meta/key.go:12-35 | Over every run of writes the byte-keyed store holds what the structured store holds |
| Disk.LogAndStateSeparate | matrixone/distributed/consensus/pkg/store/raftstore/peer_storage.go:235-275 | Log puts and deletes leave the three state records alone byte for byte, and writes of those records leave the log alone |
| Engines.Engines.WriteKV | matrixone/distributed/consensus/pkg/store/storage/engines.go:38-47 | One atomic write to the user data, or the unknown-modify error and no change |
| Engines.Engines.WriteMeta | matrixone/distributed/consensus/pkg/store/storage/engines.go:49-58 | The same on the meta store, through the byte key |
| Engines.Engines.ReadKV | matrixone/distributed/consensus/pkg/store/storage/engines.go:60-69 | The stored value or not-found |
| Engines.Engines.ReadMeta | matrixone/distributed/consensus/pkg/store/storage/engines.go:71-80 | The stored record or not-found, through the byte key |
| Engines.Engines.KVSnapshot | matrixone/distributed/consensus/pkg/store/storage/engines.go:82-84 | The codec image of the store's sorted listing |
| Storage.Storage.Keys | matrixone/distributed/consensus/pkg/store/storage/storage.go:49-58 | An iteration visits every key once, in byte order |
| Storage.LessIsBytewise | matrixone/distributed/consensus/pkg/store/storage/storage.go:49-58 | The iterator's order is that of the first differing byte, a prefix coming first |
| Storage.ListingIs | matrixone/distributed/consensus/pkg/store/storage/storage.go:49-58 | The listing has exactly the pairs of the store, in ascending key order |
| Storage.PutListing | matrixone/distributed/consensus/pkg/store/storage/storage.go:49-58 | Putting a snapshot's listing over another store is a map override |
| ReadQueue.ReadCtxRoundTrip | matrixone/distributed/consensus/pkg/store/raftstore/peer.go:377-382 | A read context is the time in eight little-endian bytes followed by the key, and gives both back |
| Peer.Peer.ScanReads | matrixone/distributed/consensus/pkg/store/raftstore/peer.go:305-314 | A scan stops at the first read with an answer, leaving the unscanned suffix followed by the scanned unexpired reads in their order; without a match only expired reads leave |
| ReadQueue.UnexpiredIs | matrixone/distributed/consensus/pkg/store/raftstore/peer.go:310-312 | Each scanned read is kept or dropped on its own, in its place |
| Peer.Peer.HandleReadState | matrixone/distributed/consensus/pkg/store/raftstore/peer.go:299-321 | Exactly the matched read and its state leave; without a match the last read is served a zero state, or the empty queue panics |
| Peer.Peer.FileReadStates | matrixone/distributed/consensus/pkg/store/raftstore/peer.go:218-223 | Later states of a context replace earlier ones, and one signal is sent for the batch |
| ReadQueue.FiledIs | matrixone/distributed/consensus/pkg/store/raftstore/peer.go:218-220 | Each context of a batch is filed with the last state that carries it, as it came, and every other context keeps its entry |
| ReadFiling.FilingIsProtocol | matrixone/distributed/consensus/pkg/store/raftstore/peer.go:218-223 | Filing a batch and sending its signal is the protocol's run of one `Deliver` with the index of each state and one `Signal`, on the tables from context to index |
| Peer.Peer.ReadApplied | matrixone/distributed/consensus/pkg/store/raftstore/peer.go:323-334 | The value the store holds at the key behind the eight time bytes, the empty value if it holds none |
| ReadProtocol.SignalIsMatchedIff | matrixone/distributed/consensus/pkg/store/raftstore/peer.go:299-321 | In every interleaving of readers, the raft loop and the handler, answers that come after their read expired included: every queued read is in one place, the unserved answers number exactly what is owed to them plus the surplus, a served read got its own index, and when a signal can be taken an answered read is queued if and only if fewer answers are late than owed and to spare |
| ReadScan.SignalServedIff | matrixone/distributed/consensus/pkg/store/raftstore/peer.go:302-318 | In every reachable state with a signal to take, an uninterrupted scan serves a read with its answer if and only if fewer answers are late than owed and to spare, and falls through if and only if not |
| ReadProtocol.OwingRunsMatch | matrixone/distributed/consensus/pkg/store/raftstore/peer.go:302-318 | In every interleaving in which each signal is taken under that condition the handler never falls through |
| ReadProtocol.EverySignalIsMatched | matrixone/distributed/consensus/pkg/store/raftstore/peer.go:216-223 | The special case of runs without late answers: no answer is ever late, every signal is matched and the fall-through is unreachable in every interleaving |
| ReadProtocol.BusyHandlerMovesIff | matrixone/distributed/consensus/pkg/store/raftstore/peer.go:305-314 | In every state of a run whose signals are matched a busy handler has a step of its own if and only if it is not putting a read back into a full queue |
| ReadProtocol.HandlerGetsCloser | matrixone/distributed/consensus/pkg/store/raftstore/peer.go:305-318 | Each step of the handler lowers the number of steps its scan can still take, and the step that ends a scan serves a read |
| ReadProtocol.HandlerBlocks | matrixone/distributed/consensus/pkg/store/raftstore/peer.go:306-311 | A reachable state in which the handler blocks: it took a read out of a full queue and a reader filled the gap |
| ReadProtocol.BlockedStaysBlocked | matrixone/distributed/consensus/pkg/store/raftstore/peer.go:306-311 | Nobody else moves the handler or shortens the queue, so a blocked handler stays blocked for good |
| ReadProtocol.StrandedAnswers | matrixone/distributed/consensus/pkg/store/raftstore/peer.go:221-223 | When all is idle the unserved answers are exactly the read states beyond the first of their `Ready`, and those that are not late still have their read in the queue |
| ReadProtocol.AnswerIsStranded | matrixone/distributed/consensus/pkg/store/raftstore/peer.go:216-223 | A run that ends idle with an answered read still queued: two answers in one `Ready`, one signal |
| ReadProtocol.LateAnswerFallsThrough | matrixone/distributed/consensus/pkg/store/raftstore/peer.go:304-318 | A run in which a late answer leads to the nil dereference: two reads, the first expires while the second is matched, then the first is answered |
| ReadProtocol.LateAnswerServesAnother | matrixone/distributed/consensus/pkg/store/raftstore/peer.go:315-318 | A run in which a late answer makes the handler fall through with another read that raft has not answered, which is then served a zero read state |
| ReadScan.ScanAlone | matrixone/distributed/consensus/pkg/store/raftstore/peer.go:302-318 | The handler's single steps, run without interruption, end in exactly the queue, table and answer of one `HandleReadState` |
| Util.DedupIs | matrixone/execution/homework/pkg/vm/util/util.go:18-35 | The merged list has no repeats, the same names, and first-occurrence order |
| Util.MergeAttributes | matrixone/execution/homework/pkg/vm/util/util.go:18-35 | The two loops give the merged list |
| Util.Contain | matrixone/execution/homework/pkg/vm/util/util.go:5-16 | Succeeds if and only if every name of the first list is in the second |
| Values.EvalConstant | matrixone/execution/homework/pkg/vm/value/eval.go:5-26 | A constant becomes a column of itself as long as one of the input columns, empty if there are none |
| Overload.RunLoop | matrixone/execution/homework/pkg/vm/extend/overload/overload.go:32-38 | The element loop computes the operator cell by cell, or panics on a short column or a wrong dynamic type |
| Overload.BinaryEval | matrixone/execution/homework/pkg/vm/extend/overload/overload.go:9-23 | The table search picks the overload of the two tags, errors for (float, float), panics for an operator outside the table |
| Overload.BinaryIsPointwise | matrixone/execution/homework/pkg/vm/extend/overload/overload.go:26-103 | On well-typed equal-length columns no panic; a result exactly when not both are floats; cells are the operator on the pairs, with the returned tag |
| Overload.ScalarIs | matrixone/execution/homework/pkg/vm/extend/overload/overload.go:26-103 | Operator 0 adds and operator 1 subtracts, left operand first: two ints in the int64 range, congruent to the sum or difference modulo 2^64 and equal to it when it fits; an int and a float in either order after the int is converted |
| Extend.Evaluate | matrixone/execution/homework/pkg/vm/extend/extend.go:27-37 | Left, right, operator; the first error wins; on any columns, those of different lengths included |
| Extend.EvaluationIsUnique | matrixone/execution/homework/pkg/vm/value/eval.go:5-26 | On columns of equal length every result the evaluation may give is the specified one; only the length a constant takes could have differed |
| Extend.AttributesAreUsed | matrixone/execution/homework/pkg/vm/extend/extend.go:11-13 | The attribute list names exactly the leaves of the tree, without repeats |
| Extend.EvalRefinesRows | matrixone/execution/homework/pkg/vm/extend/extend.go:27-37 | Column-at-a-time evaluation equals row-at-a-time evaluation: no panic, cell i is the expression on row i with the returned tag, and an error means that every row fails |
| Extend.SumAndDifference | matrixone/execution/homework/pkg/vm/extend/extend.go:27-37 | Each cell of an evaluated sum or difference, from the cells of its two sides, left side first, ints in int64 arithmetic |
| Extend.EvalSucceedsIff | matrixone/execution/homework/pkg/vm/extend/extend.go:27-37 | Evaluation succeeds if and only if every named column exists and at most one leaf is a float; the tag is float exactly when one is |
| Extend.EvalReadsOnlyItsNames | matrixone/execution/homework/pkg/vm/extend/extend.go:69-74 | The result, errors and panics included, depends only on the named columns and the row count |
| Extend.ReturnTypeAgreesIff | matrixone/execution/homework/pkg/vm/extend/extend.go:15-25 | The declared type is the tag of the result if and only if no leaf is a float or the last leaf is the float one |
| Extend.DeclaredTypeIsWrong | matrixone/execution/homework/pkg/vm/extend/extend.go:80-88 | A float constant plus an int column declares an int and evaluates to a float |
| Projection.Projection.Read | matrixone/execution/homework/pkg/vm/op/origin/projection/projection.go:55-91 | The loops and guards, in order, give the specified answer, and `isCheck` is set exactly when the checks pass |
| Projection.Projection.Check | matrixone/execution/homework/pkg/vm/op/origin/projection/projection.go:93-110 | Passes if and only if every expression names an attribute and the needed ones are in the schema |
| Projection.Projection.AliasListOf | matrixone/execution/homework/pkg/vm/op/origin/projection/projection.go:112-123 | One output name for each item, the attribute's own if there is no alias |
| Pruning.NamesAre | matrixone/execution/homework/pkg/vm/op/origin/projection/projection.go:84-88 | An attribute without an alias is listed, requested and output under its own name, any other item under its alias |
| Projection.AttributeListOf | matrixone/execution/homework/pkg/vm/op/origin/projection/projection.go:125-139 | The merged attributes of all items |
| Projection.SubExtendOf | matrixone/execution/homework/pkg/vm/op/origin/projection/projection.go:141-155 | The items whose name is requested, in order |
| Pruning.SubExtendConcat | matrixone/execution/homework/pkg/vm/op/origin/projection/projection.go:141-155 | Items are selected each on its own, in their order |
| Projection.ProjectAll | matrixone/execution/homework/pkg/vm/op/origin/projection/projection.go:78-90 | The first failing item decides; items of one name are appended to each other; on columns of any lengths |
| Pruning.NextColumn | matrixone/execution/homework/pkg/vm/op/origin/projection/projection.go:79-89 | One more item appends its cells to those that already go by its name and changes no other column |
| Projection.ProjectionIsUnique | matrixone/execution/homework/pkg/vm/op/origin/projection/projection.go:78-90 | On columns of equal length there is only the one specified output |
| Pruning.NeededIs | matrixone/execution/homework/pkg/vm/op/origin/projection/projection.go:125-155 | The input is asked for exactly the names that some selected expression uses |
| Pruning.PruningPreservesMeaning | matrixone/execution/homework/pkg/vm/op/origin/projection/projection.go:55-91 | When the first read gives rows, its keys are exactly the requested names and, with distinct names, each column is its expression evaluated over the full unpruned input |
| Pruning.AttributeComesBack | matrixone/execution/homework/pkg/vm/op/origin/projection/projection.go:78-90 | With distinct names a requested attribute without an alias comes back under its own name as the input column itself |
| Pruning.AttributeAlone | matrixone/execution/homework/pkg/vm/op/origin/projection/projection.go:55-91 | Over a non-empty typed relation a request for one such attribute always succeeds, with exactly its column |
| Pruning.ReadExactly | matrixone/execution/homework/pkg/vm/op/origin/projection/projection.go:55-91 | The outcome of a first read over a non-empty well-typed relation, in full: fails, panics, gives nothing, or gives rows, each with its exact condition; no lookup fails |
| Pruning.SecondReadIsEmpty | matrixone/execution/homework/pkg/vm/op/origin/projection/projection.go:70-77 | Once the relation was read every request gives no rows |
| Pruning.RenamedColumnIsLost | matrixone/execution/homework/pkg/vm/op/origin/projection/projection.go:75-77 | The concrete case of the emptiness guard: a renamed column asked for by its new name gives no rows |

## Left out

- etcd raft (elections, messages, quorum, `Advance`): represented only by the contract of `Ready` and the committed sequence.
- Protobuf: marshalling is taken to be invertible, so the meta store holds structured records; a record of another kind stands for bytes that do not unmarshal.
- Pebble and the file system: two ordered maps with atomic, durable writes of one key; close, destroy and I/O errors are not modelled.
- Membership changes, conf-change entries and bootstrap: the conf state changes only by snapshot.
- Crashes inside a snapshot install: the code gives no atomicity there and no claim is made; crashes inside every other save are covered exactly.
- After a fall-through: `ReadProtocol` follows a run up to the first one; the source then serves the last read with a zero state and goes on, or panics.
- Crashes inside `process` across the cluster: `Cluster` restarts replicas at step boundaries; the loss in between is stated for one replica.
- `PeerStorage.PeerStorage.CaptureMeta`: takes index and term in one step; the source may read them at different moments.
- `PeerStorage.PeerStorage.Entries`: `int(hi - lo)` above 63 bits and the allocation of that size are not modelled; `maxSize` is ignored by the source too.
- `Engines.Engines.ReadKV`: an empty value and nil are one value, as the source returns nil for both.
- `PeerStorage.PeerStorage.ApplySnapshot`: the data of a snapshot is taken to have no spare capacity behind it; what `Decode` does with some is in `PairCodec.DecodesExactly`.
- `Peer.Peer.ReadApplied`: the wait for the apply index is its precondition; sleeping and the callback are not modelled.
- `Peer.Peer.LinearizableRead`: the time is a parameter, `ReadIndex` is raft's, and the full queue that would block is modelled in `ReadProtocol` only.
- `Peer.Peer.FileReadStates`: the send that blocks on a full signal channel is a counter here; `ReadProtocol` has the capacity.
- Index 2^64 - 1: last indexes stay below it, as `LastIndex + 1` would wrap and the loop that deletes the old suffix would not end.
- Unsynchronised access of several goroutines to one map, and torn reads of the apply index: each step of the models is atomic.
- Wall-clock time: a read carries an expired flag decided when it is checked.
- Logging, configuration, HTTP, gRPC, the router and the client.
- `ParenExtend`: it has no declared type and so is not an expression of the source's interface.
- `Projection.Projection.Read`: its input is a relation read at most once; projections over projections and the relation's own storage errors are not modelled, and the columns of a relation have equal length.
- `String` and `Attributes` methods of the operators, value comparison and parsing, and the `unsafe` casts of `values/static`.
- The other programs of the repository (the classifier, document sets, hashing).
