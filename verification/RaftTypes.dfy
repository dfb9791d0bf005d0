/** The records a replica stores and the `Ready` batches raft hands to it. Protobuf
    messages are the records themselves: marshalling is taken to be invertible. */
module RaftTypes {
  import opened ByteStrings
  import opened Wrappers

  datatype Request = Get(key: Bytes) | Put(key: Bytes, value: Bytes) | Delete(key: Bytes)

  datatype AdminRequest = CompactLog(compactIndex: U64, compactTerm: U64)

  datatype RaftCmd = RaftCmd(request: Option<Request>, admin: Option<AdminRequest>)

  datatype Entry = Entry(index: U64, term: U64, cmd: RaftCmd)

  datatype HardState = HardState(term: U64, vote: U64, commit: U64)

  datatype ConfState = ConfState(voters: seq<U64>, votersOutgoing: seq<U64>,
                                 learners: seq<U64>, learnersNext: seq<U64>, autoLeave: bool)

  datatype LocalState = LocalState(hardState: HardState, lastIndex: U64, lastTerm: U64)

  datatype ApplyState = ApplyState(applyIndex: U64, truncIndex: U64, truncTerm: U64)

  datatype Record = EntryRecord(entry: Entry)
                  | LocalRecord(local: LocalState)
                  | ApplyRecord(apply: ApplyState)
                  | ConfRecord(conf: ConfState)

  datatype SnapshotMeta = SnapshotMeta(index: U64, term: U64, conf: ConfState)

  datatype Snapshot = Snapshot(meta: SnapshotMeta, data: Bytes)

  datatype ReadState = ReadState(index: U64, requestCtx: Bytes)

  datatype Ready = Ready(snapshot: Snapshot, entries: seq<Entry>, hardState: HardState,
                         readStates: seq<ReadState>, committedEntries: seq<Entry>)

  const NO_HARD_STATE := HardState(0, 0, 0)
  const NO_CONF_STATE := ConfState([], [], [], [], false)
  const NO_SNAPSHOT := Snapshot(SnapshotMeta(0, 0, NO_CONF_STATE), [])

  predicate IsEmptySnap(s: Snapshot) { s.meta.index == 0 }

  predicate IsEmptyHardState(h: HardState) { h == NO_HARD_STATE }

  /** Consecutive indexes, none of them the largest 64-bit number. */
  predicate Contiguous(ents: seq<Entry>)
  {
    forall k | 0 <= k < |ents| :: ents[k].index == ents[0].index + k && ents[k].index < TWO_64 - 1
  }

  predicate TermsRise(ents: seq<Entry>)
  {
    forall j, k | 0 <= j <= k < |ents| :: ents[j].term <= ents[k].term
  }
}
