/** The persistent half of a replica. */
module PeerStorage {
  import opened ByteStrings
  import opened Wrappers
  import opened RaftTypes
  import opened MetaKey
  import opened PairCodec
  import opened Storage
  import opened Disk
  import opened RaftLog
  import opened StorageState
  import opened LogRefinement
  import opened PeerState
  import opened Engines
  import opened MetaValue
  import opened SnapshotTries

  class PeerStorage {
    const engines: Engines
    var localState: LocalState
    var applyState: ApplyState
    var confState: ConfState
    var snapState: SnapState
    var snapTriedCnt: nat
    /** The snapshots that wait in a channel, by channel number. */
    var channels: map<nat, Snapshot>
    /** The channels of all generating tasks started so far, in order. */
    var snapTasks: seq<nat>

    ghost predicate Valid()
      reads engines.Repr()
    {
      engines.Valid()
    }

    ghost function Repr(): set<object> { {this} + engines.Repr() }

    ghost function Value(): State
      reads this, engines`disk
    {
      State(engines.disk, Mem(localState, applyState, confState))
    }

    constructor (engines: Engines, mem: Mem)
      requires engines.Valid()
      ensures Valid() && this.engines == engines && Value() == State(old(engines.disk), mem)
      ensures snapState.stateType == SnapshotRelaxed && snapTriedCnt == 0 && channels == map[] && snapTasks == []
    {
      this.engines := engines;
      localState, applyState, confState := mem.local, mem.apply, mem.conf;
      snapState := SnapState(SnapshotRelaxed, 0);
      snapTriedCnt := 0;
      channels := map[];
      snapTasks := [];
    }

    // ---- Reads -----------------------------------------------------------

    method CheckRange(lo: U64, hi: U64) returns (err: Option<LogError>)
      ensures err == StorageState.CheckRange(Value().mem, lo, hi)
    {
      if lo > hi {
        return Some(ErrRange);
      } else if hi > Inc(localState.lastIndex) {
        return Some(ErrRange);
      } else if lo <= applyState.truncIndex {
        return Some(ErrCompacted);
      }
      return None;
    }

    method Entries(lo: U64, hi: U64) returns (r: Result<seq<Entry>, LogError>)
      requires Valid()
      ensures r == ReadEntries(Value(), lo, hi)
    {
      ghost var meta := Value().disk.meta;
      var err := CheckRange(lo, hi);
      if err.Some? {
        return Failure(err.value);
      }
      if lo == hi {
        return Success([]);
      }
      var ents: seq<Entry> := [];
      var i := lo;
      assert Prepended(ents, Collect(meta, i, hi)) == Collect(meta, lo, hi) by { PrependNothing(Collect(meta, i, hi)); }
      while i < hi
        invariant lo <= i <= hi && |ents| == i - lo
        invariant Collect(meta, lo, hi) == Prepended(ents, Collect(meta, i, hi))
      {
        var val := engines.ReadMeta(LogEntry(i));
        if val.Failure? {
          return Failure(ErrNotFound);
        }
        if !val.value.EntryRecord? {
          return Failure(ErrUnmarshal);
        }
        var ent := val.value.entry;
        if ent.index != i {
          break;
        }
        PrependOne(ents, ent, Collect(meta, i + 1, hi));
        ents := ents + [ent];
        i := i + 1;
      }
      assert ents + [] == ents;
      if |ents| == hi - lo {
        return Success(ents);
      }
      return Failure(ErrUnavailable);
    }

    method Term(i: U64) returns (r: Result<U64, LogError>)
      requires Valid()
      ensures r == ReadTerm(Value(), i)
    {
      if i == applyState.truncIndex {
        return Success(applyState.truncTerm);
      }
      var err := CheckRange(i, Inc(i));
      if err.Some? {
        return Failure(err.value);
      }
      if i == localState.lastIndex {
        return Success(localState.lastTerm);
      }
      var val := engines.ReadMeta(LogEntry(i));
      if val.Failure? {
        return Failure(ErrNotFound);
      }
      if !val.value.EntryRecord? {
        return Failure(ErrUnmarshal);
      }
      return Success(val.value.entry.term);
    }

    method LastIndex() returns (i: U64)
      ensures i == localState.lastIndex
    {
      return localState.lastIndex;
    }

    method FirstIndex() returns (i: U64)
      ensures i == StorageState.FirstIndex(Value().mem)
    {
      return Inc(applyState.truncIndex);
    }

    // ---- Single records --------------------------------------------------

    method PutMetaRecord(key: Key, msg: Record)
      requires Valid()
      modifies engines.Repr()
      ensures Valid()
      ensures Value() == old(Value()).(disk := ApplyWrite(old(Value()).disk, PutMeta(key, msg)))
      ensures engines.journal == old(engines.journal) + [PutMeta(key, msg)]
    {
      var err := engines.WriteMeta(Modify.Put(EncodeKey(key), msg, true), key);
    }

    method DeleteMetaRecord(key: Key)
      requires Valid()
      modifies engines.Repr()
      ensures Valid()
      ensures Value() == old(Value()).(disk := ApplyWrite(old(Value()).disk, DeleteMeta(key)))
      ensures engines.journal == old(engines.journal) + [DeleteMeta(key)]
    {
      var err := engines.WriteMeta(Modify.Delete(EncodeKey(key), true), key);
    }

    method AppendLogEntries(ents: seq<Entry>)
      requires Valid()
      modifies engines.Repr()
      ensures Valid()
      ensures Value() == old(Value()).(disk := ApplyWrites(old(Value()).disk, PutEntries(ents)))
      ensures engines.journal == old(engines.journal) + PutEntries(ents)
    {
      ghost var ws := PutEntries(ents);
      for k := 0 to |ents|
        invariant Valid()
        invariant Value() == old(Value()).(disk := ApplyWrites(old(Value()).disk, ws[..k]))
        invariant engines.journal == old(engines.journal) + ws[..k]
      {
        PutMetaRecord(LogEntry(ents[k].index), EntryRecord(ents[k]));
        assert ws[..k + 1] == ws[..k] + [ws[k]] && ws[..k + 1][..k] == ws[..k];
      }
      assert ws[..|ents|] == ws;
    }

    method DeleteLogEntries(ents: seq<Entry>)
      requires Valid()
      modifies engines.Repr()
      ensures Valid()
      ensures Value() == old(Value()).(disk := ApplyWrites(old(Value()).disk, DeleteEntries(ents)))
      ensures engines.journal == old(engines.journal) + DeleteEntries(ents)
    {
      ghost var ws := DeleteEntries(ents);
      for k := 0 to |ents|
        invariant Valid()
        invariant Value() == old(Value()).(disk := ApplyWrites(old(Value()).disk, ws[..k]))
        invariant engines.journal == old(engines.journal) + ws[..k]
      {
        DeleteMetaRecord(LogEntry(ents[k].index));
        assert ws[..k + 1] == ws[..k] + [ws[k]] && ws[..k + 1][..k] == ws[..k];
      }
      assert ws[..|ents|] == ws;
    }

    method WriteApplyState()
      requires Valid()
      modifies engines.Repr()
      ensures Valid()
      ensures Value() == old(Value()).(disk :=
              ApplyWrite(old(Value()).disk, PutMeta(ApplyKey, ApplyRecord(applyState))))
      ensures engines.journal == old(engines.journal) + [PutMeta(ApplyKey, ApplyRecord(applyState))]
    {
      PutMetaRecord(ApplyKey, ApplyRecord(applyState));
    }

    // ---- Saving a Ready --------------------------------------------------

    method DeleteSuffix(last: U64, lasti: U64)
      requires Valid() && last < lasti < TWO_64 - 1
      modifies engines.Repr()
      ensures Valid()
      ensures Value() == old(Value()).(disk := ApplyWrites(old(Value()).disk, DeleteRange(last + 1, lasti)))
      ensures engines.journal == old(engines.journal) + DeleteRange(last + 1, lasti)
    {
      var deleted: seq<Entry> := [];
      var i := Inc(last);
      while i <= lasti
        invariant last < i <= lasti + 1 && |deleted| == i - last - 1
        invariant forall k | 0 <= k < |deleted| :: deleted[k].index == last + 1 + k
      {
        deleted := deleted + [Entry(i, 0, RaftCmd(None, None))];
        i := Inc(i);
      }
      assert DeleteEntries(deleted) == DeleteRange(last + 1, lasti);
      DeleteLogEntries(deleted);
    }

    method AppendKept(kept: seq<Entry>, lastEnt: Entry)
      requires Valid() && localState.lastIndex < TWO_64 - 1
      modifies this`localState, engines.Repr()
      ensures Valid()
      ensures Value().mem == old(Value()).mem.(local := localState)
      ensures localState == old(localState).(lastIndex := lastEnt.index, lastTerm := lastEnt.term)
      ensures var put, lasti := ApplyWrites(old(Value()).disk, PutEntries(kept)), old(localState).lastIndex;
              Value().disk == if lasti > lastEnt.index
                  then ApplyWrites(put, DeleteRange(lastEnt.index + 1, lasti)) else put
      ensures engines.journal == old(engines.journal) + (PutEntries(kept) +
                if old(localState).lastIndex > lastEnt.index
                then DeleteRange(lastEnt.index + 1, old(localState).lastIndex) else [])
    {
      AppendLogEntries(kept);
      var lasti := LastIndex();
      if lasti > lastEnt.index {
        DeleteSuffix(lastEnt.index, lasti);
      }
      localState := localState.(lastIndex := lastEnt.index, lastTerm := lastEnt.term);
    }

    /** Appends a batch. Raft keeps a batch contiguous; the slice can fail only if not. */
    method TruncateAndAppend(batch: seq<Entry>) returns (r: Outcome<()>)
      requires Valid() && localState.lastIndex < TWO_64 - 1
      modifies this`localState, engines.Repr()
      ensures Valid()
      ensures r == if SliceFails(old(Value()).mem, batch) then Panic else Ok(())
      ensures r.Ok? ==> Value() == Append(old(Value()), batch)
      ensures r.Ok? ==> engines.journal == old(engines.journal) + AppendWrites(old(Value()).mem, batch)
      ensures r.Panic? ==> Value() == old(Value()) && engines.journal == old(engines.journal)
    {
      ghost var was := Value();
      var ents := batch;
      if |ents| == 0 {
        return Ok(());
      }
      var firsti := FirstIndex();
      var lastEnt := ents[|ents| - 1];
      if firsti > lastEnt.index {
        return Ok(());
      }
      AppendDisk(was, batch);
      if firsti > ents[0].index {
        var start := Inc(Sub(applyState.truncIndex, ents[0].index));
        if start > |ents| {
          return Panic;
        }
        ents := ents[start..];
      }
      assert ents == Kept(was.mem, batch);
      hide Kept;
      AppendKept(ents, lastEnt);
      return Ok(());
    }

    method PutPairsOf(pairs: seq<Pair>)
      requires Valid()
      modifies engines.Repr()
      ensures Valid()
      ensures Value() == old(Value()).(disk := ApplyWrites(old(Value()).disk, PutPairs(pairs)))
      ensures engines.journal == old(engines.journal) + PutPairs(pairs)
    {
      ghost var ws := PutPairs(pairs);
      for k := 0 to |pairs|
        invariant Valid()
        invariant Value() == old(Value()).(disk := ApplyWrites(old(Value()).disk, ws[..k]))
        invariant engines.journal == old(engines.journal) + ws[..k]
      {
        var err := engines.WriteKV(Modify.Put(pairs[k].key, pairs[k].val, true));
        assert ws[..k + 1] == ws[..k] + [ws[k]] && ws[..k + 1][..k] == ws[..k];
      }
      assert ws[..|pairs|] == ws;
    }

    method WriteSnapshotState(meta: SnapshotMeta)
      requires Valid()
      modifies this`localState, this`applyState, this`confState, engines.Repr()
      ensures Valid() && Value().mem == SnapshotMem(old(Value()).mem, meta)
      ensures var w1, w2 := PutMeta(ApplyKey, ApplyRecord(applyState)), PutMeta(ConfKey, ConfRecord(confState));
              && engines.disk == ApplyWrite(ApplyWrite(old(engines.disk), w1), w2)
              && engines.journal == old(engines.journal) + [w1, w2]
    {
      localState := localState.(lastIndex := meta.index, lastTerm := meta.term);
      applyState := ApplyState(meta.index, meta.index, meta.term);
      WriteApplyState();
      confState := meta.conf;
      PutMetaRecord(ConfKey, ConfRecord(confState));
    }

    /** Installs a snapshot; data that does not decode panics after the state records were
        written. */
    method ApplySnapshot(snapshot: Snapshot) returns (r: Outcome<()>)
      requires Valid()
      modifies this`localState, this`applyState, this`confState, this`snapState, engines.Repr()
      ensures Valid()
      ensures r == if Decoded(snapshot.data).Ok? then Ok(()) else Panic
      ensures Value() == State(ApplyWrites(old(Value()).disk, SnapshotWrites(old(Value()).mem, snapshot)),
                               SnapshotMem(old(Value()).mem, snapshot.meta))
      ensures engines.journal == old(engines.journal) + SnapshotWrites(old(Value()).mem, snapshot)
      ensures snapState == old(snapState).(stateType := SnapshotApplying)
    {
      hide Decoded, DecodedIn, ApplyWrites, PutPairs, Refines;
      SnapshotDisk(Value(), snapshot);
      WriteSnapshotState(snapshot.meta);
      snapState := snapState.(stateType := SnapshotApplying);
      var pairs := Decode(snapshot.data, []);
      NothingSpare(snapshot.data);
      if pairs.Panic? {
        NoPairs(engines.disk);
        return Panic;
      }
      PutPairsOf(pairs.value);
      return Ok(());
    }

    method InstallSnapshot(snapshot: Snapshot) returns (r: Outcome<()>)
      requires Valid()
      modifies this`localState, this`applyState, this`confState, this`snapState, engines.Repr()
      ensures Valid() && Value() == Install(old(Value()), snapshot)
      ensures r == if Decodable(snapshot) then Ok(()) else Panic
      ensures engines.journal == old(engines.journal) + InstallWrites(old(Value()).mem, snapshot)
      ensures snapState == if IsEmptySnap(snapshot) then old(snapState)
                           else old(snapState).(stateType := SnapshotApplying)
    {
      if !IsEmptySnap(snapshot) {
        r := ApplySnapshot(snapshot);
        return;
      }
      return Ok(());
    }

    /** Saves snapshot, entries and hard state; a panic leaves what was written before it. */
    method SaveReadyState(rd: Ready) returns (r: Outcome<()>)
      requires Valid()
      requires (if IsEmptySnap(rd.snapshot) then localState.lastIndex else rd.snapshot.meta.index) < TWO_64 - 1
      modifies this`localState, this`applyState, this`confState, this`snapState, engines.Repr()
      ensures Valid()
      ensures r == if SaveFails(old(Value()).mem, rd) then Panic else Ok(())
      ensures Value() == if r.Ok? then Save(old(Value()), rd) else Install(old(Value()), rd.snapshot)
      ensures engines.journal == old(engines.journal) +
                if r.Ok? then SaveWrites(old(Value()).mem, rd) else InstallWrites(old(Value()).mem, rd.snapshot)
      ensures snapState == if IsEmptySnap(rd.snapshot) then old(snapState)
                           else old(snapState).(stateType := SnapshotApplying)
    {
      hide AppendWrites, SliceFails, Decodable, SnapshotWrites;
      ghost var was := Value();
      r := InstallSnapshot(rd.snapshot);
      if r.Panic? {
        return;
      }
      r := TruncateAndAppend(rd.entries);
      if r.Panic? {
        return;
      }
      if !IsEmptyHardState(rd.hardState) {
        localState := localState.(hardState := rd.hardState);
      }
      PutMetaRecord(LocalKey, LocalRecord(localState));
      SavedIs(was, rd, Value());
    }

    // ---- Snapshots for followers -----------------------------------------

    predicate SnapshotValid(snapshot: Snapshot)
      reads this
    {
      snapshot.meta.index >= applyState.truncIndex
    }

    /** The first half of a generating task: index and term are captured in one step. */
    method CaptureMeta() returns (metadata: SnapshotMeta)
      requires Valid()
      ensures metadata == CapturedMeta(Value())
    {
      var term := Term(applyState.applyIndex);
      metadata := SnapshotMeta(applyState.applyIndex, if term.Success? then term.value else 0, confState);
    }

    /** The second half: the data may be captured later than the metadata. */
    method CaptureData(metadata: SnapshotMeta, sender: nat)
      requires Valid()
      modifies this`channels
      ensures channels == old(channels)[sender := RaftTypes.Snapshot(metadata, Encoded(Listing(Value().disk.kv)))]
      ensures Value() == old(Value())
    {
      var data := engines.KVSnapshot();
      channels := channels[sender := RaftTypes.Snapshot(metadata, data)];
    }

    ghost function Gen(): Generator
      reads this
    {
      Generator(snapState, snapTriedCnt, channels, snapTasks)
    }

    /** Raft asks for a snapshot. One that is handed over came from the last generation, is
        not empty and is not older than the truncated index. The counter of started
        generations restarts with every snapshot that arrives and with every failure. */
    method Snapshot() returns (r: Result<Snapshot, SnapError>)
      requires Valid()
      modifies this`snapState, this`snapTriedCnt, this`channels, this`snapTasks
      ensures (Gen(), r) == RequestSnapshot(old(Gen()), applyState.truncIndex)
      ensures Value() == old(Value())
      ensures var came := old(snapState.stateType == SnapshotGenerating && snapState.receiver in channels);
              var waits := old(snapState.stateType) == SnapshotGenerating && !came;
              var got := if came then old(channels[snapState.receiver]) else NO_SNAPSHOT;
              var tried := if IsEmptySnap(got) then old(snapTriedCnt) else 0;
              && (r.Success? <==> !IsEmptySnap(got) && got.meta.index >= applyState.truncIndex)
              && (r.Success? ==> r.value == got && snapTriedCnt == 0 && snapState.stateType == SnapshotRelaxed)
              && (waits ==>
                    && r == Failure(ErrSnapshotTemporarilyUnavailable)
                    && snapState == old(snapState)
                    && snapTriedCnt == old(snapTriedCnt)
                    && snapTasks == old(snapTasks))
              && (r.Failure? && !waits && tried >= SNAP_TRIED_CNT ==>
                    && r == Failure(ErrFailedToGetSnapshot)
                    && snapTriedCnt == 0
                    && snapTasks == old(snapTasks))
              && (r.Failure? && !waits && tried < SNAP_TRIED_CNT ==>
                    && r == Failure(ErrSnapshotTemporarilyUnavailable)
                    && snapTriedCnt == tried + 1
                    && snapState == SnapState(SnapshotGenerating, |old(snapTasks)|)
                    && snapTasks == old(snapTasks) + [|old(snapTasks)|])
      ensures channels == if old(snapState.stateType == SnapshotGenerating)
                          then old(channels) - {old(snapState.receiver)} else old(channels)
    {
      var snapshot := NO_SNAPSHOT;
      if snapState.stateType == SnapshotGenerating {
        if snapState.receiver !in channels {
          return Failure(ErrSnapshotTemporarilyUnavailable);
        }
        snapshot := channels[snapState.receiver];
        channels := channels - {snapState.receiver};
        snapState := snapState.(stateType := SnapshotRelaxed);
        if !IsEmptySnap(snapshot) {
          snapTriedCnt := 0;
          if SnapshotValid(snapshot) {
            return Success(snapshot);
          }
        }
      }
      if snapTriedCnt >= SNAP_TRIED_CNT {
        snapTriedCnt := 0;
        return Failure(ErrFailedToGetSnapshot);
      }
      snapTriedCnt := snapTriedCnt + 1;
      var ch := |snapTasks|;
      snapState := SnapState(SnapshotGenerating, ch);
      snapTasks := snapTasks + [ch];
      return Failure(ErrSnapshotTemporarilyUnavailable);
    }
  }

  /** Starting a replica reads the three state records back; a record of the wrong kind
      panics. */
  method NewPeerStorage(engines: Engines) returns (r: Outcome<PeerStorage>)
    requires engines.Valid()
    ensures r.Ok? <==> Recover(engines.disk).Ok?
    ensures r.Ok? ==>
              && fresh(r.value) && r.value.Valid() && r.value.engines == engines
              && Synced(r.value.Value())
              && r.value.snapState.stateType == SnapshotRelaxed && r.value.snapTriedCnt == 0
  {
    var l := GetRaftLocalState(engines);
    if l.Panic? {
      return Panic;
    }
    var a := GetRaftApplyState(engines);
    if a.Panic? {
      return Panic;
    }
    var c := GetRaftConfState(engines);
    if c.Panic? {
      return Panic;
    }
    var ps := new PeerStorage(engines, Mem(l.value, a.value, c.value));
    return Ok(ps);
  }
}
