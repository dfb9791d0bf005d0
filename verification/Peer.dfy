/** One running replica. */
module Peer {
  import opened ByteStrings
  import opened Wrappers
  import opened RaftTypes
  import opened MetaKey
  import opened Commands
  import opened Disk
  import opened StorageState
  import opened LogRefinement
  import opened PeerState
  import opened Engines
  import opened PeerStorage
  import opened ReadQueue

  const COMPACT_CHECK_PERIOD := 100

  lemma ProcessedDisk(s: State, ent: Entry)
    ensures var head, ws := PutMeta(ApplyKey, ApplyRecord(AppliedMem(s.mem, ent.index).apply)),
            ProcessWrites(s.mem, ent);
            && (|ws| == 1 ==> ApplyWrites(s.disk, ws) == ApplyWrite(s.disk, head))
            && (|ws| == 2 ==> ApplyWrites(s.disk, ws) == ApplyWrite(ApplyWrite(s.disk, head), ws[1]))
  {
    var ws := ProcessWrites(s.mem, ent);
    if |ws| == 1 {
      ApplyFew(s.disk, ws[0], ws[0]);
      assert ws == [ws[0]];
    } else {
      ApplyFew(s.disk, ws[0], ws[1]);
      assert ws == [ws[0], ws[1]];
    }
  }

  class Peer {
    const ps: PeerStorage
    var readc: seq<Read>
    var readStateTable: map<Bytes, ReadState>
    /** Signals sent to the read handler and not yet taken. */
    var readStateComing: nat
    var compactionElapse: nat
    var lastCompactedIdx: U64
    /** Every garbage collection spawned so far, in order. */
    var gcTasks: seq<GcTask>

    ghost predicate Valid()
      reads ps.engines.Repr()
    {
      ps.Valid()
    }

    ghost function Value(): PeerState.Peer
      reads this, ps, ps.engines`disk
    {
      PeerState.Peer(ps.Value(), lastCompactedIdx, gcTasks)
    }

    constructor (ps: PeerStorage)
      requires ps.Valid()
      ensures Valid() && this.ps == ps
      ensures Value() == PeerState.Peer(old(ps.Value()), ps.applyState.truncIndex, [])
      ensures readc == [] && readStateTable == map[] && readStateComing == 0 && compactionElapse == 0
    {
      this.ps := ps;
      readc, readStateTable, readStateComing := [], map[], 0;
      compactionElapse := 0;
      lastCompactedIdx := ps.applyState.truncIndex;
      gcTasks := [];
    }

    // ---- The apply loop --------------------------------------------------

    method ProcessRequest(request: Request)
      requires Valid()
      modifies ps.engines.Repr()
      ensures Valid()
      ensures var ws := match request case Put(k, v) => [PutKv(k, v)] case Delete(k) => [DeleteKv(k)] case Get(_) => [];
              && ps.Value() == old(ps.Value()).(disk := ApplyWrites(old(ps.Value()).disk, ws))
              && ps.engines.journal == old(ps.engines.journal) + ws
    {
      match request {
        case Put(k, v) =>
          ApplyFew(ps.engines.disk, PutKv(k, v), PutKv(k, v));
          var err := ps.engines.WriteKV(Modify.Put(k, v, true));
        case Delete(k) =>
          ApplyFew(ps.engines.disk, DeleteKv(k), DeleteKv(k));
          var err := ps.engines.WriteKV(Modify.Delete(k, true));
        case Get(_) =>
      }
    }

    /** Raises the truncated index and spawns a collection of the records below it; a
        command older than the truncated index is ignored. */
    method ProcessAdminRequest(request: AdminRequest)
      requires Valid()
      modifies this`lastCompactedIdx, this`gcTasks, ps`applyState, ps.engines.Repr()
      ensures Valid()
      ensures var was, i, t := old(ps.Value()), request.compactIndex, request.compactTerm;
              if i < was.mem.apply.truncIndex then
                Value() == old(Value()) && ps.engines.journal == old(ps.engines.journal)
              else
                var apply := was.mem.apply.(truncIndex := i, truncTerm := t);
                && ps.Value() == State(ApplyWrite(was.disk, PutMeta(ApplyKey, ApplyRecord(apply))),
                  was.mem.(apply := apply))
                && ps.engines.journal == old(ps.engines.journal) + [PutMeta(ApplyKey, ApplyRecord(apply))]
                && gcTasks == old(gcTasks) + [GcTask(Inc(old(lastCompactedIdx)), Inc(i))]
                && lastCompactedIdx == i
    {
      if request.compactIndex >= ps.applyState.truncIndex {
        ps.applyState := ps.applyState.(truncIndex := request.compactIndex, truncTerm := request.compactTerm);
        ps.WriteApplyState();
        gcTasks := gcTasks + [GcTask(Inc(lastCompactedIdx), Inc(ps.applyState.truncIndex))];
        lastCompactedIdx := ps.applyState.truncIndex;
      }
    }

    method Process(ent: Entry)
      requires Valid()
      modifies this`lastCompactedIdx, this`gcTasks, ps`applyState, ps.engines.Repr()
      ensures Valid() && Value() == PeerState.Process(old(Value()), ent)
      ensures ps.engines.journal == old(ps.engines.journal) + ProcessWrites(old(Value()).state.mem, ent)
    {
      ghost var was := Value();
      ps.applyState := ps.applyState.(applyIndex := ent.index);
      ps.WriteApplyState();
      if ent.cmd.request.Some? {
        ProcessRequest(ent.cmd.request.value);
      } else if ent.cmd.admin.Some? {
        ProcessAdminRequest(ent.cmd.admin.value);
      }
      ProcessedDisk(was.state, ent);
    }

    method FileReadStates(states: seq<ReadState>)
      modifies this`readStateTable, this`readStateComing
      ensures readStateTable == Filed(old(readStateTable), states)
      ensures readStateComing == old(readStateComing) + if states == [] then 0 else 1
    {
      for i := 0 to |states|
        invariant readStateTable == Filed(old(readStateTable), states[..i])
        invariant readStateComing == old(readStateComing)
      {
        assert states[..i + 1][..i] == states[..i];
        readStateTable := readStateTable[states[i].requestCtx := states[i]];
      }
      assert states[..|states|] == states;
      if |states| > 0 {
        readStateComing := readStateComing + 1;
      }
    }

    method ApplyCommitted(ents: seq<Entry>)
      requires Valid()
      modifies this`lastCompactedIdx, this`gcTasks, ps`applyState, ps.engines.Repr()
      ensures Valid() && Value() == ProcessAll(old(Value()), ents)
      ensures ps.engines.journal == old(ps.engines.journal) + ProcessAllWrites(old(Value()), ents)
    {
      hide PeerState.Process, ProcessWrites;
      for i := 0 to |ents|
        invariant Valid() && Value() == ProcessAll(old(Value()), ents[..i])
        invariant ps.engines.journal == old(ps.engines.journal) + ProcessAllWrites(old(Value()), ents[..i])
      {
        assert ents[..i + 1][..i] == ents[..i];
        Process(ents[i]);
      }
      assert ents[..|ents|] == ents;
    }

    /** Saves a batch, files its read states, then applies its committed entries. A panic
        while saving ends it there. */
    method HandleReady(rd: Ready) returns (r: Outcome<()>)
      requires Valid()
      requires (if IsEmptySnap(rd.snapshot) then ps.localState.lastIndex else rd.snapshot.meta.index) < TWO_64 - 1
      modifies this, ps, ps.engines.Repr()
      ensures Valid() && readc == old(readc)
      ensures r == if SaveFails(old(Value()).state.mem, rd) then Panic else Ok(())
      ensures r.Ok? ==>
                && Value() == PeerState.HandleReady(old(Value()), rd)
                && ps.engines.journal == old(ps.engines.journal) + HandleReadyWrites(old(Value()), rd)
                && readStateTable == Filed(old(readStateTable), rd.readStates)
                && readStateComing == old(readStateComing) + if rd.readStates == [] then 0 else 1
      ensures r.Panic? ==>
                && Value() == old(Value()).(state := Install(old(Value()).state, rd.snapshot))
                && readStateTable == old(readStateTable) && readStateComing == old(readStateComing)
    {
      hide SaveFails, Save, SaveWrites, Install;
      r := ps.SaveReadyState(rd);
      if r.Panic? {
        return;
      }
      FileReadStates(rd.readStates);
      ApplyCommitted(rd.committedEntries);
    }

    // ---- Log compaction --------------------------------------------------

    method GcRaftLog(task: GcTask)
      requires Valid()
      modifies ps.engines.Repr()
      ensures Valid() && ps.Value() == RunGc(old(ps.Value()), task)
      ensures ps.engines.journal == old(ps.engines.journal) + GcWrites(old(ps.Value()), task)
    {
      var ents := ps.Entries(task.start, task.end);
      if ents.Failure? {
        return;
      }
      ps.DeleteLogEntries(ents.value);
    }

    method OnLogGCTask(isLeader: bool) returns (proposal: Outcome<Option<RaftCmd>>)
      requires Valid()
      ensures proposal == if isLeader then GcProposal(ps.Value()) else Ok(None)
    {
      if !isLeader {
        return Ok(None);
      }
      var appliedIdx := ps.applyState.applyIndex;
      var firstIdx := ps.FirstIndex();
      if appliedIdx > firstIdx && Sub(appliedIdx, firstIdx) >= LOG_GC_COUNT_LIMIT {
        var compactIdx := Dec(appliedIdx);
        var term := ps.Term(compactIdx);
        if term.Failure? {
          return Panic;
        }
        return Ok(Some(RaftCmd(None, Some(CompactLog(compactIdx, term.value)))));
      }
      return Ok(None);
    }

    /** Every `COMPACT_CHECK_PERIOD`th tick tries to compact the log. */
    method TickLogGC(isLeader: bool) returns (proposal: Outcome<Option<RaftCmd>>)
      requires Valid()
      modifies this`compactionElapse
      ensures var fires := old(compactionElapse) + 1 >= 100;
              && compactionElapse == (if fires then 0 else old(compactionElapse) + 1)
              && proposal == if fires && isLeader then GcProposal(ps.Value()) else Ok(None)
    {
      compactionElapse := compactionElapse + 1;
      if compactionElapse >= COMPACT_CHECK_PERIOD {
        compactionElapse := 0;
        proposal := OnLogGCTask(isLeader);
        return;
      }
      return Ok(None);
    }

    // ---- Reads -----------------------------------------------------------

    method LinearizableRead(key: Bytes, now: U64) returns (ctx: Bytes)
      modifies this`readc
      ensures ctx == BuildReadCtx(key, now)
      ensures readc == old(readc) + [Read(ctx)]
    {
      ctx := BuildReadCtx(key, now);
      readc := readc + [Read(ctx)];
    }

    /** Pops reads until one has a read state, putting back those that have not expired. */
    method ScanReads(expired: Read -> bool) returns (r: Option<Read>)
      modifies this`readc
      ensures var queue, i := old(readc), FirstMatch(old(readc), readStateTable.Keys);
              && (i < |queue| ==> r == Some(queue[i]) && readc == queue[i + 1..] + Unexpired(queue[..i], expired))
              && (i == |queue| > 0 ==> r == Some(queue[|queue| - 1]) && readc == Unexpired(queue, expired))
              && (queue == [] ==> r == None && readc == [])
    {
      hide Unexpired;
      ghost var queue := readc;
      r := None;
      var size := |readc|;
      if size == 0 {
        return;
      }
      ScanStep(queue, 0, expired);
      while size > 0
        invariant 0 <= size <= |queue|
        invariant forall j | 0 <= j < |queue| - size :: queue[j].ctx !in readStateTable
        invariant readc == Scanned(queue, |queue| - size, expired)
        invariant size < |queue| ==> r == Some(queue[|queue| - size - 1])
      {
        ScanStep(queue, |queue| - size, expired);
        r := Some(readc[0]);
        readc := readc[1..];
        if r.value.ctx in readStateTable {
          FirstMatchIs(queue, readStateTable.Keys, |queue| - size);
          return;
        }
        if !expired(r.value) {
          readc := readc + [r.value];
        }
        size := size - 1;
      }
      FirstMatchIs(queue, readStateTable.Keys, |queue|);
    }

    /** Takes one signal and scans the queue as long as it was then. A scan that matches
        leaves the unscanned suffix followed by the scanned reads that have not expired,
        in order, and exactly the matched read and its state are gone. A scan without a
        match falls through: on an empty queue with a nil dereference, otherwise with
        the last read it took out and a zero read state. */
    method HandleReadState(expired: Read -> bool) returns (served: Outcome<(ReadState, Read)>)
      requires readStateComing > 0
      modifies this`readc, this`readStateTable, this`readStateComing
      ensures readStateComing == old(readStateComing) - 1
      ensures var queue, table := old(readc), old(readStateTable);
              var i := FirstMatch(queue, table.Keys);
              && (i < |queue| ==>
                    && served == Ok((table[queue[i].ctx], queue[i]))
                    && readc == queue[i + 1..] + Unexpired(queue[..i], expired)
                    && readStateTable == table - {queue[i].ctx})
              && (i == |queue| > 0 ==>
                    && served == Ok((ReadState(0, []), queue[|queue| - 1]))
                    && readc == Unexpired(queue, expired)
                    && readStateTable == table)
              && (queue == [] ==> served == Panic && readc == [] && readStateTable == table)
    {
      readStateComing := readStateComing - 1;
      var r := ScanReads(expired);
      if r.None? {
        return Panic;
      }
      var ctx := r.value.ctx;
      var state := if ctx in readStateTable then readStateTable[ctx] else ReadState(0, []);
      readStateTable := readStateTable - {ctx};
      return Ok((state, r.value));
    }

    /** Answers a read once the wait for `state.index` to be applied is over. */
    method ReadApplied(state: ReadState, r: Read) returns (value: Bytes)
      requires Valid() && |r.ctx| >= TIMESTAMP_SIZE
      requires ps.applyState.applyIndex >= state.index
      ensures value == if r.ctx[8..] in ps.Value().disk.kv then ps.Value().disk.kv[r.ctx[8..]] else []
    {
      var v := ps.engines.ReadKV(KeyOf(r));
      if v.Failure? {
        return [];
      }
      return v.value;
    }
  }
}
