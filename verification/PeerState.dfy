/** A replica as a value: the apply loop, log compaction and the log garbage collector. */
module PeerState {
  import opened ByteStrings
  import opened Wrappers
  import opened RaftTypes
  import opened MetaKey
  import opened Commands
  import opened Disk
  import opened Storage
  import opened PairCodec
  import opened RaftLog
  import opened StorageState
  import opened LogRefinement

  /** A spawned garbage collection of the log records in [start, end). */
  datatype GcTask = GcTask(start: U64, end: U64)

  /** `tasks` lists every collection spawned since the process started. */
  datatype Peer = Peer(state: State, lastCompacted: U64, tasks: seq<GcTask>)

  /** What a first start reads from empty databases. */
  const FRESH_STATE := State(Disk(map[], map[]),
      Mem(LocalState(NO_HARD_STATE, 0, 0), ApplyState(0, 0, 0), NO_CONF_STATE))

  // ---- The apply loop ----------------------------------------------------

  function AppliedMem(mem: Mem, index: U64): Mem
  {
    mem.(apply := mem.apply.(applyIndex := index))
  }

  /** The compaction in `cmd` that takes effect: one below the truncated index is ignored. */
  function Compaction(mem: Mem, cmd: RaftCmd): Option<AdminRequest>
  {
    match CompactionOf(cmd)
    case Some(CompactLog(i, t)) => if i >= mem.apply.truncIndex then Some(CompactLog(i, t)) else None
    case None => None
  }

  function ProcessMem(mem: Mem, ent: Entry): Mem
  {
    var applied := AppliedMem(mem, ent.index);
    match Compaction(mem, ent.cmd)
    case Some(CompactLog(i, t)) => applied.(apply := applied.apply.(truncIndex := i, truncTerm := t))
    case None => applied
  }

  /** The apply index is on disk before the command takes effect. */
  function ProcessWrites(mem: Mem, ent: Entry): seq<Write>
  {
    [PutMeta(ApplyKey, ApplyRecord(AppliedMem(mem, ent.index).apply))] +
    match OpOf(ent.cmd)
    case PutOp(k, v) => [PutKv(k, v)]
    case DeleteOp(k) => [DeleteKv(k)]
    case NoOp =>
      if Compaction(mem, ent.cmd).Some? then [PutMeta(ApplyKey, ApplyRecord(ProcessMem(mem, ent).apply))] else []
  }

  function Process(p: Peer, ent: Entry): Peer
  {
    var s := State(ApplyWrites(p.state.disk, ProcessWrites(p.state.mem, ent)), ProcessMem(p.state.mem, ent));
    match Compaction(p.state.mem, ent.cmd)
    case Some(CompactLog(i, _)) => Peer(s, i, p.tasks + [GcTask(Inc(p.lastCompacted), Inc(i))])
    case None => p.(state := s)
  }

  function ProcessAll(p: Peer, ents: seq<Entry>): Peer
  {
    if ents == [] then p else Process(ProcessAll(p, ents[..|ents| - 1]), ents[|ents| - 1])
  }

  function ProcessAllWrites(p: Peer, ents: seq<Entry>): seq<Write>
  {
    if ents == [] then [] else
    var init := ents[..|ents| - 1];
    ProcessAllWrites(p, init) + ProcessWrites(ProcessAll(p, init).state.mem, ents[|ents| - 1])
  }

  function HandleReady(p: Peer, rd: Ready): Peer
  {
    ProcessAll(p.(state := Save(p.state, rd)), rd.committedEntries)
  }

  function HandleReadyWrites(p: Peer, rd: Ready): seq<Write>
  {
    SaveWrites(p.state.mem, rd) + ProcessAllWrites(p.(state := Save(p.state, rd)), rd.committedEntries)
  }

  // ---- The garbage collector ---------------------------------------------

  function DeleteEntries(ents: seq<Entry>): (ws: seq<Write>)
    ensures |ws| == |ents|
  {
    seq(|ents|, k requires 0 <= k < |ents| => DeleteMeta(LogEntry(ents[k].index)))
  }

  function GcWrites(s: State, task: GcTask): seq<Write>
  {
    match ReadEntries(s, task.start, task.end)
    case Success(ents) => DeleteEntries(ents)
    case Failure(_) => []
  }

  function RunGc(s: State, task: GcTask): State
  {
    s.(disk := ApplyWrites(s.disk, GcWrites(s, task)))
  }

  lemma {:induction false} DeletedStaysOut(d: Disk, ws: seq<Write>, k: Key)
    requires forall w | w in ws :: w.DeleteMeta?
    ensures k in ApplyWrites(d, ws).meta <==> k in d.meta && DeleteMeta(k) !in ws
  {
    if ws != [] {
      var init, last := ws[..|ws| - 1], ws[|ws| - 1];
      DeletedStaysOut(d, init, k);
      assert last in ws;
      assert forall w :: w in ws <==> w in init || w == last;
    }
  }

  /** The collector deletes something exactly when its whole range is inside the live
      window, and then it destroys the log. */
  lemma GcDeletesOnlyLiveRecords(s: State, task: GcTask)
    requires LogInv(s)
    ensures GcWrites(s, task) != [] <==>
            s.mem.apply.truncIndex < task.start < task.end <= s.mem.local.lastIndex + 1
    ensures GcWrites(s, task) != [] ==> !WindowHeld(RunGc(s, task))
    ensures GcWrites(s, task) == [] ==> RunGc(s, task) == s
  {
    EntriesRefineLog(s, task.start, task.end);
    if GcWrites(s, task) != [] {
      var ents := LogOf(s).Entries(task.start, task.end).value;
      DeletedStaysOut(s.disk, DeleteEntries(ents), LogEntry(task.start));
      assert DeleteEntries(ents)[0] == DeleteMeta(LogEntry(task.start));
      assert !Holds(RunGc(s, task).disk.meta, task.start);
    }
  }

  /** The ranges are adjacent and cover (from, to]. */
  ghost predicate Tiles(from: U64, tasks: seq<GcTask>, to: U64)
  {
    if tasks == [] then from == to else
    var task := tasks[|tasks| - 1];
    && 0 < task.start <= task.end == to + 1
    && Tiles(from, tasks[..|tasks| - 1], task.start - 1)
  }

  /** Every index of (from, to] lies in exactly one of the ranges, and no other index
      lies in any. */
  lemma {:induction false} TilesPartition(from: U64, tasks: seq<GcTask>, to: U64, i: int)
    requires Tiles(from, tasks, to)
    ensures from <= to
    ensures from < i <= to <==> exists k | 0 <= k < |tasks| :: tasks[k].start <= i < tasks[k].end
    ensures forall j, k | 0 <= j < k < |tasks| :: tasks[j].end <= tasks[k].start && tasks[j].end <= to + 1
    ensures forall k | 0 <= k < |tasks| :: tasks[k].end <= to + 1
  {
    if tasks != [] {
      var init, task := tasks[..|tasks| - 1], tasks[|tasks| - 1];
      TilesPartition(from, init, task.start - 1, i);
      if k :| 0 <= k < |init| && init[k].start <= i < init[k].end {
        assert tasks[k] == init[k];
      }
      if k :| 0 <= k < |tasks| && tasks[k].start <= i < tasks[k].end && k < |init| {
        assert init[k] == tasks[k];
      }
      forall j, k | 0 <= j < k < |tasks|
        ensures tasks[j].end <= tasks[k].start && tasks[j].end <= to + 1
      {
        assert init[j] == tasks[j];
        if k < |init| {
          assert init[k] == tasks[k];
        }
      }
      forall k | 0 <= k < |tasks| ensures tasks[k].end <= to + 1 {
        if k < |init| {
          assert init[k] == tasks[k];
        }
      }
    }
  }

  /** The storage invariant of a replica between operations. */
  ghost predicate StorageInv(s: State)
  {
    && LogInv(s)
    && s.mem.apply.truncIndex <= s.mem.apply.applyIndex <= s.mem.local.lastIndex
  }

  // ---- Proposing a compaction --------------------------------------------

  const LOG_GC_COUNT_LIMIT := 1000

  /** What a leader proposes when the compaction timer fires; `Panic` is the fatal exit. */
  function GcProposal(s: State): Outcome<Option<RaftCmd>>
  {
    var applied, first := s.mem.apply.applyIndex, FirstIndex(s.mem);
    if applied > first && Sub(applied, first) >= LOG_GC_COUNT_LIMIT then
      match ReadTerm(s, Dec(applied))
      case Failure(_) => Panic
      case Success(t) => Ok(Some(RaftCmd(None, Some(CompactLog(Dec(applied), t)))))
    else Ok(None)
  }

  lemma ProposalArithmetic(applied: U64, trunc: U64)
    requires trunc < TWO_64 - 1
    ensures Inc(trunc) == trunc + 1
    ensures applied > trunc + 1 ==> Sub(applied, Inc(trunc)) == applied - trunc - 1 && Dec(applied) == applied - 1
  {
    assert Inc(trunc) == trunc + 1;
    if applied > trunc + 1 {
      NoWrap(applied, trunc + 1);
    }
  }

  /** The fatal exit is unreachable, and a proposal lies strictly inside the applied
      window and carries the term of the entry it names. */
  lemma ProposalInWindow(s: State)
    requires StorageInv(s)
    ensures GcProposal(s).Ok?
    ensures GcProposal(s).value.Some? <==> s.mem.apply.applyIndex - s.mem.apply.truncIndex > 1000
    ensures GcProposal(s).value.Some? ==>
              var index := s.mem.apply.applyIndex - 1;
              && s.mem.apply.truncIndex < index < s.mem.apply.applyIndex
              && GcProposal(s).value == Some(RaftCmd(None, Some(CompactLog(index, LogOf(s).TermAt(index)))))
  {
    hide ReadTerm, WindowHeld, Inc, Sub, Dec;
    var applied, trunc := s.mem.apply.applyIndex, s.mem.apply.truncIndex;
    ProposalArithmetic(applied, trunc);
    if applied > trunc + 1 {
      TermRefinesLog(s, applied - 1);
    }
  }

  // ---- What one replica keeps --------------------------------------------

  /** A restart would read back the cached state. */
  ghost predicate Synced(s: State) { Recover(s.disk) == Ok(s.mem) }

  /** The log at the moment a `Ready` appends to it. */
  ghost function LogAfterInstall(s: State, snap: Snapshot): Log
    requires LogInv(s)
  {
    if IsEmptySnap(snap) then LogOf(s) else Log(snap.meta.index, snap.meta.term, [])
  }

  /** What raft promises about the durable part of a `Ready`. */
  ghost predicate ReadyOk(s: State, rd: Ready)
    requires LogInv(s)
  {
    && Decodable(rd.snapshot)
    && (!IsEmptySnap(rd.snapshot) ==> s.mem.apply.applyIndex < rd.snapshot.meta.index < TWO_64 - 1)
    && LogAfterInstall(s, rd.snapshot).Accepts(rd.entries)
    && (rd.entries != [] ==> InstallMem(s.mem, rd.snapshot).apply.applyIndex < rd.entries[0].index)
  }

  lemma SaveSplits(s: State, rd: Ready)
    ensures var s2 := Append(Install(s, rd.snapshot), rd.entries);
            && SaveMem(s.mem, rd) == HardStateMem(s2.mem, rd.hardState)
            && Save(s, rd).disk == s2.disk.(meta := s2.disk.meta[LocalKey := LocalRecord(SaveMem(s.mem, rd).local)])
  {
    var ws1 := InstallWrites(s.mem, rd.snapshot);
    var ws2 := AppendWrites(InstallMem(s.mem, rd.snapshot), rd.entries);
    var w := PutMeta(LocalKey, LocalRecord(SaveMem(s.mem, rd).local));
    ApplyConcat(s.disk, ws1, ws2);
    ApplyConcat(s.disk, ws1 + ws2, [w]);
    ApplyFew(ApplyWrites(s.disk, ws1 + ws2), w, w);
  }

  lemma SavedIs(s: State, rd: Ready, saved: State)
    requires var s2 := Append(Install(s, rd.snapshot), rd.entries);
             && saved.mem == HardStateMem(s2.mem, rd.hardState)
             && saved.disk == ApplyWrite(s2.disk, PutMeta(LocalKey, LocalRecord(saved.mem.local)))
    ensures saved == Save(s, rd)
  {
    SaveSplits(s, rd);
  }

  /** The metadata a generating task captures; a failed `Term` would read as term 0. */
  function CapturedMeta(s: State): SnapshotMeta
  {
    SnapshotMeta(s.mem.apply.applyIndex,
                 match ReadTerm(s, s.mem.apply.applyIndex) case Success(t) => t case Failure(_) => 0,
                 s.mem.conf)
  }

  lemma SaveWindow(s: State, s': State, h: HardState)
    requires LogInv(s) && s'.mem == HardStateMem(s.mem, h)
    requires s'.disk == s.disk.(meta := s.disk.meta[LocalKey := LocalRecord(s'.mem.local)])
    ensures LogInv(s') && LogOf(s') == LogOf(s)
  {
    forall i: U64 | s.mem.apply.truncIndex < i <= s.mem.local.lastIndex
      ensures Find(s'.disk.meta, LogEntry(i)) == Some(EntryRecord(LogOf(s).EntryAt(i)))
    {
      WindowRecord(s, i);
    }
    WindowIs(s', LogOf(s));
  }

  lemma SaveLog(s: State, rd: Ready)
    requires StorageInv(s) && ReadyOk(s, rd)
    ensures LogInv(Save(s, rd)) && LogOf(Save(s, rd)) == LogAfterInstall(s, rd.snapshot).Append(rd.entries)
  {
    var s1 := Install(s, rd.snapshot);
    InstallRefines(s, rd.snapshot);
    AppendKeepsInv(s1, rd.entries);
    SaveSplits(s, rd);
    SaveWindow(Append(s1, rd.entries), Save(s, rd), rd.hardState);
  }

  lemma SaveRecord(s: State, rd: Ready, k: Key)
    requires StorageInv(s) && ReadyOk(s, rd) && !k.LogEntry?
    ensures Save(s, rd).disk.kv == Install(s, rd.snapshot).disk.kv
    ensures Find(Save(s, rd).disk.meta, k) ==
            if k == LocalKey then Some(LocalRecord(SaveMem(s.mem, rd).local))
            else Find(Install(s, rd.snapshot).disk.meta, k)
  {
    hide Append, Save, SaveMem;
    assert Install(s, rd.snapshot).mem == InstallMem(s.mem, rd.snapshot);
    AppendLeavesState(Install(s, rd.snapshot), rd.entries, k);
    SaveSplits(s, rd);
  }

  /** A state record either was rewritten with the cached value or is as it was. */
  lemma RecoverAfter(d: Disk, mem: Mem, d': Disk, mem': Mem)
    requires Recover(d) == Ok(mem)
    requires Find(d'.meta, LocalKey) == Some(LocalRecord(mem'.local))
    requires Find(d'.meta, ApplyKey) == Some(ApplyRecord(mem'.apply))
             || (Find(d'.meta, ApplyKey) == Find(d.meta, ApplyKey) && mem'.apply == mem.apply)
    requires Find(d'.meta, ConfKey) == Some(ConfRecord(mem'.conf))
             || (Find(d'.meta, ConfKey) == Find(d.meta, ConfKey) && mem'.conf == mem.conf)
    ensures Recover(d') == Ok(mem')
  {
  }

  lemma SaveSynced(s: State, rd: Ready)
    requires StorageInv(s) && Synced(s) && ReadyOk(s, rd)
    ensures Synced(Save(s, rd))
  {
    hide Recover, LogInv, SaveWrites, InstallWrites;
    InstallRefines(s, rd.snapshot);
    SaveRecord(s, rd, LocalKey);
    SaveRecord(s, rd, ApplyKey);
    SaveRecord(s, rd, ConfKey);
    RecoverAfter(s.disk, s.mem, Save(s, rd).disk, Save(s, rd).mem);
  }

  lemma SaveLastIndex(s: State, rd: Ready)
    requires StorageInv(s) && ReadyOk(s, rd)
    ensures var log := LogAfterInstall(s, rd.snapshot);
            && log.Append(rd.entries).Last() >= InstallMem(s.mem, rd.snapshot).apply.applyIndex
            && log.Append(rd.entries).offset == log.offset <= InstallMem(s.mem, rd.snapshot).apply.applyIndex
  {
  }

  /** Saving a `Ready`: the log is the abstract install and append, entries that were
      already applied stay put, and the disk agrees with the cache again. */
  lemma SaveKeeps(s: State, rd: Ready)
    requires StorageInv(s) && Synced(s) && ReadyOk(s, rd)
    ensures StorageInv(Save(s, rd)) && Synced(Save(s, rd))
    ensures LogOf(Save(s, rd)) == LogAfterInstall(s, rd.snapshot).Append(rd.entries)
    ensures Save(s, rd).mem.apply == InstallMem(s.mem, rd.snapshot).apply
    ensures Save(s, rd).disk.kv ==
            if IsEmptySnap(rd.snapshot) then s.disk.kv else PutAll(s.disk.kv, Decoded(rd.snapshot.data).value)
  {
    SaveLog(s, rd);
    SaveSynced(s, rd);
    SaveRecord(s, rd, LocalKey);
    SaveLastIndex(s, rd);
    InstallRefines(s, rd.snapshot);
  }

  /** What a save leaves in the three state records, in the cache and after a restart: the
      hard state of the `Ready` unless it is all zero, the snapshot's conf state and index if
      there is a snapshot, and otherwise what was there before. */
  lemma SavedRecords(s: State, rd: Ready)
    requires StorageInv(s) && Synced(s) && ReadyOk(s, rd)
    ensures var s' := Save(s, rd);
            && Recover(s'.disk) == Ok(s'.mem)
            && s'.mem.local.hardState ==
               (if rd.hardState == HardState(0, 0, 0) then s.mem.local.hardState else rd.hardState)
            && (rd.snapshot.meta.index == 0 ==> s'.mem.conf == s.mem.conf && s'.mem.apply == s.mem.apply)
            && (rd.snapshot.meta.index != 0 ==>
                  && s'.mem.conf == rd.snapshot.meta.conf
                  && s'.mem.apply == ApplyState(rd.snapshot.meta.index, rd.snapshot.meta.index, rd.snapshot.meta.term))
  {
    hide SaveWrites, LogInv, Recover;
    SaveSynced(s, rd);
  }

  /** What the committed sequence promises about a compaction command. */
  ghost predicate CompactionOk(log: Log, ent: Entry)
  {
    match CompactionOf(ent.cmd)
    case None => true
    case Some(CompactLog(i, t)) => i < ent.index && (log.offset <= i <= log.Last() ==> log.TermAt(i) == t)
  }

  lemma ProcessDisk(s: State, ent: Entry)
    ensures var d := ApplyWrites(s.disk, ProcessWrites(s.mem, ent));
            && d.kv == Perform(s.disk.kv, OpOf(ent.cmd))
            && d.meta == s.disk.meta[ApplyKey := ApplyRecord(ProcessMem(s.mem, ent).apply)]
  {
    var ws := ProcessWrites(s.mem, ent);
    if |ws| == 1 {
      ApplyFew(s.disk, ws[0], ws[0]);
    } else {
      assert ws == [ws[0], ws[1]];
      ApplyFew(s.disk, ws[0], ws[1]);
    }
  }

  lemma ProcessSynced(p: Peer, ent: Entry)
    requires Synced(p.state)
    ensures Synced(Process(p, ent).state)
  {
    ProcessDisk(p.state, ent);
  }

  /** Applying the next entry: the store takes the command, the log is compacted or kept,
      and an applied entry survives every compaction. */
  lemma ProcessKeeps(p: Peer, ent: Entry)
    requires StorageInv(p.state) && Synced(p.state)
    requires p.state.mem.apply.applyIndex < p.state.mem.local.lastIndex
    requires ent.index == p.state.mem.apply.applyIndex + 1
    requires CompactionOk(LogOf(p.state), ent)
    ensures var s, s' := p.state, Process(p, ent).state;
            && StorageInv(s') && Synced(s')
            && s'.mem.apply.applyIndex == ent.index
            && s'.disk.kv == Perform(s.disk.kv, OpOf(ent.cmd))
            && s'.mem.local == s.mem.local
            && LogOf(s') == (match Compaction(s.mem, ent.cmd)
                             case Some(CompactLog(i, t)) => LogOf(s).Compact(i, t)
                             case None => LogOf(s))
            && (Compaction(s.mem, ent.cmd).Some? ==> s'.mem.apply.truncIndex < s'.mem.apply.applyIndex)
  {
    var s, s' := p.state, Process(p, ent).state;
    ProcessDisk(s, ent);
    ProcessSynced(p, ent);
    match Compaction(s.mem, ent.cmd)
    case Some(CompactLog(i, t)) => CompactRefines(s, s', i, t);
    case None => SameWindow(s, s');
  }

  /** Each effective compaction extends the ranges spawned since `boot` to its index. */
  lemma ProcessTiles(boot: U64, p: Peer, ent: Entry)
    requires Tiles(boot, p.tasks, p.lastCompacted)
    requires p.lastCompacted <= p.state.mem.apply.truncIndex < TWO_64 - 1
    requires Compaction(p.state.mem, ent.cmd).Some? ==>
               Compaction(p.state.mem, ent.cmd).value.compactIndex < TWO_64 - 1
    ensures var p' := Process(p, ent);
            Tiles(boot, p'.tasks, p'.lastCompacted) && p'.lastCompacted <= p'.state.mem.apply.truncIndex
  {
    var p' := Process(p, ent);
    if Compaction(p.state.mem, ent.cmd).Some? {
      assert p'.tasks[..|p'.tasks| - 1] == p.tasks;
    }
  }

  /** Whenever it runs, a spawned collection removes nothing. */
  lemma SpawnedCollectsNothing(boot: U64, p: Peer, task: GcTask)
    requires LogInv(p.state) && Tiles(boot, p.tasks, p.lastCompacted)
    requires p.lastCompacted <= p.state.mem.apply.truncIndex && task in p.tasks
    ensures GcWrites(p.state, task) == [] && RunGc(p.state, task) == p.state
  {
    TilesPartition(boot, p.tasks, p.lastCompacted, 0);
    var k :| 0 <= k < |p.tasks| && p.tasks[k] == task;
    GcDeletesOnlyLiveRecords(p.state, task);
  }

  /** The effect of the next entry, read off the entry: a plain request is performed and
      shadows an admin command; a compaction at or above the truncated index takes effect
      and spawns the range after the last one; nothing else changes. */
  lemma ProcessIs(p: Peer, ent: Entry)
    ensures var s, s', p' := p.state, Process(p, ent).state, Process(p, ent);
            && s'.disk.kv == (match ent.cmd.request
                              case Some(Put(k, v)) => s.disk.kv[k := v]
                              case Some(Delete(k)) => s.disk.kv - {k}
                              case _ => s.disk.kv)
            && s'.disk.meta == s.disk.meta[ApplyKey := ApplyRecord(s'.mem.apply)]
            && s'.mem.local == s.mem.local && s'.mem.conf == s.mem.conf
            && s'.mem.apply.applyIndex == ent.index
            && if ent.cmd.request == None && ent.cmd.admin.Some?
                  && ent.cmd.admin.value.compactIndex >= s.mem.apply.truncIndex
               then
                 var CompactLog(i, t) := ent.cmd.admin.value;
                 && s'.mem.apply == ApplyState(ent.index, i, t)
                 && p'.lastCompacted == i
                 && p'.tasks == p.tasks + [GcTask(Inc(p.lastCompacted), Inc(i))]
               else
                 && s'.mem.apply == ApplyState(ent.index, s.mem.apply.truncIndex, s.mem.apply.truncTerm)
                 && p'.lastCompacted == p.lastCompacted && p'.tasks == p.tasks
  {
    ProcessDisk(p.state, ent);
  }

  /** What a generating task captures: the applied index, the term of the entry there, and
      the conf state. */
  lemma CapturedMetaIs(s: State)
    requires StorageInv(s)
    ensures CapturedMeta(s) ==
            SnapshotMeta(s.mem.apply.applyIndex, LogOf(s).TermAt(s.mem.apply.applyIndex), s.mem.conf)
  {
    TermRefinesLog(s, s.mem.apply.applyIndex);
  }

  /** When a collection deletes, it deletes the records of its range and touches nothing else. */
  lemma GcRemovesExactly(s: State, task: GcTask, k: Key)
    requires LogInv(s) && s.mem.apply.truncIndex < task.start < task.end <= s.mem.local.lastIndex + 1
    ensures RunGc(s, task).disk.kv == s.disk.kv && RunGc(s, task).mem == s.mem
    ensures Find(RunGc(s, task).disk.meta, k) ==
            if k.LogEntry? && task.start <= k.index < task.end then None else Find(s.disk.meta, k)
  {
    hide ApplyWrites;
    EntriesRefineLog(s, task.start, task.end);
    var ents := LogOf(s).Entries(task.start, task.end).value;
    assert forall j | 0 <= j < |ents| :: ents[j].index == task.start + j;
    assert DeleteEntries(ents) == DeleteRange(task.start, task.end - 1);
    DeleteRangeEffect(s.disk, task.start, task.end - 1, k);
  }
}
