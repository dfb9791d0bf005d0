/** The record store against the abstract log over whole runs of one replica. */
module LogRuns {
  import opened ByteStrings
  import opened Wrappers
  import opened RaftTypes
  import opened MetaKey
  import opened Commands
  import opened Disk
  import opened RaftLog
  import opened StorageState
  import opened LogRefinement
  import opened PeerState

  datatype Op =
    | SaveOp(rd: Ready)
    | ApplyOp(ent: Entry)
    | CollectOp(task: GcTask)
    | RestartOp

  /** The simple counterpart of a replica's storage: a log and how far it was applied. */
  datatype Abstract = Abstract(log: Log, applied: U64)

  function Installed(a: Abstract, snap: Snapshot): Abstract
  {
    if IsEmptySnap(snap) then a else Abstract(Log(snap.meta.index, snap.meta.term, []), snap.meta.index)
  }

  /** What raft promises, in terms of the log alone; `spawned` are the collections that
      can run. */
  ghost predicate Allowed(a: Abstract, spawned: seq<GcTask>, op: Op)
  {
    match op
    case SaveOp(rd) =>
      && Decodable(rd.snapshot)
      && (!IsEmptySnap(rd.snapshot) ==> a.applied < rd.snapshot.meta.index < TWO_64 - 1)
      && Installed(a, rd.snapshot).log.Accepts(rd.entries)
      && (rd.entries != [] ==> Installed(a, rd.snapshot).applied < rd.entries[0].index)
    case ApplyOp(ent) => ent.index == a.applied + 1 <= a.log.Last() && CompactionOk(a.log, ent)
    case CollectOp(task) => task in spawned
    case RestartOp => true
  }

  ghost function AbstractStep(a: Abstract, op: Op): Abstract
    requires op.SaveOp? ==> Installed(a, op.rd.snapshot).log.Accepts(op.rd.entries)
    requires op.ApplyOp? ==> op.ent.index <= a.log.Last() && CompactionOk(a.log, op.ent)
  {
    match op
    case SaveOp(rd) => Installed(a, rd.snapshot).(log := Installed(a, rd.snapshot).log.Append(rd.entries))
    case ApplyOp(ent) =>
      (match CompactionOf(ent.cmd)
       case Some(CompactLog(i, t)) => Abstract(if a.log.offset <= i then a.log.Compact(i, t) else a.log, ent.index)
       case None => Abstract(a.log, ent.index))
    case _ => a
  }

  /** The storage, the abstract log beside it, and the truncated index at start-up. */
  datatype Both = Both(peer: Peer, log: Abstract, boot: U64)

  const FRESH := Both(Peer(FRESH_STATE, 0, []), Abstract(Log(0, 0, []), 0), 0)

  ghost predicate Enabled(b: Both, op: Op)
  {
    Allowed(b.log, b.peer.tasks, op) && (op.RestartOp? ==> Recover(b.peer.state.disk).Ok?)
  }

  ghost function Step(b: Both, op: Op): Both
    requires Enabled(b, op)
  {
    var p, log := b.peer, AbstractStep(b.log, op);
    match op
    case SaveOp(rd) => Both(p.(state := Save(p.state, rd)), log, b.boot)
    case ApplyOp(ent) => Both(Process(p, ent), log, b.boot)
    case CollectOp(task) => Both(p.(state := RunGc(p.state, task)), log, b.boot)
    case RestartOp =>
      var mem := Recover(p.state.disk).value;
      Both(Peer(State(p.state.disk, mem), mem.apply.truncIndex, []), log, mem.apply.truncIndex)
  }

  ghost function Run(ops: seq<Op>): Option<Both>
  {
    if ops == [] then Some(FRESH) else
    match Run(ops[..|ops| - 1])
    case None => None
    case Some(b) => if Enabled(b, ops[|ops| - 1]) then Some(Step(b, ops[|ops| - 1])) else None
  }

  ghost predicate Agree(b: Both)
  {
    var s := b.peer.state;
    && StorageInv(s)
    && Synced(s)
    && LogOf(s) == b.log.log
    && s.mem.apply.applyIndex == b.log.applied
    && Tiles(b.boot, b.peer.tasks, b.peer.lastCompacted)
    && b.peer.lastCompacted <= s.mem.apply.truncIndex
  }

  lemma SaveAgrees(b: Both, rd: Ready)
    requires Agree(b) && Enabled(b, SaveOp(rd))
    ensures Agree(Step(b, SaveOp(rd)))
  {
    hide Save, LogInv, Synced, Tiles;
    SaveKeeps(b.peer.state, rd);
  }

  lemma ApplyAgrees(b: Both, ent: Entry)
    requires Agree(b) && Enabled(b, ApplyOp(ent))
    ensures Agree(Step(b, ApplyOp(ent)))
  {
    hide LogInv, Synced, Tiles;
    ProcessKeeps(b.peer, ent);
    ProcessTiles(b.boot, b.peer, ent);
  }

  lemma StepAgrees(b: Both, op: Op)
    requires Agree(b) && Enabled(b, op)
    ensures Agree(Step(b, op))
  {
    match op
    case SaveOp(rd) => SaveAgrees(b, rd);
    case ApplyOp(ent) => ApplyAgrees(b, ent);
    case CollectOp(task) => SpawnedCollectsNothing(b.boot, b.peer, task);
    case RestartOp =>
  }

  lemma {:induction false} RunAgrees(ops: seq<Op>)
    requires Run(ops).Some?
    ensures Agree(Run(ops).value)
  {
    if ops == [] {
      assert LogOf(FRESH_STATE) == Log(0, 0, []);
    } else {
      RunAgrees(ops[..|ops| - 1]);
      StepAgrees(Run(ops[..|ops| - 1]).value, ops[|ops| - 1]);
    }
  }

  /** After any run of saves (appends, overwrites, snapshot installs), applies (with late,
      repeated or stale compactions), garbage collections and restarts from empty
      databases, every read answers as the abstract log does, for every 64-bit argument. */
  lemma RunRefinesLog(ops: seq<Op>, lo: U64, hi: U64)
    requires Run(ops).Some?
    ensures var s, log := Run(ops).value.peer.state, Run(ops).value.log.log;
            && log.WellFormed()
            && ReadEntries(s, lo, hi) == log.Entries(lo, hi)
            && ReadTerm(s, lo) == log.Term(lo)
            && FirstIndex(s.mem) == log.offset + 1
            && s.mem.local.lastIndex == log.Last()
            && Recover(s.disk) == Ok(s.mem)
  {
    hide Run, ReadEntries, ReadTerm;
    RunAgrees(ops);
    ReadsRefineLog(Run(ops).value.peer.state, lo, hi);
  }

  // ---- The state records ---------------------------------------------------

  /** The operation saves a hard state other than all zero. */
  predicate SavesHardState(op: Op) { op.SaveOp? && op.rd.hardState != HardState(0, 0, 0) }

  predicate InstallsSnapshot(op: Op) { op.SaveOp? && op.rd.snapshot.meta.index != 0 }

  predicate MovesApplied(op: Op) { op.ApplyOp? || InstallsSnapshot(op) }

  lemma StepRecords(b: Both, op: Op)
    requires Agree(b) && Enabled(b, op)
    ensures var mem, mem' := b.peer.state.mem, Step(b, op).peer.state.mem;
            && mem'.local.hardState == (if SavesHardState(op) then op.rd.hardState else mem.local.hardState)
            && mem'.conf == (if InstallsSnapshot(op) then op.rd.snapshot.meta.conf else mem.conf)
            && mem'.apply.applyIndex == (if op.ApplyOp? then op.ent.index
                                         else if InstallsSnapshot(op) then op.rd.snapshot.meta.index
                                         else mem.apply.applyIndex)
  {
    hide Save, LogInv, Tiles, LogOf;
    match op
    case SaveOp(rd) => SavedRecords(b.peer.state, rd);
    case ApplyOp(ent) => ProcessIs(b.peer, ent);
    case CollectOp(task) => SpawnedCollectsNothing(b.boot, b.peer, task);
    case RestartOp =>
  }

  /** `f` of the last operation of the run that meets `p`, `d` if none does. */
  ghost predicate IsLast<T(!new)>(ops: seq<Op>, p: Op -> bool, f: Op -> T, d: T, r: T)
  {
    && ((forall op | op in ops :: !p(op)) ==> r == d)
    && forall k | 0 <= k < |ops| && p(ops[k]) && (forall j | k < j < |ops| :: !p(ops[j])) :: r == f(ops[k])
  }

  lemma LastSnoc<T(!new)>(ops: seq<Op>, op: Op, p: Op -> bool, f: Op -> T, d: T, r: T)
    requires IsLast(ops, p, f, d, r)
    ensures IsLast(ops + [op], p, f, d, if p(op) then f(op) else r)
  {
    var all := ops + [op];
    assert all[|ops|] == op && op in all;
    if forall o | o in all :: !p(o) {
      assert forall o | o in ops :: o in all;
    }
    forall k | 0 <= k < |all| && p(all[k]) && (forall j | k < j < |all| :: !p(all[j]))
      ensures (if p(op) then f(op) else r) == f(all[k])
    {
      if k < |ops| {
        assert !p(all[|ops|]);
        assert forall j | k < j < |ops| :: ops[j] == all[j];
      }
    }
  }

  function HardStateOf(op: Op): HardState { if op.SaveOp? then op.rd.hardState else HardState(0, 0, 0) }

  function ConfOf(op: Op): ConfState
  {
    if op.SaveOp? then op.rd.snapshot.meta.conf else ConfState([], [], [], [], false)
  }

  function AppliedOf(op: Op): U64
  {
    match op
    case SaveOp(rd) => rd.snapshot.meta.index
    case ApplyOp(ent) => ent.index
    case _ => 0
  }

  lemma AgreeRecovers(b: Both)
    requires Agree(b)
    ensures Recover(b.peer.state.disk) == Ok(b.peer.state.mem)
  {
  }

  ghost predicate RecoversLast(ops: seq<Op>, mem: Mem)
  {
    && IsLast(ops, SavesHardState, HardStateOf, HardState(0, 0, 0), mem.local.hardState)
    && IsLast(ops, InstallsSnapshot, ConfOf, ConfState([], [], [], [], false), mem.conf)
    && IsLast(ops, MovesApplied, AppliedOf, 0, mem.apply.applyIndex)
  }

  lemma NoneRecovered()
    ensures RecoversLast([], FRESH.peer.state.mem)
  {
  }

  lemma RecoversNext(init: seq<Op>, op: Op, b: Both)
    requires Agree(b) && Enabled(b, op) && RecoversLast(init, b.peer.state.mem)
    ensures RecoversLast(init + [op], Step(b, op).peer.state.mem)
  {
    hide Agree, Step, Enabled, IsLast;
    var mem := b.peer.state.mem;
    StepRecords(b, op);
    LastSnoc(init, op, SavesHardState, HardStateOf, HardState(0, 0, 0), mem.local.hardState);
    LastSnoc(init, op, InstallsSnapshot, ConfOf, ConfState([], [], [], [], false), mem.conf);
    LastSnoc(init, op, MovesApplied, AppliedOf, 0, mem.apply.applyIndex);
  }

  /** After any run a restart reads back the last hard state saved that was not all zero, the
      conf state of the last snapshot installed, and the index last applied or installed;
      zero where there was none. */
  lemma {:induction false} RunRecovers(ops: seq<Op>)
    requires Run(ops).Some?
    ensures var d := Run(ops).value.peer.state.disk;
            && Recover(d).Ok?
            && IsLast(ops, SavesHardState, HardStateOf, HardState(0, 0, 0), Recover(d).value.local.hardState)
            && IsLast(ops, InstallsSnapshot, ConfOf, ConfState([], [], [], [], false), Recover(d).value.conf)
            && IsLast(ops, MovesApplied, AppliedOf, 0, Recover(d).value.apply.applyIndex)
  {
    hide Agree, Step, Enabled, IsLast, Recover, HardStateOf, ConfOf, AppliedOf;
    RunAgrees(ops);
    AgreeRecovers(Run(ops).value);
    if ops == [] {
      NoneRecovered();
    } else {
      var init, op := ops[..|ops| - 1], ops[|ops| - 1];
      assert ops == init + [op];
      RunRecovers(init);
      RunAgrees(init);
      AgreeRecovers(Run(init).value);
      RecoversNext(init, op, Run(init).value);
    }
  }

  // ---- What compaction frees -----------------------------------------------

  lemma AppendFreezes(s: State, ents: seq<Entry>, i: U64)
    requires Contiguous(ents) && i <= s.mem.apply.truncIndex <= s.mem.local.lastIndex < TWO_64 - 1
    ensures Find(Append(s, ents).disk.meta, LogEntry(i)) == Find(s.disk.meta, LogEntry(i))
    ensures Append(s, ents).mem.apply == s.mem.apply
  {
    hide Kept;
    if Reaches(s.mem, ents) {
      KeptIsUncompacted(s.mem, ents);
      AppendEffect(s, ents, LogEntry(i));
    }
  }

  lemma SaveFreezes(s: State, rd: Ready, i: U64)
    requires StorageInv(s) && ReadyOk(s, rd) && i <= s.mem.apply.truncIndex
    ensures Find(Save(s, rd).disk.meta, LogEntry(i)) == Find(s.disk.meta, LogEntry(i))
    ensures s.mem.apply.truncIndex <= Save(s, rd).mem.apply.truncIndex
  {
    hide Append, Install;
    var s1 := Install(s, rd.snapshot);
    InstallRefines(s, rd.snapshot);
    SaveSplits(s, rd);
    AppendFreezes(s1, rd.entries, i);
  }

  lemma StepFreezes(b: Both, op: Op, i: U64)
    requires Agree(b) && Enabled(b, op) && i <= b.peer.state.mem.apply.truncIndex
    ensures Find(Step(b, op).peer.state.disk.meta, LogEntry(i)) == Find(b.peer.state.disk.meta, LogEntry(i))
    ensures b.peer.state.mem.apply.truncIndex <= Step(b, op).peer.state.mem.apply.truncIndex
  {
    match op
    case SaveOp(rd) => SaveFreezes(b.peer.state, rd, i);
    case ApplyOp(ent) => ProcessDisk(b.peer.state, ent);
    case CollectOp(task) => SpawnedCollectsNothing(b.boot, b.peer, task);
    case RestartOp =>
  }

  /** Once an index is compacted its record never changes again, in any run: it is neither
      freed nor rewritten, whatever is saved, installed, applied or collected later. */
  lemma {:induction false} CompactedRecordsStay(ops: seq<Op>, m: nat, i: U64)
    requires m <= |ops| && Run(ops).Some?
    ensures Run(ops[..m]).Some?
    ensures var before, after := Run(ops[..m]).value.peer.state, Run(ops).value.peer.state;
            i <= before.mem.apply.truncIndex ==>
              && i <= after.mem.apply.truncIndex
              && Find(after.disk.meta, LogEntry(i)) == Find(before.disk.meta, LogEntry(i))
  {
    hide Step, Enabled, Agree;
    if m == |ops| {
      assert ops[..m] == ops;
    } else {
      var init, last := ops[..|ops| - 1], ops[|ops| - 1];
      assert init[..m] == ops[..m];
      CompactedRecordsStay(init, m, i);
      RunAgrees(init);
      var b := Run(init).value;
      if i <= b.peer.state.mem.apply.truncIndex {
        StepFreezes(b, last, i);
      }
    }
  }

  /** The operation installs a snapshot that covers index `i`. */
  predicate Covers(op: Op, i: U64) { op.SaveOp? && !IsEmptySnap(op.rd.snapshot) && i <= op.rd.snapshot.meta.index }

  ghost predicate RecordOnDisk(s: State, i: U64) { LogEntry(i) in s.disk.meta }

  lemma StepReclaimsNothing(b: Both, op: Op, i: U64)
    requires Agree(b) && Enabled(b, op) && !Covers(op, i)
    requires i <= b.peer.state.mem.apply.truncIndex ==> RecordOnDisk(b.peer.state, i)
    requires 1 <= i <= Step(b, op).peer.state.mem.apply.truncIndex
    ensures RecordOnDisk(Step(b, op).peer.state, i)
  {
    var s := b.peer.state;
    if i <= s.mem.apply.truncIndex {
      StepFreezes(b, op, i);
    } else {
      assert op.ApplyOp?;
      ProcessDisk(s, op.ent);
      assert Holds(s.disk.meta, i);
    }
  }

  /** So the log is never reclaimed: whatever was compacted and collected, every index from
      1 to the last has its record on disk, unless a snapshot that covers it was installed. */
  lemma {:induction false} CompactionFreesNothing(ops: seq<Op>, i: U64)
    requires Run(ops).Some? && (forall op | op in ops :: !Covers(op, i))
    requires 1 <= i <= Run(ops).value.peer.state.mem.local.lastIndex
    ensures RecordOnDisk(Run(ops).value.peer.state, i)
  {
    RunAgrees(ops);
    var s := Run(ops).value.peer.state;
    if s.mem.apply.truncIndex < i {
      assert Holds(s.disk.meta, i);
    } else if ops != [] {
      var init, last := ops[..|ops| - 1], ops[|ops| - 1];
      assert last in ops;
      RunAgrees(init);
      var b := Run(init).value;
      if i <= b.peer.state.mem.apply.truncIndex {
        CompactionFreesNothing(init, i);
      }
      StepReclaimsNothing(b, last, i);
    }
  }

  // ---- A compaction and its collection -------------------------------------

  const FIRST := Entry(1, 1, RaftCmd(None, None))
  const SECOND := Entry(2, 1, RaftCmd(None, Some(CompactLog(1, 1))))
  const BATCH := SaveOp(Ready(NO_SNAPSHOT, [FIRST, SECOND], NO_HARD_STATE, [], []))
  const COLLECTION := GcTask(1, 2)

  lemma RunsOn(ops: seq<Op>, b: Both, op: Op)
    requires Run(ops) == Some(b) && Enabled(b, op)
    ensures Run(ops + [op]) == Some(Step(b, op)) && Agree(Step(b, op))
  {
    hide Step, Enabled, Agree;
    assert (ops + [op])[..|ops|] == ops;
    RunAgrees(ops + [op]);
  }

  lemma AgreeWindow(b: Both)
    requires Agree(b)
    ensures LogInv(b.peer.state)
    ensures b.peer.state.mem.apply.truncIndex == b.log.log.offset
    ensures b.peer.state.mem.local.lastIndex == b.log.log.Last()
  {
  }

  lemma BatchSaved()
    ensures Run([BATCH]).Some?
    ensures var b := Run([BATCH]).value;
            && Agree(b) && b.log == Abstract(Log(0, 0, [FIRST, SECOND]), 0)
            && b.peer.tasks == [] && b.peer.lastCompacted == 0
  {
    hide Save, Agree;
    RunAgrees([]);
    RunsOn([], FRESH, BATCH);
    assert [] + [BATCH] == [BATCH];
  }

  lemma Compacted()
    ensures Run([BATCH, ApplyOp(FIRST), ApplyOp(SECOND)]).Some?
    ensures var b := Run([BATCH, ApplyOp(FIRST), ApplyOp(SECOND)]).value;
            Agree(b) && b.log == Abstract(Log(1, 1, [SECOND]), 2) && b.peer.tasks == [COLLECTION]
  {
    hide Run, ApplyWrites;
    BatchSaved();
    var b := Run([BATCH]).value;
    RunsOn([BATCH], b, ApplyOp(FIRST));
    assert [BATCH] + [ApplyOp(FIRST)] == [BATCH, ApplyOp(FIRST)];
    RunsOn([BATCH, ApplyOp(FIRST)], Step(b, ApplyOp(FIRST)), ApplyOp(SECOND));
    assert [BATCH, ApplyOp(FIRST)] + [ApplyOp(SECOND)] == [BATCH, ApplyOp(FIRST), ApplyOp(SECOND)];
  }

  /** A run that compacts its first entry and collects the range spawned for it: the index
      is at the truncated index, and its record is still on disk. */
  lemma CollectedRecordRemains()
    ensures var run := Run([BATCH, ApplyOp(FIRST), ApplyOp(SECOND), CollectOp(COLLECTION)]);
            && run.Some?
            && run.value.peer.state.mem.apply.truncIndex == 1
            && run.value.peer.tasks == [COLLECTION]
            && RecordOnDisk(run.value.peer.state, 1)
  {
    hide Run, RunGc, Synced, Tiles, LogOf, RecordOnDisk;
    Compacted();
    var ops, op := [BATCH, ApplyOp(FIRST), ApplyOp(SECOND)], CollectOp(COLLECTION);
    var b := Run(ops).value;
    assert Enabled(b, op);
    RunsOn(ops, b, op);
    assert ops + [op] == [BATCH, ApplyOp(FIRST), ApplyOp(SECOND), CollectOp(COLLECTION)];
    SpawnedCollectsNothing(b.boot, b.peer, COLLECTION);
    AgreeWindow(Step(b, op));
    CompactionFreesNothing(ops + [op], 1);
  }
}
