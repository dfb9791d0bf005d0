/** What a restart finds when the process dies between two of its writes. */
module Crash {
  import opened ByteStrings
  import opened Wrappers
  import opened RaftTypes
  import opened MetaKey
  import opened Commands
  import opened Disk
  import opened RaftLog
  import opened StorageState
  import opened LogRefinement
  import opened PeerState

  /** The disk after only the first `n` of the writes `ws` took place. */
  function Cut(d: Disk, ws: seq<Write>, n: nat): Disk
    requires n <= |ws|
  {
    ApplyWrites(d, ws[..n])
  }

  // ---- Saving entries ------------------------------------------------------

  /** A restart from `d` finds the cached state and the log of `s`. */
  ghost predicate Recovers(s: State, d: Disk)
    requires WindowHeld(s)
  {
    Recover(d) == Ok(s.mem) && WindowHeld(State(d, s.mem)) && LogOf(State(d, s.mem)) == LogOf(s)
  }

  /** Where `ents` meet the log they repeat it. */
  ghost predicate Repeats(s: State, ents: seq<Entry>)
    requires WindowHeld(s)
  {
    forall k | 0 <= k < |ents| && s.mem.apply.truncIndex < ents[k].index <= s.mem.local.lastIndex ::
      LogOf(s).EntryAt(ents[k].index) == ents[k]
  }

  /** `ents` overwrite or extend the uncompacted log. */
  predicate Overlaps(mem: Mem, ents: seq<Entry>)
  {
    Contiguous(ents) && (ents != [] ==> mem.apply.truncIndex < ents[0].index <= mem.local.lastIndex + 1)
  }

  lemma RecordsRecover(s: State, d: Disk)
    requires Synced(s) && forall k: Key | !k.LogEntry? :: Find(d.meta, k) == Find(s.disk.meta, k)
    ensures Recover(d) == Ok(s.mem)
  {
    assert Find(d.meta, LocalKey) == Find(s.disk.meta, LocalKey);
    assert Find(d.meta, ApplyKey) == Find(s.disk.meta, ApplyKey);
    assert Find(d.meta, ConfKey) == Find(s.disk.meta, ConfKey);
  }

  lemma PutRecord(s: State, ents: seq<Entry>, i: U64)
    requires WindowHeld(s) && Overlaps(s.mem, ents) && s.mem.apply.truncIndex < i <= s.mem.local.lastIndex
    ensures var d := ApplyWrites(s.disk, PutEntries(ents));
            && Holds(d.meta, i)
            && d.meta[LogEntry(i)].entry ==
               if ents != [] && ents[0].index <= i < ents[0].index + |ents|
               then ents[i - ents[0].index] else LogOf(s).EntryAt(i)
  {
    hide ApplyWrites, PutEntries;
    PutEntriesEffect(s.disk, ents, LogEntry(i));
    assert Holds(s.disk.meta, i);
  }

  /** The entry that a window of `s` holds at `i` once `ents` are put over it. */
  ghost function Overlaid(s: State, ents: seq<Entry>, i: int): Entry
    requires WindowHeld(s) && s.mem.apply.truncIndex < i <= s.mem.local.lastIndex
  {
    if ents != [] && ents[0].index <= i < ents[0].index + |ents| then ents[i - ents[0].index] else LogOf(s).EntryAt(i)
  }

  lemma PutsRecover(s: State, ents: seq<Entry>)
    requires Synced(s) && Contiguous(ents)
    ensures Recover(ApplyWrites(s.disk, PutEntries(ents))) == Ok(s.mem)
  {
    hide ApplyWrites, PutEntries, Recover, Synced;
    var d := ApplyWrites(s.disk, PutEntries(ents));
    forall k: Key | !k.LogEntry? ensures Find(d.meta, k) == Find(s.disk.meta, k) {
      PutEntriesEffect(s.disk, ents, k);
    }
    RecordsRecover(s, d);
  }

  lemma WindowOver(s: State, d: Disk)
    requires WindowHeld(s) && forall i | s.mem.apply.truncIndex < i <= s.mem.local.lastIndex :: Holds(d.meta, i)
    ensures WindowHeld(State(d, s.mem))
    ensures forall i | s.mem.apply.truncIndex < i <= s.mem.local.lastIndex ::
              Holds(d.meta, i) && LogOf(State(d, s.mem)).EntryAt(i) == d.meta[LogEntry(i)].entry
  {
  }

  lemma PutsKeepWindow(s: State, ents: seq<Entry>)
    requires WindowHeld(s) && Synced(s) && Overlaps(s.mem, ents)
    ensures var d := ApplyWrites(s.disk, PutEntries(ents));
            && Recover(d) == Ok(s.mem) && WindowHeld(State(d, s.mem))
            && forall i | s.mem.apply.truncIndex < i <= s.mem.local.lastIndex ::
                 LogOf(State(d, s.mem)).EntryAt(i) == Overlaid(s, ents, i)
  {
    hide ApplyWrites, PutEntries, Recover, Synced, WindowHeld, LogOf, Log.EntryAt;
    var d := ApplyWrites(s.disk, PutEntries(ents));
    PutsRecover(s, ents);
    forall i: U64 | s.mem.apply.truncIndex < i <= s.mem.local.lastIndex
      ensures Holds(d.meta, i) && d.meta[LogEntry(i)].entry == Overlaid(s, ents, i)
    {
      PutRecord(s, ents, i);
    }
    WindowOver(s, d);
  }

  lemma OverlaidIsLogIff(s: State, ents: seq<Entry>)
    requires WindowHeld(s) && Overlaps(s.mem, ents)
    ensures Repeats(s, ents) <==>
            forall i | s.mem.apply.truncIndex < i <= s.mem.local.lastIndex ::
                Overlaid(s, ents, i) == LogOf(s).EntryAt(i)
  {
    hide WindowHeld;
    forall k | 0 <= k < |ents| && ents[k].index <= s.mem.local.lastIndex
      ensures s.mem.apply.truncIndex < ents[k].index && Overlaid(s, ents, ents[k].index) == ents[k]
    {
      assert ents[k].index == ents[0].index + k;
    }
    forall i | s.mem.apply.truncIndex < i <= s.mem.local.lastIndex && Repeats(s, ents)
      ensures Overlaid(s, ents, i) == LogOf(s).EntryAt(i)
    {
      if ents != [] && ents[0].index <= i < ents[0].index + |ents| {
        assert ents[i - ents[0].index].index == i;
      }
    }
  }

  lemma LogsEqualIff(x: Log, y: Log)
    requires x.offset == y.offset && x.offsetTerm == y.offsetTerm && |x.ents| == |y.ents|
    ensures x == y <==> forall i | x.offset < i <= x.Last() :: x.EntryAt(i) == y.EntryAt(i)
  {
    if forall i | x.offset < i <= x.Last() :: x.EntryAt(i) == y.EntryAt(i) {
      forall k | 0 <= k < |x.ents| ensures x.ents[k] == y.ents[k] {
        assert x.EntryAt(x.offset + 1 + k) == y.EntryAt(x.offset + 1 + k);
      }
    }
  }

  /** Puts alone keep the window, and the log exactly when they repeat it. */
  lemma PutsKeepLogIff(s: State, ents: seq<Entry>)
    requires WindowHeld(s) && Synced(s) && Overlaps(s.mem, ents)
    ensures var d := ApplyWrites(s.disk, PutEntries(ents));
            Recover(d) == Ok(s.mem) && WindowHeld(State(d, s.mem)) && (Recovers(s, d) <==> Repeats(s, ents))
  {
    hide ApplyWrites, PutEntries, Recover, WindowHeld, Overlaid, Repeats, Overlaps, Synced, Log.EntryAt;
    var d := ApplyWrites(s.disk, PutEntries(ents));
    PutsKeepWindow(s, ents);
    OverlaidIsLogIff(s, ents);
    LogsEqualIff(LogOf(State(d, s.mem)), LogOf(s));
  }

  /** The deletes of the old suffix tear the log at the first of them. */
  lemma DeletesTear(s: State, d: Disk, last: U64, m: nat)
    requires WindowHeld(s) && s.mem.apply.truncIndex <= last && 0 < m && last + m <= s.mem.local.lastIndex
    ensures !WindowHeld(State(ApplyWrites(d, DeleteRange(last + 1, last + m)), s.mem))
  {
    hide ApplyWrites, DeleteRange;
    DeleteRangeEffect(d, last + 1, last + m, LogEntry(last + 1));
    assert !Holds(ApplyWrites(d, DeleteRange(last + 1, last + m)).meta, last + 1);
  }

  lemma DeletesRecover(s: State, d: Disk, last: U64, m: nat)
    requires WindowHeld(s) && 0 < m && last + m <= s.mem.local.lastIndex && Recover(d) == Ok(s.mem)
    ensures Recover(ApplyWrites(d, DeleteRange(last + 1, last + m))) == Ok(s.mem)
  {
    hide ApplyWrites, DeleteRange;
    var d' := ApplyWrites(d, DeleteRange(last + 1, last + m));
    forall k: Key | !k.LogEntry? ensures Find(d'.meta, k) == Find(d.meta, k) {
      DeleteRangeEffect(d, last + 1, last + m, k);
    }
    RecordsRecover(State(d, s.mem), d');
  }

  lemma RepeatsPrefix(s: State, ents: seq<Entry>, n: nat)
    requires WindowHeld(s) && Repeats(s, ents) && n <= |ents|
    ensures Repeats(s, ents[..n])
  {
  }

  lemma RepeatsNothing(s: State)
    requires WindowHeld(s)
    ensures Repeats(s, [])
  {
  }

  /** A `Ready` that only adds entries after the last index. */
  ghost predicate PureAppend(s: State, rd: Ready)
  {
    && IsEmptySnap(rd.snapshot)
    && (rd.entries != [] ==> rd.entries[0].index == s.mem.local.lastIndex + 1)
  }

  lemma NewEntriesRepeat(s: State, rd: Ready)
    requires StorageInv(s) && ReadyOk(s, rd) && PureAppend(s, rd)
    ensures Repeats(s, rd.entries)
    ensures rd.entries != [] ==> rd.entries[|rd.entries| - 1].index >= s.mem.local.lastIndex
  {
    assert rd.entries != [] ==> rd.entries[|rd.entries| - 1].index == rd.entries[0].index + |rd.entries| - 1;
  }

  lemma SavedWrites(s: State, rd: Ready)
    requires StorageInv(s) && ReadyOk(s, rd) && IsEmptySnap(rd.snapshot)
    ensures Overlaps(s.mem, rd.entries)
    ensures var ents, last := rd.entries, s.mem.local.lastIndex;
            SaveWrites(s.mem, rd) ==
            (PutEntries(ents) +
             if ents != [] && ents[|ents| - 1].index < last then DeleteRange(ents[|ents| - 1].index + 1, last) else [])
            + [PutMeta(LocalKey, LocalRecord(SaveMem(s.mem, rd).local))]
  {
    hide LogOf, Decodable, SnapshotWrites, Kept, PutEntries, DeleteRange;
    if rd.entries != [] {
      assert rd.entries[|rd.entries| - 1].index == rd.entries[0].index + |rd.entries| - 1;
      KeptIsUncompacted(s.mem, rd.entries);
    } else {
      assert PutEntries([]) == [];
    }
  }

  /** The writes of a save up to its last, cut off anywhere. */
  lemma SavedWritesCut(s: State, rd: Ready, n: nat)
    requires StorageInv(s) && ReadyOk(s, rd) && IsEmptySnap(rd.snapshot) && n < |SaveWrites(s.mem, rd)|
    ensures var ents, ws := rd.entries, SaveWrites(s.mem, rd)[..n];
            if n <= |ents| then ws == PutEntries(ents[..n]) else
            && ents != [] && ents[|ents| - 1].index + (n - |ents|) <= s.mem.local.lastIndex
            && ws == PutEntries(ents) + DeleteRange(ents[|ents| - 1].index + 1, ents[|ents| - 1].index + (n - |ents|))
  {
    hide SaveWrites, SaveMem, ReadyOk, LogInv;
    SavedWrites(s, rd);
  }

  /** A crash before the last write of a save always leaves the cached state; the log is
      the old one if and only if no delete has happened and the puts so far repeat it. */
  lemma CutKeepsLogIff(s: State, rd: Ready, n: nat)
    requires StorageInv(s) && Synced(s) && ReadyOk(s, rd) && IsEmptySnap(rd.snapshot)
    requires n < |SaveWrites(s.mem, rd)|
    ensures var d := Cut(s.disk, SaveWrites(s.mem, rd), n);
            && Recover(d) == Ok(s.mem)
            && (Recovers(s, d) <==> n <= |rd.entries| && Repeats(s, rd.entries[..n]))
  {
    hide SaveWrites, PutEntries, DeleteRange, ApplyWrites, Recover, Synced, ReadyOk, LogOf, Repeats;
    var ents := rd.entries;
    SavedWrites(s, rd);
    SavedWritesCut(s, rd, n);
    if n <= |ents| {
      PutsKeepLogIff(s, ents[..n]);
    } else {
      var put, last, m := ApplyWrites(s.disk, PutEntries(ents)), ents[|ents| - 1].index, n - |ents|;
      ApplyConcat(s.disk, PutEntries(ents), DeleteRange(last + 1, last + m));
      PutsKeepLogIff(s, ents);
      DeletesTear(s, put, last, m);
      DeletesRecover(s, put, last, m);
    }
  }

  /** A save without a snapshot is atomic, the old log before its last write and the new one
      after it, if and only if its batch deletes nothing and repeats the log where they meet. */
  lemma SaveIsAtomicIff(s: State, rd: Ready)
    requires StorageInv(s) && Synced(s) && ReadyOk(s, rd) && IsEmptySnap(rd.snapshot)
    ensures var ws := SaveWrites(s.mem, rd);
            (forall n | 0 <= n < |ws| :: Recovers(s, Cut(s.disk, ws, n))) <==>
            rd.entries == [] || (rd.entries[|rd.entries| - 1].index >= s.mem.local.lastIndex && Repeats(s, rd.entries))
    ensures var ws := SaveWrites(s.mem, rd);
            Recover(Cut(s.disk, ws, |ws|)) == Ok(SaveMem(s.mem, rd))
            && State(Cut(s.disk, ws, |ws|), SaveMem(s.mem, rd)) == Save(s, rd)
            && LogInv(Save(s, rd)) && LogOf(Save(s, rd)) == LogOf(s).Append(rd.entries)
  {
    hide SaveMem, PutEntries, DeleteRange, ApplyWrites, Recovers, ReadyOk, Repeats, SaveWrites;
    var ents, ws := rd.entries, SaveWrites(s.mem, rd);
    SavedWrites(s, rd);
    SaveKeeps(s, rd);
    assert ws[..|ws|] == ws;
    forall n | 0 <= n < |ws|
      ensures Recovers(s, Cut(s.disk, ws, n)) <==> n <= |ents| && Repeats(s, ents[..n])
    {
      CutKeepsLogIff(s, rd, n);
    }
    if ents != [] && ents[|ents| - 1].index >= s.mem.local.lastIndex {
      assert ents[..|ents|] == ents && |ws| == |ents| + 1;
      forall n | 0 <= n < |ws| && Repeats(s, ents) ensures Repeats(s, ents[..n]) {
        RepeatsPrefix(s, ents, n);
      }
      assert Recovers(s, Cut(s.disk, ws, |ents|)) <==> Repeats(s, ents);
    } else if ents != [] {
      assert !Recovers(s, Cut(s.disk, ws, |ents| + 1));
    } else {
      RepeatsNothing(s);
    }
  }

  /** A crash anywhere in a pure append recovers the log before it or the log after it,
      never anything in between: the records are in place before the last index moves. */
  lemma CrashDuringPureAppend(s: State, rd: Ready, n: nat)
    requires StorageInv(s) && Synced(s) && ReadyOk(s, rd) && PureAppend(s, rd)
    requires n <= |SaveWrites(s.mem, rd)|
    ensures var ws := SaveWrites(s.mem, rd);
            var d := Cut(s.disk, ws, n);
            && Recover(d) == Ok(if n < |ws| then s.mem else SaveMem(s.mem, rd))
            && StorageInv(State(d, Recover(d).value))
            && LogOf(State(d, Recover(d).value)) == if n < |ws| then LogOf(s) else LogOf(s).Append(rd.entries)
  {
    hide SaveWrites, SaveMem, Save, ReadyOk, Cut;
    var ws := SaveWrites(s.mem, rd);
    SaveIsAtomicIff(s, rd);
    SaveKeeps(s, rd);
    NewEntriesRepeat(s, rd);
    if n < |ws| {
      assert Recovers(s, Cut(s.disk, ws, n));
    }
  }

  /** The first write of an overwriting append leaves the old log in place exactly when it
      adds a new record or repeats the one that is there. */
  lemma FirstPutKeepsLogExactly(s: State, ent: Entry)
    requires StorageInv(s) && Synced(s) && s.mem.apply.truncIndex < ent.index <= s.mem.local.lastIndex + 1
    ensures var d := ApplyWrite(s.disk, PutMeta(LogEntry(ent.index), EntryRecord(ent)));
            && Recover(d) == Ok(s.mem)
            && WindowHeld(State(d, s.mem))
            && (LogOf(State(d, s.mem)) == LogOf(s) <==>
                ent.index == s.mem.local.lastIndex + 1 || LogOf(s).EntryAt(ent.index) == ent)
  {
    var w := PutMeta(LogEntry(ent.index), EntryRecord(ent));
    ApplyFew(s.disk, w, w);
    if ent.index <= s.mem.local.lastIndex {
      assert PutEntries([ent]) == [w];
      PutsKeepLogIff(s, [ent]);
      assert Repeats(s, [ent]) <==> LogOf(s).EntryAt([ent][0].index) == [ent][0];
    } else {
      RecordsRecover(s, ApplyWrite(s.disk, w));
      SameWindow(s, State(ApplyWrite(s.disk, w), s.mem));
    }
  }

  // ---- A torn save ---------------------------------------------------------

  const OLD_ENTRIES: seq<Entry> := [Entry(1, 1, RaftCmd(None, None)), Entry(2, 1, RaftCmd(None, None)),
      Entry(3, 1, RaftCmd(None, None))]
  const NEW_ENTRIES: seq<Entry> := [Entry(2, 2, RaftCmd(None, None)), Entry(3, 2, RaftCmd(None, None))]

  function EntriesOnly(ents: seq<Entry>): Ready { Ready(NO_SNAPSHOT, ents, NO_HARD_STATE, [], []) }

  lemma FreshOk()
    ensures StorageInv(FRESH_STATE) && Synced(FRESH_STATE) && LogOf(FRESH_STATE) == Log(0, 0, [])
  {
    assert LogOf(FRESH_STATE) == Log(0, 0, []);
  }

  lemma OldSaved()
    ensures var s := Save(FRESH_STATE, EntriesOnly(OLD_ENTRIES));
            && StorageInv(s) && Synced(s) && LogOf(s) == Log(0, 0, OLD_ENTRIES)
            && ReadyOk(s, EntriesOnly(NEW_ENTRIES))
  {
    hide Save, Synced, Recover, SaveWrites, LogOf, WindowHeld;
    FreshOk();
    SaveKeeps(FRESH_STATE, EntriesOnly(OLD_ENTRIES));
  }

  /** A `Ready` that raft may hand over and that a crash after its first write tears: the
      restart finds a log that is neither the old nor the new one and whose terms fall. */
  lemma SaveIsTorn()
    ensures var s, rd := Save(FRESH_STATE, EntriesOnly(OLD_ENTRIES)), EntriesOnly(NEW_ENTRIES);
            && StorageInv(s) && Synced(s) && ReadyOk(s, rd) && |SaveWrites(s.mem, rd)| > 1
            && var d := Cut(s.disk, SaveWrites(s.mem, rd), 1);
               && Recover(d) == Ok(s.mem) && WindowHeld(State(d, s.mem))
               && LogOf(State(d, s.mem)) == Log(0, 0, [OLD_ENTRIES[0], NEW_ENTRIES[0], OLD_ENTRIES[2]])
               && !LogOf(State(d, s.mem)).WellFormed()
  {
    hide Save, Synced, SaveWrites, ReadyOk, PutEntries, ApplyWrites, Recover;
    var s, rd := Save(FRESH_STATE, EntriesOnly(OLD_ENTRIES)), EntriesOnly(NEW_ENTRIES);
    OldSaved();
    SavedWrites(s, rd);
    SavedWritesCut(s, rd, 1);
    assert NEW_ENTRIES[..1] == [NEW_ENTRIES[0]];
    PutsKeepLogIff(s, NEW_ENTRIES[..1]);
    var log := LogOf(State(Cut(s.disk, SaveWrites(s.mem, rd), 1), s.mem));
    forall i: U64 | 1 <= i <= 3
      ensures log.EntryAt(i) == if i == 2 then NEW_ENTRIES[0] else OLD_ENTRIES[i - 1]
    {
      PutRecord(s, NEW_ENTRIES[..1], i);
    }
    assert log.ents == [log.EntryAt(1), log.EntryAt(2), log.EntryAt(3)];
    assert log.ents[1].term == 2 && log.ents[2].term == 1;
  }

  // ---- Applying an entry ---------------------------------------------------

  lemma NextReplay(committed: seq<Entry>, a: nat)
    requires a < |committed|
    ensures Replay(committed[..a + 1]) == Perform(Replay(committed[..a]), OpOf(committed[a].cmd))
  {
    assert committed[..a + 1][..a] == committed[..a];
  }

  /** The disk after each of the writes of `process`. */
  lemma CutProcess(s: State, ent: Entry, n: nat)
    requires Synced(s) && n <= |ProcessWrites(s.mem, ent)|
    ensures var ws, d := ProcessWrites(s.mem, ent), Cut(s.disk, ProcessWrites(s.mem, ent), n);
            && 1 <= |ws| <= 2
            && (|ws| == 1 ==> OpOf(ent.cmd) == NoOp)
            && d.kv == (if n == |ws| then Perform(s.disk.kv, OpOf(ent.cmd)) else s.disk.kv)
            && Recover(d).Ok?
            && Recover(d).value.apply.applyIndex == (if n == 0 then s.mem.apply.applyIndex else ent.index)
  {
    var ws := ProcessWrites(s.mem, ent);
    ProcessDisk(s, ent);
    if n == 0 {
      assert ws[..n] == [];
    } else if n == |ws| {
      assert ws[..n] == ws;
    } else {
      assert ws[..n] == [ws[0]];
      ApplyFew(s.disk, ws[0], ws[0]);
    }
  }

  /** Inside `process` the store is the replay to the apply index or to the one before.
      The apply index is written first, so a crash between the two writes loses the
      command for good, exactly when the command would have changed the store. */
  lemma CrashDuringProcess(s: State, committed: seq<Entry>, n: nat)
    requires Synced(s) && s.mem.apply.applyIndex < |committed| < TWO_64
    requires committed[s.mem.apply.applyIndex].index == s.mem.apply.applyIndex + 1
    requires s.disk.kv == Replay(committed[..s.mem.apply.applyIndex])
    requires n <= |ProcessWrites(s.mem, committed[s.mem.apply.applyIndex])|
    ensures var a := s.mem.apply.applyIndex;
            var ws := ProcessWrites(s.mem, committed[a]);
            var d := Cut(s.disk, ws, n);
            && Recover(d).Ok?
            && Recover(d).value.apply.applyIndex == (if n == 0 then a else a + 1)
            && d.kv == (if n == |ws| then Replay(committed[..a + 1]) else Replay(committed[..a]))
            && (d.kv == Replay(committed[..Recover(d).value.apply.applyIndex]) <==>
                n == 0 || n == |ws| || Perform(s.disk.kv, OpOf(committed[a].cmd)) == s.disk.kv)
  {
    hide ProcessWrites, ApplyWrites, Perform, Recover;
    var a := s.mem.apply.applyIndex;
    var ent := committed[a];
    var ws := ProcessWrites(s.mem, ent);
    NextReplay(committed, a);
    ProcessDisk(s, ent);
    CutProcess(s, ent, n);
  }

  function PutEntry(key: Bytes, value: Bytes): Entry { Entry(1, 1, RaftCmd(Some(Put(key, value)), None)) }

  function PutReady(put: Entry): Ready { Ready(NO_SNAPSHOT, [put], NO_HARD_STATE, [], [put]) }

  lemma PutSaved(put: Entry)
    requires put.index == put.term == 1
    ensures var s := Save(FRESH_STATE, PutReady(put));
            && StorageInv(s) && Synced(s) && LogOf(s) == Log(0, 0, [put])
            && s.mem.apply.applyIndex == 0 && s.disk.kv == map[]
  {
    hide Save;
    assert LogOf(FRESH_STATE) == Log(0, 0, []);
    SaveKeeps(FRESH_STATE, PutReady(put));
  }

  /** A put that a crash loses: its entry is saved, its index is on disk as applied, the
      restart will not apply it again, and the store does not have it. */
  lemma PutIsLost(key: Bytes, value: Bytes)
    ensures var put := PutEntry(key, value);
            var s := Save(FRESH_STATE, PutReady(put));
            var d := Cut(s.disk, ProcessWrites(s.mem, put), 1);
            && StorageInv(s) && LogOf(s) == Log(0, 0, [put])
            && Recover(d).Ok? && Recover(d).value.apply.applyIndex == 1
            && d.kv == map[]
            && Replay([put]) == map[key := value]
  {
    hide Save, Synced, StorageInv, LogOf, Recover, Cut, ApplyWrites;
    var put := PutEntry(key, value);
    PutSaved(put);
    assert [put][..0] == [] && [put][..1] == [put];
    CrashDuringProcess(Save(FRESH_STATE, PutReady(put)), [put], 1);
  }
}
