/** The writes of `peerStorage` carry out the abstract log operations. */
module LogRefinement {
  import opened ByteStrings
  import opened Wrappers
  import opened RaftTypes
  import opened MetaKey
  import opened Disk
  import opened PairCodec
  import opened Storage
  import opened RaftLog
  import opened StorageState

  lemma {:induction false} PutEntriesEffect(d: Disk, ents: seq<Entry>, k: Key)
    requires Contiguous(ents)
    ensures ApplyWrites(d, PutEntries(ents)).kv == d.kv
    ensures Find(ApplyWrites(d, PutEntries(ents)).meta, k) ==
            if ents != [] && k.LogEntry? && ents[0].index <= k.index < ents[0].index + |ents|
            then Some(EntryRecord(ents[k.index - ents[0].index])) else Find(d.meta, k)
  {
    if ents != [] {
      var init := ents[..|ents| - 1];
      assert PutEntries(ents)[..|ents| - 1] == PutEntries(init);
      PutEntriesEffect(d, init, k);
    }
  }

  lemma {:induction false} DeleteRangeEffect(d: Disk, lo: U64, hi: U64, k: Key)
    requires lo <= hi + 1
    ensures ApplyWrites(d, DeleteRange(lo, hi)).kv == d.kv
    ensures Find(ApplyWrites(d, DeleteRange(lo, hi)).meta, k) ==
            if k.LogEntry? && lo <= k.index <= hi then None else Find(d.meta, k)
    decreases hi
  {
    if lo <= hi {
      var n := hi - lo;
      assert DeleteRange(lo, hi)[n] == DeleteMeta(LogEntry(hi));
      if lo < hi {
        assert DeleteRange(lo, hi)[..n] == DeleteRange(lo, hi - 1);
        DeleteRangeEffect(d, lo, hi - 1, k);
      } else {
        assert DeleteRange(lo, hi)[..n] == [];
      }
    }
  }

  lemma {:induction false} PutPairsEffect(d: Disk, ps: seq<Pair>)
    ensures ApplyWrites(d, PutPairs(ps)) == d.(kv := PutAll(d.kv, ps))
  {
    if ps != [] {
      assert PutPairs(ps)[..|ps| - 1] == PutPairs(ps[..|ps| - 1]);
      PutPairsEffect(d, ps[..|ps| - 1]);
    }
  }

  lemma SliceBound(t: U64, first: U64)
    requires first <= t < TWO_64 - 1
    ensures Inc(Sub(t, first)) == t - first + 1 && Inc(t) == t + 1
  {
  }

  /** In 64-bit arithmetic the slice of a batch drops exactly its compacted part. */
  lemma KeptIsUncompacted(mem: Mem, ents: seq<Entry>)
    requires Contiguous(ents) && Reaches(mem, ents) && mem.apply.truncIndex < TWO_64 - 1
    ensures var t := mem.apply.truncIndex;
            Kept(mem, ents) == if ents[0].index <= t then ents[t - ents[0].index + 1..] else ents
    ensures Contiguous(Kept(mem, ents))
    ensures Kept(mem, ents)[0].index ==
            if ents[0].index <= mem.apply.truncIndex then mem.apply.truncIndex + 1 else ents[0].index
    ensures Kept(mem, ents)[0].index + |Kept(mem, ents)| == ents[|ents| - 1].index + 1
  {
    var t, kept := mem.apply.truncIndex, Kept(mem, ents);
    SliceBound(t, if ents[0].index <= t then ents[0].index else t);
    assert ents[|ents| - 1].index == ents[0].index + |ents| - 1;
    assert kept == if ents[0].index <= t then ents[t - ents[0].index + 1..] else ents;
    forall k | 0 <= k < |kept| ensures kept[k].index == kept[0].index + k && kept[k].index < TWO_64 - 1 {
      assert kept[k] == ents[|ents| - |kept| + k];
    }
  }

  /** A contiguous batch is sliced in range. */
  lemma KeptSlice(mem: Mem, ents: seq<Entry>)
    requires Contiguous(ents)
    ensures !SliceFails(mem, ents)
  {
    if Reaches(mem, ents) {
      assert Kept(mem, ents) != [];
    }
  }

  lemma AppendDisk(s: State, ents: seq<Entry>)
    requires Reaches(s.mem, ents)
    ensures var put, last := ApplyWrites(s.disk, PutEntries(Kept(s.mem, ents))), ents[|ents| - 1].index;
            Append(s, ents).disk ==
            if s.mem.local.lastIndex > last then ApplyWrites(put, DeleteRange(last + 1, s.mem.local.lastIndex)) else put
  {
    var kept, last := Kept(s.mem, ents), ents[|ents| - 1].index;
    if s.mem.local.lastIndex > last {
      ApplyConcat(s.disk, PutEntries(kept), DeleteRange(last + 1, s.mem.local.lastIndex));
    } else {
      assert AppendWrites(s.mem, ents) == PutEntries(kept);
    }
  }

  lemma AppendEffect(s: State, ents: seq<Entry>, k: Key)
    requires Contiguous(ents) && Reaches(s.mem, ents)
    requires s.mem.apply.truncIndex < TWO_64 - 1 && s.mem.local.lastIndex < TWO_64 - 1
    ensures Append(s, ents).disk.kv == s.disk.kv
    ensures Find(Append(s, ents).disk.meta, k) ==
            var kept, last := Kept(s.mem, ents), ents[|ents| - 1].index;
            if k.LogEntry? && kept[0].index <= k.index <= last then Some(EntryRecord(kept[k.index - kept[0].index]))
            else if k.LogEntry? && last < k.index <= s.mem.local.lastIndex then None
            else Find(s.disk.meta, k)
  {
    hide Append, AppendWrites, Kept, PutEntries, DeleteRange, ApplyWrites;
    KeptIsUncompacted(s.mem, ents);
    AppendDisk(s, ents);
    var kept, last := Kept(s.mem, ents), ents[|ents| - 1].index;
    var put := ApplyWrites(s.disk, PutEntries(kept));
    PutEntriesEffect(s.disk, kept, k);
    if s.mem.local.lastIndex > last {
      DeleteRangeEffect(put, last + 1, s.mem.local.lastIndex, k);
    }
  }

  lemma AppendLeavesState(s: State, ents: seq<Entry>, k: Key)
    requires Contiguous(ents) && !k.LogEntry?
    requires s.mem.apply.truncIndex < TWO_64 - 1 && s.mem.local.lastIndex < TWO_64 - 1
    ensures Append(s, ents).disk.kv == s.disk.kv && Find(Append(s, ents).disk.meta, k) == Find(s.disk.meta, k)
  {
    if Reaches(s.mem, ents) {
      AppendEffect(s, ents, k);
    }
  }

  /** Where each entry of the appended log comes from. */
  lemma AppendedEntry(s: State, ents: seq<Entry>, i: U64)
    requires WindowHeld(s) && Contiguous(ents) && Reaches(s.mem, ents)
    requires ents[0].index <= s.mem.local.lastIndex + 1
    requires s.mem.apply.truncIndex < i <= ents[|ents| - 1].index
    ensures LogOf(s).Append(ents).Last() == ents[|ents| - 1].index
    ensures Kept(s.mem, ents)[0].index <= s.mem.local.lastIndex + 1
    ensures var kept := Kept(s.mem, ents);
            && (kept[0].index <= i ==> i - kept[0].index < |kept|)
            && LogOf(s).Append(ents).EntryAt(i) ==
               if i < kept[0].index then LogOf(s).EntryAt(i) else kept[i - kept[0].index]
  {
    hide Kept;
    KeptIsUncompacted(s.mem, ents);
    assert ents[|ents| - 1].index == ents[0].index + |ents| - 1;
  }

  lemma WindowRecord(s: State, i: U64)
    requires WindowHeld(s) && s.mem.apply.truncIndex < i <= s.mem.local.lastIndex
    ensures Find(s.disk.meta, LogEntry(i)) == Some(EntryRecord(LogOf(s).EntryAt(i)))
  {
    assert Holds(s.disk.meta, i);
  }

  lemma AppendedRecord(s: State, ents: seq<Entry>, i: U64)
    requires WindowHeld(s) && Contiguous(ents) && Reaches(s.mem, ents)
    requires s.mem.apply.truncIndex < i <= ents[|ents| - 1].index
    requires Kept(s.mem, ents)[0].index <= s.mem.local.lastIndex + 1
    ensures var kept := Kept(s.mem, ents);
            && (kept[0].index <= i ==> i - kept[0].index < |kept|)
            && Find(Append(s, ents).disk.meta, LogEntry(i)) ==
               Some(EntryRecord(if i < kept[0].index then LogOf(s).EntryAt(i) else kept[i - kept[0].index]))
  {
    hide Kept, Append, Find, LogOf, Log.EntryAt;
    KeptIsUncompacted(s.mem, ents);
    AppendEffect(s, ents, LogEntry(i));
    if i < Kept(s.mem, ents)[0].index {
      WindowRecord(s, i);
    }
  }

  /** The record at `i` is the log's entry there. */
  ghost predicate RecordIs(meta: Meta, log: Log, i: U64)
  {
    && log.offset < i <= log.Last()
    && log.EntryAt(i).index == i
    && Find(meta, LogEntry(i)) == Some(EntryRecord(log.EntryAt(i)))
  }

  /** The records of a window determine its log. */
  lemma RecordsAre(s: State, log: Log)
    requires log.offset == s.mem.apply.truncIndex && log.offsetTerm == s.mem.apply.truncTerm
    requires log.Last() == s.mem.local.lastIndex < TWO_64 - 1
    requires forall i: U64 | log.offset < i <= log.Last() :: RecordIs(s.disk.meta, log, i)
    ensures WindowHeld(s) && LogOf(s) == log
  {
    forall i | log.offset < i <= log.Last()
      ensures Holds(s.disk.meta, i) && s.disk.meta[LogEntry(i)].entry == log.EntryAt(i)
    {
      assert RecordIs(s.disk.meta, log, i);
    }
    assert LogOf(s).ents == log.ents;
  }

  /** The records of a window are those of a well-formed log. */
  lemma WindowIs(s: State, log: Log)
    requires log.WellFormed()
    requires log.offset == s.mem.apply.truncIndex && log.offsetTerm == s.mem.apply.truncTerm
    requires log.Last() == s.mem.local.lastIndex && s.mem.local.lastTerm == log.TermAt(log.Last())
    requires forall i: U64 | log.offset < i <= log.Last() ::
               Find(s.disk.meta, LogEntry(i)) == Some(EntryRecord(log.EntryAt(i)))
    ensures LogInv(s) && LogOf(s) == log
  {
    forall i: U64 | log.offset < i <= log.Last() ensures RecordIs(s.disk.meta, log, i) {
      assert log.ents[i - log.offset - 1].index == i;
    }
    RecordsAre(s, log);
  }

  /** A batch raft may hand over: contiguous, and no gap after the last index. */
  predicate Joins(mem: Mem, ents: seq<Entry>)
  {
    Contiguous(ents) && (ents != [] ==> ents[0].index <= mem.local.lastIndex + 1)
  }

  lemma AppendedIndex(s: State, ents: seq<Entry>, i: U64)
    requires WindowHeld(s) && Joins(s.mem, ents) && Reaches(s.mem, ents)
    requires s.mem.apply.truncIndex < i <= ents[|ents| - 1].index
    ensures RecordIs(Append(s, ents).disk.meta, LogOf(s).Append(ents), i)
  {
    hide Kept, Append;
    AppendedEntry(s, ents, i);
    AppendedRecord(s, ents, i);
    KeptIsUncompacted(s.mem, ents);
    if i < Kept(s.mem, ents)[0].index {
      assert Holds(s.disk.meta, i);
    }
  }

  lemma AppendedLast(s: State, ents: seq<Entry>)
    requires WindowHeld(s) && Joins(s.mem, ents) && Reaches(s.mem, ents)
    ensures LogOf(s).Append(ents).Last() == ents[|ents| - 1].index < TWO_64 - 1
    ensures LogOf(s).Append(ents).TermAt(ents[|ents| - 1].index) == ents[|ents| - 1].term
  {
    KeptIsUncompacted(s.mem, ents);
    AppendedEntry(s, ents, ents[|ents| - 1].index);
  }

  lemma AppendCached(s: State, ents: seq<Entry>)
    requires WindowHeld(s) && Joins(s.mem, ents) && Reaches(s.mem, ents)
    ensures var mem', log', last := Append(s, ents).mem, LogOf(s).Append(ents), ents[|ents| - 1];
            && mem'.apply == s.mem.apply
            && mem'.local.lastIndex == last.index && mem'.local.lastTerm == last.term
            && log'.offset == s.mem.apply.truncIndex && log'.offsetTerm == s.mem.apply.truncTerm
  {
    hide Kept, AppendWrites, ApplyWrites, Contiguous;
  }

  /** The cached last term is the term at the last index. */
  ghost predicate LastTermOk(s: State)
    requires WindowHeld(s)
  {
    s.mem.local.lastTerm == LogOf(s).TermAt(s.mem.local.lastIndex)
  }

  lemma AppendedWindow(s: State, ents: seq<Entry>)
    requires WindowHeld(s) && Joins(s.mem, ents) && Reaches(s.mem, ents)
    ensures WindowHeld(Append(s, ents)) && LogOf(Append(s, ents)) == LogOf(s).Append(ents)
  {
    hide Append, Log.Append, AppendWrites, AppendMem, WindowHeld, RecordIs;
    AppendedLast(s, ents);
    AppendCached(s, ents);
    forall i: U64 | s.mem.apply.truncIndex < i <= ents[|ents| - 1].index
      ensures RecordIs(Append(s, ents).disk.meta, LogOf(s).Append(ents), i)
    {
      AppendedIndex(s, ents, i);
    }
    RecordsAre(Append(s, ents), LogOf(s).Append(ents));
  }

  lemma AppendedLastTerm(s: State, ents: seq<Entry>)
    requires WindowHeld(s) && Joins(s.mem, ents) && Reaches(s.mem, ents)
    ensures WindowHeld(Append(s, ents)) && LastTermOk(Append(s, ents))
  {
    hide Append, Log.Append, AppendWrites, AppendMem;
    AppendedWindow(s, ents);
    AppendedLast(s, ents);
    AppendCached(s, ents);
  }

  lemma AppendWindow(s: State, ents: seq<Entry>)
    requires WindowHeld(s) && Joins(s.mem, ents)
    ensures WindowHeld(Append(s, ents)) && LogOf(Append(s, ents)) == LogOf(s).Append(ents)
    ensures LastTermOk(s) ==> LastTermOk(Append(s, ents))
  {
    hide LastTermOk, WindowHeld;
    if Reaches(s.mem, ents) {
      AppendedWindow(s, ents);
      AppendedLastTerm(s, ents);
    }
  }

  lemma AppendKeepsInv(s: State, ents: seq<Entry>)
    requires LogInv(s) && LogOf(s).Accepts(ents)
    ensures LogInv(Append(s, ents)) && LogOf(Append(s, ents)) == LogOf(s).Append(ents)
  {
    hide Append, Log.Append, Contiguous, WindowHeld;
    AppendWindow(s, ents);
    LogOf(s).AppendWellFormed(ents);
  }

  /** `truncateAndAppend` is `Log.Append` on every contiguous batch that leaves no gap: the
      window holds the old log below the batch followed by the uncompacted part of the
      batch, the old suffix is off the disk, the cached last term stays right, and nothing
      but log records is written. If the terms rise they still do. */
  lemma AppendRefines(s: State, ents: seq<Entry>)
    requires WindowHeld(s) && Joins(s.mem, ents)
    ensures WindowHeld(Append(s, ents))
    ensures LogOf(Append(s, ents)) == LogOf(s).Append(ents)
    ensures LastTermOk(s) ==> LastTermOk(Append(s, ents))
    ensures Append(s, ents).disk.kv == s.disk.kv
    ensures forall k: Key | !k.LogEntry? :: Find(Append(s, ents).disk.meta, k) == Find(s.disk.meta, k)
    ensures forall i: U64 | LogOf(s).Append(ents).Last() < i <= s.mem.local.lastIndex ::
              LogEntry(i) !in Append(s, ents).disk.meta
    ensures LogInv(s) && LogOf(s).Accepts(ents) ==> LogInv(Append(s, ents))
  {
    AppendWindow(s, ents);
    if LogInv(s) && LogOf(s).Accepts(ents) {
      AppendKeepsInv(s, ents);
    }
    if Reaches(s.mem, ents) {
      var s', last := Append(s, ents), ents[|ents| - 1].index;
      KeptIsUncompacted(s.mem, ents);
      AppendLeavesState(s, ents, LocalKey);
      forall k: Key | !k.LogEntry?
        ensures Find(s'.disk.meta, k) == Find(s.disk.meta, k)
      {
        AppendLeavesState(s, ents, k);
      }
      forall i: U64 | last < i <= s.mem.local.lastIndex
        ensures LogEntry(i) !in s'.disk.meta
      {
        AppendEffect(s, ents, LogEntry(i));
      }
    }
  }

  /** Changing records outside the window, or the key-value store, does not change the log. */
  lemma SameWindow(s: State, s': State)
    requires LogInv(s) && s'.mem.local == s.mem.local
    requires s'.mem.apply.truncIndex == s.mem.apply.truncIndex && s'.mem.apply.truncTerm == s.mem.apply.truncTerm
    requires forall i: U64 | s.mem.apply.truncIndex < i <= s.mem.local.lastIndex ::
               Find(s'.disk.meta, LogEntry(i)) == Find(s.disk.meta, LogEntry(i))
    ensures LogInv(s') && LogOf(s') == LogOf(s)
  {
    forall i: U64 | s.mem.apply.truncIndex < i <= s.mem.local.lastIndex
      ensures Find(s'.disk.meta, LogEntry(i)) == Some(EntryRecord(LogOf(s).EntryAt(i)))
    {
      WindowRecord(s, i);
    }
    WindowIs(s', LogOf(s));
  }

  /** Raising the truncated index drops a prefix of the log. */
  lemma CompactRefines(s: State, s': State, index: U64, term: U64)
    requires LogInv(s) && s'.mem.local == s.mem.local
    requires s.mem.apply.truncIndex <= index <= s.mem.local.lastIndex && term == LogOf(s).TermAt(index)
    requires s'.mem.apply.truncIndex == index && s'.mem.apply.truncTerm == term
    requires forall i: U64 | index < i <= s.mem.local.lastIndex ::
               Find(s'.disk.meta, LogEntry(i)) == Find(s.disk.meta, LogEntry(i))
    ensures LogInv(s') && LogOf(s') == LogOf(s).Compact(index, term)
  {
    var log, log' := LogOf(s), LogOf(s).Compact(index, term);
    log.CompactWellFormed(index, term);
    forall i: U64 | index < i <= s.mem.local.lastIndex
      ensures Find(s'.disk.meta, LogEntry(i)) == Some(EntryRecord(log'.EntryAt(i)))
    {
      WindowRecord(s, i);
      assert log'.EntryAt(i) == log.EntryAt(i);
    }
    WindowIs(s', log');
  }

  ghost function Install(s: State, snap: Snapshot): State
  {
    State(ApplyWrites(s.disk, InstallWrites(s.mem, snap)), InstallMem(s.mem, snap))
  }

  lemma SnapshotDisk(s: State, snap: Snapshot)
    ensures ApplyWrites(s.disk, SnapshotWrites(s.mem, snap)) ==
            ApplyWrites(ApplyWrite(ApplyWrite(s.disk,
                PutMeta(ApplyKey, ApplyRecord(SnapshotMem(s.mem, snap.meta).apply))),
                                   PutMeta(ConfKey, ConfRecord(snap.meta.conf))),
                        PutPairs(PairsOf(snap)))
  {
    hide PairsOf;
    var w1, w2 := PutMeta(ApplyKey, ApplyRecord(SnapshotMem(s.mem, snap.meta).apply)),
        PutMeta(ConfKey, ConfRecord(snap.meta.conf));
    ApplyConcat(s.disk, [w1, w2], PutPairs(PairsOf(snap)));
    ApplyFew(s.disk, w1, w2);
  }

  lemma NoPairs(d: Disk)
    ensures PutPairs([]) == [] && ApplyWrites(d, PutPairs([])) == d
  {
  }

  /** A snapshot leaves an empty log at its index, whatever log records stay on disk. */
  lemma InstallRefines(s: State, snap: Snapshot)
    requires LogInv(s) && Decodable(snap) && snap.meta.index < TWO_64 - 1
    ensures var s' := Install(s, snap);
            if IsEmptySnap(snap) then s' == s else
            && LogInv(s')
            && LogOf(s') == Log(snap.meta.index, snap.meta.term, [])
            && s'.disk.kv == PutAll(s.disk.kv, Decoded(snap.data).value)
            && s'.disk.meta == s.disk.meta[ApplyKey := ApplyRecord(s'.mem.apply)][ConfKey := ConfRecord(s'.mem.conf)]
  {
    if !IsEmptySnap(snap) {
      var ps := Decoded(snap.data).value;
      SnapshotDisk(s, snap);
      PutPairsEffect(ApplyWrite(ApplyWrite(s.disk, PutMeta(ApplyKey, ApplyRecord(SnapshotMem(s.mem, snap.meta).apply))),
                                PutMeta(ConfKey, ConfRecord(snap.meta.conf))), ps);
    }
  }
}
