/** A replica's storage as a value: what each operation of `peerStorage` writes, in
    which order, and the abstract log that the records stand for. */
module StorageState {
  import opened ByteStrings
  import opened Wrappers
  import opened RaftTypes
  import opened MetaKey
  import opened PairCodec
  import opened Disk
  import opened RaftLog

  /** The cached state, lost in a crash. */
  datatype Mem = Mem(local: LocalState, apply: ApplyState, conf: ConfState)

  datatype State = State(disk: Disk, mem: Mem)

  type Meta = map<Key, Record>

  function Find(meta: Meta, k: Key): Option<Record>
  {
    if k in meta then Some(meta[k]) else None
  }

  // ---- Reads -------------------------------------------------------------

  function FirstIndex(mem: Mem): U64 { Inc(mem.apply.truncIndex) }

  function CheckRange(mem: Mem, lo: U64, hi: U64): Option<LogError>
  {
    if lo > hi then Some(ErrRange)
    else if hi > Inc(mem.local.lastIndex) then Some(ErrRange)
    else if lo <= mem.apply.truncIndex then Some(ErrCompacted)
    else None
  }

  function ReadEntry(meta: Meta, i: U64): Result<Entry, LogError>
  {
    match Find(meta, LogEntry(i))
    case None => Failure(ErrNotFound)
    case Some(EntryRecord(e)) => Success(e)
    case Some(_) => Failure(ErrUnmarshal)
  }

  function Prepended(ents: seq<Entry>, r: Result<seq<Entry>, LogError>): Result<seq<Entry>, LogError>
  {
    match r
    case Failure(e) => Failure(e)
    case Success(rest) => Success(ents + rest)
  }

  /** The read loop from `lo` on: it stops early at a record of another index. */
  function Collect(meta: Meta, lo: U64, hi: U64): Result<seq<Entry>, LogError>
    decreases hi - lo
  {
    if lo >= hi then Success([]) else
    match ReadEntry(meta, lo)
    case Failure(e) => Failure(e)
    case Success(ent) =>
      if ent.index != lo then Success([]) else Prepended([ent], Collect(meta, lo + 1, hi))
  }

  lemma PrependNothing(r: Result<seq<Entry>, LogError>)
    ensures Prepended([], r) == r
  {
    if r.Success? {
      assert [] + r.value == r.value;
    }
  }

  lemma PrependOne(ents: seq<Entry>, ent: Entry, r: Result<seq<Entry>, LogError>)
    ensures Prepended(ents, Prepended([ent], r)) == Prepended(ents + [ent], r)
  {
    if r.Success? {
      assert ents + ([ent] + r.value) == (ents + [ent]) + r.value;
    }
  }

  function ReadEntries(s: State, lo: U64, hi: U64): Result<seq<Entry>, LogError>
  {
    match CheckRange(s.mem, lo, hi)
    case Some(e) => Failure(e)
    case None =>
      match Collect(s.disk.meta, lo, hi)
      case Failure(e) => Failure(e)
      case Success(ents) => if |ents| == hi - lo then Success(ents) else Failure(ErrUnavailable)
  }

  function ReadTerm(s: State, i: U64): Result<U64, LogError>
  {
    if i == s.mem.apply.truncIndex then Success(s.mem.apply.truncTerm) else
    match CheckRange(s.mem, i, Inc(i))
    case Some(e) => Failure(e)
    case None =>
      if i == s.mem.local.lastIndex then Success(s.mem.local.lastTerm) else
      match ReadEntry(s.disk.meta, i)
      case Failure(e) => Failure(e)
      case Success(ent) => Success(ent.term)
  }

  // ---- Writes ------------------------------------------------------------

  function PutEntries(ents: seq<Entry>): (ws: seq<Write>)
    ensures |ws| == |ents|
  {
    seq(|ents|, k requires 0 <= k < |ents| => PutMeta(LogEntry(ents[k].index), EntryRecord(ents[k])))
  }

  function DeleteRange(lo: U64, hi: U64): (ws: seq<Write>)
    requires lo <= hi + 1
    ensures |ws| == hi - lo + 1
  {
    seq(hi - lo + 1, k requires 0 <= k < hi - lo + 1 => DeleteMeta(LogEntry(lo + k)))
  }

  /** The batch reaches past the truncated index. */
  predicate Reaches(mem: Mem, ents: seq<Entry>)
  {
    ents != [] && FirstIndex(mem) <= ents[|ents| - 1].index
  }

  /** Where the uncompacted part of a batch starts, computed as in the source. */
  function KeptFrom(mem: Mem, ents: seq<Entry>): U64
    requires ents != []
  {
    if FirstIndex(mem) > ents[0].index then Inc(Sub(mem.apply.truncIndex, ents[0].index)) else 0
  }

  /** The slice would be out of range, which a contiguous batch never is. */
  predicate SliceFails(mem: Mem, ents: seq<Entry>)
  {
    Reaches(mem, ents) && KeptFrom(mem, ents) > |ents|
  }

  /** The batch without its compacted part. */
  function Kept(mem: Mem, ents: seq<Entry>): (kept: seq<Entry>)
    requires Reaches(mem, ents)
    ensures |kept| <= |ents| && kept == ents[|ents| - |kept|..]
    ensures Contiguous(ents) ==> kept != []
  {
    if KeptFrom(mem, ents) > |ents| then [] else ents[KeptFrom(mem, ents)..]
  }

  function AppendWrites(mem: Mem, ents: seq<Entry>): seq<Write>
  {
    if !Reaches(mem, ents) then [] else
    var last := ents[|ents| - 1].index;
    PutEntries(Kept(mem, ents)) +
    if mem.local.lastIndex > last then DeleteRange(last + 1, mem.local.lastIndex) else []
  }

  function AppendMem(mem: Mem, ents: seq<Entry>): Mem
  {
    if !Reaches(mem, ents) then mem else
    var last := ents[|ents| - 1];
    mem.(local := mem.local.(lastIndex := last.index, lastTerm := last.term))
  }

  function PutPairs(ps: seq<Pair>): (ws: seq<Write>)
    ensures |ws| == |ps|
  {
    seq(|ps|, k requires 0 <= k < |ps| => PutKv(ps[k].key, ps[k].val))
  }

  function SnapshotMem(mem: Mem, meta: SnapshotMeta): Mem
  {
    Mem(mem.local.(lastIndex := meta.index, lastTerm := meta.term),
        ApplyState(meta.index, meta.index, meta.term),
        meta.conf)
  }

  predicate Decodable(snap: Snapshot) { IsEmptySnap(snap) || Decoded(snap.data).Ok? }

  function PairsOf(snap: Snapshot): seq<Pair>
  {
    match Decoded(snap.data)
    case Ok(ps) => ps
    case Panic => []
  }

  /** Data that does not decode panics after the two state records were written. */
  function SnapshotWrites(mem: Mem, snap: Snapshot): seq<Write>
  {
    [PutMeta(ApplyKey, ApplyRecord(SnapshotMem(mem, snap.meta).apply)),
     PutMeta(ConfKey, ConfRecord(snap.meta.conf))]
    + PutPairs(PairsOf(snap))
  }

  function InstallMem(mem: Mem, snap: Snapshot): Mem
  {
    if IsEmptySnap(snap) then mem else SnapshotMem(mem, snap.meta)
  }

  function InstallWrites(mem: Mem, snap: Snapshot): seq<Write>
  {
    if IsEmptySnap(snap) then [] else SnapshotWrites(mem, snap)
  }

  function HardStateMem(mem: Mem, h: HardState): Mem
  {
    if IsEmptyHardState(h) then mem else mem.(local := mem.local.(hardState := h))
  }

  function SaveMem(mem: Mem, rd: Ready): Mem
  {
    HardStateMem(AppendMem(InstallMem(mem, rd.snapshot), rd.entries), rd.hardState)
  }

  function SaveWrites(mem: Mem, rd: Ready): seq<Write>
  {
    InstallWrites(mem, rd.snapshot) + AppendWrites(InstallMem(mem, rd.snapshot), rd.entries)
    + [PutMeta(LocalKey, LocalRecord(SaveMem(mem, rd).local))]
  }

  /** Saving panics: the snapshot does not decode, or the batch is not contiguous in a way
      that puts the slice out of range. */
  predicate SaveFails(mem: Mem, rd: Ready)
  {
    !Decodable(rd.snapshot) || SliceFails(InstallMem(mem, rd.snapshot), rd.entries)
  }

  function Save(s: State, rd: Ready): State
  {
    State(ApplyWrites(s.disk, SaveWrites(s.mem, rd)), SaveMem(s.mem, rd))
  }

  function Append(s: State, ents: seq<Entry>): State
  {
    State(ApplyWrites(s.disk, AppendWrites(s.mem, ents)), AppendMem(s.mem, ents))
  }

  // ---- Recovery ----------------------------------------------------------

  function GetLocalState(meta: Meta): Outcome<LocalState>
  {
    match Find(meta, LocalKey)
    case None => Ok(LocalState(NO_HARD_STATE, 0, 0))
    case Some(LocalRecord(l)) => Ok(l)
    case Some(_) => Panic
  }

  function GetApplyState(meta: Meta): Outcome<ApplyState>
  {
    match Find(meta, ApplyKey)
    case None => Ok(ApplyState(0, 0, 0))
    case Some(ApplyRecord(a)) => Ok(a)
    case Some(_) => Panic
  }

  function GetConfState(meta: Meta): Outcome<ConfState>
  {
    match Find(meta, ConfKey)
    case None => Ok(NO_CONF_STATE)
    case Some(ConfRecord(c)) => Ok(c)
    case Some(_) => Panic
  }

  /** What a restart reads back. */
  function Recover(d: Disk): Outcome<Mem>
  {
    var l, a, c := GetLocalState(d.meta), GetApplyState(d.meta), GetConfState(d.meta);
    if l.Panic? || a.Panic? || c.Panic? then Panic else Ok(Mem(l.value, a.value, c.value))
  }

  /** A restart reads back exactly the records, zero where there is none, and panics exactly
      if one of the three is of another kind. */
  lemma RecoverExactly(d: Disk)
    ensures Recover(d).Ok? <==>
            && (LocalKey in d.meta ==> d.meta[LocalKey].LocalRecord?)
            && (ApplyKey in d.meta ==> d.meta[ApplyKey].ApplyRecord?)
            && (ConfKey in d.meta ==> d.meta[ConfKey].ConfRecord?)
    ensures Recover(d).Ok? ==>
              var mem := Recover(d).value;
              && mem.local ==
                 (if LocalKey in d.meta then d.meta[LocalKey].local else LocalState(HardState(0, 0, 0), 0, 0))
              && mem.apply == (if ApplyKey in d.meta then d.meta[ApplyKey].apply else ApplyState(0, 0, 0))
              && mem.conf == (if ConfKey in d.meta then d.meta[ConfKey].conf else ConfState([], [], [], [], false))
  {
  }

  /** The slice of a batch is out of range exactly if its indexes have a gap that its length
      does not cover. */
  lemma SliceFailsIff(mem: Mem, ents: seq<Entry>)
    requires mem.apply.truncIndex < TWO_64 - 1
    ensures SliceFails(mem, ents) <==>
            && ents != []
            && ents[0].index <= mem.apply.truncIndex < ents[|ents| - 1].index
            && mem.apply.truncIndex - ents[0].index + 1 > |ents|
  {
  }

  // ---- The log behind the records ----------------------------------------

  ghost predicate Holds(meta: Meta, i: int)
  {
    && 0 <= i < TWO_64
    && LogEntry(i) in meta
    && meta[LogEntry(i)].EntryRecord?
    && meta[LogEntry(i)].entry.index == i
  }

  ghost predicate WindowHeld(s: State)
  {
    && s.mem.apply.truncIndex <= s.mem.local.lastIndex < TWO_64 - 1
    && forall i | s.mem.apply.truncIndex < i <= s.mem.local.lastIndex :: Holds(s.disk.meta, i)
  }

  /** The records of the window (truncated index, last index]; other log records may
      linger on disk and do not count. */
  ghost function LogOf(s: State): (log: Log)
    requires WindowHeld(s)
    ensures log.Last() == s.mem.local.lastIndex
  {
    var t := s.mem.apply.truncIndex;
    Log(t, s.mem.apply.truncTerm,
        seq(s.mem.local.lastIndex - t, k requires 0 <= k < s.mem.local.lastIndex - t =>
          assert Holds(s.disk.meta, t + 1 + k); s.disk.meta[LogEntry(t + 1 + k)].entry))
  }

  ghost predicate LogInv(s: State)
  {
    && WindowHeld(s)
    && LogOf(s).WellFormed()
    && s.mem.local.lastTerm == LogOf(s).TermAt(s.mem.local.lastIndex)
  }

  lemma {:induction false} CollectWindow(s: State, lo: U64, hi: U64)
    requires WindowHeld(s)
    requires s.mem.apply.truncIndex < lo <= hi <= s.mem.local.lastIndex + 1
    ensures Collect(s.disk.meta, lo, hi) == LogOf(s).Entries(lo, hi)
    decreases hi - lo
  {
    var t, ents := s.mem.apply.truncIndex, LogOf(s).ents;
    if lo < hi {
      CollectWindow(s, lo + 1, hi);
      assert Holds(s.disk.meta, lo);
      assert ReadEntry(s.disk.meta, lo) == Success(ents[lo - t - 1]);
      assert Collect(s.disk.meta, lo, hi) == Prepended([ents[lo - t - 1]], Collect(s.disk.meta, lo + 1, hi));
      assert ents[lo - t - 1..hi - t - 1] == [ents[lo - t - 1]] + ents[lo - t..hi - t - 1];
    } else {
      assert ents[lo - t - 1..hi - t - 1] == [];
    }
  }

  lemma EntriesRefineLog(s: State, lo: U64, hi: U64)
    requires WindowHeld(s)
    ensures ReadEntries(s, lo, hi) == LogOf(s).Entries(lo, hi)
  {
    if s.mem.apply.truncIndex < lo <= hi <= s.mem.local.lastIndex + 1 {
      CollectWindow(s, lo, hi);
    }
  }

  lemma TermRefinesLog(s: State, i: U64)
    requires LogInv(s)
    ensures ReadTerm(s, i) == LogOf(s).Term(i)
  {
    hide TermsRise, Collect;
    if s.mem.apply.truncIndex < i <= s.mem.local.lastIndex {
      assert Holds(s.disk.meta, i);
    }
  }

  /** `Entries`, `Term`, `FirstIndex` and `LastIndex` answer as the abstract log, for
      every 64-bit argument; in particular no read comes up short. */
  lemma ReadsRefineLog(s: State, lo: U64, hi: U64)
    requires LogInv(s)
    ensures ReadEntries(s, lo, hi) == LogOf(s).Entries(lo, hi)
    ensures ReadTerm(s, lo) == LogOf(s).Term(lo)
    ensures FirstIndex(s.mem) == LogOf(s).offset + 1 && s.mem.local.lastIndex == LogOf(s).Last()
  {
    EntriesRefineLog(s, lo, hi);
    TermRefinesLog(s, lo);
  }
}
