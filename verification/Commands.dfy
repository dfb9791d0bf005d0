/** The in-memory store that the replicated store must match, and the replay of
    committed commands on it. */
module Commands {
  import opened ByteStrings
  import opened Wrappers
  import opened RaftTypes

  type KvMap = map<Bytes, Bytes>

  /** What a command does to user data; everything else leaves the data alone. */
  datatype KvOp = NoOp | PutOp(key: Bytes, value: Bytes) | DeleteOp(key: Bytes)

  function OpOf(cmd: RaftCmd): KvOp
  {
    match cmd.request
    case Some(Put(k, v)) => PutOp(k, v)
    case Some(Delete(k)) => DeleteOp(k)
    case _ => NoOp
  }

  /** The compaction a command carries, if it is not shadowed by a plain request. */
  function CompactionOf(cmd: RaftCmd): Option<AdminRequest>
  {
    if cmd.request.Some? then None else cmd.admin
  }

  function Perform(db: KvMap, op: KvOp): KvMap
  {
    match op
    case NoOp => db
    case PutOp(k, v) => db[k := v]
    case DeleteOp(k) => db - {k}
  }

  /** The entries `ents` applied in order to `db`. */
  function ReplayOn(db: KvMap, ents: seq<Entry>): KvMap
  {
    if ents == [] then db
    else Perform(ReplayOn(db, ents[..|ents| - 1]), OpOf(ents[|ents| - 1].cmd))
  }

  /** The in-memory store after the committed prefix `ents`. */
  function Replay(ents: seq<Entry>): KvMap { ReplayOn(map[], ents) }

  predicate Touches(op: KvOp, k: Bytes) { !op.NoOp? && op.key == k }

  predicate Touched(ents: seq<Entry>, k: Bytes)
  {
    exists i | 0 <= i < |ents| :: Touches(OpOf(ents[i].cmd), k)
  }

  function Lookup(db: KvMap, k: Bytes): Option<Bytes>
  {
    if k in db then Some(db[k]) else None
  }

  lemma {:induction false} ReplayConcat(db: KvMap, xs: seq<Entry>, ys: seq<Entry>)
    ensures ReplayOn(db, xs + ys) == ReplayOn(ReplayOn(db, xs), ys)
  {
    if ys == [] {
      assert xs + ys == xs;
    } else {
      assert (xs + ys)[..|xs + ys| - 1] == xs + ys[..|ys| - 1];
      ReplayConcat(db, xs, ys[..|ys| - 1]);
    }
  }

  /** Last write wins: a touched key forgets where the replay began, and an untouched
      key keeps what it had there. */
  lemma {:induction false} LastWriteWins(a: KvMap, b: KvMap, ents: seq<Entry>, k: Bytes)
    ensures Touched(ents, k) ==> Lookup(ReplayOn(a, ents), k) == Lookup(ReplayOn(b, ents), k)
    ensures !Touched(ents, k) ==> Lookup(ReplayOn(a, ents), k) == Lookup(a, k)
  {
    if ents != [] {
      var init, last := ents[..|ents| - 1], ents[|ents| - 1];
      LastWriteWins(a, b, init, k);
      if Touched(ents, k) && !Touches(OpOf(last.cmd), k) {
        var i :| 0 <= i < |ents| && Touches(OpOf(ents[i].cmd), k);
        assert Touches(OpOf(init[i].cmd), k);
      }
      if Touched(init, k) {
        var i :| 0 <= i < |init| && Touches(OpOf(init[i].cmd), k);
        assert Touches(OpOf(ents[i].cmd), k);
      }
    }
  }

  lemma SameLookups(a: KvMap, b: KvMap)
    requires forall k :: Lookup(a, k) == Lookup(b, k)
    ensures a == b
  {
    forall k: Bytes
      ensures k in a <==> k in b
      ensures k in a ==> a[k] == b[k]
    {
      assert Lookup(a, k) == Lookup(b, k);
    }
  }

  /** Replaying blind puts and deletes that a state already includes changes nothing. */
  lemma ReplayIdempotent(ents: seq<Entry>, i: nat, j: nat)
    requires i <= j <= |ents|
    ensures ReplayOn(Replay(ents[..j]), ents[i..j]) == Replay(ents[..j])
  {
    var s := Replay(ents[..j]);
    var t := ReplayOn(s, ents[i..j]);
    assert ents[..j] == ents[..i] + ents[i..j];
    ReplayConcat(map[], ents[..i], ents[i..j]);
    forall k: Bytes
      ensures Lookup(t, k) == Lookup(s, k)
    {
      LastWriteWins(s, Replay(ents[..i]), ents[i..j], k);
    }
    SameLookups(s, t);
  }

  /** The entry puts or deletes `k`. */
  predicate Writes(ent: Entry, k: Bytes)
  {
    match ent.cmd.request
    case Some(Put(key, _)) => key == k
    case Some(Delete(key)) => key == k
    case _ => false
  }

  /** What a replay leaves at a key, read off the entries: the value of the last put, nothing
      after a last delete, and what was there before if no entry writes the key. */
  lemma {:induction false} LastWriteIs(db: KvMap, ents: seq<Entry>, k: Bytes)
    ensures (forall i | 0 <= i < |ents| :: !Writes(ents[i], k)) ==>
              (k in ReplayOn(db, ents) <==> k in db) && (k in db ==> ReplayOn(db, ents)[k] == db[k])
    ensures forall i | 0 <= i < |ents| && Writes(ents[i], k) && (forall j | i < j < |ents| :: !Writes(ents[j], k)) ::
              match ents[i].cmd.request.value
              case Put(_, v) => k in ReplayOn(db, ents) && ReplayOn(db, ents)[k] == v
              case _ => k !in ReplayOn(db, ents)
  {
    if ents != [] {
      var init := ents[..|ents| - 1];
      LastWriteIs(db, init, k);
      forall i | 0 <= i < |ents| && Writes(ents[i], k) && (forall j | i < j < |ents| :: !Writes(ents[j], k))
        ensures match ents[i].cmd.request.value
                case Put(_, v) => k in ReplayOn(db, ents) && ReplayOn(db, ents)[k] == v
                case _ => k !in ReplayOn(db, ents)
      {
        if i < |init| {
          assert init[i] == ents[i] && !Writes(ents[|ents| - 1], k);
          assert forall j | i < j < |init| :: init[j] == ents[j];
        }
      }
    }
  }

  class MemoryStore {
    var db: KvMap

    constructor ()
      ensures db == Replay([])
    {
      db := map[];
    }

    method Set(key: Bytes, value: Bytes)
      modifies this
      ensures db == old(db)[key := value] == Perform(old(db), PutOp(key, value))
    {
      db := db[key := value];
    }

    /** A missing key reads as nil, the empty value here. */
    method Get(key: Bytes) returns (value: Bytes)
      ensures value == if key in db then db[key] else []
    {
      if key in db {
        return db[key];
      }
      return [];
    }

    method Delete(key: Bytes)
      modifies this
      ensures db == old(db) - {key} == Perform(old(db), DeleteOp(key))
    {
      db := db - {key};
    }
  }
}
