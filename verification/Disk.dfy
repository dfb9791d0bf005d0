/** What survives a crash: the two stores, changed by one atomic write at a time. */
module Disk {
  import opened ByteStrings
  import opened RaftTypes
  import opened MetaKey
  import opened Commands

  datatype Disk = Disk(meta: map<Key, Record>, kv: KvMap)

  datatype Write = PutMeta(key: Key, record: Record)
                 | DeleteMeta(key: Key)
                 | PutKv(kvKey: Bytes, value: Bytes)
                 | DeleteKv(kvKey: Bytes)

  function ApplyWrite(d: Disk, w: Write): Disk
  {
    match w
    case PutMeta(k, r) => d.(meta := d.meta[k := r])
    case DeleteMeta(k) => d.(meta := d.meta - {k})
    case PutKv(k, v) => d.(kv := d.kv[k := v])
    case DeleteKv(k) => d.(kv := d.kv - {k})
  }

  function ApplyWrites(d: Disk, ws: seq<Write>): Disk
  {
    if ws == [] then d else ApplyWrite(ApplyWrites(d, ws[..|ws| - 1]), ws[|ws| - 1])
  }

  lemma {:induction false} ApplyConcat(d: Disk, xs: seq<Write>, ys: seq<Write>)
    ensures ApplyWrites(d, xs + ys) == ApplyWrites(ApplyWrites(d, xs), ys)
  {
    if ys == [] {
      assert xs + ys == xs;
    } else {
      assert (xs + ys)[..|xs + ys| - 1] == xs + ys[..|ys| - 1];
      ApplyConcat(d, xs, ys[..|ys| - 1]);
    }
  }

  lemma ApplyFew(d: Disk, w1: Write, w2: Write)
    ensures ApplyWrites(d, [w1]) == ApplyWrite(d, w1)
    ensures ApplyWrites(d, [w1, w2]) == ApplyWrite(ApplyWrite(d, w1), w2)
  {
    assert [w1][..0] == [] && [w1, w2][..1] == [w1];
  }

  predicate TouchesLog(w: Write) { (w.PutMeta? || w.DeleteMeta?) && w.key.LogEntry? }

  predicate TouchesState(w: Write) { (w.PutMeta? || w.DeleteMeta?) && !w.key.LogEntry? }

  /** The same writes on a byte-keyed meta store, as the source issues them. */
  function ApplyBytes(db: map<Bytes, Record>, ws: seq<Write>): map<Bytes, Record>
  {
    if ws == [] then db else
    var before := ApplyBytes(db, ws[..|ws| - 1]);
    match ws[|ws| - 1]
    case PutMeta(k, r) => before[EncodeKey(k) := r]
    case DeleteMeta(k) => before - {EncodeKey(k)}
    case _ => before
  }

  /** The byte-keyed store refines the structured one over every run of writes. */
  lemma {:induction false} BytesRefineKeys(db: map<Bytes, Record>, d: Disk, ws: seq<Write>)
    requires Refines(db, d.meta)
    ensures Refines(ApplyBytes(db, ws), ApplyWrites(d, ws).meta)
  {
    if ws != [] {
      var init, last := ws[..|ws| - 1], ws[|ws| - 1];
      BytesRefineKeys(db, d, init);
      match last
      case PutMeta(k, r) => RefinesPut(ApplyBytes(db, init), ApplyWrites(d, init).meta, k, r);
      case DeleteMeta(k) => RefinesDelete(ApplyBytes(db, init), ApplyWrites(d, init).meta, k);
      case _ =>
    }
  }

  /** Log puts and deletes leave the three state records alone, byte for byte, and
      writes of those records leave every log record alone. */
  lemma {:induction false} LogAndStateSeparate(db: map<Bytes, Record>, ws: seq<Write>, k: Key)
    requires if k.LogEntry? then forall w | w in ws :: TouchesState(w) else forall w | w in ws :: TouchesLog(w)
    ensures EncodeKey(k) in ApplyBytes(db, ws) <==> EncodeKey(k) in db
    ensures EncodeKey(k) in db ==> ApplyBytes(db, ws)[EncodeKey(k)] == db[EncodeKey(k)]
  {
    if ws != [] {
      var init, last := ws[..|ws| - 1], ws[|ws| - 1];
      LogAndStateSeparate(db, init, k);
      assert last in ws;
      KeysDisjoint(last.key, k);
    }
  }
}
