/** The byte keys of the meta store, and the structured store that they refine. */
module MetaKey {
  import opened ByteStrings
  import opened Wrappers

  datatype Key = LogEntry(index: U64) | LocalKey | ApplyKey | ConfKey

  const KIND_LOG_ENTRY: byte := 1
  const KIND_LOCAL_STATE: byte := 2
  const KIND_APPLY_STATE: byte := 3
  const KIND_CONF_STATE: byte := 4

  function EncodeKey(k: Key): Bytes
  {
    match k
    case LogEntry(i) => [KIND_LOG_ENTRY] + LittleEndian(i, 8)
    case LocalKey => [KIND_LOCAL_STATE]
    case ApplyKey => [KIND_APPLY_STATE]
    case ConfKey => [KIND_CONF_STATE]
  }

  /** A reference decoder: the source never reads a key back. */
  ghost function DecodeKey(b: Bytes): Option<Key>
  {
    if |b| == 9 && b[0] == KIND_LOG_ENTRY && FromLittleEndian(b[1..]) < TWO_64
        then Some(LogEntry(FromLittleEndian(b[1..])))
    else if b == [KIND_LOCAL_STATE] then Some(LocalKey)
    else if b == [KIND_APPLY_STATE] then Some(ApplyKey)
    else if b == [KIND_CONF_STATE] then Some(ConfKey)
    else None
  }

  /** The bytes of each key. */
  lemma KeyBytes(i: U64)
    ensures EncodeKey(LogEntry(i))[0] == 1 && EncodeKey(LogEntry(i))[1..] == LittleEndian(i, 8)
    ensures EncodeKey(LocalKey) == [2] && EncodeKey(ApplyKey) == [3] && EncodeKey(ConfKey) == [4]
  {
  }

  lemma KeyRoundTrip(k: Key)
    ensures DecodeKey(EncodeKey(k)) == Some(k)
  {
    if k.LogEntry? {
      WordSizes();
      LittleEndianRoundTrip(k.index, 8);
      assert EncodeKey(k)[1..] == LittleEndian(k.index, 8);
    }
  }

  /** Log keys are injective over all 64-bit indexes and never collide with a state key. */
  lemma KeysDisjoint(j: Key, k: Key)
    ensures EncodeKey(j) == EncodeKey(k) <==> j == k
  {
    KeyRoundTrip(j);
    KeyRoundTrip(k);
  }

  ghost predicate Agrees<V(!new)>(db: map<Bytes, V>, m: map<Key, V>, k: Key)
  {
    && (k in m <==> EncodeKey(k) in db)
    && (k in m ==> m[k] == db[EncodeKey(k)])
  }

  /** The byte-keyed store `db` holds at each encoded key what `m` holds at the key. */
  ghost predicate Refines<V(!new)>(db: map<Bytes, V>, m: map<Key, V>)
  {
    forall k: Key :: Agrees(db, m, k)
  }

  lemma RefinesPut<V(!new)>(db: map<Bytes, V>, m: map<Key, V>, k: Key, v: V)
    requires Refines(db, m)
    ensures Refines(db[EncodeKey(k) := v], m[k := v])
  {
    var db', m' := db[EncodeKey(k) := v], m[k := v];
    forall j: Key ensures Agrees(db', m', j) {
      assert Agrees(db, m, j);
      KeysDisjoint(j, k);
    }
  }

  lemma RefinesDelete<V(!new)>(db: map<Bytes, V>, m: map<Key, V>, k: Key)
    requires Refines(db, m)
    ensures Refines(db - {EncodeKey(k)}, m - {k})
  {
    var db', m' := db - {EncodeKey(k)}, m - {k};
    forall j: Key ensures Agrees(db', m', j) {
      assert Agrees(db, m, j);
      KeysDisjoint(j, k);
    }
  }
}
