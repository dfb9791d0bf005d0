/** The two databases of a replica. */
module Engines {
  import opened ByteStrings
  import opened Wrappers
  import opened RaftTypes
  import opened MetaKey
  import opened Commands
  import opened PairCodec
  import opened Storage
  import opened Disk

  datatype Modify<V> = Put(key: Bytes, value: V, sync: bool) | Delete(key: Bytes, sync: bool) | Unknown

  class Engines {
    /** User data. */
    const kv: Storage<Bytes>
    /** Raft meta data. */
    const meta: Storage<Record>

    /** What a crash at this moment would leave. */
    ghost var disk: Disk

    /** Every write so far, in the order in which it reached a database. */
    ghost var journal: seq<Write>

    ghost function Repr(): set<object> { {this, kv, meta} }

    ghost predicate Valid()
      reads Repr()
    {
      && kv as object != meta
      && kv.db == disk.kv
      && Refines(meta.db, disk.meta)
    }

    constructor ()
      ensures Valid() && fresh(Repr())
      ensures disk == Disk(map[], map[]) && journal == []
    {
      kv := new Storage<Bytes>();
      meta := new Storage<Record>();
      disk := Disk(map[], map[]);
      journal := [];
      new;
      assert forall k: Key :: Agrees(meta.db, disk.meta, k);
    }

    method WriteKV(m: Modify<Bytes>) returns (err: Option<Error>)
      requires Valid()
      modifies this`journal, this`disk, kv
      ensures Valid()
      ensures m.Unknown? ==> err == Some(UnknownModify) && journal == old(journal) && disk == old(disk)
      ensures !m.Unknown? ==>
                var w := if m.Put? then PutKv(m.key, m.value) else DeleteKv(m.key);
                && err == None
                && journal == old(journal) + [w]
                && disk == ApplyWrite(old(disk), w)
    {
      match m {
        case Put(key, value, _) =>
          kv.Set(key, value);
          disk := ApplyWrite(disk, PutKv(key, value));
          journal := journal + [PutKv(key, value)];
        case Delete(key, _) =>
          kv.Delete(key);
          disk := ApplyWrite(disk, DeleteKv(key));
          journal := journal + [DeleteKv(key)];
        case Unknown =>
          return Some(UnknownModify);
      }
      return None;
    }

    /** `key` is the structured key that the bytes of `m` encode. */
    method WriteMeta(m: Modify<Record>, ghost key: Key) returns (err: Option<Error>)
      requires Valid()
      requires !m.Unknown? ==> m.key == EncodeKey(key)
      modifies this`journal, this`disk, meta
      ensures Valid()
      ensures m.Unknown? ==> err == Some(UnknownModify) && journal == old(journal) && disk == old(disk)
      ensures !m.Unknown? ==>
                var w := if m.Put? then PutMeta(key, m.value) else DeleteMeta(key);
                && err == None
                && journal == old(journal) + [w]
                && disk == ApplyWrite(old(disk), w)
    {
      match m {
        case Put(k, value, _) =>
          RefinesPut(meta.db, disk.meta, key, value);
          meta.Set(k, value);
          disk := ApplyWrite(disk, PutMeta(key, value));
          journal := journal + [PutMeta(key, value)];
        case Delete(k, _) =>
          RefinesDelete(meta.db, disk.meta, key);
          meta.Delete(k);
          disk := ApplyWrite(disk, DeleteMeta(key));
          journal := journal + [DeleteMeta(key)];
        case Unknown =>
          return Some(UnknownModify);
      }
      return None;
    }

    method ReadKV(key: Bytes) returns (r: Result<Bytes, Error>)
      requires Valid()
      ensures r == if key in disk.kv then Success(disk.kv[key]) else Failure(NotFound)
    {
      r := kv.Get(key);
    }

    method ReadMeta(key: Key) returns (r: Result<Record, Error>)
      requires Valid()
      ensures r == if key in disk.meta then Success(disk.meta[key]) else Failure(NotFound)
    {
      assert Agrees(meta.db, disk.meta, key);
      r := meta.Get(EncodeKey(key));
    }

    /** The snapshot bytes are a function of the stored map alone. */
    method KVSnapshot() returns (data: Bytes)
      requires Valid()
      ensures data == Encoded(Listing(disk.kv))
    {
      var keys := kv.Keys();
      var pairs: seq<Pair> := [];
      for i := 0 to |keys|
        invariant |pairs| == i && forall j | 0 <= j < i :: pairs[j] == Listing(kv.db)[j]
      {
        assert keys[i] in keys;
        pairs := pairs + [Pair(keys[i], kv.db[keys[i]])];
      }
      assert pairs == Listing(kv.db);
      data := Encode(pairs);
    }
  }
}
