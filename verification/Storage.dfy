/** One pebble database, reduced to an ordered map with atomic durable writes. */
module Storage {
  import opened ByteStrings
  import opened Wrappers
  import opened PairCodec
  import opened Commands

  datatype Error = NotFound | UnknownModify

  /** `bytes.Compare(a, b) < 0`, the order in which an iterator visits keys. */
  predicate Less(a: Bytes, b: Bytes)
  {
    b != [] && (a == [] || a[0] < b[0] || (a[0] == b[0] && Less(a[1..], b[1..])))
  }

  lemma {:induction false} LessTotal(a: Bytes, b: Bytes)
    ensures a == b || Less(a, b) || Less(b, a)
    ensures Less(a, b) ==> a != b && !Less(b, a)
  {
    if a != [] && b != [] {
      LessTotal(a[1..], b[1..]);
      assert a == [a[0]] + a[1..] && b == [b[0]] + b[1..];
    }
  }

  lemma {:induction false} LessTransitive(a: Bytes, b: Bytes, c: Bytes)
    requires Less(a, b) && Less(b, c)
    ensures Less(a, c)
  {
    if a != [] && a[0] == b[0] && b[0] == c[0] {
      LessTransitive(a[1..], b[1..], c[1..]);
    }
  }

  /** The two keys agree before `n`, and there `a` ends or has the smaller byte. */
  predicate DiffersAt(a: Bytes, b: Bytes, n: nat)
  {
    && n <= |a| && n < |b| && a[..n] == b[..n]
    && (n == |a| || a[n] < b[n])
  }

  /** The order is that of the first difference, byte by byte, a prefix coming first. */
  lemma {:induction false} LessIsBytewise(a: Bytes, b: Bytes)
    ensures Less(a, b) <==> exists n :: DiffersAt(a, b, n)
  {
    if a != [] && b != [] && a[0] == b[0] {
      LessIsBytewise(a[1..], b[1..]);
      assert a == [a[0]] + a[1..] && b == [b[0]] + b[1..];
      if n: nat :| DiffersAt(a[1..], b[1..], n) {
        assert a[..n + 1] == [a[0]] + a[1..][..n] && b[..n + 1] == [b[0]] + b[1..][..n];
        assert DiffersAt(a, b, n + 1);
      }
      if n: nat :| DiffersAt(a, b, n) {
        assert n > 0;
        assert a[1..][..n - 1] == a[..n][1..] && b[1..][..n - 1] == b[..n][1..];
        assert DiffersAt(a[1..], b[1..], n - 1);
      }
    } else if a == [] && b != [] {
      assert DiffersAt(a, b, 0);
    } else if b != [] {
      if a[0] < b[0] {
        assert DiffersAt(a, b, 0);
      }
      assert forall n: nat | 0 < n <= |a| && n < |b| :: a[..n][0] == a[0] && b[..n][0] == b[0];
    }
  }

  predicate IsLeast(k: Bytes, keys: set<Bytes>)
  {
    k in keys && forall j | j in keys :: j == k || Less(k, j)
  }

  lemma {:induction false} LeastExists(keys: set<Bytes>)
    requires keys != {}
    ensures exists k :: IsLeast(k, keys)
  {
    var k :| k in keys;
    var rest := keys - {k};
    if rest == {} {
      assert keys == {k};
      assert IsLeast(k, keys);
    } else {
      LeastExists(rest);
      var m :| IsLeast(m, rest);
      LessTotal(k, m);
      if Less(k, m) {
        forall j | j in keys && j != k ensures Less(k, j) {
          if j != m {
            LessTransitive(k, m, j);
          }
        }
        assert IsLeast(k, keys);
      } else {
        assert IsLeast(m, keys);
      }
    }
  }

  predicate Ascending(keys: seq<Bytes>)
  {
    forall i, j | 0 <= i < j < |keys| :: Less(keys[i], keys[j])
  }

  /** The keys in iterator order. */
  ghost function SortedKeys(keys: set<Bytes>): (sorted: seq<Bytes>)
    ensures Ascending(sorted)
    ensures forall k :: k in keys <==> k in sorted
    decreases |keys|
  {
    if keys == {} then [] else
    LeastExists(keys);
    var k :| IsLeast(k, keys);
    var tail := SortedKeys(keys - {k});
    assert forall j | 0 <= j < |tail| :: tail[j] in tail;
    assert forall j | 0 <= j < |tail| :: tail[j] in keys - {k};
    [k] + tail
  }

  lemma LeastIsFirst(k: Bytes, keys: set<Bytes>)
    requires IsLeast(k, keys)
    ensures SortedKeys(keys) == [k] + SortedKeys(keys - {k})
  {
    var m :| m == SortedKeys(keys)[0] && IsLeast(m, keys) && SortedKeys(keys) == [m] + SortedKeys(keys - {m});
    LessTotal(k, m);
  }

  /** A key-value snapshot lists every pair once, in ascending key order. */
  ghost function Listing(db: KvMap): (ps: seq<Pair>)
    ensures |ps| == |SortedKeys(db.Keys)|
  {
    var keys := SortedKeys(db.Keys);
    seq(|keys|, i requires 0 <= i < |keys| => assert keys[i] in keys; Pair(keys[i], db[keys[i]]))
  }

  /** The listing has exactly the pairs of the store, in ascending key order. */
  lemma ListingIs(db: KvMap)
    ensures forall k, v :: Pair(k, v) in Listing(db) <==> k in db && db[k] == v
    ensures forall i, j | 0 <= i < j < |Listing(db)| :: Less(Listing(db)[i].key, Listing(db)[j].key)
  {
    var keys := SortedKeys(db.Keys);
    forall k, v ensures Pair(k, v) in Listing(db) <==> k in db && db[k] == v {
      if k in db && db[k] == v {
        var i :| 0 <= i < |keys| && keys[i] == k;
        assert Listing(db)[i] == Pair(k, v);
      }
      if Pair(k, v) in Listing(db) {
        var i :| 0 <= i < |keys| && Listing(db)[i] == Pair(k, v);
        assert keys[i] in keys;
      }
    }
  }

  function PutAll(db: KvMap, ps: seq<Pair>): KvMap
  {
    if ps == [] then db else PutAll(db, ps[..|ps| - 1])[ps[|ps| - 1].key := ps[|ps| - 1].val]
  }

  lemma {:induction false} PutAllLookup(db: KvMap, ps: seq<Pair>, m: KvMap, k: Bytes)
    requires forall i | 0 <= i < |ps| :: ps[i].key in m && m[ps[i].key] == ps[i].val
    ensures Lookup(PutAll(db, ps), k) ==
            if exists i | 0 <= i < |ps| :: ps[i].key == k then Lookup(m, k) else Lookup(db, k)
  {
    if ps != [] {
      var init := ps[..|ps| - 1];
      PutAllLookup(db, init, m, k);
      if i :| 0 <= i < |ps| && ps[i].key == k && i < |init| {
        assert init[i].key == k;
      }
      if i :| 0 <= i < |init| && init[i].key == k {
        assert ps[i].key == k;
      }
    }
  }

  /** Putting a listing of `m` over `db` is the map override `db + m`: keys of `db`
      that `m` lacks stay behind. */
  lemma PutListing(db: KvMap, m: KvMap)
    ensures PutAll(db, Listing(m)) == db + m
  {
    forall k: Bytes
      ensures Lookup(PutAll(db, Listing(m)), k) == Lookup(db + m, k)
    {
      PutAllLookup(db, Listing(m), m, k);
      if k in m {
        var i :| 0 <= i < |SortedKeys(m.Keys)| && SortedKeys(m.Keys)[i] == k;
        assert Listing(m)[i].key == k;
      }
    }
    SameLookups(PutAll(db, Listing(m)), db + m);
  }

  lemma VisitNext(visited: seq<Bytes>, k: Bytes, rest: set<Bytes>)
    requires IsLeast(k, rest)
    ensures (visited + [k]) + SortedKeys(rest - {k}) == visited + SortedKeys(rest)
  {
    LeastIsFirst(k, rest);
  }

  class Storage<V(==)> {
    var db: map<Bytes, V>

    constructor ()
      ensures db == map[]
    {
      db := map[];
    }

    method Set(key: Bytes, val: V)
      modifies this
      ensures db == old(db)[key := val]
    {
      db := db[key := val];
    }

    method Get(key: Bytes) returns (r: Result<V, Error>)
      ensures r == if key in db then Success(db[key]) else Failure(NotFound)
    {
      if key !in db {
        return Failure(NotFound);
      }
      return Success(db[key]);
    }

    method Delete(key: Bytes)
      modifies this
      ensures db == old(db) - {key}
    {
      db := db - {key};
    }

    /** The keys an iterator visits from `First` on. */
    method Keys() returns (keys: seq<Bytes>)
      ensures keys == SortedKeys(db.Keys)
    {
      keys := [];
      var rest := db.Keys;
      while rest != {}
        invariant keys + SortedKeys(rest) == SortedKeys(db.Keys)
        decreases rest
      {
        LeastExists(rest);
        var k :| IsLeast(k, rest);
        VisitNext(keys, k, rest);
        keys := keys + [k];
        rest := rest - {k};
      }
    }
  }
}
