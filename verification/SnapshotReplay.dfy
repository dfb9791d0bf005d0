/** Catching up from a snapshot: install it over an old store, then replay a suffix. */
module SnapshotReplay {
  import opened ByteStrings
  import opened Wrappers
  import opened RaftTypes
  import opened Commands
  import opened PairCodec
  import opened Storage

  /** Every pair of `db` survives the snapshot codec. */
  ghost predicate KvFits(db: KvMap)
  {
    forall k | k in db :: Fits(Pair(k, db[k]))
  }

  lemma ListingFits(db: KvMap)
    requires KvFits(db)
    ensures AllFit(Listing(db))
  {
    var keys := SortedKeys(db.Keys);
    forall i | 0 <= i < |Listing(db)| ensures Fits(Listing(db)[i]) {
      assert keys[i] in keys;
    }
  }

  /** Sending a store through the snapshot codec and putting its pairs over another
      store is a map override. */
  lemma InstallListing(behind: KvMap, db: KvMap)
    requires KvFits(db)
    ensures Decoded(Encoded(Listing(db))) == Ok(Listing(db))
    ensures PutAll(behind, Decoded(Encoded(Listing(db))).value) == behind + db
  {
    ListingFits(db);
    DecodeEncode(Listing(db));
    PutListing(behind, db);
  }

  /** The keys a snapshot cannot clear: held before, absent from the snapshot, and
      untouched by the entries replayed after it. */
  ghost predicate Stray(behind: KvMap, committed: seq<Entry>, i: nat, j: nat, k: nat, key: Bytes)
    requires i <= j <= k <= |committed|
  {
    key in behind && key !in Replay(committed[..j]) && !Touched(committed[i..k], key)
  }

  lemma TouchedSplit(xs: seq<Entry>, ys: seq<Entry>, key: Bytes)
    ensures Touched(xs + ys, key) <==> Touched(xs, key) || Touched(ys, key)
  {
    if i :| 0 <= i < |xs + ys| && Touches(OpOf((xs + ys)[i].cmd), key) {
      if i < |xs| {
        assert Touches(OpOf(xs[i].cmd), key);
      } else {
        assert Touches(OpOf(ys[i - |xs|].cmd), key);
      }
    }
    if i :| 0 <= i < |xs| && Touches(OpOf(xs[i].cmd), key) {
      assert Touches(OpOf((xs + ys)[i].cmd), key);
    }
    if i :| 0 <= i < |ys| && Touches(OpOf(ys[i].cmd), key) {
      assert Touches(OpOf((xs + ys)[|xs| + i].cmd), key);
    }
  }

  lemma CaughtUpKey(behind: KvMap, committed: seq<Entry>, i: nat, j: nat, k: nat, key: Bytes)
    requires i <= j <= k <= |committed|
    ensures var state := ReplayOn(behind + Replay(committed[..j]), committed[i..k]);
            var leader := Replay(committed[..k]);
            if Stray(behind, committed, i, j, k, key)
            then Lookup(state, key) == Lookup(behind, key) && key in behind && key !in leader
            else Lookup(state, key) == Lookup(leader, key)
  {
    var snap := Replay(committed[..j]);
    assert committed[..k] == committed[..i] + committed[i..k];
    ReplayConcat(map[], committed[..i], committed[i..k]);
    LastWriteWins(behind + snap, Replay(committed[..i]), committed[i..k], key);
    if !Touched(committed[i..k], key) {
      assert committed[i..k] == committed[i..j] + committed[j..k];
      TouchedSplit(committed[i..j], committed[j..k], key);
      assert committed[..k] == committed[..j] + committed[j..k];
      ReplayConcat(map[], committed[..j], committed[j..k]);
      LastWriteWins(snap, snap, committed[j..k], key);
    }
  }

  /** A snapshot with metadata index `i`, captured from the state at `j >= i`, installed
      over `behind` and followed by the entries `i+1..k` with `k >= j`, gives the leader's
      state at `k` exactly when no key is stray; every key that is not stray agrees in
      any case. */
  lemma SnapshotThenSuffix(behind: KvMap, committed: seq<Entry>, i: nat, j: nat, k: nat)
    requires i <= j <= k <= |committed| && KvFits(Replay(committed[..j]))
    ensures var data := Encoded(Listing(Replay(committed[..j])));
            && Decoded(data).Ok?
            && var state := ReplayOn(PutAll(behind, Decoded(data).value), committed[i..k]);
               var leader := Replay(committed[..k]);
               && (forall key :: !Stray(behind, committed, i, j, k, key) ==> Lookup(state, key) == Lookup(leader, key))
               && (state == leader <==> forall key :: !Stray(behind, committed, i, j, k, key))
  {
    InstallListing(behind, Replay(committed[..j]));
    var state := ReplayOn(behind + Replay(committed[..j]), committed[i..k]);
    var leader := Replay(committed[..k]);
    forall key: Bytes
      ensures Stray(behind, committed, i, j, k, key) ==> Lookup(state, key) != Lookup(leader, key)
      ensures !Stray(behind, committed, i, j, k, key) ==> Lookup(state, key) == Lookup(leader, key)
    {
      CaughtUpKey(behind, committed, i, j, k, key);
    }
    if forall key :: !Stray(behind, committed, i, j, k, key) {
      SameLookups(state, leader);
    }
  }
}
