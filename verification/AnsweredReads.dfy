/** What an answered read returns: the read protocol beside a run of the cluster. */
module AnsweredReads {
  import opened ByteStrings
  import opened Wrappers
  import opened RaftTypes
  import opened Commands
  import opened ReadQueue
  import opened Cluster
  import opened ClusterTheorems
  import opened UncleanInstall
  import ReadProtocol

  /** `value` is what the map holds at the key, nil (the empty value) if it holds nothing. */
  predicate IsReadOf(value: Bytes, db: KvMap, key: Bytes)
  {
    value == if key in db then db[key] else []
  }

  /** The memory store reads `value` after some committed prefix of length `index` or more. */
  ghost predicate ReadsAfter(committed: seq<Entry>, index: nat, key: Bytes, value: Bytes)
  {
    exists m | index <= m <= |committed| :: IsReadOf(value, Replay(committed[..m]), key)
  }

  /** A read of `key` that the handler served, and that waited until the index raft gave
      for it was applied, is answered as the memory store answers after a committed prefix
      of at least that length, unless the key is stray. The protocol and the replica may
      interleave in any way. */
  lemma AnsweredReadIsLinearizable(count: nat, actions: seq<Action>, n: nat, key: Bytes, timestamp: U64, value: Bytes,
                                   steps: seq<ReadProtocol.Action>, protocol: ReadProtocol.State)
    requires Run(count, actions).Some? && n < |Run(count, actions).value.nodes|
    requires ReadProtocol.MayReach(steps, protocol) && BuildReadCtx(key, timestamp) in protocol.served
    requires protocol.served[BuildReadCtx(key, timestamp)] <= AppliedIndex(Run(count, actions).value.nodes[n])
    requires key !in Run(count, actions).value.nodes[n].stray
    ensures var c, ctx := Run(count, actions).value, BuildReadCtx(key, timestamp);
            && ctx in protocol.asked && ctx in protocol.answered
            && ctx[8..] == key
            && (IsReadOf(value, c.nodes[n].peer.state.disk.kv, ctx[8..]) ==>
                  ReadsAfter(c.committed, protocol.answered[ctx], key, value))
  {
    hide ReadProtocol.MayReach, ReadProtocol.PlacesOk, Run, Replay;
    var ctx := BuildReadCtx(key, timestamp);
    ReadProtocol.SignalIsMatchedIff(steps, protocol);
    assert protocol.served[ctx] == protocol.answered[ctx];
    ReadCtxRoundTrip(key, timestamp);
    ReadsAreLinearizable(count, actions, n, protocol.served[ctx], key);
    var c := Run(count, actions).value;
    var kv := c.nodes[n].peer.state.disk.kv;
    var m :| protocol.served[ctx] <= m <= |c.committed| && KeyAt(kv, c.committed, m, key);
    assert IsReadOf(value, kv, key) ==> IsReadOf(value, Replay(c.committed[..m]), key);
  }

  /** The condition on stray keys is needed: a run in which a read, answered by raft with
      index 2 and served once 2 entries were applied, returns a value that no committed
      prefix of that length holds. */
  lemma StrayReadIsStale(timestamp: U64)
    returns (actions: seq<Action>, c: Cluster, steps: seq<ReadProtocol.Action>, protocol: ReadProtocol.State)
    ensures Run(2, actions) == Some(c) && |c.nodes| == 2 && ReadProtocol.Reaches(steps, protocol)
    ensures var ctx := BuildReadCtx(KEY, timestamp);
            && ctx in protocol.served && ctx in protocol.answered
            && protocol.served[ctx] == protocol.answered[ctx] == AppliedIndex(c.nodes[1]) == 2
            && KeyOf(Read(ctx)) == KEY
            && IsReadOf(VALUE, c.nodes[1].peer.state.disk.kv, KEY)
            && !ReadsAfter(c.committed, 2, KEY, VALUE)
  {
    hide Run, ReadProtocol.Reaches, Replay;
    actions, c := StoresDiffer();
    steps, protocol := ReadProtocol.Serves(BuildReadCtx(KEY, timestamp), 2);
    ReadCtxRoundTrip(KEY, timestamp);
    Stores();
    forall m | 2 <= m <= |c.committed| ensures !IsReadOf(VALUE, Replay(c.committed[..m]), KEY) {
      assert c.committed[..m] == [PUT, DELETE];
    }
  }
}
