/** Every step of the cluster keeps its invariant. */
module ClusterInvariant {
  import opened ByteStrings
  import opened Wrappers
  import opened RaftTypes
  import opened Commands
  import opened PairCodec
  import opened Storage
  import opened RaftLog
  import opened StorageState
  import opened PeerState
  import opened SnapshotReplay
  import opened Cluster

  // ---- The committed sequence grows ---------------------------------------

  lemma CmdGrows(committed: seq<Entry>, ent: Entry, cmd: RaftCmd)
    requires CmdOk(committed, cmd)
    ensures CmdOk(committed + [ent], cmd)
  {
  }

  lemma TracksGrows(kv: KvMap, committed: seq<Entry>, ent: Entry, applied: nat, horizon: nat, stray: set<Bytes>)
    requires Tracks(kv, committed, applied, horizon, stray)
    ensures Tracks(kv, committed + [ent], applied, horizon, stray)
  {
    forall key | key !in stray ensures TracksKey(kv, committed + [ent], applied, horizon, key) {
      assert TracksKey(kv, committed, applied, horizon, key);
      var m :| applied <= m <= horizon && KeyAt(kv, committed, m, key);
      assert (committed + [ent])[..m] == committed[..m];
      assert KeyAt(kv, committed + [ent], m, key);
    }
  }

  lemma StrayGrows(kv: KvMap, committed: seq<Entry>, ent: Entry, applied: nat, horizon: nat, stray: set<Bytes>)
    requires StrayExactly(kv, committed, applied, horizon, stray)
    ensures StrayExactly(kv, committed + [ent], applied, horizon, stray)
  {
    forall key | key in stray ensures AbsentAfter(committed + [ent], applied, horizon, key) {
      assert AbsentAfter(committed, applied, horizon, key);
      var m :| applied <= m <= horizon && AbsentAt(committed, m, key);
      assert (committed + [ent])[..m] == committed[..m];
      assert AbsentAt(committed + [ent], m, key);
    }
  }

  lemma SnapGrows(committed: seq<Entry>, ent: Entry, msg: SnapMsg)
    requires SnapOk(committed, msg)
    ensures SnapOk(committed + [ent], msg)
  {
    TracksGrows(DataOf(msg.snap), committed, ent, msg.snap.meta.index, msg.horizon, msg.stray);
    StrayGrows(DataOf(msg.snap), committed, ent, msg.snap.meta.index, msg.horizon, msg.stray);
  }

  lemma NodeGrows(committed: seq<Entry>, ent: Entry, node: Node)
    requires NodeOk(committed, node)
    ensures NodeOk(committed + [ent], node)
  {
    var s := node.peer.state;
    TracksGrows(s.disk.kv, committed, ent, s.mem.apply.applyIndex, node.horizon, node.stray);
    StrayGrows(s.disk.kv, committed, ent, s.mem.apply.applyIndex, node.horizon, node.stray);
    forall msg | msg in node.generated ensures SnapOk(committed + [ent], msg) {
      SnapGrows(committed, ent, msg);
    }
  }

  lemma CommittedGrows(committed: seq<Entry>, ent: Entry)
    requires CommittedOk(committed) && CmdOk(committed, ent.cmd)
    requires ent.index == |committed| + 1 < TWO_64 - 1
    requires committed != [] ==> committed[|committed| - 1].term <= ent.term
    ensures CommittedOk(committed + [ent])
  {
    hide CmdOk;
    var after := committed + [ent];
    forall p | 0 <= p < |after|
      ensures after[p].index == p + 1 && CmdOk(after[..p], after[p].cmd)
    {
      assert after[..p] == committed[..p];
      assert committed[..|committed|] == committed;
    }
  }

  lemma CommitKeeps(c: Cluster, ent: Entry)
    requires Inv(c) && Enabled(c, Commit(ent))
    ensures Inv(Step(c, Commit(ent)))
  {
    hide NodeOk, SnapOk, CommittedOk;
    var after := c.committed + [ent];
    CommittedGrows(c.committed, ent);
    forall cmd | cmd in c.proposed ensures CmdOk(after, cmd) {
      CmdGrows(c.committed, ent, cmd);
    }
    forall n | 0 <= n < |c.nodes| ensures NodeOk(after, c.nodes[n]) {
      NodeGrows(c.committed, ent, c.nodes[n]);
    }
    forall msg | msg in c.sent ensures SnapOk(after, msg) {
      SnapGrows(c.committed, ent, msg);
    }
  }

  // ---- Saving a Ready ------------------------------------------------------

  lemma AppendKeepsEntry(log: Log, batch: seq<Entry>, i: int)
    requires log.WellFormed() && log.Accepts(batch) && log.offset < i <= log.Last()
    requires batch != [] ==> i < batch[0].index
    ensures i <= log.Append(batch).Last() && log.Append(batch).offset == log.offset
    ensures log.Append(batch).EntryAt(i) == log.EntryAt(i)
  {
  }

  lemma {:induction false} PutAllOver(db: KvMap, ps: seq<Pair>)
    ensures PutAll(db, ps) == db + PutAll(map[], ps)
  {
    if ps != [] {
      PutAllOver(db, ps[..|ps| - 1]);
    }
  }

  /** Installing a snapshot: what the old store held and the data lacks becomes stray. */
  lemma InstallTracks(kv: KvMap, data: KvMap, committed: seq<Entry>, index: nat, horizon: nat, stray: set<Bytes>)
    requires Tracks(data, committed, index, horizon, stray)
    ensures Tracks(kv + data, committed, index, horizon, stray + (kv.Keys - data.Keys))
  {
    forall key | key !in stray + (kv.Keys - data.Keys)
      ensures TracksKey(kv + data, committed, index, horizon, key)
    {
      assert TracksKey(data, committed, index, horizon, key);
      var m :| index <= m <= horizon && KeyAt(data, committed, m, key);
      assert KeyAt(kv + data, committed, m, key);
    }
  }

  lemma InstallStray(kv: KvMap, data: KvMap, committed: seq<Entry>, index: nat, horizon: nat, stray: set<Bytes>)
    requires Tracks(data, committed, index, horizon, stray) && StrayExactly(data, committed, index, horizon, stray)
    ensures StrayExactly(kv + data, committed, index, horizon, stray + (kv.Keys - data.Keys))
  {
    forall key | key in stray + (kv.Keys - data.Keys)
      ensures key in kv + data && AbsentAfter(committed, index, horizon, key)
    {
      if key !in stray {
        assert TracksKey(data, committed, index, horizon, key);
        var m :| index <= m <= horizon && KeyAt(data, committed, m, key);
        assert AbsentAt(committed, m, key);
      }
    }
  }

  lemma SaveMatches(committed: seq<Entry>, s: State, rd: Ready)
    requires LogMatches(committed, s) && Synced(s) && ReadyOk(s, rd)
    requires !IsEmptySnap(rd.snapshot) ==>
               rd.snapshot.meta.index <= |committed| &&
                   rd.snapshot.meta.term == CommittedTerm(committed, rd.snapshot.meta.index)
    ensures LogMatches(committed, Save(s, rd))
  {
    SaveKeeps(s, rd);
    var s', log := Save(s, rd), LogAfterInstall(s, rd.snapshot);
    forall i | s'.mem.apply.truncIndex < i <= s'.mem.apply.applyIndex
      ensures LogOf(s').EntryAt(i) == committed[i - 1]
    {
      AppendKeepsEntry(log, rd.entries, i);
      assert LogOf(s).EntryAt(i) == committed[i - 1];
    }
  }

  lemma SaveNodeOk(committed: seq<Entry>, node: Node, rd: Ready, msg: Option<SnapMsg>)
    requires NodeOk(committed, node) && ReadyOk(node.peer.state, rd)
    requires match msg
             case None => IsEmptySnap(rd.snapshot)
             case Some(m) => rd.snapshot == m.snap && !IsEmptySnap(m.snap) && SnapOk(committed, m)
    ensures NodeOk(committed, SaveNode(node, rd, msg))
  {
    var s, s' := node.peer.state, Save(node.peer.state, rd);
    SaveMatches(committed, s, rd);
    SaveKeeps(s, rd);
    if msg.Some? {
      var data := DataOf(rd.snapshot);
      PutAllOver(s.disk.kv, Decoded(rd.snapshot.data).value);
      assert s'.disk.kv == s.disk.kv + data;
      InstallTracks(s.disk.kv, data, committed, rd.snapshot.meta.index, msg.value.horizon, msg.value.stray);
      InstallStray(s.disk.kv, data, committed, rd.snapshot.meta.index, msg.value.horizon, msg.value.stray);
    }
  }

  // ---- Applying an entry ---------------------------------------------------

  lemma TracksApplied(kv: KvMap, committed: seq<Entry>, applied: nat, horizon: nat, stray: set<Bytes>)
    requires Tracks(kv, committed, applied, horizon, stray) && applied < |committed|
    ensures var op := OpOf(committed[applied].cmd);
            Tracks(Perform(kv, op), committed, applied + 1, Max(horizon, applied + 1), StrayAfter(stray, op))
  {
    var op := OpOf(committed[applied].cmd);
    var kv', horizon' := Perform(kv, op), Max(horizon, applied + 1);
    assert committed[..applied + 1][..applied] == committed[..applied];
    assert Replay(committed[..applied + 1]) == Perform(Replay(committed[..applied]), op);
    forall key | key !in StrayAfter(stray, op)
      ensures TracksKey(kv', committed, applied + 1, horizon', key)
    {
      if Touches(op, key) {
        assert KeyAt(kv', committed, applied + 1, key);
      } else {
        assert TracksKey(kv, committed, applied, horizon, key);
        var m :| applied <= m <= horizon && KeyAt(kv, committed, m, key);
        assert KeyAt(kv', committed, if m == applied then applied + 1 else m, key);
      }
    }
  }

  lemma StrayApplied(kv: KvMap, committed: seq<Entry>, applied: nat, horizon: nat, stray: set<Bytes>)
    requires StrayExactly(kv, committed, applied, horizon, stray) && applied < |committed|
    ensures var op := OpOf(committed[applied].cmd);
            StrayExactly(Perform(kv, op), committed, applied + 1, Max(horizon, applied + 1), StrayAfter(stray, op))
  {
    var op := OpOf(committed[applied].cmd);
    assert committed[..applied + 1][..applied] == committed[..applied];
    assert Replay(committed[..applied + 1]) == Perform(Replay(committed[..applied]), op);
    forall key | key in StrayAfter(stray, op)
      ensures key in Perform(kv, op) && AbsentAfter(committed, applied + 1, Max(horizon, applied + 1), key)
    {
      assert AbsentAfter(committed, applied, horizon, key);
      var m :| applied <= m <= horizon && AbsentAt(committed, m, key);
      assert AbsentAt(committed, if m == applied then applied + 1 else m, key);
    }
  }

  lemma CommittedCompaction(committed: seq<Entry>, s: State, applied: nat)
    requires CommittedOk(committed) && LogMatches(committed, s) && applied == s.mem.apply.applyIndex < |committed|
    ensures CompactionOk(LogOf(s), committed[applied])
    ensures Compaction(s.mem, committed[applied].cmd).Some? ==>
              var CompactLog(i, t) := Compaction(s.mem, committed[applied].cmd).value;
              s.mem.apply.truncIndex <= i <= applied && t == CommittedTerm(committed, i)
  {
    assert CmdOk(committed[..applied], committed[applied].cmd);
    match CompactionOf(committed[applied].cmd)
    case None =>
    case Some(CompactLog(i, t)) =>
      if s.mem.apply.truncIndex < i {
        assert LogOf(s).EntryAt(i) == committed[i - 1];
      }
  }

  lemma ApplyEntry(committed: seq<Entry>, p: Peer, i: int)
    requires CommittedOk(committed) && LogMatches(committed, p.state) && Synced(p.state)
    requires p.state.mem.apply.applyIndex < |committed| && p.state.mem.apply.applyIndex < p.state.mem.local.lastIndex
    requires p.state.mem.apply.truncIndex < i <= p.state.mem.local.lastIndex
    ensures var s' := Process(p, committed[p.state.mem.apply.applyIndex]).state;
            LogInv(s') && (LogOf(s').offset < i ==> LogOf(s').EntryAt(i) == LogOf(p.state).EntryAt(i))
  {
    var s, ent := p.state, committed[p.state.mem.apply.applyIndex];
    CommittedCompaction(committed, s, s.mem.apply.applyIndex);
    ProcessKeeps(p, ent);
    match Compaction(s.mem, ent.cmd)
    case None =>
    case Some(CompactLog(index, term)) =>
      LogOf(s).CompactWellFormed(index, term);
  }

  lemma ApplyTerm(committed: seq<Entry>, s: State)
    requires CommittedOk(committed) && LogMatches(committed, s) && s.mem.apply.applyIndex < |committed|
    ensures var mem := ProcessMem(s.mem, committed[s.mem.apply.applyIndex]);
            && s.mem.apply.truncIndex <= mem.apply.truncIndex <= |committed|
            && mem.apply.truncTerm == CommittedTerm(committed, mem.apply.truncIndex)
            && mem.apply.applyIndex == s.mem.apply.applyIndex + 1
  {
    CommittedCompaction(committed, s, s.mem.apply.applyIndex);
  }

  lemma ApplyInv(committed: seq<Entry>, p: Peer)
    requires CommittedOk(committed) && LogMatches(committed, p.state) && Synced(p.state)
    requires p.state.mem.apply.applyIndex < |committed| && p.state.mem.apply.applyIndex < p.state.mem.local.lastIndex
    ensures var s' := Process(p, committed[p.state.mem.apply.applyIndex]).state;
            && s'.mem == ProcessMem(p.state.mem, committed[p.state.mem.apply.applyIndex])
            && StorageInv(s') && Synced(s')
            && s'.disk.kv == Perform(p.state.disk.kv, OpOf(committed[p.state.mem.apply.applyIndex].cmd))
  {
    CommittedCompaction(committed, p.state, p.state.mem.apply.applyIndex);
    ProcessKeeps(p, committed[p.state.mem.apply.applyIndex]);
  }

  lemma ApplyMatches(committed: seq<Entry>, p: Peer)
    requires CommittedOk(committed) && LogMatches(committed, p.state) && Synced(p.state)
    requires p.state.mem.apply.applyIndex < |committed| && p.state.mem.apply.applyIndex < p.state.mem.local.lastIndex
    requires LogOf(p.state).EntryAt(p.state.mem.apply.applyIndex + 1) == committed[p.state.mem.apply.applyIndex]
    ensures LogMatches(committed, Process(p, committed[p.state.mem.apply.applyIndex]).state)
  {
    hide Process, ProcessMem, CommittedOk, Synced;
    var s, applied := p.state, p.state.mem.apply.applyIndex;
    var s' := Process(p, committed[applied]).state;
    ApplyInv(committed, p);
    ApplyTerm(committed, s);
    forall i | s'.mem.apply.truncIndex < i <= applied + 1
      ensures LogOf(s').EntryAt(i) == committed[i - 1]
    {
      ApplyEntry(committed, p, i);
      assert i <= applied ==> LogOf(s).EntryAt(i) == committed[i - 1];
    }
  }

  lemma PerformFits(kv: KvMap, cmd: RaftCmd)
    requires KvFits(kv) && CmdFits(cmd)
    ensures KvFits(Perform(kv, OpOf(cmd)))
  {
  }

  ghost predicate NextIsCommitted(committed: seq<Entry>, s: State)
    requires LogInv(s) && s.mem.apply.truncIndex <= s.mem.apply.applyIndex
  {
    && s.mem.apply.applyIndex < |committed| && s.mem.apply.applyIndex < s.mem.local.lastIndex
    && LogOf(s).EntryAt(s.mem.apply.applyIndex + 1) == committed[s.mem.apply.applyIndex]
  }

  lemma ApplyStateOk(committed: seq<Entry>, node: Node)
    requires CommittedOk(committed) && NodeOk(committed, node) && NextIsCommitted(committed, node.peer.state)
    ensures var node' := ApplyNode(node, committed[node.peer.state.mem.apply.applyIndex]);
            var s' := node'.peer.state;
            && s'.mem.apply.applyIndex == node.peer.state.mem.apply.applyIndex + 1
            && LogMatches(committed, s') && Synced(s')
            && KvFits(s'.disk.kv)
            && Tracks(s'.disk.kv, committed, s'.mem.apply.applyIndex, node'.horizon, node'.stray)
            && StrayExactly(s'.disk.kv, committed, s'.mem.apply.applyIndex, node'.horizon, node'.stray)
  {
    hide LogMatches, Tracks, StrayExactly, Process, Perform, LogInv, ProcessMem;
    var s, applied := node.peer.state, node.peer.state.mem.apply.applyIndex;
    ApplyMatches(committed, node.peer);
    ApplyInv(committed, node.peer);
    ApplyTerm(committed, s);
    TracksApplied(s.disk.kv, committed, applied, node.horizon, node.stray);
    StrayApplied(s.disk.kv, committed, applied, node.horizon, node.stray);
    assert CmdOk(committed[..applied], committed[applied].cmd);
    PerformFits(s.disk.kv, committed[applied].cmd);
  }

  lemma ApplyTasksOk(committed: seq<Entry>, node: Node)
    requires CommittedOk(committed) && NodeOk(committed, node) && NextIsCommitted(committed, node.peer.state)
    ensures var p' := ApplyNode(node, committed[node.peer.state.mem.apply.applyIndex]).peer;
            Tiles(node.boot, p'.tasks, p'.lastCompacted) && p'.lastCompacted <= p'.state.mem.apply.truncIndex
  {
    CommittedCompaction(committed, node.peer.state, node.peer.state.mem.apply.applyIndex);
    ProcessTiles(node.boot, node.peer, committed[node.peer.state.mem.apply.applyIndex]);
  }

  lemma ApplyNodeOk(committed: seq<Entry>, node: Node)
    requires CommittedOk(committed) && NodeOk(committed, node) && NextIsCommitted(committed, node.peer.state)
    ensures NodeOk(committed, ApplyNode(node, committed[node.peer.state.mem.apply.applyIndex]))
  {
    hide CommittedOk, NextIsCommitted, Process, LogMatches, Synced, KvFits, Tracks, Tiles, SnapOk, StrayAfter;
    ApplyStateOk(committed, node);
    ApplyTasksOk(committed, node);
  }

  // ---- Snapshots, garbage collection, restart ------------------------------

  lemma CapturedOk(committed: seq<Entry>, s: State)
    requires LogMatches(committed, s)
    ensures MetaOk(committed, CapturedMeta(s), s.mem.apply.applyIndex)
  {
    var applied := s.mem.apply.applyIndex;
    TermRefinesLog(s, applied);
    if s.mem.apply.truncIndex < applied {
      assert LogOf(s).EntryAt(applied) == committed[applied - 1];
    }
  }

  lemma StartCaptureOk(committed: seq<Entry>, node: Node)
    requires NodeOk(committed, node)
    ensures NodeOk(committed, node.(captures := node.captures + {CapturedMeta(node.peer.state)}))
  {
    hide LogMatches, Tracks, StrayExactly, CapturedMeta;
    CapturedOk(committed, node.peer.state);
  }

  /** Data captured at any later time still tracks from the metadata's index on. */
  lemma LaterDataTracks(kv: KvMap, committed: seq<Entry>, index: nat, applied: nat, horizon: nat, stray: set<Bytes>)
    requires index <= applied && Tracks(kv, committed, applied, horizon, stray)
    ensures Tracks(kv, committed, index, horizon, stray)
  {
    forall key | key !in stray
      ensures TracksKey(kv, committed, index, horizon, key)
    {
      assert TracksKey(kv, committed, applied, horizon, key);
      var m :| applied <= m <= horizon && KeyAt(kv, committed, m, key);
      assert index <= m;
    }
  }

  lemma LaterDataStray(kv: KvMap, committed: seq<Entry>, index: nat, applied: nat, horizon: nat, stray: set<Bytes>)
    requires index <= applied && StrayExactly(kv, committed, applied, horizon, stray)
    ensures StrayExactly(kv, committed, index, horizon, stray)
  {
    forall key | key in stray
      ensures AbsentAfter(committed, index, horizon, key)
    {
      assert AbsentAfter(committed, applied, horizon, key);
      var m :| applied <= m <= horizon && AbsentAt(committed, m, key);
      assert index <= m;
    }
  }

  lemma GeneratedOk(committed: seq<Entry>, node: Node, meta: SnapshotMeta)
    requires NodeOk(committed, node) && meta in node.captures && meta.index > 0
    ensures SnapOk(committed, SnapMsg(Snapshot(meta, Encoded(Listing(node.peer.state.disk.kv))), node.horizon,
            node.stray))
  {
    hide LogMatches, Synced, Tiles, Tracks, StrayExactly, Encoded, Listing, Decoded, PutAll;
    var kv, applied := node.peer.state.disk.kv, node.peer.state.mem.apply.applyIndex;
    InstallListing(map[], kv);
    assert map[] + kv == kv;
    LaterDataTracks(kv, committed, meta.index, applied, node.horizon, node.stray);
    LaterDataStray(kv, committed, meta.index, applied, node.horizon, node.stray);
  }

  lemma GeneratedJoins(committed: seq<Entry>, node: Node, msg: SnapMsg)
    requires NodeOk(committed, node) && SnapOk(committed, msg)
    requires msg.snap.meta.index <= node.peer.state.mem.apply.applyIndex
    ensures NodeOk(committed, node.(generated := node.generated + {msg}))
  {
    hide LogMatches, Tracks, StrayExactly, SnapOk, Synced, Tiles, KvFits;
  }

  lemma CaptureBelow(committed: seq<Entry>, node: Node, meta: SnapshotMeta)
    requires NodeOk(committed, node) && meta in node.captures
    ensures meta.index <= node.peer.state.mem.apply.applyIndex
  {
  }

  lemma FinishCaptureOk(committed: seq<Entry>, node: Node, meta: SnapshotMeta)
    requires NodeOk(committed, node) && meta in node.captures && meta.index > 0
    ensures var msg := SnapMsg(Snapshot(meta, Encoded(Listing(node.peer.state.disk.kv))), node.horizon, node.stray);
            NodeOk(committed, node.(generated := node.generated + {msg}))
  {
    hide *;
    GeneratedOk(committed, node, meta);
    CaptureBelow(committed, node, meta);
    GeneratedJoins(committed, node, SnapMsg(Snapshot(meta, Encoded(Listing(node.peer.state.disk.kv))),
        node.horizon, node.stray));
  }

  lemma RestartOk(committed: seq<Entry>, node: Node)
    requires NodeOk(committed, node)
    ensures Recover(node.peer.state.disk) == Ok(node.peer.state.mem)
    ensures NodeOk(committed, RestartNode(node))
  {
    hide LogMatches, Tracks, StrayExactly;
    assert State(node.peer.state.disk, node.peer.state.mem) == node.peer.state;
  }

  lemma CollectionIsNoOp(committed: seq<Entry>, node: Node, task: GcTask)
    requires NodeOk(committed, node) && task in node.peer.tasks
    ensures RunGc(node.peer.state, task) == node.peer.state
  {
    SpawnedCollectsNothing(node.boot, node.peer, task);
  }

  lemma ProposalOk(committed: seq<Entry>, s: State)
    requires LogMatches(committed, s)
    ensures GcProposal(s).Ok?
    ensures GcProposal(s).value.Some? ==> CmdOk(committed, GcProposal(s).value.value)
  {
    ProposalInWindow(s);
    if GcProposal(s).value.Some? {
      assert LogOf(s).EntryAt(s.mem.apply.applyIndex - 1) == committed[s.mem.apply.applyIndex - 2];
    }
  }

  lemma NodeStepOk(c: Cluster, a: Action)
    requires Inv(c) && Enabled(c, a) && !a.Propose? && !a.ProposeCompaction? && !a.Commit?
    ensures NodeOk(c.committed, StepNode(c, a))
  {
    hide NodeOk, SnapOk, Save;
    var node := c.nodes[a.n];
    assert NodeOk(c.committed, node);
    match a
    case SaveReady(_, rd, msg) => SaveNodeOk(c.committed, node, rd, msg);
    case ApplyNext(_) => ApplyNodeOk(c.committed, node);
    case StartCapture(_) => StartCaptureOk(c.committed, node);
    case FinishCapture(_, meta) => FinishCaptureOk(c.committed, node, meta);
    case SendSnapshot(_, _) =>
    case CollectLog(_, task) => CollectionIsNoOp(c.committed, node, task);
    case Restart(_) => RestartOk(c.committed, node);
  }

  lemma NodeReplaced(c: Cluster, n: nat, node: Node)
    requires Inv(c) && n < |c.nodes| && NodeOk(c.committed, node)
    ensures Inv(c.(nodes := c.nodes[n := node]))
  {
  }

  lemma ProposedKeeps(c: Cluster, cmd: RaftCmd)
    requires Inv(c) && CmdOk(c.committed, cmd)
    ensures Inv(c.(proposed := c.proposed + {cmd}))
  {
  }

  lemma SendKeeps(c: Cluster, n: nat, msg: SnapMsg)
    requires Inv(c) && n < |c.nodes| && msg in c.nodes[n].generated
    ensures Inv(c.(sent := c.sent + {msg}))
  {
    assert NodeOk(c.committed, c.nodes[n]);
  }

  lemma ProposeCompactionKeeps(c: Cluster, n: nat)
    requires Inv(c) && Enabled(c, ProposeCompaction(n))
    ensures Inv(Step(c, ProposeCompaction(n)))
  {
    assert NodeOk(c.committed, c.nodes[n]);
    ProposalOk(c.committed, c.nodes[n].peer.state);
    ProposedKeeps(c, GcProposal(c.nodes[n].peer.state).value.value);
  }

  lemma StepKeeps(c: Cluster, a: Action)
    requires Inv(c) && Enabled(c, a)
    ensures Inv(Step(c, a))
  {
    match a
    case Propose(cmd) => ProposedKeeps(c, cmd);
    case ProposeCompaction(n) => ProposeCompactionKeeps(c, n);
    case Commit(ent) => CommitKeeps(c, ent);
    case SendSnapshot(n, msg) => SendKeeps(c, n, msg);
    case _ =>
      NodeStepOk(c, a);
      NodeReplaced(c, a.n, StepNode(c, a));
  }

  lemma InitOk(count: nat)
    ensures Inv(Init(count))
  {
    assert LogOf(FRESH_STATE) == Log(0, 0, []);
    forall key: Bytes ensures TracksKey(map[], [], 0, 0, key) {
      assert KeyAt(map[], [], 0, key);
    }
    assert NodeOk([], FRESH_NODE);
  }

  lemma {:induction false} RunFromKeeps(c: Cluster, actions: seq<Action>)
    requires Inv(c) && RunFrom(c, actions).Some?
    ensures Inv(RunFrom(c, actions).value)
  {
    if actions != [] {
      RunFromKeeps(c, actions[..|actions| - 1]);
      StepKeeps(RunFrom(c, actions[..|actions| - 1]).value, actions[|actions| - 1]);
    }
  }

  /** The invariant holds in every reachable state. */
  lemma RunKeeps(count: nat, actions: seq<Action>)
    requires Run(count, actions).Some?
    ensures Inv(Run(count, actions).value)
  {
    InitOk(count);
    RunFromKeeps(Init(count), actions);
  }
}
