/** What the invariant means for compaction, agreement, reads and snapshots. */
module ClusterTheorems {
  import opened ByteStrings
  import opened Wrappers
  import opened RaftTypes
  import opened Commands
  import opened PairCodec
  import opened StorageState
  import opened PeerState
  import opened SnapshotReplay
  import opened Cluster
  import opened ClusterInvariant

  ghost function AppliedIndex(node: Node): nat { node.peer.state.mem.apply.applyIndex }

  // ---- Compaction ----------------------------------------------------------

  /** In every reachable state every replica is truncated at or below its apply index,
      holds the committed term there, and could propose a compaction without failing. */
  lemma CompactionSafety(count: nat, actions: seq<Action>, n: nat)
    requires Run(count, actions).Some? && n < |Run(count, actions).value.nodes|
    ensures var c := Run(count, actions).value;
            var s := c.nodes[n].peer.state;
            && s.mem.apply.truncIndex <= s.mem.apply.applyIndex <= s.mem.local.lastIndex
            && s.mem.apply.applyIndex <= |c.committed|
            && s.mem.apply.truncTerm == CommittedTerm(c.committed, s.mem.apply.truncIndex)
            && GcProposal(s).Ok?
            && (GcProposal(s).value.Some? ==>
                  var index := GcProposal(s).value.value.admin.value.compactIndex;
                  && s.mem.apply.truncIndex < index < s.mem.apply.applyIndex
                  && GcProposal(s).value.value.admin.value.compactTerm == CommittedTerm(c.committed, index))
  {
    RunKeeps(count, actions);
    var c := Run(count, actions).value;
    assert NodeOk(c.committed, c.nodes[n]);
    var s := c.nodes[n].peer.state;
    ProposalInWindow(s);
    ProposalOk(c.committed, s);
  }

  ghost predicate NodeAdvances(s: State, s': State)
  {
    && s.mem.apply.truncIndex <= s'.mem.apply.truncIndex
    && s.mem.apply.applyIndex <= s'.mem.apply.applyIndex
  }

  /** A step only extends the committed sequence and never moves an index back. */
  ghost predicate Advances(c: Cluster, c': Cluster)
  {
    && c.committed <= c'.committed
    && |c.nodes| == |c'.nodes|
    && forall n | 0 <= n < |c.nodes| :: NodeAdvances(c.nodes[n].peer.state, c'.nodes[n].peer.state)
  }

  lemma NodeStepAdvances(c: Cluster, a: Action)
    requires Inv(c) && Enabled(c, a) && !a.Propose? && !a.ProposeCompaction? && !a.Commit?
    ensures NodeAdvances(c.nodes[a.n].peer.state, StepNode(c, a).peer.state)
  {
    var node := c.nodes[a.n];
    assert NodeOk(c.committed, node);
    match a
    case SaveReady(_, rd, msg) => SaveKeeps(node.peer.state, rd);
    case ApplyNext(_) => ApplyTerm(c.committed, node.peer.state);
    case CollectLog(_, task) => CollectionIsNoOp(c.committed, node, task);
    case _ =>
  }

  /** A step changes at most the node it names. */
  lemma OtherNodesStay(c: Cluster, a: Action)
    requires Enabled(c, a)
    ensures c.committed <= Step(c, a).committed
    ensures if a.Propose? || a.ProposeCompaction? || a.Commit? then Step(c, a).nodes == c.nodes
            else a.n < |c.nodes| && Step(c, a).nodes == c.nodes[a.n := StepNode(c, a)]
  {
    hide Save, ReadyOk, LogInv, GcProposal, Recover, ApplyNode, RestartNode;
  }

  lemma StepAdvances(c: Cluster, a: Action)
    requires Inv(c) && Enabled(c, a)
    ensures Advances(c, Step(c, a))
  {
    hide Inv, Enabled, Step, StepNode;
    OtherNodesStay(c, a);
    if !a.Propose? && !a.ProposeCompaction? && !a.Commit? {
      NodeStepAdvances(c, a);
    }
  }

  /** The truncated index and the apply index of a replica never decrease, whatever is
      applied late, repeatedly, or after a restart. */
  lemma {:induction false} IndexesNeverDecrease(count: nat, actions: seq<Action>, m: nat)
    requires m <= |actions| && Run(count, actions).Some?
    ensures Run(count, actions[..m]).Some? && Advances(Run(count, actions[..m]).value, Run(count, actions).value)
  {
    if m == |actions| {
      assert actions[..m] == actions;
    } else {
      var init := actions[..|actions| - 1];
      assert init[..m] == actions[..m];
      IndexesNeverDecrease(count, init, m);
      RunKeeps(count, init);
      StepAdvances(Run(count, init).value, actions[|actions| - 1]);
    }
  }

  // ---- Garbage collection --------------------------------------------------

  /** At any moment of a process the spawned ranges are disjoint and cover exactly the
      indexes from the start of the process to the last compaction, and running any of
      them removes nothing at all, in particular no live record. */
  lemma CollectionIsSafe(count: nat, actions: seq<Action>, n: nat, task: GcTask, i: int)
    requires Run(count, actions).Some? && n < |Run(count, actions).value.nodes|
    requires task in Run(count, actions).value.nodes[n].peer.tasks
    ensures var node := Run(count, actions).value.nodes[n];
            && RunGc(node.peer.state, task) == node.peer.state
            && (forall j, k | 0 <= j < k < |node.peer.tasks| :: node.peer.tasks[j].end <= node.peer.tasks[k].start)
            && (node.boot < i <= node.peer.lastCompacted <==>
                exists k | 0 <= k < |node.peer.tasks| :: node.peer.tasks[k].start <= i < node.peer.tasks[k].end)
  {
    RunKeeps(count, actions);
    var c := Run(count, actions).value;
    assert NodeOk(c.committed, c.nodes[n]);
    CollectionIsNoOp(c.committed, c.nodes[n], task);
    TilesPartition(c.nodes[n].boot, c.nodes[n].peer.tasks, c.nodes[n].peer.lastCompacted, i);
  }

  // ---- Replicated state ----------------------------------------------------

  /** At its horizon a store differs from the replay in exactly the stray keys. */
  lemma StoreExactly(kv: KvMap, committed: seq<Entry>, applied: nat, stray: set<Bytes>)
    requires Tracks(kv, committed, applied, applied, stray) && StrayExactly(kv, committed, applied, applied, stray)
    ensures forall key :: key in stray <==> Lookup(kv, key) != Lookup(Replay(committed[..applied]), key)
    ensures kv.Keys == Replay(committed[..applied]).Keys + stray
    ensures kv == Replay(committed[..applied]) <==> stray == {}
  {
    hide Replay;
    forall key: Bytes
      ensures if key in stray then key in kv && key !in Replay(committed[..applied])
              else Lookup(kv, key) == Lookup(Replay(committed[..applied]), key)
    {
      if key in stray {
        assert AbsentAfter(committed, applied, applied, key);
        assert AbsentAt(committed, applied, key);
      } else {
        assert TracksKey(kv, committed, applied, applied, key);
        assert KeyAt(kv, committed, applied, key);
      }
    }
    if stray == {} {
      SameLookups(kv, Replay(committed[..applied]));
    } else {
      var key :| key in stray;
      assert key in kv && key !in Replay(committed[..applied]);
    }
  }

  /** A replica that has applied everything its data may reflect. */
  ghost predicate CaughtUp(node: Node) { node.horizon == AppliedIndex(node) }

  lemma NodeExactly(c: Cluster, n: nat)
    requires Inv(c) && n < |c.nodes|
    ensures AppliedIndex(c.nodes[n]) <= c.nodes[n].horizon <= |c.committed|
    ensures CaughtUp(c.nodes[n]) ==>
              var node, replay := c.nodes[n], Replay(c.committed[..AppliedIndex(c.nodes[n])]);
              && (forall key :: key in node.stray <==> Lookup(node.peer.state.disk.kv, key) != Lookup(replay, key))
              && node.peer.state.disk.kv.Keys == replay.Keys + node.stray
              && (node.peer.state.disk.kv == replay <==> node.stray == {})
  {
    hide LogMatches, TracksKey, AbsentAfter, Synced, KvFits;
    var node := c.nodes[n];
    assert NodeOk(c.committed, node);
    if CaughtUp(node) {
      StoreExactly(node.peer.state.disk.kv, c.committed, AppliedIndex(node), node.stray);
    }
  }

  /** State machine safety, exactly: in every run, whatever its other replicas installed,
      a replica that has caught up holds the memory store after its applied prefix of the
      one committed sequence if and only if it has no stray key; key by key, it differs
      from that store in its stray keys and nowhere else. */
  lemma ReplicaExactly(count: nat, actions: seq<Action>, n: nat)
    requires Run(count, actions).Some? && n < |Run(count, actions).value.nodes|
    ensures var c := Run(count, actions).value;
            var node, applied := c.nodes[n], AppliedIndex(c.nodes[n]);
            && applied <= node.horizon <= |c.committed|
            && (CaughtUp(node) ==>
                  var kv, replay := node.peer.state.disk.kv, Replay(c.committed[..applied]);
                  && (forall key :: key in node.stray <==> Lookup(kv, key) != Lookup(replay, key))
                  && (kv == replay <==> node.stray == {}))
  {
    hide Run, Replay, Lookup;
    RunKeeps(count, actions);
    NodeExactly(Run(count, actions).value, n);
  }

  /** Replicas that have caught up to the same index agree exactly when they have the same
      stray keys with the same values; without stray keys both are the replay. */
  lemma ReplicasAgree(count: nat, actions: seq<Action>, j: nat, k: nat)
    requires Run(count, actions).Some?
    requires j < |Run(count, actions).value.nodes| && k < |Run(count, actions).value.nodes|
    requires var c := Run(count, actions).value;
             CaughtUp(c.nodes[j]) && CaughtUp(c.nodes[k]) && AppliedIndex(c.nodes[j]) == AppliedIndex(c.nodes[k])
    ensures var c := Run(count, actions).value;
            var x, y := c.nodes[j], c.nodes[k];
            var s, t := x.peer.state.disk.kv, y.peer.state.disk.kv;
            && (s == t <==> x.stray == y.stray && forall key | key in x.stray :: Lookup(s, key) == Lookup(t, key))
            && (x.stray == {} == y.stray ==>
                  AppliedIndex(x) <= |c.committed| && s == t == Replay(c.committed[..AppliedIndex(x)]))
  {
    hide Run, Replay, Lookup, Inv;
    RunKeeps(count, actions);
    var c := Run(count, actions).value;
    NodeExactly(c, j);
    NodeExactly(c, k);
    var x, y := c.nodes[j], c.nodes[k];
    if x.stray == y.stray && forall key | key in x.stray ::
        Lookup(x.peer.state.disk.kv, key) == Lookup(y.peer.state.disk.kv, key) {
      forall key: Bytes ensures Lookup(x.peer.state.disk.kv, key) == Lookup(y.peer.state.disk.kv, key) {
      }
      SameLookups(x.peer.state.disk.kv, y.peer.state.disk.kv);
    }
  }

  /** An install that clears nothing away because there is nothing to clear: every key of
      the old store is in the snapshot. A store that is still empty qualifies. */
  ghost predicate CleanInstall(c: Cluster, a: Action)
    requires Enabled(c, a)
  {
    a.SaveReady? && a.msg.Some? ==> c.nodes[a.n].peer.state.disk.kv.Keys <= DataOf(a.rd.snapshot).Keys
  }

  /** A clean install of a snapshot whose data was captured at its metadata's index. */
  ghost predicate ExactInstall(c: Cluster, a: Action)
    requires Enabled(c, a)
  {
    CleanInstall(c, a) && (a.SaveReady? && a.msg.Some? ==> a.msg.value.horizon == a.msg.value.snap.meta.index)
  }

  ghost predicate AllClean(count: nat, actions: seq<Action>)
    requires Run(count, actions).Some?
  {
    actions == [] ||
    var init := actions[..|actions| - 1];
    AllClean(count, init) && CleanInstall(Run(count, init).value, actions[|actions| - 1])
  }

  ghost predicate AllExact(count: nat, actions: seq<Action>)
    requires Run(count, actions).Some?
  {
    actions == [] ||
    var init := actions[..|actions| - 1];
    AllExact(count, init) && ExactInstall(Run(count, init).value, actions[|actions| - 1])
  }

  ghost predicate NothingStray(c: Cluster)
  {
    && (forall n | 0 <= n < |c.nodes| ::
          c.nodes[n].stray == {} && forall msg | msg in c.nodes[n].generated :: msg.stray == {})
    && (forall msg | msg in c.sent :: msg.stray == {})
  }

  ghost predicate AtHorizon(c: Cluster)
  {
    forall n | 0 <= n < |c.nodes| :: c.nodes[n].horizon == c.nodes[n].peer.state.mem.apply.applyIndex
  }

  lemma CleanStep(c: Cluster, a: Action)
    requires Inv(c) && Enabled(c, a) && CleanInstall(c, a) && NothingStray(c)
    ensures NothingStray(Step(c, a))
  {
    hide Save, Process, RunGc, Decoded, NodeOk;
    if a.SaveReady? && a.msg.Some? {
      assert a.msg.value.stray + (c.nodes[a.n].peer.state.disk.kv.Keys - DataOf(a.rd.snapshot).Keys) == {};
    }
  }

  lemma ExactNodeStep(c: Cluster, a: Action)
    requires Inv(c) && Enabled(c, a) && !a.Propose? && !a.ProposeCompaction? && !a.Commit?
    requires ExactInstall(c, a) && c.nodes[a.n].horizon == c.nodes[a.n].peer.state.mem.apply.applyIndex
    ensures StepNode(c, a).horizon == StepNode(c, a).peer.state.mem.apply.applyIndex
  {
    var node := c.nodes[a.n];
    assert NodeOk(c.committed, node);
    match a
    case SaveReady(_, rd, msg) => SaveKeeps(node.peer.state, rd);
    case ApplyNext(_) => ApplyTerm(c.committed, node.peer.state);
    case CollectLog(_, task) => CollectionIsNoOp(c.committed, node, task);
    case Restart(_) => RestartOk(c.committed, node);
    case _ =>
  }

  lemma ExactStep(c: Cluster, a: Action)
    requires Inv(c) && Enabled(c, a) && ExactInstall(c, a) && AtHorizon(c)
    ensures AtHorizon(Step(c, a))
  {
    hide Inv, Enabled, Step, StepNode, ExactInstall;
    OtherNodesStay(c, a);
    if !a.Propose? && !a.ProposeCompaction? && !a.Commit? {
      ExactNodeStep(c, a);
    }
  }

  lemma {:induction false} CleanRun(count: nat, actions: seq<Action>)
    requires Run(count, actions).Some? && AllClean(count, actions)
    ensures NothingStray(Run(count, actions).value)
  {
    if actions != [] {
      var init := actions[..|actions| - 1];
      CleanRun(count, init);
      RunKeeps(count, init);
      CleanStep(Run(count, init).value, actions[|actions| - 1]);
    }
  }

  lemma {:induction false} ExactRun(count: nat, actions: seq<Action>)
    requires Run(count, actions).Some? && AllExact(count, actions)
    ensures AllClean(count, actions) && AtHorizon(Run(count, actions).value)
  {
    if actions != [] {
      var init := actions[..|actions| - 1];
      ExactRun(count, init);
      RunKeeps(count, init);
      ExactStep(Run(count, init).value, actions[|actions| - 1]);
    }
  }

  /** A condition on the run that suffices for every replica at once: with only exact
      installs (none, say) each is always caught up and has no stray key. */
  lemma ExactRunsAgree(count: nat, actions: seq<Action>, n: nat)
    requires Run(count, actions).Some? && AllExact(count, actions) && n < |Run(count, actions).value.nodes|
    ensures var c := Run(count, actions).value;
            var applied := AppliedIndex(c.nodes[n]);
            applied <= |c.committed| && c.nodes[n].peer.state.disk.kv == Replay(c.committed[..applied])
  {
    hide Run, AllExact, AllClean, Replay, Lookup;
    ExactRun(count, actions);
    CleanRun(count, actions);
    ReplicaExactly(count, actions, n);
  }

  // ---- Reads ---------------------------------------------------------------

  /** Once `index` is applied, a key that is not stray has its value after some committed
      prefix of length at least `index`; on a replica that has caught up the keys that hold
      the value of the applied prefix are exactly those that are not stray. */
  lemma ReadsAreLinearizable(count: nat, actions: seq<Action>, n: nat, index: nat, key: Bytes)
    requires Run(count, actions).Some? && n < |Run(count, actions).value.nodes|
    requires index <= AppliedIndex(Run(count, actions).value.nodes[n])
    ensures var c := Run(count, actions).value;
            var node := c.nodes[n];
            var kv, applied := node.peer.state.disk.kv, AppliedIndex(node);
            && applied <= |c.committed|
            && (key !in node.stray ==> exists m | index <= m <= |c.committed| :: KeyAt(kv, c.committed, m, key))
            && (CaughtUp(node) ==> (key !in node.stray <==> KeyAt(kv, c.committed, applied, key)))
  {
    hide Run, Inv, LogMatches, Replay, Lookup, AbsentAfter;
    RunKeeps(count, actions);
    var c := Run(count, actions).value;
    NodeExactly(c, n);
    var node := c.nodes[n];
    var kv, applied := node.peer.state.disk.kv, AppliedIndex(node);
    assert NodeOk(c.committed, node);
    if key !in node.stray {
      assert TracksKey(kv, c.committed, applied, node.horizon, key);
      var m :| applied <= m <= node.horizon && KeyAt(kv, c.committed, m, key);
      assert index <= m <= |c.committed|;
    }
  }

  // ---- Snapshots -----------------------------------------------------------

  lemma ValidSnapshotTerm(committed: seq<Entry>, s: State, meta: SnapshotMeta)
    requires LogMatches(committed, s) && s.mem.apply.truncIndex <= meta.index
    requires MetaOk(committed, meta, s.mem.apply.applyIndex)
    ensures ReadTerm(s, meta.index) == Success(meta.term)
  {
    hide ReadTerm, WindowHeld;
    TermRefinesLog(s, meta.index);
    if s.mem.apply.truncIndex < meta.index {
      assert LogOf(s).EntryAt(meta.index) == committed[meta.index - 1];
    }
  }

  lemma EntriesFrom(s: State, index: U64)
    requires LogInv(s) && s.mem.apply.truncIndex <= index <= s.mem.local.lastIndex
    ensures s.mem.local.lastIndex + 1 < TWO_64
    ensures ReadEntries(s, index + 1, s.mem.local.lastIndex + 1) == Success(LogOf(s).ents[index - LogOf(s).offset..])
  {
    hide ReadEntries;
    var last, log := s.mem.local.lastIndex, LogOf(s);
    EntriesRefineLog(s, index + 1, last + 1);
    assert log.ents[index - log.offset..last - log.offset] == log.ents[index - log.offset..];
  }

  lemma NodeMatches(c: Cluster, n: nat)
    requires Inv(c) && n < |c.nodes|
    ensures LogMatches(c.committed, c.nodes[n].peer.state)
    ensures forall msg | msg in c.nodes[n].generated ::
              MetaOk(c.committed, msg.snap.meta, c.nodes[n].peer.state.mem.apply.applyIndex)
  {
    hide LogMatches, Tracks;
    assert NodeOk(c.committed, c.nodes[n]);
  }

  /** A snapshot that is still valid when raft gets it connects to the log, however much
      was applied or compacted since it was captured: its term is the current term at its
      index, and every entry after it can be read. */
  lemma HandedSnapshotConnects(count: nat, actions: seq<Action>, n: nat, msg: SnapMsg)
    requires Run(count, actions).Some? && n < |Run(count, actions).value.nodes|
    requires msg in Run(count, actions).value.nodes[n].generated
    requires msg.snap.meta.index >= Run(count, actions).value.nodes[n].peer.state.mem.apply.truncIndex
    ensures var s := Run(count, actions).value.nodes[n].peer.state;
            var index, last := msg.snap.meta.index, s.mem.local.lastIndex;
            && LogInv(s)
            && s.mem.apply.truncIndex <= index <= s.mem.apply.applyIndex <= last < TWO_64 - 1
            && ReadTerm(s, index) == Success(msg.snap.meta.term)
            && ReadEntries(s, index + 1, last + 1) == Success(LogOf(s).ents[index - LogOf(s).offset..])
  {
    hide Run, Inv, ReadTerm, ReadEntries;
    RunKeeps(count, actions);
    var c := Run(count, actions).value;
    NodeMatches(c, n);
    ValidSnapshotTerm(c.committed, c.nodes[n].peer.state, msg.snap.meta);
    EntriesFrom(c.nodes[n].peer.state, msg.snap.meta.index);
  }

  // ---- handleReady is a run of steps ---------------------------------------

  /** What raft promises about the committed entries of a `Ready`: they continue the
      applied prefix of the committed sequence and are in the saved log. */
  ghost predicate CommittedHere(committed: seq<Entry>, s: State, count: nat)
  {
    var applied := s.mem.apply.applyIndex;
    && LogInv(s)
    && applied + count <= |committed|
    && applied + count <= s.mem.local.lastIndex
    && forall i | applied < i <= applied + count ::
         s.mem.apply.truncIndex < i && LogOf(s).EntryAt(i) == committed[i - 1]
  }

  ghost predicate CanApply(committed: seq<Entry>, node: Node, count: nat)
  {
    CommittedOk(committed) && NodeOk(committed, node) && CommittedHere(committed, node.peer.state, count)
  }

  lemma CanApplyBounds(committed: seq<Entry>, node: Node, count: nat)
    requires CanApply(committed, node, count)
    ensures AppliedIndex(node) + count <= |committed|
  {
  }

  lemma ApplyNodeHere(committed: seq<Entry>, node: Node, count: nat)
    requires count > 0 && CanApply(committed, node, count)
    ensures AppliedIndex(node) < |committed|
    ensures CanApply(committed, ApplyNode(node, committed[AppliedIndex(node)]), count - 1)
    ensures AppliedIndex(ApplyNode(node, committed[AppliedIndex(node)])) == AppliedIndex(node) + 1
  {
    hide Process, CommittedOk;
    var s, applied := node.peer.state, AppliedIndex(node);
    assert s.mem.apply.truncIndex < applied + 1 && LogOf(s).EntryAt(applied + 1) == committed[applied];
    ApplyNodeOk(committed, node);
    ApplyInv(committed, node.peer);
    ApplyTerm(committed, s);
    var s' := ApplyNode(node, committed[applied]).peer.state;
    assert s'.mem.local == s.mem.local;
    forall i | applied + 1 < i <= applied + count
      ensures s'.mem.apply.truncIndex < i && LogOf(s').EntryAt(i) == committed[i - 1]
    {
      ApplyEntry(committed, node.peer, i);
    }
  }

  ghost function AppliedNode(node: Node, ents: seq<Entry>): Node
  {
    if ents == [] then node else ApplyNode(AppliedNode(node, ents[..|ents| - 1]), ents[|ents| - 1])
  }

  lemma {:induction false} AppliedNodePeer(node: Node, ents: seq<Entry>)
    ensures AppliedNode(node, ents).peer == ProcessAll(node.peer, ents)
  {
    hide Process;
    if ents != [] {
      AppliedNodePeer(node, ents[..|ents| - 1]);
    }
  }

  lemma AppliedNodeNothing(committed: seq<Entry>, node: Node, from: nat)
    requires from <= |committed|
    ensures AppliedNode(node, committed[from..from]) == node
  {
  }

  lemma AppliedNodeStep(committed: seq<Entry>, node: Node, from: nat, k: nat)
    requires from + k + 1 <= |committed|
    ensures AppliedNode(node, committed[from..from + k + 1]) ==
            ApplyNode(AppliedNode(node, committed[from..from + k]), committed[from + k])
  {
    var ents := committed[from..from + k + 1];
    assert ents[..k] == committed[from..from + k];
  }

  lemma {:induction false} AppliedNodeOk(committed: seq<Entry>, node: Node, k: nat, count: nat)
    requires CanApply(committed, node, count) && k <= count
    ensures AppliedIndex(node) + k <= |committed|
    ensures CanApply(committed, AppliedNode(node, committed[AppliedIndex(node)..AppliedIndex(node) + k]), count - k)
    ensures AppliedIndex(AppliedNode(node, committed[AppliedIndex(node)..AppliedIndex(node) + k])) ==
            AppliedIndex(node) + k
  {
    hide *;
    CanApplyBounds(committed, node, count);
    if k == 0 {
      AppliedNodeNothing(committed, node, AppliedIndex(node));
    } else {
      AppliedNodeOk(committed, node, k - 1, count);
      AppliedNodeStep(committed, node, AppliedIndex(node), k - 1);
      ApplyNodeHere(committed, AppliedNode(node, committed[AppliedIndex(node)..AppliedIndex(node) + k - 1]),
          count - k + 1);
    }
  }

  function Applies(n: nat, count: nat): (actions: seq<Action>)
    ensures |actions| == count
  {
    seq(count, _ => ApplyNext(n))
  }

  lemma ApplyNextIs(c: Cluster, n: nat, count: nat)
    requires n < |c.nodes| && count > 0 && CanApply(c.committed, c.nodes[n], count)
    ensures Enabled(c, ApplyNext(n)) && AppliedIndex(c.nodes[n]) < |c.committed|
    ensures Step(c, ApplyNext(n)) == c.(nodes :=
            c.nodes[n := ApplyNode(c.nodes[n], c.committed[AppliedIndex(c.nodes[n])])])
  {
    hide ApplyNode, CommittedOk;
    var s, applied := c.nodes[n].peer.state, AppliedIndex(c.nodes[n]);
    assert s.mem.apply.truncIndex < applied + 1 && LogOf(s).EntryAt(applied + 1) == c.committed[applied];
  }

  lemma AppliesStep(c: Cluster, n: nat, k: nat, mid: Cluster)
    requires RunFrom(c, Applies(n, k)) == Some(mid) && Enabled(mid, ApplyNext(n))
    ensures RunFrom(c, Applies(n, k + 1)) == Some(Step(mid, ApplyNext(n)))
  {
    hide Enabled, Step;
    assert Applies(n, k + 1)[..k] == Applies(n, k);
  }

  lemma AppliesNothing(c: Cluster, n: nat)
    ensures RunFrom(c, Applies(n, 0)) == Some(c)
  {
  }

  lemma {:induction false} AppliesRun(c: Cluster, n: nat, k: nat, count: nat)
    requires n < |c.nodes| && CanApply(c.committed, c.nodes[n], count) && k <= count
    ensures AppliedIndex(c.nodes[n]) + k <= |c.committed|
    ensures var after := AppliedNode(c.nodes[n], c.committed[AppliedIndex(c.nodes[n])..AppliedIndex(c.nodes[n]) + k]);
            RunFrom(c, Applies(n, k)) == Some(c.(nodes := c.nodes[n := after]))
  {
    hide *;
    CanApplyBounds(c.committed, c.nodes[n], count);
    var node, applied := c.nodes[n], AppliedIndex(c.nodes[n]);
    if k == 0 {
      AppliesNothing(c, n);
      assert c.nodes[n := node] == c.nodes;
      AppliedNodeNothing(c.committed, node, applied);
    } else {
      AppliesRun(c, n, k - 1, count);
      AppliedNodeOk(c.committed, node, k - 1, count);
      AppliedNodeStep(c.committed, node, applied, k - 1);
      var mid := c.(nodes := c.nodes[n := AppliedNode(node, c.committed[applied..applied + k - 1])]);
      ApplyNextIs(mid, n, count - k + 1);
      AppliesStep(c, n, k - 1, mid);
      var after := AppliedNode(node, c.committed[applied..applied + k]);
      assert mid.nodes[n := after] == c.nodes[n := after];
    }
  }

  lemma SavedPeer(c: Cluster, n: nat, rd: Ready, msg: Option<SnapMsg>)
    requires Enabled(c, SaveReady(n, rd, msg))
    ensures var saved := Step(c, SaveReady(n, rd, msg));
            && saved.committed == c.committed && |saved.nodes| == |c.nodes| && n < |c.nodes|
            && HandleReady(c.nodes[n].peer, rd) == ProcessAll(saved.nodes[n].peer, rd.committedEntries)
  {
    hide Save, ReadyOk, LogInv;
  }

  lemma InvCanApply(c: Cluster, n: nat, count: nat)
    requires Inv(c) && n < |c.nodes| && CommittedHere(c.committed, c.nodes[n].peer.state, count)
    ensures CanApply(c.committed, c.nodes[n], count)
  {
    hide NodeOk, CommittedHere, CommittedOk;
  }

  /** One `handleReady` of the running replica is a run of the cluster's steps: the save,
      then one step for each committed entry. */
  lemma HandleReadyIsRun(c: Cluster, n: nat, rd: Ready, msg: Option<SnapMsg>, saved: Cluster)
    requires Inv(c) && Enabled(c, SaveReady(n, rd, msg)) && saved == Step(c, SaveReady(n, rd, msg))
    requires CommittedHere(saved.committed, saved.nodes[n].peer.state, |rd.committedEntries|)
    requires rd.committedEntries ==
             saved.committed[AppliedIndex(saved.nodes[n])..AppliedIndex(saved.nodes[n]) + |rd.committedEntries|]
    ensures var run := RunFrom(saved, Applies(n, |rd.committedEntries|));
            run.Some? && |run.value.nodes| == |c.nodes| && run.value.nodes[n].peer == HandleReady(c.nodes[n].peer, rd)
  {
    hide *;
    SavedPeer(c, n, rd, msg);
    StepKeeps(c, SaveReady(n, rd, msg));
    InvCanApply(saved, n, |rd.committedEntries|);
    AppliesRun(saved, n, |rd.committedEntries|, |rd.committedEntries|);
    AppliedNodePeer(saved.nodes[n], rd.committedEntries);
  }
}
