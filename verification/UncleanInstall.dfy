/** Runs after which a store is not the replay of what its replica applied: an install that
    leaves a stray key, and one whose data is ahead of its metadata. */
module UncleanInstall {
  import opened ByteStrings
  import opened Wrappers
  import opened RaftTypes
  import opened Commands
  import opened PairCodec
  import opened Storage
  import opened RaftLog
  import opened StorageState
  import opened PeerState
  import opened Cluster
  import opened ClusterInvariant
  import opened ClusterTheorems

  const KEY: Bytes := [1]
  const VALUE: Bytes := [2]
  const PUT := Entry(1, 1, RaftCmd(Some(Put(KEY, VALUE)), None))
  const DELETE := Entry(2, 1, RaftCmd(Some(Delete(KEY)), None))

  function ReadyWith(snap: Snapshot, ents: seq<Entry>): Ready { Ready(snap, ents, NO_HARD_STATE, [], []) }

  lemma RunSnoc(from: Cluster, actions: seq<Action>, c: Cluster, a: Action)
    requires RunFrom(from, actions) == Some(c) && Enabled(c, a)
    ensures RunFrom(from, actions + [a]) == Some(Step(c, a))
  {
    hide Enabled, Step;
    assert (actions + [a])[..|actions|] == actions;
  }

  lemma Goes(actions: seq<Action>, c: Cluster, a: Action) returns (actions': seq<Action>, c': Cluster)
    requires Run(2, actions) == Some(c) && Enabled(c, a)
    ensures Run(2, actions') == Some(c') && c' == Step(c, a) && Inv(c')
  {
    hide Enabled, Step, Inv, RunFrom, Init;
    actions', c' := actions + [a], Step(c, a);
    RunSnoc(Init(2), actions, c, a);
    RunKeeps(2, actions');
  }

  lemma SaveStepIs(c: Cluster, n: nat, rd: Ready, msg: Option<SnapMsg>)
    requires n < |c.nodes| && LogInv(c.nodes[n].peer.state) && ReadyOk(c.nodes[n].peer.state, rd)
    requires match msg
             case None => IsEmptySnap(rd.snapshot)
             case Some(m) => m in c.sent && rd.snapshot == m.snap && !IsEmptySnap(m.snap)
    ensures Enabled(c, SaveReady(n, rd, msg))
    ensures Step(c, SaveReady(n, rd, msg)) == c.(nodes := c.nodes[n := SaveNode(c.nodes[n], rd, msg)])
  {
    hide LogInv, SaveNode;
  }

  lemma ApplyStepIs(c: Cluster, n: nat)
    requires n < |c.nodes| && StorageInv(c.nodes[n].peer.state) && NextIsCommitted(c.committed, c.nodes[n].peer.state)
    ensures Enabled(c, ApplyNext(n))
    ensures var ent := c.committed[AppliedIndex(c.nodes[n])];
            Step(c, ApplyNext(n)) == c.(nodes := c.nodes[n := ApplyNode(c.nodes[n], ent)])
  {
    hide LogInv, ApplyNode;
  }

  ghost function MsgOf(node: Node, meta: SnapshotMeta): SnapMsg
  {
    SnapMsg(Snapshot(meta, Encoded(Listing(node.peer.state.disk.kv))), node.horizon, node.stray)
  }

  ghost function Capturing(node: Node, meta: SnapshotMeta): Node
  {
    node.(generated := node.generated + {MsgOf(node, meta)})
  }

  lemma CaptureStepsAre(c: Cluster, n: nat)
    requires n < |c.nodes|
    ensures Enabled(c, StartCapture(n))
    ensures var node := c.nodes[n];
            Step(c, StartCapture(n)) == c.(nodes :=
                c.nodes[n := node.(captures := node.captures + {CapturedMeta(node.peer.state)})])
    ensures forall meta | meta in c.nodes[n].captures && meta.index > 0 ::
              && Enabled(c, FinishCapture(n, meta))
              && Step(c, FinishCapture(n, meta)) == c.(nodes := c.nodes[n := Capturing(c.nodes[n], meta)])
  {
  }

  /** A replica that holds `ents` and applied the first of them, without any install. */
  ghost predicate Plain(node: Node, ents: seq<Entry>, applied: nat)
  {
    && LogInv(node.peer.state) && LogOf(node.peer.state) == Log(0, 0, ents)
    && AppliedIndex(node) == applied == node.horizon
    && node.stray == {}
  }

  /** Only node `n` changed. */
  ghost predicate Only(c: Cluster, c': Cluster, n: nat)
  {
    && n < |c.nodes| == |c'.nodes|
    && c'.committed == c.committed && c'.sent == c.sent
    && forall k | 0 <= k < |c.nodes| && k != n :: c'.nodes[k] == c.nodes[k]
  }

  lemma PlainParts(node: Node, ents: seq<Entry>, applied: nat)
    requires Plain(node, ents, applied)
    ensures AppliedIndex(node) == applied == node.horizon && node.stray == {}
    ensures node.peer.state.mem.apply.truncIndex == 0
    ensures CapturedMeta(node.peer.state).index == applied
    ensures forall other: Node |
              other.peer == node.peer && other.horizon == node.horizon && other.stray == node.stray ::
              Plain(other, ents, applied)
  {
  }

  lemma SavedPlain(committed: seq<Entry>, node: Node, ents: seq<Entry>)
    requires NodeOk(committed, node) && Plain(node, [], 0)
    requires Log(0, 0, []).Accepts(ents) && ents != [] && ents[0].index == 1
    ensures ReadyOk(node.peer.state, ReadyWith(NO_SNAPSHOT, ents))
    ensures Plain(SaveNode(node, ReadyWith(NO_SNAPSHOT, ents), None), ents, 0)
  {
    hide Save, LogInv;
    SaveKeeps(node.peer.state, ReadyWith(NO_SNAPSHOT, ents));
  }

  lemma SavePlain(actions: seq<Action>, c: Cluster, n: nat, ents: seq<Entry>)
    returns (actions': seq<Action>, c': Cluster)
    requires Run(2, actions) == Some(c) && n < |c.nodes| && Plain(c.nodes[n], [], 0)
    requires Log(0, 0, []).Accepts(ents) && ents != [] && ents[0].index == 1
    ensures Run(2, actions') == Some(c') && Only(c, c', n) && Plain(c'.nodes[n], ents, 0)
  {
    hide Run, NodeOk, SaveNode, ReadyOk, Log.Accepts, LogInv, Enabled, Step, Inv;
    RunKeeps(2, actions);
    assert NodeOk(c.committed, c.nodes[n]);
    SavedPlain(c.committed, c.nodes[n], ents);
    SaveStepIs(c, n, ReadyWith(NO_SNAPSHOT, ents), None);
    actions', c' := Goes(actions, c, SaveReady(n, ReadyWith(NO_SNAPSHOT, ents), None));
  }

  lemma AppliedPlain(committed: seq<Entry>, node: Node, ents: seq<Entry>, applied: nat)
    requires NodeOk(committed, node) && Plain(node, ents, applied)
    requires applied < |ents| && applied < |committed| && ents[applied] == committed[applied]
    requires CompactionOf(ents[applied].cmd) == None
    ensures StorageInv(node.peer.state) && NextIsCommitted(committed, node.peer.state)
    ensures Plain(ApplyNode(node, ents[applied]), ents, applied + 1)
  {
    ProcessKeeps(node.peer, ents[applied]);
  }

  lemma ApplyPlain(actions: seq<Action>, c: Cluster, n: nat, ents: seq<Entry>, applied: nat)
    returns (actions': seq<Action>, c': Cluster)
    requires Run(2, actions) == Some(c) && n < |c.nodes| && Plain(c.nodes[n], ents, applied)
    requires applied < |ents| && applied < |c.committed| && ents[applied] == c.committed[applied]
    requires CompactionOf(ents[applied].cmd) == None
    ensures Run(2, actions') == Some(c') && Only(c, c', n) && Plain(c'.nodes[n], ents, applied + 1)
    ensures c'.nodes[n].captures == c.nodes[n].captures
  {
    hide Run, NodeOk, Process, Plain, StorageInv, NextIsCommitted, Enabled, Step, Inv;
    RunKeeps(2, actions);
    assert NodeOk(c.committed, c.nodes[n]);
    AppliedPlain(c.committed, c.nodes[n], ents, applied);
    PlainParts(c.nodes[n], ents, applied);
    ApplyStepIs(c, n);
    actions', c' := Goes(actions, c, ApplyNext(n));
  }

  lemma PlainStore(c: Cluster, n: nat, ents: seq<Entry>, applied: nat)
    requires Inv(c) && n < |c.nodes| && Plain(c.nodes[n], ents, applied)
    ensures applied <= |c.committed| && c.nodes[n].peer.state.disk.kv == Replay(c.committed[..applied])
  {
    hide Inv, Replay;
    NodeExactly(c, n);
  }

  lemma RunNothing()
    ensures Run(2, []) == Some(Init(2))
  {
  }

  lemma FreshPlain()
    ensures Plain(FRESH_NODE, [], 0)
  {
    assert LogOf(FRESH_STATE) == Log(0, 0, []);
  }

  /** Both commands are committed, and neither replica has done anything. */
  lemma BothCommitted() returns (actions: seq<Action>, c: Cluster)
    ensures Run(2, actions) == Some(c) && Inv(c)
    ensures c.committed == [PUT, DELETE] && |c.nodes| == 2 && Plain(c.nodes[0], [], 0) && Plain(c.nodes[1], [], 0)
  {
    hide Run, Inv, Plain;
    actions, c := [], Init(2);
    FreshPlain();
    assert Run(2, []) == Some(Init(2)) by { RunNothing(); }
    actions, c := Goes(actions, c, Propose(PUT.cmd));
    actions, c := Goes(actions, c, Propose(DELETE.cmd));
    actions, c := Goes(actions, c, Commit(PUT));
    actions, c := Goes(actions, c, Commit(DELETE));
  }

  /** The first replica has applied both commands, the second only the put. */
  lemma OneBehind() returns (actions: seq<Action>, c: Cluster)
    ensures Run(2, actions) == Some(c) && Inv(c)
    ensures c.committed == [PUT, DELETE] && |c.nodes| == 2
    ensures Plain(c.nodes[0], [PUT, DELETE], 2) && Plain(c.nodes[1], [PUT], 1)
  {
    hide Run, Plain, Inv;
    actions, c := BothCommitted();
    actions, c := SavePlain(actions, c, 0, [PUT, DELETE]);
    actions, c := ApplyPlain(actions, c, 0, [PUT, DELETE], 0);
    actions, c := ApplyPlain(actions, c, 0, [PUT, DELETE], 1);
    actions, c := SavePlain(actions, c, 1, [PUT]);
    actions, c := ApplyPlain(actions, c, 1, [PUT], 0);
    RunKeeps(2, actions);
  }

  lemma ReplaySnoc(ents: seq<Entry>, ent: Entry)
    ensures Replay(ents + [ent]) == Perform(Replay(ents), OpOf(ent.cmd))
  {
    assert (ents + [ent])[..|ents|] == ents;
  }

  lemma Stores()
    ensures Replay([PUT]) == map[KEY := VALUE] && Replay([PUT, DELETE]) == map[]
    ensures Encoded(Listing(map[])) == [] && Decoded([]) == Ok([])
  {
    ReplaySnoc([], PUT);
    ReplaySnoc([PUT], DELETE);
    assert [] + [PUT] == [PUT] && [PUT] + [DELETE] == [PUT, DELETE];
    assert Listing(map[]) == [];
  }

  /** The first replica captured its store, which is empty as the put was deleted. */
  lemma SnapshotCaptured() returns (actions: seq<Action>, c: Cluster, msg: SnapMsg)
    ensures Run(2, actions) == Some(c) && Inv(c)
    ensures c.committed == [PUT, DELETE] && |c.nodes| == 2
    ensures Plain(c.nodes[0], [PUT, DELETE], 2) && Plain(c.nodes[1], [PUT], 1)
    ensures msg in c.nodes[0].generated && msg.snap.meta.index == 2 && msg.snap.data == []
    ensures msg.stray == {} && msg.horizon == 2
  {
    hide Run, Plain, Inv, CapturedMeta, Replay, Encoded, Listing, Decoded, Enabled, Step;
    actions, c := OneBehind();
    var node, meta := c.nodes[0], CapturedMeta(c.nodes[0].peer.state);
    PlainParts(node, [PUT, DELETE], 2);
    PlainStore(c, 0, [PUT, DELETE], 2);
    assert c.committed[..2] == c.committed;
    Stores();
    msg := MsgOf(node, meta);
    CaptureStepsAre(c, 0);
    actions, c := Goes(actions, c, StartCapture(0));
    CaptureStepsAre(c, 0);
    actions, c := Goes(actions, c, FinishCapture(0, meta));
  }

  lemma SnapshotSent() returns (actions: seq<Action>, c: Cluster, msg: SnapMsg)
    ensures Run(2, actions) == Some(c) && Inv(c)
    ensures c.committed == [PUT, DELETE] && |c.nodes| == 2
    ensures Plain(c.nodes[0], [PUT, DELETE], 2) && Plain(c.nodes[1], [PUT], 1)
    ensures msg in c.sent && msg.snap.meta.index == 2 && msg.snap.data == [] && msg.stray == {} && msg.horizon == 2
  {
    hide Run, Plain, Inv;
    actions, c, msg := SnapshotCaptured();
    PlainParts(c.nodes[0], [PUT, DELETE], 2);
    actions, c := Goes(actions, c, SendSnapshot(0, msg));
  }

  lemma Installs(committed: seq<Entry>, node: Node, ents: seq<Entry>, applied: nat, msg: SnapMsg)
    requires NodeOk(committed, node) && Plain(node, ents, applied)
    requires applied < msg.snap.meta.index < TWO_64 - 1 && msg.snap.data == [] && msg.stray == {}
    ensures !IsEmptySnap(msg.snap) && ReadyOk(node.peer.state, ReadyWith(msg.snap, []))
    ensures var node' := SaveNode(node, ReadyWith(msg.snap, []), Some(msg));
            && node'.peer.state.disk.kv == node.peer.state.disk.kv
            && AppliedIndex(node') == msg.snap.meta.index && node'.horizon == msg.horizon
            && node'.stray == node.peer.state.disk.kv.Keys
  {
    hide Save, LogInv;
    Stores();
    SaveKeeps(node.peer.state, ReadyWith(msg.snap, []));
    assert PutAll(node.peer.state.disk.kv, []) == node.peer.state.disk.kv && DataOf(msg.snap) == map[];
  }

  /** Two replicas of one cluster, at the same apply index, with different stores: the
      second installed a snapshot that lacks a key it held, and the key is stray there. */
  lemma StoresDiffer() returns (actions: seq<Action>, c: Cluster)
    ensures Run(2, actions) == Some(c) && |c.nodes| == 2 && c.committed == [PUT, DELETE]
    ensures AppliedIndex(c.nodes[0]) == AppliedIndex(c.nodes[1]) == 2
    ensures c.nodes[0].peer.state.disk.kv == map[] && c.nodes[1].peer.state.disk.kv == map[KEY := VALUE]
    ensures c.nodes[1].stray == {KEY}
  {
    hide Run, Plain, LogInv, ReadyOk, SaveNode, Replay, Decoded, Enabled, Step;
    var msg;
    actions, c, msg := SnapshotSent();
    Stores();
    PlainStore(c, 0, [PUT, DELETE], 2);
    PlainStore(c, 1, [PUT], 1);
    PlainParts(c.nodes[0], [PUT, DELETE], 2);
    assert c.committed[..2] == c.committed && c.committed[..1] == [PUT];
    assert NodeOk(c.committed, c.nodes[1]);
    Installs(c.committed, c.nodes[1], [PUT], 1, msg);
    assert LogInv(c.nodes[1].peer.state);
    SaveStepIs(c, 1, ReadyWith(msg.snap, []), Some(msg));
    actions, c := Goes(actions, c, SaveReady(1, ReadyWith(msg.snap, []), Some(msg)));
  }

  /** The first replica captures metadata before it applies the deletion and data after. */
  lemma CaptureStarted() returns (actions: seq<Action>, c: Cluster, meta: SnapshotMeta)
    ensures Run(2, actions) == Some(c) && Inv(c)
    ensures c.committed == [PUT, DELETE] && |c.nodes| == 2
    ensures Plain(c.nodes[0], [PUT, DELETE], 1) && Plain(c.nodes[1], [], 0)
    ensures meta.index == 1 && meta in c.nodes[0].captures
  {
    hide Run, Plain, Inv, CapturedMeta, Enabled, Step;
    actions, c := BothCommitted();
    actions, c := SavePlain(actions, c, 0, [PUT, DELETE]);
    actions, c := ApplyPlain(actions, c, 0, [PUT, DELETE], 0);
    meta := CapturedMeta(c.nodes[0].peer.state);
    PlainParts(c.nodes[0], [PUT, DELETE], 1);
    CaptureStepsAre(c, 0);
    actions, c := Goes(actions, c, StartCapture(0));
  }

  lemma DataIsAhead() returns (actions: seq<Action>, c: Cluster, msg: SnapMsg)
    ensures Run(2, actions) == Some(c) && Inv(c)
    ensures c.committed == [PUT, DELETE] && |c.nodes| == 2 && Plain(c.nodes[1], [], 0)
    ensures msg in c.nodes[0].generated && msg.snap.meta.index == 1 <= c.nodes[0].peer.state.mem.apply.applyIndex
    ensures c.nodes[0].peer.state.mem.apply.truncIndex == 0
    ensures msg.snap.data == [] && msg.stray == {} && msg.horizon == 2
  {
    hide Run, Plain, Inv, Replay, Encoded, Listing, Decoded, Enabled, Step;
    var meta;
    actions, c, meta := CaptureStarted();
    actions, c := ApplyPlain(actions, c, 0, [PUT, DELETE], 1);
    RunKeeps(2, actions);
    PlainParts(c.nodes[0], [PUT, DELETE], 2);
    PlainStore(c, 0, [PUT, DELETE], 2);
    assert c.committed[..2] == c.committed;
    Stores();
    msg := MsgOf(c.nodes[0], meta);
    CaptureStepsAre(c, 0);
    actions, c := Goes(actions, c, FinishCapture(0, meta));
  }

  lemma NoReplay(committed: seq<Entry>)
    ensures Replay(committed[..0]) == map[]
  {
  }

  lemma InstallsOnEmpty(c: Cluster, msg: SnapMsg)
    requires Inv(c) && |c.nodes| == 2 && Plain(c.nodes[1], [], 0) && msg in c.sent
    requires msg.snap.meta.index == 1 && msg.snap.data == [] && msg.stray == {}
    ensures Enabled(c, SaveReady(1, ReadyWith(msg.snap, []), Some(msg)))
    ensures var c' := Step(c, SaveReady(1, ReadyWith(msg.snap, []), Some(msg)));
            && |c'.nodes| == 2 && c'.committed == c.committed
            && AppliedIndex(c'.nodes[1]) == 1 && c'.nodes[1].horizon == msg.horizon
            && c'.nodes[1].stray == {} && c'.nodes[1].peer.state.disk.kv == map[]
  {
    hide LogInv, ReadyOk, SaveNode, Enabled, Step, Replay, Decoded;
    assert NodeOk(c.committed, c.nodes[1]);
    PlainStore(c, 1, [], 0);
    assert Replay(c.committed[..0]) == map[] by { NoReplay(c.committed); }
    Installs(c.committed, c.nodes[1], [], 0, msg);
    SaveStepIs(c, 1, ReadyWith(msg.snap, []), Some(msg));
  }

  /** A replica below its horizon, without a stray key, whose store is not the replay of what
      it applied: it installed metadata captured at index 1 with data captured at index 2. */
  lemma AheadOfReplay() returns (actions: seq<Action>, c: Cluster)
    ensures Run(2, actions) == Some(c) && |c.nodes| == 2 && c.committed == [PUT, DELETE]
    ensures AppliedIndex(c.nodes[1]) == 1 < c.nodes[1].horizon == 2 && c.nodes[1].stray == {}
    ensures c.nodes[1].peer.state.disk.kv == map[] != Replay(c.committed[..1])
  {
    hide Run, Plain, Inv, LogInv, ReadyOk, SaveNode, Replay, Decoded;
    var msg;
    actions, c, msg := DataIsAhead();
    actions, c := Goes(actions, c, SendSnapshot(0, msg));
    InstallsOnEmpty(c, msg);
    Stores();
    assert c.committed[..1] == [PUT] && KEY in Replay([PUT]);
    actions, c := Goes(actions, c, SaveReady(1, ReadyWith(msg.snap, []), Some(msg)));
  }
}
