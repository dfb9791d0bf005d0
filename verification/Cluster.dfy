/** N replicas of one committed sequence, as a state machine. Raft itself is the
    environment: it grows the committed sequence and hands out `Ready` batches. */
module Cluster {
  import opened ByteStrings
  import opened Wrappers
  import opened RaftTypes
  import opened Commands
  import opened PairCodec
  import opened Storage
  import opened StorageState
  import opened PeerState
  import opened SnapshotReplay

  /** A snapshot with two history variables: the length of the longest committed prefix
      its data may reflect, and the keys its data does not answer for. */
  datatype SnapMsg = SnapMsg(snap: Snapshot, horizon: nat, stray: set<Bytes>)

  /** A replica with what its generating tasks hold. `boot` (the truncated index when the
      process started), `horizon` and `stray` are history variables. */
  datatype Node = Node(peer: Peer, captures: set<SnapshotMeta>, generated: set<SnapMsg>,
                       boot: U64, horizon: nat, stray: set<Bytes>)

  /** `proposed` holds every command ever proposed, `sent` every snapshot ever handed to
      raft: both may be delivered late, repeatedly, or never. */
  datatype Cluster = Cluster(committed: seq<Entry>, proposed: set<RaftCmd>, nodes: seq<Node>, sent: set<SnapMsg>)

  datatype Action =
    | Propose(cmd: RaftCmd)
    | ProposeCompaction(n: nat)
    | Commit(ent: Entry)
    | SaveReady(n: nat, rd: Ready, msg: Option<SnapMsg>)
    | ApplyNext(n: nat)
    | StartCapture(n: nat)
    | FinishCapture(n: nat, meta: SnapshotMeta)
    | SendSnapshot(n: nat, sending: SnapMsg)
    | CollectLog(n: nat, task: GcTask)
    | Restart(n: nat)

  const EMPTY_CMD := RaftCmd(None, None)

  predicate CmdFits(cmd: RaftCmd)
  {
    match OpOf(cmd) case PutOp(k, v) => Fits(Pair(k, v)) case _ => true
  }

  function DataOf(snap: Snapshot): KvMap
    requires Decoded(snap.data).Ok?
  {
    PutAll(map[], Decoded(snap.data).value)
  }

  function StrayAfter(stray: set<Bytes>, op: KvOp): set<Bytes>
  {
    if op.NoOp? then stray else stray - {op.key}
  }

  function Max(a: int, b: int): int { if a < b then b else a }

  // ---- Steps -------------------------------------------------------------

  ghost predicate Enabled(c: Cluster, a: Action)
  {
    match a
    case Propose(cmd) => cmd.admin == None && CmdFits(cmd)
    case ProposeCompaction(n) => n < |c.nodes| && GcProposal(c.nodes[n].peer.state).Ok?
                                 && GcProposal(c.nodes[n].peer.state).value.Some?
    case Commit(ent) =>
      && ent.index == |c.committed| + 1 < TWO_64 - 1
      && (c.committed != [] ==> c.committed[|c.committed| - 1].term <= ent.term)
      && (ent.cmd in c.proposed || ent.cmd == EMPTY_CMD)
    case SaveReady(n, rd, msg) =>
      && n < |c.nodes| && LogInv(c.nodes[n].peer.state)
      && ReadyOk(c.nodes[n].peer.state, rd)
      && (match msg
          case None => IsEmptySnap(rd.snapshot)
          case Some(m) => m in c.sent && rd.snapshot == m.snap && !IsEmptySnap(m.snap))
    case ApplyNext(n) =>
      && n < |c.nodes| && LogInv(c.nodes[n].peer.state)
      && var s := c.nodes[n].peer.state;
         && s.mem.apply.truncIndex <= s.mem.apply.applyIndex < s.mem.local.lastIndex
         && s.mem.apply.applyIndex < |c.committed|
         && LogOf(s).EntryAt(s.mem.apply.applyIndex + 1) == c.committed[s.mem.apply.applyIndex]
    case StartCapture(n) => n < |c.nodes|
    case FinishCapture(n, meta) => n < |c.nodes| && meta in c.nodes[n].captures && meta.index > 0
    case SendSnapshot(n, sending) => n < |c.nodes| && sending in c.nodes[n].generated
                                     && sending.snap.meta.index >= c.nodes[n].peer.state.mem.apply.truncIndex
    case CollectLog(n, task) => n < |c.nodes| && task in c.nodes[n].peer.tasks
    case Restart(n) => n < |c.nodes| && Recover(c.nodes[n].peer.state.disk).Ok?
  }

  ghost function SaveNode(node: Node, rd: Ready, msg: Option<SnapMsg>): Node
    requires msg.Some? ==> Decoded(rd.snapshot.data).Ok?
  {
    var saved := node.(peer := node.peer.(state := Save(node.peer.state, rd)));
    if msg.None? then saved else
    saved.(horizon := msg.value.horizon,
           stray := msg.value.stray + (node.peer.state.disk.kv.Keys - DataOf(rd.snapshot).Keys))
  }

  ghost function ApplyNode(node: Node, ent: Entry): Node
  {
    node.(peer := Process(node.peer, ent),
          horizon := Max(node.horizon, ent.index),
          stray := StrayAfter(node.stray, OpOf(ent.cmd)))
  }

  ghost function RestartNode(node: Node): Node
    requires Recover(node.peer.state.disk).Ok?
  {
    var mem := Recover(node.peer.state.disk).value;
    var trunc := mem.apply.truncIndex;
    Node(Peer(State(node.peer.state.disk, mem), trunc, []), {}, {}, trunc, node.horizon, node.stray)
  }

  ghost function StepNode(c: Cluster, a: Action): Node
    requires Enabled(c, a) && !a.Propose? && !a.ProposeCompaction? && !a.Commit?
  {
    var node := c.nodes[a.n];
    match a
    case SaveReady(_, rd, msg) => SaveNode(node, rd, msg)
    case ApplyNext(_) => ApplyNode(node, c.committed[node.peer.state.mem.apply.applyIndex])
    case StartCapture(_) => node.(captures := node.captures + {CapturedMeta(node.peer.state)})
    case FinishCapture(_, meta) =>
      var msg := SnapMsg(Snapshot(meta, Encoded(Listing(node.peer.state.disk.kv))), node.horizon, node.stray);
      node.(generated := node.generated + {msg})
    case SendSnapshot(_, _) => node
    case CollectLog(_, task) => node.(peer := node.peer.(state := RunGc(node.peer.state, task)))
    case Restart(_) => RestartNode(node)
  }

  ghost function Step(c: Cluster, a: Action): Cluster
    requires Enabled(c, a)
  {
    match a
    case Propose(cmd) => c.(proposed := c.proposed + {cmd})
    case ProposeCompaction(n) => c.(proposed := c.proposed + {GcProposal(c.nodes[n].peer.state).value.value})
    case Commit(ent) => c.(committed := c.committed + [ent])
    case SendSnapshot(_, sending) => c.(sent := c.sent + {sending})
    case _ => c.(nodes := c.nodes[a.n := StepNode(c, a)])
  }

  const FRESH_NODE := Node(Peer(FRESH_STATE, 0, []), {}, {}, 0, 0, {})

  ghost function Init(count: nat): Cluster
  {
    Cluster([], {}, seq(count, _ => FRESH_NODE), {})
  }

  /** The state after the actions, if each of them was enabled in its turn. */
  ghost function RunFrom(c: Cluster, actions: seq<Action>): Option<Cluster>
  {
    if actions == [] then Some(c) else
    match RunFrom(c, actions[..|actions| - 1])
    case None => None
    case Some(mid) =>
      if Enabled(mid, actions[|actions| - 1]) then Some(Step(mid, actions[|actions| - 1])) else None
  }

  ghost function Run(count: nat, actions: seq<Action>): Option<Cluster>
  {
    RunFrom(Init(count), actions)
  }

  // ---- Invariants --------------------------------------------------------

  function CommittedTerm(committed: seq<Entry>, i: nat): U64
    requires i <= |committed|
  {
    if i == 0 then 0 else committed[i - 1].term
  }

  /** A compaction command names a committed entry and carries its term. */
  ghost predicate CmdOk(committed: seq<Entry>, cmd: RaftCmd)
  {
    && CmdFits(cmd)
    && match CompactionOf(cmd)
       case None => true
       case Some(CompactLog(i, t)) => 1 <= i <= |committed| && t == CommittedTerm(committed, i)
  }

  ghost predicate CommittedOk(committed: seq<Entry>)
  {
    && |committed| < TWO_64 - 1
    && TermsRise(committed)
    && forall p | 0 <= p < |committed| ::
         committed[p].index == p + 1 && CmdOk(committed[..p], committed[p].cmd)
  }

  ghost predicate KeyAt(kv: KvMap, committed: seq<Entry>, m: nat, key: Bytes)
    requires m <= |committed|
  {
    Lookup(kv, key) == Lookup(Replay(committed[..m]), key)
  }

  ghost predicate TracksKey(kv: KvMap, committed: seq<Entry>, applied: nat, horizon: nat, key: Bytes)
    requires applied <= horizon <= |committed|
  {
    exists m | applied <= m <= horizon :: KeyAt(kv, committed, m, key)
  }

  /** Each key that is not stray holds what the memory store holds after some committed
      prefix between the apply index and the horizon. */
  ghost predicate Tracks(kv: KvMap, committed: seq<Entry>, applied: nat, horizon: nat, stray: set<Bytes>)
  {
    && applied <= horizon <= |committed|
    && forall key | key !in stray :: TracksKey(kv, committed, applied, horizon, key)
  }

  ghost predicate AbsentAt(committed: seq<Entry>, m: nat, key: Bytes)
    requires m <= |committed|
  {
    key !in Replay(committed[..m])
  }

  ghost predicate AbsentAfter(committed: seq<Entry>, applied: nat, horizon: nat, key: Bytes)
    requires applied <= horizon <= |committed|
  {
    exists m | applied <= m <= horizon :: AbsentAt(committed, m, key)
  }

  /** A stray key is one too many: the store has it, and some committed prefix between the
      apply index and the horizon lacks it. */
  ghost predicate StrayExactly(kv: KvMap, committed: seq<Entry>, applied: nat, horizon: nat, stray: set<Bytes>)
  {
    && applied <= horizon <= |committed|
    && forall key | key in stray :: key in kv && AbsentAfter(committed, applied, horizon, key)
  }

  ghost predicate MetaOk(committed: seq<Entry>, meta: SnapshotMeta, applied: nat)
  {
    meta.index <= applied <= |committed| && meta.term == CommittedTerm(committed, meta.index)
  }

  ghost predicate SnapOk(committed: seq<Entry>, msg: SnapMsg)
  {
    && 1 <= msg.snap.meta.index <= |committed|
    && msg.snap.meta.term == CommittedTerm(committed, msg.snap.meta.index)
    && Decoded(msg.snap.data).Ok?
    && KvFits(DataOf(msg.snap))
    && Tracks(DataOf(msg.snap), committed, msg.snap.meta.index, msg.horizon, msg.stray)
    && StrayExactly(DataOf(msg.snap), committed, msg.snap.meta.index, msg.horizon, msg.stray)
  }

  /** The applied part of the log is the committed sequence. */
  ghost predicate LogMatches(committed: seq<Entry>, s: State)
  {
    && StorageInv(s)
    && s.mem.apply.applyIndex <= |committed|
    && s.mem.apply.truncTerm == CommittedTerm(committed, s.mem.apply.truncIndex)
    && forall i | s.mem.apply.truncIndex < i <= s.mem.apply.applyIndex :: LogOf(s).EntryAt(i) == committed[i - 1]
  }

  ghost predicate NodeOk(committed: seq<Entry>, node: Node)
  {
    var s := node.peer.state;
    var applied := s.mem.apply.applyIndex;
    && LogMatches(committed, s)
    && Synced(s)
    && KvFits(s.disk.kv)
    && Tracks(s.disk.kv, committed, applied, node.horizon, node.stray)
    && StrayExactly(s.disk.kv, committed, applied, node.horizon, node.stray)
    && Tiles(node.boot, node.peer.tasks, node.peer.lastCompacted)
    && node.peer.lastCompacted <= s.mem.apply.truncIndex
    && (forall meta | meta in node.captures :: MetaOk(committed, meta, applied))
    && (forall msg | msg in node.generated :: SnapOk(committed, msg) && msg.snap.meta.index <= applied)
  }

  ghost predicate Inv(c: Cluster)
  {
    && CommittedOk(c.committed)
    && (forall cmd | cmd in c.proposed :: CmdOk(c.committed, cmd))
    && (forall n | 0 <= n < |c.nodes| :: NodeOk(c.committed, c.nodes[n]))
    && (forall msg | msg in c.sent :: SnapOk(c.committed, msg))
  }
}
