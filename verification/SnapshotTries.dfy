/** Requests for a snapshot: generations are started, interrupted, received and given up. */
module SnapshotTries {
  import opened ByteStrings
  import opened Wrappers
  import opened RaftTypes

  const SNAP_TRIED_CNT := 5

  datatype SnapStateType = SnapshotGenerating | SnapshotRelaxed | SnapshotApplying

  /** Channels are numbered; `receiver` names the one the last generating task sends on. */
  datatype SnapState = SnapState(stateType: SnapStateType, receiver: nat)

  datatype SnapError = ErrSnapshotTemporarilyUnavailable | ErrFailedToGetSnapshot

  /** `channels` holds the snapshots that wait in a channel, `tasks` the channels of all
      generating tasks started so far. */
  datatype Generator = Generator(state: SnapState, tried: nat, channels: map<nat, Snapshot>, tasks: seq<nat>)

  predicate Generating(g: Generator) { g.state.stateType == SnapshotGenerating }

  predicate Waiting(g: Generator) { Generating(g) && g.state.receiver !in g.channels }

  /** The snapshot a request finds, the empty one if no generation was under way. */
  function Received(g: Generator): Snapshot
    requires !Waiting(g)
  {
    if Generating(g) then g.channels[g.state.receiver] else NO_SNAPSHOT
  }

  /** The generator once the arrived snapshot, if any, was taken out of its channel. */
  function Taken(g: Generator): Generator
    requires !Waiting(g)
  {
    if !Generating(g) then g else
    g.(state := g.state.(stateType := SnapshotRelaxed),
       channels := g.channels - {g.state.receiver},
       tried := if IsEmptySnap(Received(g)) then g.tried else 0)
  }

  /** One request: hand over, wait, give up, or start the next generation. */
  function RequestSnapshot(g: Generator, truncIndex: U64): (Generator, Result<Snapshot, SnapError>)
  {
    if Waiting(g) then (g, Failure(ErrSnapshotTemporarilyUnavailable)) else
    var snap, taken := Received(g), Taken(g);
    if !IsEmptySnap(snap) && snap.meta.index >= truncIndex then (taken, Success(snap))
    else if taken.tried >= SNAP_TRIED_CNT then (taken.(tried := 0), Failure(ErrFailedToGetSnapshot))
    else (taken.(state := SnapState(SnapshotGenerating, |g.tasks|), tried := taken.tried + 1,
        tasks := g.tasks + [|g.tasks|]),
          Failure(ErrSnapshotTemporarilyUnavailable))
  }

  // ---- Runs ----------------------------------------------------------------

  /** An interrupt is a snapshot install: it moves the generator to the applying state,
      whatever it was doing. */
  datatype Event = Ask(truncIndex: U64) | Arrive(channel: nat, snap: Snapshot) | Interrupt

  /** `wasted` is history: the generations since the last snapshot that arrived, or since
      the last failure, that an install interrupted or that came back empty. */
  datatype Tracked = Tracked(g: Generator, wasted: nat)

  const START := Tracked(Generator(SnapState(SnapshotRelaxed, 0), 0, map[], []), 0)

  predicate Possible(t: Tracked, e: Event)
  {
    e.Arrive? ==> e.channel in t.g.tasks && e.channel !in t.g.channels
  }

  /** What was wasted when a request that does not wait has looked into its channel. */
  function WastedNow(t: Tracked): nat
    requires !Waiting(t.g)
  {
    if !Generating(t.g) then t.wasted else if IsEmptySnap(Received(t.g)) then t.wasted + 1 else 0
  }

  function Step(t: Tracked, e: Event): Tracked
    requires Possible(t, e)
  {
    match e
    case Ask(truncIndex) =>
      var (g, r) := RequestSnapshot(t.g, truncIndex);
      Tracked(g, if Waiting(t.g) then t.wasted else if r == Failure(ErrFailedToGetSnapshot) then 0 else WastedNow(t))
    case Arrive(channel, snap) => t.(g := t.g.(channels := t.g.channels[channel := snap]))
    case Interrupt =>
      Tracked(t.g.(state := t.g.state.(stateType := SnapshotApplying)),
              if Generating(t.g) then t.wasted + 1 else t.wasted)
  }

  /** The state after the events, if each was possible in its turn. */
  function Run(events: seq<Event>): Option<Tracked>
  {
    if events == [] then Some(START) else
    match Run(events[..|events| - 1])
    case None => None
    case Some(t) => if Possible(t, events[|events| - 1]) then Some(Step(t, events[|events| - 1])) else None
  }

  predicate CounterOk(t: Tracked)
  {
    t.g.tried == t.wasted + (if Generating(t.g) then 1 else 0) <= SNAP_TRIED_CNT
  }

  lemma {:induction false} RunKeeps(events: seq<Event>)
    requires Run(events).Some?
    ensures CounterOk(Run(events).value)
  {
    if events != [] {
      RunKeeps(events[..|events| - 1]);
    }
  }

  /** In every run a request gives up if and only if five generations in a row were wasted
      since the last snapshot that arrived or the last failure, and nothing else can make
      it give up: not the snapshots that arrive and are too old, and not the waiting. */
  lemma GivesUpIff(events: seq<Event>, truncIndex: U64)
    requires Run(events).Some?
    ensures var t := Run(events).value;
            RequestSnapshot(t.g, truncIndex).1 == Failure(ErrFailedToGetSnapshot) <==>
            !Waiting(t.g) && WastedNow(t) == 5
  {
    hide Run;
    RunKeeps(events);
  }

  /** Without an install and without an empty snapshot no request ever gives up. */
  lemma {:induction false} NeverGivesUp(events: seq<Event>, truncIndex: U64)
    requires Run(events).Some?
    requires forall e | e in events :: !e.Interrupt? && (e.Arrive? ==> !IsEmptySnap(e.snap))
    ensures Run(events).value.wasted == 0
    ensures forall channel | channel in Run(events).value.g.channels ::
            !IsEmptySnap(Run(events).value.g.channels[channel])
    ensures RequestSnapshot(Run(events).value.g, truncIndex).1 != Failure(ErrFailedToGetSnapshot)
  {
    if events != [] {
      var init, e := events[..|events| - 1], events[|events| - 1];
      assert e in events;
      NeverGivesUp(init, truncIndex);
      RunKeeps(events);
    }
  }

  /** `n` requests, each of them followed by an install. */
  function Interrupted(n: nat): seq<Event>
  {
    if n == 0 then [] else Interrupted(n - 1) + [Ask(0), Interrupt]
  }

  lemma RunTwo(events: seq<Event>, a: Event, b: Event)
    requires Run(events).Some? && Possible(Run(events).value, a) && Possible(Step(Run(events).value, a), b)
    ensures Run(events + [a, b]) == Some(Step(Step(Run(events).value, a), b))
  {
    hide Step, Possible;
    assert (events + [a, b])[..|events| + 1] == events + [a] && (events + [a])[..|events|] == events;
  }

  lemma {:induction false} InterruptedWastes(n: nat)
    requires n <= SNAP_TRIED_CNT
    ensures Run(Interrupted(n)).Some?
    ensures var t := Run(Interrupted(n)).value; !Generating(t.g) && t.wasted == t.g.tried == n
  {
    if n > 0 {
      InterruptedWastes(n - 1);
      RunTwo(Interrupted(n - 1), Ask(0), Interrupt);
    }
  }

  /** Five requests whose generations installs interrupt make the sixth give up. */
  lemma FiveInterruptionsGiveUp()
    ensures Run(Interrupted(SNAP_TRIED_CNT)).Some?
    ensures RequestSnapshot(Run(Interrupted(SNAP_TRIED_CNT)).value.g, 0).1 == Failure(ErrFailedToGetSnapshot)
  {
    InterruptedWastes(SNAP_TRIED_CNT);
  }
}
