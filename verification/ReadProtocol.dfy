/** Readers, the raft loop and the read handler as one state machine: who holds which
    read, and exactly when a signal finds one. */
module ReadProtocol {
  import opened ByteStrings
  import opened Wrappers

  type Ctx = Bytes

  const QUEUE_CAPACITY := 1024
  const SIGNAL_CAPACITY := 1

  /** Where the handler is in a scan; `size` counts the reads it may still take out. */
  datatype Handler =
    | Idle
    | Scanning(size: nat, last: Option<Ctx>)
    | Checking(size: nat, held: Ctx)
    | PuttingBack(size: nat, held: Ctx)
    | Found(held: Ctx)
    | FellThrough(last: Option<Ctx>)

  /** The raft loop files the read states of one `Ready`, then sends one signal. */
  datatype Loop = Free | Filing

  /** `queue`, `table` and `signals` are shared. The rest is history: reads ever queued,
      asked of raft, answered by raft (with their index), expired, and served; `surplus`
      counts the read states beyond the first of each `Ready`. */
  datatype State = State(queue: seq<Ctx>, table: map<Ctx, U64>, signals: nat, loop: Loop, handler: Handler,
                         queued: set<Ctx>, asked: set<Ctx>, answered: map<Ctx, U64>,
                         expired: set<Ctx>, served: map<Ctx, U64>, surplus: nat)

  const INIT := State([], map[], 0, Free, Idle, {}, {}, map[], {}, map[], 0)

  datatype Action =
    | Enqueue(ctx: Ctx)
    | Ask(ctx: Ctx)
    | Deliver(ctx: Ctx, index: U64)
    | Signal
    | Wake
    | Pop
    | Check(isOld: bool)
    | PutBack
    | Fall
    | Take

  /** What can happen: contexts are distinct, and raft answers a context at most once and
      only after it was asked. An answer may come after its read expired. A handler that
      fell through takes no further step. */
  predicate Possible(s: State, a: Action)
  {
    match a
    case Enqueue(ctx) => ctx !in s.queued && |s.queue| < QUEUE_CAPACITY
    case Ask(ctx) => ctx in s.queued && ctx !in s.asked
    case Deliver(ctx, _) => ctx in s.asked && ctx !in s.answered
    case Signal => s.loop.Filing? && s.signals < SIGNAL_CAPACITY
    case Wake => s.handler.Idle? && s.signals > 0
    case Pop => s.handler.Scanning? && s.handler.size > 0 && s.queue != []
    case Check(_) => s.handler.Checking? && s.handler.size > 0
    case PutBack => s.handler.PuttingBack? && s.handler.size > 0 && |s.queue| < QUEUE_CAPACITY
    case Fall => s.handler.Scanning? && s.handler.size == 0
    case Take => s.handler.Found? && s.handler.held in s.table
  }

  /** The same, with the promise that no answer comes after its read expired. */
  predicate Enabled(s: State, a: Action)
  {
    (a.Deliver? ==> a.ctx !in s.expired) && Possible(s, a)
  }

  function Step(s: State, a: Action): State
    requires Possible(s, a)
  {
    match a
    case Enqueue(ctx) => s.(queue := s.queue + [ctx], queued := s.queued + {ctx})
    case Ask(ctx) => s.(asked := s.asked + {ctx})
    case Deliver(ctx, index) =>
      s.(table := s.table[ctx := index], answered := s.answered[ctx := index], loop := Filing,
         surplus := if s.loop.Filing? then s.surplus + 1 else s.surplus)
    case Signal => s.(signals := s.signals + 1, loop := Free)
    case Wake => s.(signals := s.signals - 1, handler := Scanning(|s.queue|, None))
    case Pop => s.(queue := s.queue[1..], handler := Checking(s.handler.size, s.queue[0]))
    case Check(isOld) =>
      if s.handler.held in s.table then s.(handler := Found(s.handler.held))
      else if isOld then
        s.(handler := Scanning(s.handler.size - 1, Some(s.handler.held)), expired := s.expired + {s.handler.held})
      else s.(handler := PuttingBack(s.handler.size, s.handler.held))
    case PutBack =>
      s.(queue := s.queue + [s.handler.held], handler := Scanning(s.handler.size - 1, Some(s.handler.held)))
    case Fall => s.(handler := FellThrough(s.handler.last))
    case Take =>
      s.(handler := Idle, table := s.table - {s.handler.held},
          served := s.served[s.handler.held := s.table[s.handler.held]])
  }

  // ---- Invariants ----------------------------------------------------------

  predicate Holds(h: Handler, ctx: Ctx)
  {
    (h.Checking? || h.PuttingBack? || h.Found?) && h.held == ctx
  }

  predicate Pending(s: State, ctx: Ctx) { ctx in s.queue || Holds(s.handler, ctx) }

  /** Every read ever queued is in exactly one place. */
  ghost predicate PlacesOk(s: State)
  {
    && (forall i, j | 0 <= i < j < |s.queue| :: s.queue[i] != s.queue[j])
    && (forall ctx | ctx in s.queue :: !Holds(s.handler, ctx))
    && (forall ctx :: ctx in s.queued <==> Pending(s, ctx) || ctx in s.served || ctx in s.expired)
    && (forall ctx | Pending(s, ctx) :: ctx !in s.served && ctx !in s.expired)
    && (forall ctx | ctx in s.served :: ctx !in s.expired)
  }

  /** An answer is in the table until its read is served with it, which never happens once
      the read has expired. */
  ghost predicate AnswersOk(s: State)
  {
    && s.asked <= s.queued
    && s.answered.Keys <= s.asked
    && (forall ctx :: ctx in s.answered <==> ctx in s.table || ctx in s.served)
    && (forall ctx | ctx in s.table :: s.table[ctx] == s.answered[ctx] && ctx !in s.served)
    && (forall ctx | ctx in s.table :: Pending(s, ctx) || ctx in s.expired)
    && (forall ctx | ctx in s.served :: s.served[ctx] == s.answered[ctx])
  }

  function Owed(s: State): nat
  {
    s.signals + (if s.loop.Filing? then 1 else 0) + (if s.handler.Idle? then 0 else 1)
  }

  ghost predicate Inv(s: State)
  {
    && PlacesOk(s)
    && AnswersOk(s)
    && |s.table| == Owed(s) + s.surplus
  }

  /** The reads that were answered too late: they have expired and will never be served. */
  function Late(s: State): set<Ctx>
  {
    set ctx | ctx in s.answered && ctx in s.expired
  }

  /** Fewer answers are late than there are answers owed and to spare. */
  predicate Owing(s: State) { |Late(s)| < Owed(s) + s.surplus }

  ghost predicate AnswerWithin(s: State, size: int)
  {
    size <= |s.queue| && exists j | 0 <= j < size :: s.queue[j] in s.table
  }

  /** A scan has an answered read ahead of it. */
  ghost predicate ScanOk(s: State)
  {
    match s.handler
    case Idle => true
    case Scanning(size, _) => AnswerWithin(s, size)
    case Checking(size, held) => 0 < size <= |s.queue| + 1 && (held in s.table || AnswerWithin(s, size - 1))
    case PuttingBack(size, _) => 0 < size && AnswerWithin(s, size - 1)
    case Found(held) => held in s.table
    case FellThrough(_) => false
  }

  lemma EnqueuePlaces(s: State, ctx: Ctx)
    requires PlacesOk(s) && Possible(s, Enqueue(ctx))
    ensures PlacesOk(Step(s, Enqueue(ctx)))
  {
    var s' := Step(s, Enqueue(ctx));
    assert !Pending(s, ctx);
    assert forall c :: Pending(s', c) <==> Pending(s, c) || c == ctx;
  }

  lemma PopPlaces(s: State)
    requires PlacesOk(s) && Possible(s, Pop)
    ensures PlacesOk(Step(s, Pop))
  {
    var s' := Step(s, Pop);
    assert forall c :: c in s.queue <==> c == s.queue[0] || c in s'.queue;
    assert forall c :: Pending(s', c) <==> Pending(s, c);
  }

  lemma CheckPlaces(s: State, isOld: bool)
    requires PlacesOk(s) && Possible(s, Check(isOld))
    ensures PlacesOk(Step(s, Check(isOld)))
  {
    var s', held := Step(s, Check(isOld)), s.handler.held;
    assert Holds(s.handler, held) && Pending(s, held);
    assert forall c :: Pending(s, c) <==> Pending(s', c) || c == held;
  }

  lemma PutBackPlaces(s: State)
    requires PlacesOk(s) && Possible(s, PutBack)
    ensures PlacesOk(Step(s, PutBack))
  {
    var s' := Step(s, PutBack);
    assert Holds(s.handler, s.handler.held);
    assert forall c :: Pending(s', c) <==> Pending(s, c);
  }

  lemma TakePlaces(s: State)
    requires PlacesOk(s) && Possible(s, Take)
    ensures PlacesOk(Step(s, Take))
  {
    var s', held := Step(s, Take), s.handler.held;
    assert Holds(s.handler, held) && Pending(s, held);
    assert forall c :: Pending(s, c) <==> Pending(s', c) || c == held;
  }

  lemma StepPlaces(s: State, a: Action)
    requires PlacesOk(s) && Possible(s, a)
    ensures PlacesOk(Step(s, a))
  {
    match a
    case Enqueue(ctx) => EnqueuePlaces(s, ctx);
    case Pop => PopPlaces(s);
    case Check(isOld) => CheckPlaces(s, isOld);
    case PutBack => PutBackPlaces(s);
    case Take => TakePlaces(s);
    case _ => assert forall c :: Pending(s, c) <==> Pending(Step(s, a), c);
  }

  lemma DeliverAnswers(s: State, ctx: Ctx, index: U64)
    requires PlacesOk(s) && AnswersOk(s) && Possible(s, Deliver(ctx, index))
    ensures AnswersOk(Step(s, Deliver(ctx, index)))
  {
    assert ctx in s.queued;
  }

  lemma TakeAnswers(s: State)
    requires PlacesOk(s) && AnswersOk(s) && Possible(s, Take)
    ensures AnswersOk(Step(s, Take))
  {
    assert Holds(s.handler, s.handler.held);
  }

  lemma CheckAnswers(s: State, isOld: bool)
    requires PlacesOk(s) && AnswersOk(s) && Possible(s, Check(isOld))
    ensures AnswersOk(Step(s, Check(isOld)))
  {
    assert Holds(s.handler, s.handler.held);
  }

  /** A step that moves reads around, without losing one, leaves the answers alone. */
  lemma MovesKeepAnswers(s: State, s': State)
    requires AnswersOk(s)
    requires s'.table == s.table && s'.answered == s.answered && s'.served == s.served
    requires s.asked <= s'.asked <= s'.queued
    requires s'.expired == s.expired && forall ctx | Pending(s, ctx) :: Pending(s', ctx)
    ensures AnswersOk(s')
  {
    hide Pending;
  }

  lemma PopPending(s: State)
    requires Possible(s, Pop)
    ensures forall ctx | Pending(s, ctx) :: Pending(Step(s, Pop), ctx)
  {
    assert forall ctx :: ctx in s.queue <==> ctx == s.queue[0] || ctx in Step(s, Pop).queue;
  }

  lemma AskedIsQueued(s: State)
    requires AnswersOk(s)
    ensures s.asked <= s.queued
  {
  }

  lemma StepAnswers(s: State, a: Action)
    requires PlacesOk(s) && AnswersOk(s) && Possible(s, a)
    ensures AnswersOk(Step(s, a))
  {
    hide PlacesOk;
    match a
    case Deliver(ctx, index) => DeliverAnswers(s, ctx, index);
    case Take => TakeAnswers(s);
    case Check(isOld) => CheckAnswers(s, isOld);
    case Pop => PopPending(s); MovesKeepAnswers(s, Step(s, a));
    case _ =>
      AskedIsQueued(s);
      MovesKeepAnswers(s, Step(s, a));
  }

  lemma DeliverOwed(s: State, ctx: Ctx, index: U64)
    requires AnswersOk(s) && Possible(s, Deliver(ctx, index)) && |s.table| == Owed(s) + s.surplus
    ensures var s' := Step(s, Deliver(ctx, index));
            |s'.table| == Owed(s') + s'.surplus
  {
    assert ctx !in s.table;
    assert |s.table[ctx := index]| == |s.table| + 1;
  }

  lemma TableShrinks(table: map<Ctx, U64>, ctx: Ctx)
    requires ctx in table
    ensures |table - {ctx}| == |table| - 1
  {
    assert (table - {ctx}).Keys == table.Keys - {ctx};
    assert |(table - {ctx}).Keys| == |table - {ctx}| && |table.Keys| == |table|;
  }

  lemma StepOwed(s: State, a: Action)
    requires AnswersOk(s) && Possible(s, a) && |s.table| == Owed(s) + s.surplus
    ensures |Step(s, a).table| == Owed(Step(s, a)) + Step(s, a).surplus
  {
    hide AnswersOk;
    if a.Deliver? {
      DeliverOwed(s, a.ctx, a.index);
    } else if a.Take? {
      TableShrinks(s.table, s.handler.held);
    }
  }

  lemma LateInTable(s: State)
    requires Inv(s)
    ensures Late(s) <= s.table.Keys && |s.table.Keys| == Owed(s) + s.surplus
    ensures forall ctx | ctx in s.table :: ctx in Late(s) <==> ctx in s.expired
  {
  }

  lemma {:induction false} SubsetSize(xs: set<Ctx>, ys: set<Ctx>)
    requires xs <= ys
    ensures |xs| <= |ys|
    ensures |xs| == |ys| ==> xs == ys
  {
    if xs != {} {
      var x :| x in xs;
      SubsetSize(xs - {x}, ys - {x});
    }
  }

  lemma SmallerSet(xs: set<Ctx>, ys: set<Ctx>, y: Ctx)
    requires xs <= ys && y in ys && y !in xs
    ensures |xs| < |ys|
  {
    SubsetSize(xs, ys - {y});
  }

  /** Whenever the handler can take a signal, a queued read has an answer if and only if
      fewer answers are late than are owed and to spare. */
  lemma QueueHasAnswerIff(s: State)
    requires Inv(s) && Possible(s, Wake)
    ensures AnswerWithin(s, |s.queue|) <==> Owing(s)
  {
    hide Owed;
    LateInTable(s);
    SubsetSize(Late(s), s.table.Keys);
    if Owing(s) {
      if s.table.Keys <= Late(s) {
        SubsetSize(s.table.Keys, Late(s));
      }
      var ctx :| ctx in s.table.Keys && ctx !in Late(s);
      assert Pending(s, ctx);
      var j :| 0 <= j < |s.queue| && s.queue[j] == ctx;
      assert s.queue[j] in s.table;
    }
    if AnswerWithin(s, |s.queue|) {
      var j :| 0 <= j < |s.queue| && s.queue[j] in s.table;
      assert Pending(s, s.queue[j]);
      SmallerSet(Late(s), s.table.Keys, s.queue[j]);
    }
  }

  lemma PopScan(s: State)
    requires ScanOk(s) && Possible(s, Pop)
    ensures ScanOk(Step(s, Pop))
  {
    var s' := Step(s, Pop);
    var j :| 0 <= j < s.handler.size && s.queue[j] in s.table;
    if j > 0 {
      assert s'.queue[j - 1] in s'.table;
    }
  }

  /** Reads added at the back and answers added to the table leave an answer in reach. */
  lemma AnswerStays(s: State, s': State, size: int)
    requires AnswerWithin(s, size) && s.queue <= s'.queue && s.table.Keys <= s'.table.Keys
    ensures AnswerWithin(s', size)
  {
    var j :| 0 <= j < size && s.queue[j] in s.table;
    assert s'.queue[j] in s'.table;
  }

  /** Enqueueing, asking, filing and signalling leave the scan where it is. */
  lemma SharedScan(s: State, a: Action)
    requires ScanOk(s) && Possible(s, a) && (a.Enqueue? || a.Ask? || a.Deliver? || a.Signal?)
    ensures ScanOk(Step(s, a))
  {
    hide AnswerWithin;
    var s' := Step(s, a);
    assert s.queue <= s'.queue && s.table.Keys <= s'.table.Keys && s'.handler == s.handler;
    match s.handler
    case Scanning(size, _) => AnswerStays(s, s', size);
    case Checking(size, held) => if held !in s.table { AnswerStays(s, s', size - 1); }
    case PuttingBack(size, _) => AnswerStays(s, s', size - 1);
    case _ =>
  }

  lemma CheckScan(s: State, isOld: bool)
    requires ScanOk(s) && Possible(s, Check(isOld))
    ensures ScanOk(Step(s, Check(isOld)))
  {
    hide AnswerWithin;
    if s.handler.held !in s.table {
      AnswerStays(s, Step(s, Check(isOld)), s.handler.size - 1);
    }
  }

  lemma PutBackScan(s: State)
    requires ScanOk(s) && Possible(s, PutBack)
    ensures ScanOk(Step(s, PutBack))
  {
    AnswerStays(s, Step(s, PutBack), s.handler.size - 1);
  }

  lemma StepScan(s: State, a: Action)
    requires Inv(s) && ScanOk(s) && Possible(s, a) && (a.Wake? ==> Owing(s))
    ensures ScanOk(Step(s, a))
  {
    hide Inv, Owing;
    match a
    case Wake => QueueHasAnswerIff(s); AnswerStays(s, Step(s, a), |s.queue|);
    case Pop => PopScan(s);
    case Check(isOld) => CheckScan(s, isOld);
    case PutBack => PutBackScan(s);
    case Take =>
    case Fall =>
    case _ => SharedScan(s, a);
  }

  // ---- Runs ----------------------------------------------------------------

  /** Reachable states: every step was possible in its turn. */
  ghost predicate MayReach(actions: seq<Action>, s: State)
  {
    if actions == [] then s == INIT else
    var a := actions[|actions| - 1];
    exists before :: MayReach(actions[..|actions| - 1], before) && Possible(before, a) && s == Step(before, a)
  }

  predicate MatchingStep(s: State, a: Action) { Possible(s, a) && (a.Wake? ==> Owing(s)) }

  /** The same by runs that take a signal only while fewer answers are late than owed. */
  ghost predicate ReachesOwing(actions: seq<Action>, s: State)
  {
    if actions == [] then s == INIT else
    var a := actions[|actions| - 1];
    exists before :: ReachesOwing(actions[..|actions| - 1], before) && MatchingStep(before, a) && s == Step(before, a)
  }

  /** The same by runs in which no answer is late. */
  ghost predicate Reaches(actions: seq<Action>, s: State)
  {
    if actions == [] then s == INIT else
    var a := actions[|actions| - 1];
    exists before :: Reaches(actions[..|actions| - 1], before) && Enabled(before, a) && s == Step(before, a)
  }

  lemma InitOk()
    ensures Inv(INIT) && ScanOk(INIT)
  {
  }

  lemma InitHasNothingLate()
    ensures Late(INIT) == {}
  {
  }

  lemma StepKeeps(s: State, a: Action)
    requires Inv(s) && Possible(s, a)
    ensures Inv(Step(s, a))
  {
    hide PlacesOk, AnswersOk, Step, Possible, Owed;
    StepPlaces(s, a);
    StepAnswers(s, a);
    StepOwed(s, a);
  }

  lemma {:induction false} RunKeeps(actions: seq<Action>, s: State)
    requires MayReach(actions, s)
    ensures Inv(s)
  {
    hide Inv, Step, Possible;
    if actions == [] {
      InitOk();
    } else {
      var init, a := actions[..|actions| - 1], actions[|actions| - 1];
      var before :| MayReach(init, before) && Possible(before, a) && s == Step(before, a);
      RunKeeps(init, before);
      StepKeeps(before, a);
    }
  }

  lemma InvParts(s: State)
    requires Inv(s)
    ensures PlacesOk(s) && AnswersOk(s) && |s.table| == Owed(s) + s.surplus
  {
    hide PlacesOk, AnswersOk;
  }

  /** In every interleaving, late answers included: every queued read is in one place, the
      unserved answers number exactly what is owed to them (pending signals, a batch being
      filed, a scan under way) plus the surplus, and a served read got the index raft gave
      it. When the handler can take a signal, an answered read is in the queue if and only
      if fewer answers are late than owed and to spare. */
  lemma SignalIsMatchedIff(actions: seq<Action>, s: State)
    requires MayReach(actions, s)
    ensures PlacesOk(s) && AnswersOk(s) && |s.table| == Owed(s) + s.surplus
    ensures Possible(s, Wake) ==> (AnswerWithin(s, |s.queue|) <==> Owing(s))
  {
    hide *;
    RunKeeps(actions, s);
    InvParts(s);
    if Possible(s, Wake) {
      QueueHasAnswerIff(s);
    }
  }

  lemma {:induction false} OwingRunKeeps(actions: seq<Action>, s: State)
    requires ReachesOwing(actions, s)
    ensures MayReach(actions, s) && Inv(s) && ScanOk(s)
  {
    hide Inv, ScanOk, Step, Possible, Owing;
    if actions == [] {
      InitOk();
    } else {
      var init, a := actions[..|actions| - 1], actions[|actions| - 1];
      var before :| ReachesOwing(init, before) && MatchingStep(before, a) && s == Step(before, a);
      OwingRunKeeps(init, before);
      StepKeeps(before, a);
      StepScan(before, a);
    }
  }

  lemma NoFall(s: State)
    requires ScanOk(s)
    ensures !s.handler.FellThrough? && !Possible(s, Fall)
    ensures s.handler.Found? ==> s.handler.held in s.table
  {
  }

  /** If every signal is taken while fewer answers are late than owed, the handler never
      falls through, in any interleaving: whenever it scans, an answered read is within
      its reach. */
  lemma OwingRunsMatch(actions: seq<Action>, s: State)
    requires ReachesOwing(actions, s)
    ensures !s.handler.FellThrough? && !Possible(s, Fall)
    ensures s.handler.Found? ==> s.handler.held in s.table
  {
    hide *;
    OwingRunKeeps(actions, s);
    NoFall(s);
  }

  lemma NothingLate(s: State, a: Action)
    requires Inv(s) && Enabled(s, a) && Late(s) == {}
    ensures Late(Step(s, a)) == {} && MatchingStep(s, a)
  {
    if a.Check? && s.handler.held !in s.table {
      assert Holds(s.handler, s.handler.held) && Pending(s, s.handler.held);
      assert s.handler.held !in s.answered;
    }
    assert forall ctx :: ctx in s.answered ==> ctx !in s.expired by {
      assert forall ctx | ctx in s.answered && ctx in s.expired :: ctx in Late(s);
    }
  }

  lemma {:induction false} PromisedRuns(actions: seq<Action>, s: State)
    requires Reaches(actions, s)
    ensures ReachesOwing(actions, s) && Late(s) == {}
  {
    hide Inv, Step, Possible, MatchingStep, Late;
    if actions == [] {
      InitHasNothingLate();
    } else {
      var init, a := actions[..|actions| - 1], actions[|actions| - 1];
      var before :| Reaches(init, before) && Enabled(before, a) && s == Step(before, a);
      PromisedRuns(init, before);
      OwingRunKeeps(init, before);
      NothingLate(before, a);
    }
  }

  /** With no late answers the handler never falls through: each signal is matched. */
  lemma EverySignalIsMatched(actions: seq<Action>, s: State)
    requires Reaches(actions, s)
    ensures !s.handler.FellThrough? && !Possible(s, Fall)
    ensures s.handler.Found? ==> s.handler.held in s.table
    ensures |s.table| == Owed(s) + s.surplus
    ensures PlacesOk(s) && AnswersOk(s) && Late(s) == {}
  {
    hide *;
    PromisedRuns(actions, s);
    OwingRunsMatch(actions, s);
    OwingRunKeeps(actions, s);
    SignalIsMatchedIff(actions, s);
  }

  /** When everything is idle, the unserved answers are exactly the surplus, and those that
      are not late still have their read in the queue: an answer can be stranded only
      because one `Ready` carried several read states. */
  lemma StrandedAnswers(actions: seq<Action>, s: State)
    requires MayReach(actions, s) && s.signals == 0 && s.loop.Free? && s.handler.Idle?
    ensures |s.table| == s.surplus
    ensures forall ctx | ctx in s.table :: ctx in s.queue <==> ctx !in Late(s)
  {
    hide MayReach;
    RunKeeps(actions, s);
    LateInTable(s);
    forall ctx | ctx in s.table ensures ctx in s.queue <==> ctx !in Late(s) {
      assert ctx in s.queue ==> Pending(s, ctx);
    }
  }

  // ---- Progress of the handler ---------------------------------------------

  predicate IsHandlerStep(a: Action) { a.Pop? || a.Check? || a.PutBack? || a.Fall? || a.Take? }

  ghost predicate CanMove(s: State) { exists a :: IsHandlerStep(a) && Possible(s, a) }

  /** Putting a read back into a full queue. */
  predicate Blocked(s: State) { s.handler.PuttingBack? && |s.queue| >= QUEUE_CAPACITY }

  /** The handler's steps to the end of its scan, at most. */
  function StepsLeft(h: Handler): nat
  {
    match h
    case Idle => 0
    case Scanning(size, _) => 3 * size + 2
    case Checking(size, _) => 3 * size + 1
    case PuttingBack(size, _) => 3 * size
    case Found(_) => 1
    case FellThrough(_) => 0
  }

  lemma ScanMovesIff(s: State)
    requires ScanOk(s) && !s.handler.Idle?
    ensures CanMove(s) <==> !Blocked(s)
  {
    if !Blocked(s) {
      match s.handler
      case Scanning(_, _) => assert IsHandlerStep(Pop) && Possible(s, Pop);
      case Checking(_, _) => assert IsHandlerStep(Check(false)) && Possible(s, Check(false));
      case PuttingBack(_, _) => assert IsHandlerStep(PutBack) && Possible(s, PutBack);
      case Found(_) => assert IsHandlerStep(Take) && Possible(s, Take);
    }
  }

  /** In every state of a run that matches, a busy handler has a step of its own if and only if it is
      not putting a read back into a full queue. */
  lemma BusyHandlerMovesIff(actions: seq<Action>, s: State)
    requires ReachesOwing(actions, s) && !s.handler.Idle?
    ensures CanMove(s) <==> !(s.handler.PuttingBack? && |s.queue| >= 1024)
  {
    hide ReachesOwing, MayReach, Inv, ScanOk, CanMove;
    OwingRunKeeps(actions, s);
    ScanMovesIff(s);
  }

  lemma ScanGetsCloser(s: State, a: Action)
    requires ScanOk(s) && Possible(s, a) && !s.handler.Idle? && IsHandlerStep(a)
    ensures StepsLeft(Step(s, a).handler) < StepsLeft(s.handler)
    ensures Step(s, a).handler.Idle? ==> s.handler.Found? && s.handler.held in Step(s, a).served
  {
    hide AnswerWithin;
  }

  /** Every step of the handler brings it closer to the end of its scan, and the one that
      ends it serves a read. */
  lemma HandlerGetsCloser(actions: seq<Action>, s: State, a: Action)
    requires ReachesOwing(actions, s) && Possible(s, a) && !s.handler.Idle? && IsHandlerStep(a)
    ensures StepsLeft(Step(s, a).handler) < StepsLeft(s.handler)
    ensures Step(s, a).handler.Idle? ==> s.handler.Found? && s.handler.held in Step(s, a).served
  {
    hide ReachesOwing, MayReach, Inv, ScanOk, Step, StepsLeft;
    OwingRunKeeps(actions, s);
    ScanGetsCloser(s, a);
  }

  /** Nobody else moves a busy handler, so a blocked one stays blocked for good. */
  lemma BlockedStaysBlocked(s: State, a: Action)
    requires Possible(s, a) && !s.handler.Idle?
    ensures !IsHandlerStep(a) ==> Step(s, a).handler == s.handler
    ensures Blocked(s) ==> Blocked(Step(s, a)) && Step(s, a).queue == s.queue
  {
  }

  // ---- Runs that go wrong --------------------------------------------------

  lemma AtStart()
    ensures Reaches([], INIT)
  {
  }

  lemma AlsoReaches(actions: seq<Action>, s: State, a: Action) returns (actions': seq<Action>, s': State)
    requires Reaches(actions, s) && Enabled(s, a)
    ensures actions' == actions + [a] && Reaches(actions', s') && s' == Step(s, a)
  {
    actions', s' := actions + [a], Step(s, a);
    assert actions'[..|actions'| - 1] == actions;
    assert Reaches(actions'[..|actions'| - 1], s) && Enabled(s, actions'[|actions'| - 1]);
  }

  /** Two reads wait in the queue, and raft was asked about both. */
  lemma BothAsked(first: Ctx, second: Ctx) returns (actions: seq<Action>, s: State)
    requires first != second
    ensures Reaches(actions, s)
    ensures s == INIT.(queue := [first, second], queued := {first, second}, asked := {first, second})
  {
    hide Reaches;
    actions, s := [], INIT;
    assert Reaches(actions, s) by { AtStart(); }
    actions, s := AlsoReaches(actions, s, Enqueue(first));
    actions, s := AlsoReaches(actions, s, Enqueue(second));
    actions, s := AlsoReaches(actions, s, Ask(first));
    actions, s := AlsoReaches(actions, s, Ask(second));
  }

  lemma BothAnswered(first: Ctx, second: Ctx, index: U64) returns (actions: seq<Action>, s: State)
    requires first != second
    ensures Reaches(actions, s)
    ensures s.queue == [first, second] && s.table == s.answered == map[first := index, second := index]
    ensures s.handler == Scanning(2, None) && s.signals == 0 && s.loop.Free? && s.expired == {}
  {
    hide Reaches;
    actions, s := BothAsked(first, second);
    actions, s := AlsoReaches(actions, s, Deliver(first, index));
    actions, s := AlsoReaches(actions, s, Deliver(second, index));
    actions, s := AlsoReaches(actions, s, Signal);
    actions, s := AlsoReaches(actions, s, Wake);
  }

  /** Two reads answered in one `Ready`: one signal is sent and one read is served. The
      other waits with its answer while nothing is left to do. */
  lemma AnswerIsStranded(first: Ctx, second: Ctx, index: U64)
    requires first != second
    ensures exists actions, s ::
              && Reaches(actions, s)
              && s.signals == 0 && s.loop.Free? && s.handler.Idle?
              && second in s.answered && second in s.table && s.queue == [second]
  {
    hide Reaches;
    var actions, s := BothAnswered(first, second, index);
    actions, s := AlsoReaches(actions, s, Pop);
    actions, s := AlsoReaches(actions, s, Check(false));
    actions, s := AlsoReaches(actions, s, Take);
  }

  /** `n` zero bytes, a context of its own for each `n`. */
  function Zeros(n: nat): Ctx { seq(n, _ => 0) }

  lemma {:induction false} Fills(n: nat) returns (actions: seq<Action>, s: State)
    requires n <= QUEUE_CAPACITY
    ensures Reaches(actions, s)
    ensures s == INIT.(queue := seq(n, i requires 0 <= i => Zeros(i)), queued := s.queued)
    ensures (forall ctx | ctx in s.queued :: |ctx| < n) && forall i | 0 <= i < n :: Zeros(i) in s.queued
  {
    hide Reaches;
    if n == 0 {
      actions, s := [], INIT;
      assert Reaches(actions, s) by { AtStart(); }
    } else {
      actions, s := Fills(n - 1);
      assert |Zeros(n - 1)| == n - 1;
      actions, s := AlsoReaches(actions, s, Enqueue(Zeros(n - 1)));
    }
  }

  /** The handler can block for good: it takes a read out of a full queue, a reader fills
      the gap, and the read, neither answered nor expired, does not fit back in. */
  lemma HandlerBlocks(index: U64)
    ensures exists actions, s :: Reaches(actions, s) && Blocked(s)
  {
    hide Reaches;
    var actions, s := Fills(QUEUE_CAPACITY);
    var first, second := Zeros(0), Zeros(1);
    assert s.queue[0] == first && s.queue[1] == second;
    assert |first| == 0 && |second| == 1;
    var late := Zeros(QUEUE_CAPACITY);
    actions, s := AlsoReaches(actions, s, Ask(second));
    actions, s := AlsoReaches(actions, s, Deliver(second, index));
    actions, s := AlsoReaches(actions, s, Signal);
    actions, s := AlsoReaches(actions, s, Wake);
    actions, s := AlsoReaches(actions, s, Pop);
    actions, s := AlsoReaches(actions, s, Enqueue(late));
    actions, s := AlsoReaches(actions, s, Check(false));
  }

  lemma Then(actions: seq<Action>, s: State, a: Action) returns (actions': seq<Action>, s': State)
    requires MayReach(actions, s) && Possible(s, a)
    ensures actions' == actions + [a] && MayReach(actions', s') && s' == Step(s, a)
  {
    actions', s' := actions + [a], Step(s, a);
    assert actions'[..|actions'| - 1] == actions;
    assert MayReach(actions'[..|actions'| - 1], s) && Possible(s, actions'[|actions'| - 1]);
  }

  /** Two reads wait and the second is answered: the scan for it expires the first. */
  lemma FirstExpires(first: Ctx, second: Ctx, index: U64) returns (actions: seq<Action>, s: State)
    requires first != second
    ensures Reaches(actions, s)
    ensures s.queue == [] && s.signals == 0 && s.loop.Free? && s.handler.Idle?
    ensures first in s.expired && first in s.asked && first !in s.answered
    ensures s.queued == {first, second} && s.table == map[] && s.answered.Keys == {second}
  {
    hide Reaches;
    actions, s := BothAsked(first, second);
    actions, s := AlsoReaches(actions, s, Deliver(second, index));
    actions, s := AlsoReaches(actions, s, Signal);
    actions, s := AlsoReaches(actions, s, Wake);
    actions, s := AlsoReaches(actions, s, Pop);
    actions, s := AlsoReaches(actions, s, Check(true));
    actions, s := AlsoReaches(actions, s, Pop);
    actions, s := AlsoReaches(actions, s, Check(false));
    actions, s := AlsoReaches(actions, s, Take);
  }

  /** Late answers can do harm: an answer arrives after its read expired, and the handler
      falls through on an empty queue, which is the nil dereference. */
  lemma LateAnswerFallsThrough(first: Ctx, second: Ctx, index: U64)
    requires first != second
    ensures exists actions, s :: MayReach(actions, s) && s.handler == FellThrough(None)
  {
    hide MayReach, ReachesOwing, Reaches, Inv, ScanOk;
    var actions, s := FirstExpires(first, second, index);
    PromisedRuns(actions, s);
    OwingRunKeeps(actions, s);
    actions, s := Then(actions, s, Deliver(first, index));
    actions, s := Then(actions, s, Signal);
    actions, s := Then(actions, s, Wake);
    actions, s := Then(actions, s, Fall);
  }

  /** With another read waiting, the late answer makes the handler fall through with that
      read, which raft has not answered: it is served a zero read state. */
  lemma LateAnswerServesAnother(first: Ctx, second: Ctx, third: Ctx, index: U64)
    requires first != second && first != third && second != third
    ensures exists actions, s ::
              MayReach(actions, s) && s.handler == FellThrough(Some(third)) && third !in s.answered && third !in s.table
  {
    hide MayReach, ReachesOwing, Reaches, Inv, ScanOk;
    var actions, s := FirstExpires(first, second, index);
    PromisedRuns(actions, s);
    OwingRunKeeps(actions, s);
    actions, s := Then(actions, s, Enqueue(third));
    actions, s := Then(actions, s, Deliver(first, index));
    actions, s := Then(actions, s, Signal);
    actions, s := Then(actions, s, Wake);
    actions, s := Then(actions, s, Pop);
    actions, s := Then(actions, s, Check(false));
    actions, s := Then(actions, s, PutBack);
    actions, s := Then(actions, s, Fall);
  }

  /** A read that is asked, answered with `index` and served with it. */
  lemma Serves(ctx: Ctx, index: U64) returns (actions: seq<Action>, s: State)
    ensures Reaches(actions, s) && ctx in s.served && ctx in s.answered && s.served[ctx] == s.answered[ctx] == index
  {
    hide Reaches;
    actions, s := [], INIT;
    assert Reaches(actions, s) by { AtStart(); }
    actions, s := AlsoReaches(actions, s, Enqueue(ctx));
    actions, s := AlsoReaches(actions, s, Ask(ctx));
    actions, s := AlsoReaches(actions, s, Deliver(ctx, index));
    actions, s := AlsoReaches(actions, s, Signal);
    actions, s := AlsoReaches(actions, s, Wake);
    actions, s := AlsoReaches(actions, s, Pop);
    actions, s := AlsoReaches(actions, s, Check(false));
    actions, s := AlsoReaches(actions, s, Take);
  }
}
