/** What `handleReady` does with the read states of a batch is a run of the read protocol. */
module ReadFiling {
  import opened ByteStrings
  import opened Wrappers
  import opened RaftTypes
  import opened ReadQueue
  import opened ReadProtocol

  /** The protocol's view of the read state table: the index filed for each context. */
  function Indexes(table: map<Bytes, ReadState>): map<Ctx, U64>
  {
    map ctx | ctx in table :: table[ctx].index
  }

  /** The state after the steps, if each was possible in its turn. */
  function RunOn(s: State, actions: seq<Action>): Option<State>
  {
    if actions == [] then Some(s) else
    match RunOn(s, actions[..|actions| - 1])
    case None => None
    case Some(mid) =>
      if Possible(mid, actions[|actions| - 1]) then Some(Step(mid, actions[|actions| - 1])) else None
  }

  lemma RunOnSnoc(s: State, actions: seq<Action>, a: Action)
    requires RunOn(s, actions).Some? && Possible(RunOn(s, actions).value, a)
    ensures RunOn(s, actions + [a]) == Some(Step(RunOn(s, actions).value, a))
  {
    hide Step, Possible;
    assert (actions + [a])[..|actions|] == actions;
  }

  /** One `Deliver` for each read state, in order. */
  function Delivers(states: seq<ReadState>): (actions: seq<Action>)
    ensures |actions| == |states|
  {
    seq(|states|, i requires 0 <= i < |states| => Deliver(states[i].requestCtx, states[i].index))
  }

  /** Raft answers each context once, and only one it was asked for. */
  ghost predicate FreshAnswers(s: State, states: seq<ReadState>)
  {
    && (forall i | 0 <= i < |states| :: states[i].requestCtx in s.asked && states[i].requestCtx !in s.answered)
    && forall i, j | 0 <= i < j < |states| :: states[i].requestCtx != states[j].requestCtx
  }

  /** Only the table, the answers and the loop differ. */
  ghost predicate SameReads(s: State, s': State)
  {
    && s'.queue == s.queue && s'.handler == s.handler && s'.signals == s.signals
    && s'.queued == s.queued && s'.asked == s.asked && s'.expired == s.expired && s'.served == s.served
  }

  lemma DeliverOne(s: State, table: map<Bytes, ReadState>, state: ReadState)
    requires s.table == Indexes(table) && state.requestCtx in s.asked && state.requestCtx !in s.answered
    ensures var a := Deliver(state.requestCtx, state.index);
            && Possible(s, a)
            && Step(s, a).table == Indexes(table[state.requestCtx := state])
            && Step(s, a).answered.Keys == s.answered.Keys + {state.requestCtx}
            && Step(s, a).loop.Filing? && SameReads(s, Step(s, a))
  {
  }

  lemma FreshInit(s: State, init: seq<ReadState>, last: ReadState)
    requires FreshAnswers(s, init + [last])
    ensures FreshAnswers(s, init) && last.requestCtx in s.asked && last.requestCtx !in s.answered
    ensures !Carries(init, last.requestCtx)
  {
    var states := init + [last];
    assert states[|init|] == last;
    assert forall i | 0 <= i < |init| :: states[i] == init[i];
  }

  function Contexts(states: seq<ReadState>): set<Ctx> { set state | state in states :: state.requestCtx }

  /** `end` is `s` after `states` were delivered, with the table `table`. */
  ghost predicate Delivered(s: State, end: State, table: map<Bytes, ReadState>, states: seq<ReadState>)
  {
    && end.table == Indexes(table)
    && SameReads(s, end)
    && (states != [] ==> end.loop.Filing?)
    && end.answered.Keys == s.answered.Keys + Contexts(states)
  }

  lemma DeliveredNext(s: State, mid: State, table: map<Bytes, ReadState>, init: seq<ReadState>, last: ReadState)
    requires Delivered(s, mid, table, init) && FreshAnswers(s, init + [last])
    ensures var a := Deliver(last.requestCtx, last.index);
            Possible(mid, a) && Delivered(s, Step(mid, a), table[last.requestCtx := last], init + [last])
  {
    hide Step, Possible, FreshAnswers, Indexes;
    FreshInit(s, init, last);
    assert last.requestCtx !in Contexts(init);
    DeliverOne(mid, table, last);
    assert Contexts(init + [last]) == Contexts(init) + {last.requestCtx};
  }

  lemma NothingDelivered(s: State, table: map<Bytes, ReadState>)
    requires s.table == Indexes(table)
    ensures RunOn(s, Delivers([])) == Some(s) && Delivered(s, s, Filed(table, []), [])
  {
    hide Indexes;
  }

  lemma FiledSnoc(table: map<Bytes, ReadState>, init: seq<ReadState>, last: ReadState)
    ensures Filed(table, init + [last]) == Filed(table, init)[last.requestCtx := last]
    ensures Delivers(init + [last]) == Delivers(init) + [Deliver(last.requestCtx, last.index)]
  {
    assert (init + [last])[..|init|] == init;
  }

  lemma {:induction false} DeliversRun(s: State, table: map<Bytes, ReadState>, states: seq<ReadState>)
    requires s.table == Indexes(table) && FreshAnswers(s, states)
    ensures RunOn(s, Delivers(states)).Some?
    ensures Delivered(s, RunOn(s, Delivers(states)).value, Filed(table, states), states)
  {
    hide *;
    if states == [] {
      NothingDelivered(s, table);
    } else {
      var init, last := states[..|states| - 1], states[|states| - 1];
      assert states == init + [last];
      FreshInit(s, init, last);
      DeliversRun(s, table, init);
      DeliveredNext(s, RunOn(s, Delivers(init)).value, Filed(table, init), init, last);
      RunOnSnoc(s, Delivers(init), Deliver(last.requestCtx, last.index));
      FiledSnoc(table, init, last);
    }
  }

  /** Filing a batch of read states and sending its signal, as `FileReadStates` does, is the
      protocol's run of one `Deliver` with the index of each state and one `Signal`. */
  lemma FilingIsProtocol(s: State, table: map<Bytes, ReadState>, states: seq<ReadState>)
    requires s.table == Indexes(table) && FreshAnswers(s, states)
    requires states != [] && s.signals < 1
    ensures var run := RunOn(s, Delivers(states) + [Signal]);
            && run.Some?
            && run.value.table == Indexes(Filed(table, states))
            && run.value.signals == s.signals + 1
            && run.value.loop.Free?
            && SameReads(s.(signals := s.signals + 1), run.value)
  {
    DeliversRun(s, table, states);
    RunOnSnoc(s, Delivers(states), Signal);
  }
}
