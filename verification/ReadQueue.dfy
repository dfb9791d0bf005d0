/** The queue of pending reads and one scan of it. */
module ReadQueue {
  import opened ByteStrings
  import opened RaftTypes

  /** A pending read; its callback is not part of this model. */
  datatype Read = Read(ctx: Bytes)

  const TIMESTAMP_SIZE := 8

  /** A read context: the time in eight bytes, then the key. */
  function BuildReadCtx(key: Bytes, timestamp: U64): Bytes
  {
    LittleEndian(timestamp, TIMESTAMP_SIZE) + key
  }

  function KeyOf(r: Read): Bytes
    requires |r.ctx| >= TIMESTAMP_SIZE
  {
    r.ctx[TIMESTAMP_SIZE..]
  }

  function TimestampOf(r: Read): nat
    requires |r.ctx| >= TIMESTAMP_SIZE
  {
    FromLittleEndian(r.ctx[..TIMESTAMP_SIZE])
  }

  /** A context gives back the key and the time it was built from, so two reads share a
      context exactly when they share both. */
  lemma ReadCtxRoundTrip(key: Bytes, timestamp: U64)
    ensures KeyOf(Read(BuildReadCtx(key, timestamp))) == BuildReadCtx(key, timestamp)[8..] == key
    ensures BuildReadCtx(key, timestamp)[..8] == LittleEndian(timestamp, 8)
    ensures TimestampOf(Read(BuildReadCtx(key, timestamp))) == timestamp
  {
    WordSizes();
    LittleEndianRoundTrip(timestamp, 8);
    assert BuildReadCtx(key, timestamp)[..8] == LittleEndian(timestamp, 8);
  }

  /** The read state table after a batch: a later state of a context replaces an earlier. */
  function Filed(table: map<Bytes, ReadState>, states: seq<ReadState>): map<Bytes, ReadState>
  {
    if states == [] then table else
    var last := states[|states| - 1];
    Filed(table, states[..|states| - 1])[last.requestCtx := last]
  }

  predicate Carries(states: seq<ReadState>, ctx: Bytes)
  {
    exists i | 0 <= i < |states| :: states[i].requestCtx == ctx
  }

  lemma CarriesMore(states: seq<ReadState>, last: ReadState, ctx: Bytes)
    ensures Carries(states + [last], ctx) <==> Carries(states, ctx) || last.requestCtx == ctx
  {
    if i :| 0 <= i < |states| && states[i].requestCtx == ctx {
      assert (states + [last])[i].requestCtx == ctx;
    }
    if last.requestCtx == ctx {
      assert (states + [last])[|states|].requestCtx == ctx;
    }
  }

  lemma {:induction false} FiledKeeps(table: map<Bytes, ReadState>, states: seq<ReadState>, ctx: Bytes)
    requires !Carries(states, ctx)
    ensures ctx in Filed(table, states) <==> ctx in table
    ensures ctx in table ==> Filed(table, states)[ctx] == table[ctx]
  {
    hide Carries;
    if states != [] {
      var init, last := states[..|states| - 1], states[|states| - 1];
      assert states == init + [last];
      CarriesMore(init, last, ctx);
      FiledKeeps(table, init, ctx);
    }
  }

  lemma {:induction false} FiledLast(table: map<Bytes, ReadState>, states: seq<ReadState>, i: nat)
    requires i < |states| && !Carries(states[i + 1..], states[i].requestCtx)
    ensures states[i].requestCtx in Filed(table, states) && Filed(table, states)[states[i].requestCtx] == states[i]
  {
    hide Carries;
    var init, last := states[..|states| - 1], states[|states| - 1];
    if i < |init| {
      assert states[i + 1..] == init[i + 1..] + [last];
      CarriesMore(init[i + 1..], last, states[i].requestCtx);
      FiledLast(table, init, i);
    }
  }

  /** Each context of a batch is filed with the last state that carries it, as it came, and
      every other context keeps its entry. */
  lemma FiledIs(table: map<Bytes, ReadState>, states: seq<ReadState>)
    ensures forall i | 0 <= i < |states| && !Carries(states[i + 1..], states[i].requestCtx) ::
              && states[i].requestCtx in Filed(table, states)
              && Filed(table, states)[states[i].requestCtx] == states[i]
    ensures forall ctx | !Carries(states, ctx) ::
              && (ctx in Filed(table, states) <==> ctx in table)
              && (ctx in table ==> Filed(table, states)[ctx] == table[ctx])
  {
    hide Carries, Filed;
    forall i | 0 <= i < |states| && !Carries(states[i + 1..], states[i].requestCtx)
      ensures states[i].requestCtx in Filed(table, states) && Filed(table, states)[states[i].requestCtx] == states[i]
    {
      FiledLast(table, states, i);
    }
    forall ctx | !Carries(states, ctx)
      ensures ctx in Filed(table, states) <==> ctx in table
      ensures ctx in table ==> Filed(table, states)[ctx] == table[ctx]
    {
      FiledKeeps(table, states, ctx);
    }
  }

  /** The reads of `queue` that have not expired, in their order. */
  function Unexpired(queue: seq<Read>, expired: Read -> bool): seq<Read>
  {
    if queue == [] then [] else
    var init, r := queue[..|queue| - 1], queue[|queue| - 1];
    Unexpired(init, expired) + if expired(r) then [] else [r]
  }

  /** The two laws of a filter: each read is kept or dropped on its own, in its place. */
  lemma {:induction false} UnexpiredIs(xs: seq<Read>, ys: seq<Read>, r: Read, expired: Read -> bool)
    ensures Unexpired(xs + ys, expired) == Unexpired(xs, expired) + Unexpired(ys, expired)
    ensures Unexpired([r], expired) == if expired(r) then [] else [r]
  {
    if ys == [] {
      assert xs + ys == xs;
    } else {
      assert (xs + ys)[..|xs + ys| - 1] == xs + ys[..|ys| - 1];
      UnexpiredIs(xs, ys[..|ys| - 1], r, expired);
    }
  }

  /** No read before position `i` has a read state, and the one at `i`, if any, has. */
  ghost predicate IsFirstMatch(queue: seq<Read>, table: set<Bytes>, i: nat)
  {
    && i <= |queue|
    && (i < |queue| ==> queue[i].ctx in table)
    && forall j | 0 <= j < i :: queue[j].ctx !in table
  }

  lemma {:induction false} FirstMatchExists(queue: seq<Read>, table: set<Bytes>)
    ensures exists i :: IsFirstMatch(queue, table, i)
  {
    if queue == [] {
      assert IsFirstMatch(queue, table, 0);
    } else {
      var init := queue[..|queue| - 1];
      FirstMatchExists(init, table);
      var i: nat :| IsFirstMatch(init, table, i);
      var found: nat := if i == |init| && queue[i].ctx !in table then |queue| else i;
      assert IsFirstMatch(queue, table, found);
    }
  }

  /** The position of the first read that has a read state, or the queue's length. */
  ghost function FirstMatch(queue: seq<Read>, table: set<Bytes>): (i: nat)
    ensures IsFirstMatch(queue, table, i)
  {
    FirstMatchExists(queue, table);
    var i :| IsFirstMatch(queue, table, i);
    i
  }

  lemma FirstMatchIs(queue: seq<Read>, table: set<Bytes>, i: nat)
    requires IsFirstMatch(queue, table, i)
    ensures FirstMatch(queue, table) == i
  {
    var m := FirstMatch(queue, table);
    assert m >= i && i >= m;
  }

  /** The queue once the first `k` reads of `queue` were scanned without a match. */
  function Scanned(queue: seq<Read>, k: nat, expired: Read -> bool): seq<Read>
    requires k <= |queue|
  {
    queue[k..] + Unexpired(queue[..k], expired)
  }

  lemma ScanStep(queue: seq<Read>, k: nat, expired: Read -> bool)
    requires k < |queue|
    ensures Scanned(queue, 0, expired) == queue
    ensures Scanned(queue, |queue|, expired) == Unexpired(queue, expired)
    ensures var now := Scanned(queue, k, expired);
            && |now| > 0 && now[0] == queue[k]
            && now[1..] == queue[k + 1..] + Unexpired(queue[..k], expired)
            && Scanned(queue, k + 1, expired) == now[1..] + if expired(queue[k]) then [] else [queue[k]]
  {
    var kept := Unexpired(queue[..k], expired);
    var put := if expired(queue[k]) then [] else [queue[k]];
    assert queue[..k + 1][..k] == queue[..k];
    assert Unexpired(queue[..k + 1], expired) == kept + put;
    assert (queue[k + 1..] + kept) + put == queue[k + 1..] + (kept + put);
    assert queue[k..] + kept == [queue[k]] + (queue[k + 1..] + kept);
    assert queue[..|queue|] == queue && queue[|queue|..] == [];
  }
}
