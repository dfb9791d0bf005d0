/** The handler of the read protocol, run without interruption, is one `HandleReadState`. */
module ReadScan {
  import opened Wrappers
  import opened ReadQueue
  import opened ReadProtocol

  function Ctxs(queue: seq<Read>): (ctxs: seq<Ctx>)
    ensures |ctxs| == |queue|
  {
    seq(|queue|, i requires 0 <= i < |queue| => queue[i].ctx)
  }

  /** The handler's own steps from the middle of a scan to its end. */
  function ScanOn(s: State, expired: Read -> bool): State
    requires s.handler.Scanning? && s.handler.size <= |s.queue| <= QUEUE_CAPACITY
    decreases if s.handler.Scanning? then s.handler.size else 0
  {
    if s.handler.size == 0 then Step(s, Fall) else
    var popped := Step(s, Pop);
    var checked := Step(popped, Check(expired(Read(popped.handler.held))));
    if checked.handler.Found? then checked
    else if checked.handler.Scanning? then ScanOn(checked, expired)
    else ScanOn(Step(checked, PutBack), expired)
  }

  /** The state once the first `k` reads of `queue` were scanned without a match. */
  ghost predicate After(s: State, queue: seq<Read>, k: nat, expired: Read -> bool)
  {
    && k <= |queue| <= QUEUE_CAPACITY
    && s.handler.Scanning? && s.handler.size == |queue| - k <= |s.queue| <= QUEUE_CAPACITY
    && s.handler.last == (if k == 0 then None else Some(queue[k - 1].ctx))
    && s.queue == Ctxs(Scanned(queue, k, expired))
    && forall j | 0 <= j < k :: queue[j].ctx !in s.table
  }

  lemma CtxsSplit(r: Read, xs: seq<Read>, ys: seq<Read>)
    ensures Ctxs([r] + xs)[1..] == Ctxs(xs)
    ensures Ctxs(xs + ys) == Ctxs(xs) + Ctxs(ys)
    ensures Ctxs([r]) == [r.ctx] && Ctxs([]) == []
  {
  }

  lemma ScannedLength(queue: seq<Read>, k: nat, expired: Read -> bool)
    requires k <= |queue|
    ensures |queue| - k <= |Scanned(queue, k, expired)| <= |queue|
    decreases k
  {
    if k > 0 {
      ScannedLength(queue, k - 1, expired);
      ScanStep(queue, k - 1, expired);
    } else {
      assert queue[..0] == [];
    }
  }

  /** The unscanned reads, then the scanned ones that stay. */
  lemma NextScanned(queue: seq<Read>, k: nat, expired: Read -> bool)
    requires k < |queue|
    ensures var ctxs, rest := Ctxs(Scanned(queue, k, expired)), queue[k + 1..] + Unexpired(queue[..k], expired);
            && ctxs != [] && ctxs[0] == queue[k].ctx
            && ctxs[1..] == Ctxs(rest)
            && Ctxs(Scanned(queue, k + 1, expired)) == Ctxs(rest) + if expired(queue[k]) then [] else [queue[k].ctx]
  {
    var now, rest := Scanned(queue, k, expired), queue[k + 1..] + Unexpired(queue[..k], expired);
    ScanStep(queue, k, expired);
    assert now == [queue[k]] + rest;
    CtxsSplit(queue[k], rest, [queue[k]]);
    assert rest + [] == rest;
  }

  /** One turn of the loop: a match ends it, anything else moves on. */
  lemma Turn(s: State, queue: seq<Read>, k: nat, expired: Read -> bool) returns (next: State)
    requires After(s, queue, k, expired) && k < |queue|
    ensures queue[k].ctx in s.table ==>
              ScanOn(s, expired) == s.(handler := Found(queue[k].ctx),
                                       queue := Ctxs(queue[k + 1..] + Unexpired(queue[..k], expired)))
    ensures queue[k].ctx !in s.table ==>
              && After(next, queue, k + 1, expired)
              && next.table == s.table && next.signals == s.signals
              && ScanOn(s, expired) == ScanOn(next, expired)
  {
    hide Scanned, Unexpired, Ctxs;
    ScannedLength(queue, k, expired);
    ScannedLength(queue, k + 1, expired);
    NextScanned(queue, k, expired);
    assert Read(queue[k].ctx) == queue[k];
    next := Step(Step(s, Pop), Check(expired(queue[k])));
    if next.handler.PuttingBack? {
      next := Step(next, PutBack);
    }
  }

  /** What is left at the end of a scan of `queue` that started from `s`. */
  ghost predicate Scan(s: State, end: State, queue: seq<Read>, expired: Read -> bool)
  {
    var i := FirstMatch(queue, s.table.Keys);
    && end.table == s.table && end.signals == s.signals
    && if i < |queue| then
         end.handler == Found(queue[i].ctx) && end.queue == Ctxs(queue[i + 1..] + Unexpired(queue[..i], expired))
       else
         && end.handler == FellThrough(if queue == [] then None else Some(queue[|queue| - 1].ctx))
         && end.queue == Ctxs(Unexpired(queue, expired))
  }

  lemma ScanMatches(s: State, queue: seq<Read>, k: nat, expired: Read -> bool)
    requires After(s, queue, k, expired) && k < |queue| && queue[k].ctx in s.table
    ensures Scan(s, ScanOn(s, expired), queue, expired)
  {
    hide ScanOn, Unexpired, Ctxs, Scanned;
    var _ := Turn(s, queue, k, expired);
    FirstMatchIs(queue, s.table.Keys, k);
  }

  lemma ScanEnds(s: State, queue: seq<Read>, expired: Read -> bool)
    requires After(s, queue, |queue|, expired)
    ensures Scan(s, ScanOn(s, expired), queue, expired)
  {
    FirstMatchIs(queue, s.table.Keys, |queue|);
    assert Scanned(queue, |queue|, expired) == Unexpired(queue, expired) by {
      assert queue[|queue|..] == [] && queue[..|queue|] == queue;
    }
  }

  lemma ScanGoesOn(s: State, next: State, end: State, queue: seq<Read>, expired: Read -> bool)
    requires Scan(next, end, queue, expired) && next.table == s.table && next.signals == s.signals
    ensures Scan(s, end, queue, expired)
  {
  }

  lemma AfterIs(s: State, queue: seq<Read>, k: nat, expired: Read -> bool)
    requires After(s, queue, k, expired)
    ensures k <= |queue| && s.handler.Scanning? && s.handler.size <= |s.queue| <= QUEUE_CAPACITY
  {
  }

  lemma {:induction false} ScanOnIs(s: State, queue: seq<Read>, k: nat, expired: Read -> bool)
    requires After(s, queue, k, expired)
    ensures Scan(s, ScanOn(s, expired), queue, expired)
    decreases |queue| - k
  {
    hide *;
    AfterIs(s, queue, k, expired);
    if k == |queue| {
      ScanEnds(s, queue, expired);
    } else if queue[k].ctx in s.table {
      ScanMatches(s, queue, k, expired);
    } else {
      var next := Turn(s, queue, k, expired);
      ScanOnIs(next, queue, k + 1, expired);
      ScanGoesOn(s, next, ScanOn(s, expired), queue, expired);
    }
  }

  /** With no other step in between, taking a signal and scanning leaves exactly the
      queue, the table and the answer of `HandleReadState`: the first read with an answer
      is found, the unscanned reads come before the scanned unexpired ones, and only that
      answer leaves the table; with no such read the scan falls through. */
  lemma ScanAlone(s: State, queue: seq<Read>, expired: Read -> bool)
    requires s.handler.Idle? && s.signals > 0 && s.queue == Ctxs(queue) && |queue| <= QUEUE_CAPACITY
    ensures var woken, i := Step(s, Wake), FirstMatch(queue, s.table.Keys);
            var end := ScanOn(woken, expired);
            && end.signals == s.signals - 1
            && if i < |queue| then
                 && end.handler == Found(queue[i].ctx)
                 && Possible(end, Take)
                 && Step(end, Take).queue == Ctxs(queue[i + 1..] + Unexpired(queue[..i], expired))
                 && Step(end, Take).table == s.table - {queue[i].ctx}
               else
                 && end.handler == FellThrough(if queue == [] then None else Some(queue[|queue| - 1].ctx))
                 && end.queue == Ctxs(Unexpired(queue, expired))
                 && end.table == s.table
  {
    assert Scanned(queue, 0, expired) == queue;
    ScanOnIs(Step(s, Wake), queue, 0, expired);
  }

  lemma MatchIsWithin(s: State, queue: seq<Read>)
    requires s.queue == Ctxs(queue)
    ensures FirstMatch(queue, s.table.Keys) < |queue| <==> AnswerWithin(s, |s.queue|)
  {
    var i := FirstMatch(queue, s.table.Keys);
    if i < |queue| {
      assert s.queue[i] in s.table;
    }
    if AnswerWithin(s, |s.queue|) {
      var j :| 0 <= j < |s.queue| && s.queue[j] in s.table;
      assert queue[j].ctx in s.table.Keys;
    }
  }

  /** In every reachable state with a signal to take, late answers or not: taking it and
      scanning without interruption serves a read with its answer if and only if fewer
      answers are late than owed and to spare, and falls through if and only if not. */
  lemma SignalServedIff(actions: seq<Action>, s: State, queue: seq<Read>, expired: Read -> bool)
    requires MayReach(actions, s) && Possible(s, Wake)
    requires s.queue == Ctxs(queue) && |queue| <= QUEUE_CAPACITY
    ensures var end := ScanOn(Step(s, Wake), expired);
            && (end.handler.Found? <==> Owing(s))
            && (end.handler.FellThrough? <==> !Owing(s))
            && (FirstMatch(queue, s.table.Keys) < |queue| <==> Owing(s))
  {
    hide MayReach, ScanOn, PlacesOk, AnswersOk, AnswerWithin, Owing, Unexpired;
    SignalIsMatchedIff(actions, s);
    MatchIsWithin(s, queue);
    ScanAlone(s, queue, expired);
  }
}
