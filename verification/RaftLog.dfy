/** The abstract raft log: everything up to `offset` is compacted away, and `ents`
    follows it. */
module RaftLog {
  import opened ByteStrings
  import opened Wrappers
  import opened RaftTypes

  datatype LogError = ErrRange | ErrCompacted | ErrUnavailable | ErrNotFound | ErrUnmarshal

  datatype Log = Log(offset: U64, offsetTerm: U64, ents: seq<Entry>)
  {
    ghost predicate WellFormed()
    {
      && offset + |ents| < TWO_64 - 1
      && (forall k | 0 <= k < |ents| :: ents[k].index == offset + 1 + k)
      && TermsRise(ents)
      && (ents != [] ==> offsetTerm <= ents[0].term)
    }

    function Last(): int { offset + |ents| }

    function TermAt(i: int): U64
      requires offset <= i <= Last()
    {
      if i == offset then offsetTerm else ents[i - offset - 1].term
    }

    function EntryAt(i: int): Entry
      requires offset < i <= Last()
    {
      ents[i - offset - 1]
    }

    function Entries(lo: int, hi: int): Result<seq<Entry>, LogError>
    {
      if lo > hi || hi > Last() + 1 then Failure(ErrRange)
      else if lo <= offset then Failure(ErrCompacted)
      else Success(ents[lo - offset - 1..hi - offset - 1])
    }

    function Term(i: int): Result<U64, LogError>
    {
      if i > Last() then Failure(ErrRange)
      else if i < offset then Failure(ErrCompacted)
      else Success(TermAt(i))
    }

    /** A batch that is wholly compacted changes nothing; otherwise the uncompacted part
        of the batch replaces everything from its first index on. */
    function Append(batch: seq<Entry>): Log
      requires batch != [] ==> batch[0].index <= Last() + 1
    {
      if batch == [] || batch[0].index + |batch| - 1 <= offset then this
      else if batch[0].index <= offset then this.(ents := batch[offset - batch[0].index + 1..])
      else this.(ents := ents[..batch[0].index - offset - 1] + batch)
    }

    function Compact(index: U64, term: U64): Log
      requires offset <= index <= Last()
    {
      Log(index, term, ents[index - offset..])
    }

    /** What `Append` asks of a batch beyond its place. */
    ghost predicate Accepts(batch: seq<Entry>)
    {
      && Contiguous(batch)
      && TermsRise(batch)
      && (batch != [] ==>
            && batch[0].index <= Last() + 1
            && (offset < batch[0].index ==> TermAt(batch[0].index - 1) <= batch[0].term)
            && (batch[0].index <= offset < batch[0].index + |batch| - 1 ==>
                  offsetTerm <= batch[offset - batch[0].index + 1].term))
    }

    lemma SpliceRises(cut: nat, batch: seq<Entry>)
      requires WellFormed() && TermsRise(batch) && batch != [] && cut <= |ents|
      requires TermAt(offset + cut) <= batch[0].term
      ensures TermsRise(ents[..cut] + batch)
    {
      var after := ents[..cut] + batch;
      forall j, k | 0 <= j <= k < |after|
        ensures after[j].term <= after[k].term
      {
        if j < cut <= k {
          assert ents[j].term <= ents[cut - 1].term <= batch[0].term <= batch[k - cut].term;
        }
      }
    }

    lemma AppendWellFormed(batch: seq<Entry>)
      requires WellFormed() && Accepts(batch)
      ensures Append(batch).WellFormed()
    {
      if batch != [] && offset < batch[0].index + |batch| - 1 {
        assert batch[|batch| - 1].index == Append(batch).Last();
        if offset < batch[0].index {
          SpliceRises(batch[0].index - offset - 1, batch);
        }
      }
    }

    lemma CompactWellFormed(index: U64, term: U64)
      requires WellFormed() && offset <= index <= Last() && term == TermAt(index)
      ensures Compact(index, term).WellFormed() && Compact(index, term).Last() == Last()
      ensures forall i | index < i <= Last() :: Compact(index, term).EntryAt(i) == EntryAt(i)
      ensures forall i | index <= i <= Last() :: Compact(index, term).TermAt(i) == TermAt(i)
    {
    }

    /** When `Entries` succeeds and what it returns, index by index. */
    lemma EntriesAre(lo: int, hi: int)
      requires WellFormed()
      ensures Entries(lo, hi).Success? <==> offset < lo <= hi <= offset + |ents| + 1
      ensures Entries(lo, hi) == Failure(ErrCompacted) <==> lo <= offset && lo <= hi <= offset + |ents| + 1
      ensures Entries(lo, hi).Success? ==>
                && |Entries(lo, hi).value| == hi - lo
                && forall k | 0 <= k < hi - lo ::
                     Entries(lo, hi).value[k] == ents[lo + k - offset - 1] && Entries(lo, hi).value[k].index == lo + k
    {
    }

    /** When `Term` succeeds and what it returns. */
    lemma TermIs(i: int)
      ensures Term(i) == Failure(ErrCompacted) <==> i < offset && i <= offset + |ents|
      ensures Term(i).Success? <==> offset <= i <= offset + |ents|
      ensures i == offset ==> Term(i) == Success(offsetTerm)
      ensures offset < i <= offset + |ents| ==> Term(i) == Success(ents[i - offset - 1].term)
    {
    }

    /** What an append leaves, index by index: the batch from its first index on, the old
        log below it, nothing above it, and only what is not compacted. */
    lemma AppendIs(batch: seq<Entry>)
      requires WellFormed() && Contiguous(batch) && batch != [] && batch[0].index <= Last() + 1
      ensures var after, last := Append(batch), batch[|batch| - 1].index;
              && after.offset == offset && after.offsetTerm == offsetTerm
              && |after.ents| == (if offset < last then last - offset else |ents|)
              && forall k | 0 <= k < |after.ents| ::
                   after.ents[k] ==
                   if last <= offset || offset + 1 + k < batch[0].index
                   then ents[k] else batch[offset + 1 + k - batch[0].index]
    {
      assert batch[|batch| - 1].index == batch[0].index + |batch| - 1;
    }
  }
}
