/** Merging and comparing lists of names. */
module Util {

  type Names = seq<string>

  predicate NoRepeats(xs: Names)
  {
    forall i, j | 0 <= i < j < |xs| :: xs[i] != xs[j]
  }

  function SetOf(xs: Names): set<string> { set x | x in xs }

  /** The first occurrence of each name, in order. */
  function Dedup(xs: Names): Names
  {
    if xs == [] then [] else
    var init, x := xs[..|xs| - 1], xs[|xs| - 1];
    Dedup(init) + if x in init then [] else [x]
  }

  function FirstIndexOf(xs: Names, x: string): (i: nat)
    requires x in xs
    ensures i < |xs| && xs[i] == x && forall k | 0 <= k < i :: xs[k] != x
  {
    if xs[0] == x then 0 else 1 + FirstIndexOf(xs[1..], x)
  }

  lemma FirstIndexStays(xs: Names, y: string, x: string)
    requires x in xs
    ensures FirstIndexOf(xs + [y], x) == FirstIndexOf(xs, x)
  {
    assert (xs + [y])[FirstIndexOf(xs, x)] == x;
  }

  lemma Snoc(xs: Names, x: string)
    ensures Dedup(xs + [x]) == Dedup(xs) + if x in xs then [] else [x]
    ensures SetOf(xs + [x]) == SetOf(xs) + {x}
  {
    assert (xs + [x])[..|xs|] == xs;
  }

  /** A list without repeats, with the same names, in the order in which they first
      occur: these three leave only one list. */
  lemma {:induction false} DedupIs(xs: Names)
    ensures NoRepeats(Dedup(xs))
    ensures forall x :: x in Dedup(xs) <==> x in xs
    ensures forall i, j | 0 <= i < j < |Dedup(xs)| ::
              FirstIndexOf(xs, Dedup(xs)[i]) < FirstIndexOf(xs, Dedup(xs)[j])
  {
    if xs != [] {
      var init, y := xs[..|xs| - 1], xs[|xs| - 1];
      DedupIs(init);
      assert xs == init + [y];
      forall i, j | 0 <= i < j < |Dedup(xs)|
        ensures FirstIndexOf(xs, Dedup(xs)[i]) < FirstIndexOf(xs, Dedup(xs)[j])
      {
        FirstIndexStays(init, y, Dedup(xs)[i]);
        if j < |Dedup(init)| {
          FirstIndexStays(init, y, Dedup(xs)[j]);
        }
      }
    }
  }

  /** Appends to `rs` the names of `xs` that `seen` lacks. */
  method AddNew(xs: Names, ghost before: Names, rs: Names, seen: set<string>) returns (rs': Names, seen': set<string>)
    requires rs == Dedup(before) && seen == SetOf(before)
    ensures rs' == Dedup(before + xs) && seen' == SetOf(before + xs)
  {
    hide Dedup;
    rs', seen' := rs, seen;
    assert before + xs[..0] == before;
    for i := 0 to |xs|
      invariant rs' == Dedup(before + xs[..i]) && seen' == SetOf(before + xs[..i])
    {
      assert before + xs[..i + 1] == (before + xs[..i]) + [xs[i]];
      Snoc(before + xs[..i], xs[i]);
      if xs[i] !in seen' {
        seen' := seen' + {xs[i]};
        rs' := rs' + [xs[i]];
      }
    }
    assert xs[..|xs|] == xs;
  }

  method MergeAttributes(xs: Names, ys: Names) returns (rs: Names)
    ensures rs == Dedup(xs + ys)
  {
    var seen: set<string>;
    rs, seen := AddNew(xs, [], [], {});
    assert [] + xs == xs;
    rs, seen := AddNew(ys, xs, rs, seen);
  }

  /** Succeeds exactly when every name of `xs` is in `ys`. */
  method Contain(xs: Names, ys: Names) returns (ok: bool)
    ensures ok <==> SetOf(xs) <= SetOf(ys)
  {
    var mp: set<string> := {};
    for i := 0 to |ys|
      invariant mp == SetOf(ys[..i])
    {
      assert ys[..i + 1] == ys[..i] + [ys[i]];
      mp := mp + {ys[i]};
    }
    assert ys[..|ys|] == ys;
    for i := 0 to |xs|
      invariant SetOf(xs[..i]) <= mp
    {
      assert xs[..i + 1] == xs[..i] + [xs[i]];
      if xs[i] !in mp {
        assert xs[i] in SetOf(xs);
        return false;
      }
    }
    assert xs[..|xs|] == xs;
    return true;
  }
}
