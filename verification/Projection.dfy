/** The projection operator: it asks its input only for the columns that the requested
    expressions name. */
module Projection {
  import opened Wrappers
  import opened Values
  import opened Util
  import opened Extend

  /** An expression with the name it is requested by. */
  datatype Item<F> = Item(alias: string, e: Expr<F>)

  datatype ReadResult<F> = Rows(columns: Columns<F>) | NoRows | Failed | Panicking

  function NameOf<F>(it: Item<F>): string
  {
    if it.e.Attribute? && it.alias == "" then it.e.name else it.alias
  }

  function AliasList<F>(es: seq<Item<F>>): (rs: Names)
    ensures |rs| == |es|
  {
    seq(|es|, i requires 0 <= i < |es| => NameOf(es[i]))
  }

  function AllAttributes<F>(es: seq<Item<F>>): Names
  {
    if es == [] then [] else AllAttributes(es[..|es| - 1]) + Attributes(es[|es| - 1].e)
  }

  function AttributeList<F>(es: seq<Item<F>>): Names { Dedup(AllAttributes(es)) }

  function SubExtend<F>(es: seq<Item<F>>, wanted: set<string>): seq<Item<F>>
  {
    if es == [] then [] else
    var last := es[|es| - 1];
    SubExtend(es[..|es| - 1], wanted) + if NameOf(last) in wanted then [last] else []
  }

  function Restrict<F>(mp: Columns<F>, names: set<string>): Columns<F>
  {
    map k | k in mp && k in names :: mp[k]
  }

  function ColumnIn<F>(mp: Columns<F>, name: string): Column<F>
  {
    if name in mp then mp[name] else []
  }

  /** The output once one more item was evaluated to `v`. */
  function Extended<F>(before: Columns<F>, name: string, v: Evaluated<F>): ReadResult<F>
  {
    match v
    case Cells(vs, _) => Rows(before[name := ColumnIn(before, name) + vs])
    case Error => Failed
    case Panicked => Panicking
  }

  /** The output of `es` over `mp`; items that share a name are appended to each other. */
  ghost function Project<F>(fl: FloatOps<F>, es: seq<Item<F>>, mp: Columns<F>): ReadResult<F>
  {
    if es == [] then Rows(map[]) else
    var before, last := Project(fl, es[..|es| - 1], mp), es[|es| - 1];
    if !before.Rows? then before else Extended(before.columns, NameOf(last), Eval(fl, last.e, mp))
  }

  /** What the output may be, on columns of any lengths. */
  ghost predicate MayProject<F(!new)>(fl: FloatOps<F>, es: seq<Item<F>>, mp: Columns<F>, r: ReadResult<F>)
  {
    if es == [] then r == Rows(map[]) else
    var last := es[|es| - 1];
    exists before | MayProject(fl, es[..|es| - 1], mp, before) ::
      if !before.Rows? then r == before else
      exists v | MayGive(fl, last.e, mp, v) :: r == Extended(before.columns, NameOf(last), v)
  }

  predicate EveryItemActs<F>(es: seq<Item<F>>)
  {
    forall i | 0 <= i < |es| :: Attributes(es[i].e) != []
  }

  /** The checks before the first read. */
  predicate Checked<F>(es: seq<Item<F>>, schema: Names, attrs: Names)
  {
    && EveryItemActs(es)
    && SetOf(AttributeList(SubExtend(es, SetOf(attrs)))) <= SetOf(schema)
    && SetOf(attrs) <= SetOf(AliasList(es))
  }

  /** What `Read` answers; `source` is None once the relation was read. */
  ghost function Answer<F>(fl: FloatOps<F>, es: seq<Item<F>>, schema: Names, source: Option<Columns<F>>,
      requested: Names)
    : ReadResult<F>
  {
    var attrs := Dedup(requested);
    var sub := SubExtend(es, SetOf(attrs));
    if source.None? then NoRows
    else if !Checked(es, schema, attrs) then Failed
    else if attrs == [] then Panicking
    else
      var mp := Restrict(source.value, SetOf(AttributeList(sub)));
      if ColumnIn(mp, attrs[0]) == [] then NoRows else Project(fl, sub, mp)
  }

  // ---- The operators as objects --------------------------------------------

  /** The relation below the projection: it can be read once. */
  class Relation<F> {
    const schema: Names
    var source: Option<Columns<F>>

    predicate Valid()
      reads this
    {
      source.Some? ==> source.value.Keys == SetOf(schema) && Rectangular(source.value)
    }

    constructor (schema: Names, columns: Columns<F>)
      requires columns.Keys == SetOf(schema) && Rectangular(columns)
      ensures Valid() && this.schema == schema && source == Some(columns)
    {
      this.schema := schema;
      source := Some(columns);
    }

    method Read(attrs: Names) returns (mp: Option<Columns<F>>)
      requires Valid()
      requires source.Some? ==> SetOf(attrs) <= SetOf(schema)
      modifies this`source
      ensures Valid() && source == None
      ensures mp == match old(source)
                    case None => None
                    case Some(columns) => Some(Restrict(columns, SetOf(attrs)))
    {
      if source.None? {
        return None;
      }
      var rp: Columns<F> := map[];
      for i := 0 to |attrs|
        invariant rp == Restrict(source.value, SetOf(attrs[..i]))
      {
        assert attrs[..i + 1] == attrs[..i] + [attrs[i]];
        assert attrs[i] in SetOf(attrs);
        rp := rp[attrs[i] := source.value[attrs[i]]];
      }
      assert attrs[..|attrs|] == attrs;
      source := None;
      return Some(rp);
    }
  }

  method SubExtendOf<F>(es: seq<Item<F>>, attrs: Names) returns (rs: seq<Item<F>>)
    ensures rs == SubExtend(es, SetOf(attrs))
  {
    rs := [];
    for i := 0 to |es|
      invariant rs == SubExtend(es[..i], SetOf(attrs))
    {
      assert es[..i + 1][..i] == es[..i];
      if NameOf(es[i]) in attrs {
        rs := rs + [es[i]];
      }
    }
    assert es[..|es|] == es;
  }

  method AttributeListOf<F>(es: seq<Item<F>>) returns (rs: Names)
    ensures rs == AttributeList(es)
  {
    rs := [];
    var seen: set<string> := {};
    for i := 0 to |es|
      invariant rs == Dedup(AllAttributes(es[..i])) && seen == SetOf(AllAttributes(es[..i]))
    {
      assert es[..i + 1][..i] == es[..i];
      rs, seen := AddNew(Attributes(es[i].e), AllAttributes(es[..i]), rs, seen);
    }
    assert es[..|es|] == es;
  }

  lemma MayProjectNext<F(!new)>(fl: FloatOps<F>, es: seq<Item<F>>, k: nat, mp: Columns<F>, rq: Columns<F>,
      v: Evaluated<F>)
    requires k < |es| && MayProject(fl, es[..k], mp, Rows(rq)) && MayGive(fl, es[k].e, mp, v)
    ensures MayProject(fl, es[..k + 1], mp, Extended(rq, NameOf(es[k]), v))
  {
    hide MayGive, Extended;
    assert es[..k + 1][..k] == es[..k] && es[..k + 1][k] == es[k];
  }

  /** The first failing item decides the outcome. */
  lemma {:induction false} FailureStays<F(!new)>(fl: FloatOps<F>, es: seq<Item<F>>, k: nat, mp: Columns<F>,
      r: ReadResult<F>)
    requires k <= |es| && !r.Rows? && MayProject(fl, es[..k], mp, r)
    ensures MayProject(fl, es, mp, r)
  {
    if k < |es| {
      assert es[..|es| - 1][..k] == es[..k];
      FailureStays(fl, es[..|es| - 1], k, mp, r);
    } else {
      assert es[..k] == es;
    }
  }

  method ProjectAll<F(!new)>(fl: FloatOps<F>, es: seq<Item<F>>, mp: Columns<F>) returns (r: ReadResult<F>)
    ensures MayProject(fl, es, mp, r)
  {
    hide MayGive;
    var rq: Columns<F> := map[];
    for i := 0 to |es|
      invariant MayProject(fl, es[..i], mp, Rows(rq))
    {
      var v := Evaluate(fl, es[i].e, mp);
      MayProjectNext(fl, es, i, mp, rq, v);
      if v.Error? {
        FailureStays(fl, es, i + 1, mp, Failed);
        return Failed;
      } else if v.Panicked? {
        FailureStays(fl, es, i + 1, mp, Panicking);
        return Panicking;
      }
      rq := rq[NameOf(es[i]) := ColumnIn(rq, NameOf(es[i])) + v.cells];
    }
    assert es[..|es|] == es;
    return Rows(rq);
  }

  /** On columns of equal length there is one possible output. */
  lemma {:induction false} ProjectionIsUnique<F(!new)>(fl: FloatOps<F>, es: seq<Item<F>>, mp: Columns<F>,
      r: ReadResult<F>)
    requires Rectangular(mp)
    ensures MayProject(fl, es, mp, r) <==> r == Project(fl, es, mp)
  {
    hide MayGive, Eval, Extended;
    if es != [] {
      var init, last := es[..|es| - 1], es[|es| - 1];
      forall before ensures MayProject(fl, init, mp, before) <==> before == Project(fl, init, mp) {
        ProjectionIsUnique(fl, init, mp, before);
      }
      forall v ensures MayGive(fl, last.e, mp, v) <==> v == Eval(fl, last.e, mp) {
        EvaluationIsUnique(fl, last.e, mp, v);
      }
    }
  }

  class Projection<F(!new)> {
    const prev: Relation<F>
    const es: seq<Item<F>>
    var isCheck: bool

    predicate Valid()
      reads this, prev
    {
      prev.Valid() && (isCheck <==> prev.source.None?)
    }

    constructor (prev: Relation<F>, es: seq<Item<F>>)
      requires prev.Valid() && prev.source.Some?
      ensures Valid() && this.prev == prev && this.es == es && !isCheck
    {
      this.prev, this.es, isCheck := prev, es, false;
    }

    method AliasListOf() returns (rs: Names)
      ensures rs == AliasList(es)
    {
      rs := [];
      for i := 0 to |es|
        invariant rs == AliasList(es[..i])
      {
        rs := rs + [NameOf(es[i])];
      }
      assert es[..|es|] == es;
    }

    method Check(attrs: Names) returns (ok: bool)
      requires Valid() && !isCheck
      ensures ok <==> EveryItemActs(es) && SetOf(attrs) <= SetOf(prev.schema)
    {
      for i := 0 to |es|
        invariant EveryItemActs(es[..i])
      {
        if |Attributes(es[i].e)| <= 0 {
          return false;
        }
      }
      assert es[..|es|] == es;
      ok := Contain(attrs, prev.schema);
    }

    method Read(fl: FloatOps<F>, requested: Names) returns (r: ReadResult<F>)
      requires Valid()
      modifies this`isCheck, prev`source
      ensures Valid()
      ensures r == Answer(fl, es, prev.schema, old(prev.source), requested)
      ensures isCheck <==> old(isCheck) || Checked(es, prev.schema, Dedup(requested))
    {
      hide Dedup, SubExtend, Project;
      var attrs := MergeAttributes(requested, []);
      assert requested + [] == requested;
      var sub := SubExtendOf(es, attrs);
      var needed := AttributeListOf(sub);
      if !isCheck {
        var passed := Check(needed);
        if !passed {
          return Failed;
        }
        var aliases := AliasListOf();
        passed := Contain(attrs, aliases);
        if !passed {
          return Failed;
        }
        isCheck := true;
      }
      var mp := prev.Read(needed);
      if mp.None? {
        return NoRows;
      }
      if attrs == [] {
        return Panicking;
      }
      if |ColumnIn(mp.value, attrs[0])| == 0 {
        return NoRows;
      }
      r := ProjectAll(fl, sub, mp.value);
      ProjectionIsUnique(fl, sub, mp.value, r);
    }
  }
}
