/** Reading only the needed columns does not change what a projection means. */
module Pruning {
  import opened Wrappers
  import opened Values
  import opened Util
  import opened Extend
  import opened Projection

  ghost predicate Selected<F(!new)>(es: seq<Item<F>>, requested: Names, it: Item<F>)
  {
    it in es && NameOf(it) in requested
  }

  lemma AliasesSnoc<F(!new)>(es: seq<Item<F>>, last: Item<F>)
    ensures AliasList(es + [last]) == AliasList(es) + [NameOf(last)]
    ensures SetOf(AliasList(es + [last])) == SetOf(AliasList(es)) + {NameOf(last)}
    ensures NoRepeats(AliasList(es + [last])) <==> NoRepeats(AliasList(es)) && NameOf(last) !in AliasList(es)
  {
    var before, after := AliasList(es), AliasList(es + [last]);
    assert after == before + [NameOf(last)];
    if NoRepeats(after) {
      assert forall i | 0 <= i < |es| :: before[i] == after[i];
      assert after[|es|] == NameOf(last);
    }
  }

  lemma {:induction false} SubExtendIs<F(!new)>(es: seq<Item<F>>, wanted: set<string>)
    ensures forall it :: it in SubExtend(es, wanted) <==> it in es && NameOf(it) in wanted
    ensures SetOf(AliasList(SubExtend(es, wanted))) <= SetOf(AliasList(es))
    ensures NoRepeats(AliasList(es)) ==> NoRepeats(AliasList(SubExtend(es, wanted)))
  {
    hide NoRepeats, AliasList, NameOf;
    if es != [] {
      var init, last := es[..|es| - 1], es[|es| - 1];
      assert es == init + [last];
      SubExtendIs(init, wanted);
      AliasesSnoc(init, last);
      var sub := SubExtend(init, wanted);
      AliasesSnoc(sub, last);
      assert SubExtend(es, wanted) == if NameOf(last) in wanted then sub + [last] else sub;
      assert NameOf(last) in AliasList(sub) <==> NameOf(last) in SetOf(AliasList(sub));
      assert NameOf(last) in AliasList(init) <==> NameOf(last) in SetOf(AliasList(init));
    }
  }

  lemma {:induction false} AllAttributesAre<F(!new)>(es: seq<Item<F>>, name: string)
    ensures name in AllAttributes(es) <==> exists it | it in es :: Uses(it.e, name)
  {
    if es != [] {
      var init, last := es[..|es| - 1], es[|es| - 1];
      AllAttributesAre(init, name);
      AttributesAreUsed(last.e, name);
      assert es == init + [last];
    }
  }

  /** The columns that `Read` asks its input for. */
  function Needed<F>(es: seq<Item<F>>, requested: Names): Names
  {
    AttributeList(SubExtend(es, SetOf(Dedup(requested))))
  }

  /** The needed columns are those that a selected expression names. */
  lemma NeededIs<F(!new)>(es: seq<Item<F>>, requested: Names, name: string)
    ensures name in Needed(es, requested) <==>
            exists it | Selected(es, requested, it) :: Uses(it.e, name)
  {
    hide SubExtend, Dedup, AllAttributes, Uses;
    var sub := SubExtend(es, SetOf(Dedup(requested)));
    DedupIs(requested);
    SubExtendIs(es, SetOf(Dedup(requested)));
    AllAttributesAre(sub, name);
    DedupIs(AllAttributes(sub));
    assert forall it :: it in sub <==> Selected(es, requested, it);
  }

  ghost predicate Computes<F(!new)>(fl: FloatOps<F>, e: Expr<F>, mp: Columns<F>, col: Column<F>)
  {
    Eval(fl, e, mp).Cells? && Eval(fl, e, mp).cells == col
  }

  /** A projection gives rows exactly when each of its expressions has a value. */
  lemma {:induction false} ProjectOutcome<F(!new)>(fl: FloatOps<F>, es: seq<Item<F>>, mp: Columns<F>)
    ensures Project(fl, es, mp).Rows? <==> forall it | it in es :: Eval(fl, it.e, mp).Cells?
    ensures (forall it | it in es :: !Eval(fl, it.e, mp).Panicked?) ==> !Project(fl, es, mp).Panicking?
    ensures !Project(fl, es, mp).NoRows?
  {
    hide Eval;
    if es != [] {
      var init, last := es[..|es| - 1], es[|es| - 1];
      assert es == init + [last];
      ProjectOutcome(fl, init, mp);
    }
  }

  /** The columns have the names of the items, and an item with a name of its own has its
      expression's value as its column. */
  lemma {:induction false} ProjectColumns<F(!new)>(fl: FloatOps<F>, es: seq<Item<F>>, mp: Columns<F>)
    requires Project(fl, es, mp).Rows?
    ensures Project(fl, es, mp).columns.Keys == SetOf(AliasList(es))
    ensures NoRepeats(AliasList(es)) ==>
              forall it | it in es ::
                NameOf(it) in AliasList(es) && Computes(fl, it.e, mp, Project(fl, es, mp).columns[NameOf(it)])
  {
    hide Eval, NoRepeats, AliasList;
    if es != [] {
      var init, last := es[..|es| - 1], es[|es| - 1];
      assert es == init + [last];
      ProjectColumns(fl, init, mp);
      AliasesSnoc(init, last);
      assert NameOf(last) in Project(fl, init, mp).columns <==> NameOf(last) in SetOf(AliasList(init));
      if NameOf(last) !in Project(fl, init, mp).columns {
        assert [] + Eval(fl, last.e, mp).cells == Eval(fl, last.e, mp).cells;
      }
    }
  }

  lemma {:induction false} ProjectPruned<F(!new)>(fl: FloatOps<F>, es: seq<Item<F>>, mp: Columns<F>, full: Columns<F>)
    requires RowCount(mp) == RowCount(full)
    requires forall it, name | it in es && Uses(it.e, name) :: name in mp && name in full && mp[name] == full[name]
    ensures Project(fl, es, mp) == Project(fl, es, full)
  {
    if es != [] {
      var init, last := es[..|es| - 1], es[|es| - 1];
      assert es == init + [last];
      ProjectPruned(fl, init, mp, full);
      EvalReadsOnlyItsNames(fl, last.e, mp, full);
    }
  }

  // ---- One read of the projection ------------------------------------------

  ghost predicate UsesSome<F(!new)>(e: Expr<F>) { exists name :: Uses(e, name) }

  /** The checks, in terms of the request. */
  ghost predicate Acceptable<F(!new)>(es: seq<Item<F>>, schema: Names, requested: Names)
  {
    && (forall it | it in es :: UsesSome(it.e))
    && (forall it, name | Selected(es, requested, it) && Uses(it.e, name) :: name in schema)
    && (forall name | name in requested :: exists it :: Selected(es, requested, it) && NameOf(it) == name)
  }

  lemma AliasIs<F(!new)>(es: seq<Item<F>>, name: string)
    ensures name in AliasList(es) <==> exists it | it in es :: NameOf(it) == name
  {
    if it :| it in es && NameOf(it) == name {
      var i :| 0 <= i < |es| && es[i] == it;
      assert AliasList(es)[i] == name;
    }
    if name in AliasList(es) {
      var i :| 0 <= i < |es| && AliasList(es)[i] == name;
      assert es[i] in es;
    }
  }

  lemma Acts<F(!new)>(es: seq<Item<F>>)
    ensures EveryItemActs(es) <==> forall it | it in es :: UsesSome(it.e)
  {
    hide Attributes;
    forall it | it in es ensures Attributes(it.e) != [] <==> UsesSome(it.e) {
      if Attributes(it.e) != [] {
        AttributesAreUsed(it.e, Attributes(it.e)[0]);
      }
      if name :| Uses(it.e, name) {
        AttributesAreUsed(it.e, name);
      }
    }
    if EveryItemActs(es) {
      forall it | it in es ensures UsesSome(it.e) {
        var i :| 0 <= i < |es| && es[i] == it;
        assert Attributes(es[i].e) != [];
      }
    } else {
      var i :| 0 <= i < |es| && Attributes(es[i].e) == [];
      assert es[i] in es;
    }
  }

  lemma SubsetIs(xs: Names, ys: Names)
    ensures SetOf(xs) <= SetOf(ys) <==> forall name | name in xs :: name in ys
  {
    if SetOf(xs) <= SetOf(ys) {
      forall name | name in xs ensures name in ys {
        assert name in SetOf(xs);
      }
    }
  }

  lemma NeededNames<F(!new)>(es: seq<Item<F>>, schema: Names, requested: Names)
    ensures SetOf(Needed(es, requested)) <= SetOf(schema) <==>
            forall it, name | Selected(es, requested, it) && Uses(it.e, name) :: name in schema
  {
    hide Selected, Uses, Needed;
    SubsetIs(Needed(es, requested), schema);
    forall name ensures name in Needed(es, requested) <==> exists it | Selected(es, requested, it) :: Uses(it.e, name) {
      NeededIs(es, requested, name);
    }
  }

  lemma RequestedNames<F(!new)>(es: seq<Item<F>>, requested: Names)
    ensures SetOf(Dedup(requested)) <= SetOf(AliasList(es)) <==>
            forall name | name in requested :: exists it :: Selected(es, requested, it) && NameOf(it) == name
  {
    hide AliasList, NameOf, Dedup;
    SubsetIs(Dedup(requested), AliasList(es));
    DedupIs(requested);
    forall name ensures name in AliasList(es) <==> exists it | it in es :: NameOf(it) == name {
      AliasIs(es, name);
    }
  }

  lemma CheckedIs<F(!new)>(es: seq<Item<F>>, schema: Names, requested: Names)
    ensures Checked(es, schema, Dedup(requested)) <==> Acceptable(es, schema, requested)
  {
    hide EveryItemActs, Selected, Uses, UsesSome, Dedup, AliasList, NameOf, AttributeList, SubExtend;
    Acts(es);
    NeededNames(es, schema, requested);
    RequestedNames(es, requested);
  }

  /** The items a request selects, and what they name. */
  lemma SubIs<F(!new)>(es: seq<Item<F>>, requested: Names)
    ensures var sub := SubExtend(es, SetOf(Dedup(requested)));
            && (forall it :: it in sub <==> Selected(es, requested, it))
            && (forall it, name | it in sub && Uses(it.e, name) :: name in Needed(es, requested))
            && (NoRepeats(AliasList(es)) ==> NoRepeats(AliasList(sub)))
  {
    hide SubExtend, Dedup, Uses, NameOf, Needed, NoRepeats, AliasList;
    var sub := SubExtend(es, SetOf(Dedup(requested)));
    DedupIs(requested);
    SubExtendIs(es, SetOf(Dedup(requested)));
    forall it, name | it in sub && Uses(it.e, name) ensures name in Needed(es, requested) {
      NeededIs(es, requested, name);
      assert Selected(es, requested, it);
    }
  }

  lemma RestrictRows<F>(full: Columns<F>, names: set<string>, k: string)
    requires Rectangular(full) && k in full && k in names
    ensures RowCount(Restrict(full, names)) == RowCount(full)
  {
    RowCountIs(full, k);
    RowCountIs(Restrict(full, names), k);
  }

  /** Over the needed columns and over all of them the selected items give the same. */
  lemma PruningChangesNothing<F(!new)>(fl: FloatOps<F>, es: seq<Item<F>>, schema: Names, full: Columns<F>,
      requested: Names)
    requires full.Keys == SetOf(schema) && Rectangular(full)
    requires Checked(es, schema, Dedup(requested)) && Needed(es, requested) != []
    ensures var sub := SubExtend(es, SetOf(Dedup(requested)));
            Project(fl, sub, Restrict(full, SetOf(Needed(es, requested)))) == Project(fl, sub, full)
  {
    hide SubExtend, Dedup, Uses, AttributeList, AliasList, Rectangular, NoRepeats;
    var sub, needed := SubExtend(es, SetOf(Dedup(requested))), Needed(es, requested);
    var mp := Restrict(full, SetOf(needed));
    assert SetOf(needed) <= full.Keys;
    SubIs(es, requested);
    assert needed[0] in SetOf(needed);
    RestrictRows(full, SetOf(needed), needed[0]);
    forall it, name | it in sub && Uses(it.e, name) ensures name in mp && name in full && mp[name] == full[name] {
      assert name in SetOf(needed);
    }
    ProjectPruned(fl, sub, mp, full);
  }

  /** The names of a request that passed the checks are the names of its items. */
  lemma SelectedNames<F(!new)>(es: seq<Item<F>>, schema: Names, requested: Names)
    requires Checked(es, schema, Dedup(requested))
    ensures SetOf(AliasList(SubExtend(es, SetOf(Dedup(requested))))) == SetOf(requested)
  {
    hide SubExtend, Dedup, Checked, NoRepeats, Needed;
    var sub := SubExtend(es, SetOf(Dedup(requested)));
    SubIs(es, requested);
    CheckedIs(es, schema, requested);
    forall name ensures name in AliasList(sub) <==> name in requested {
      AliasIs(sub, name);
      if name in requested {
        var it :| Selected(es, requested, it) && NameOf(it) == name;
        assert it in sub;
      }
    }
    SubsetIs(AliasList(sub), requested);
    SubsetIs(requested, AliasList(sub));
  }

  /** Column pruning preserves meaning: when the first read gives rows, there is a column
      for exactly each requested name, and (with distinct names) it is its expression
      evaluated over the full input, although only the needed columns were read. */
  lemma PruningPreservesMeaning<F(!new)>(fl: FloatOps<F>, es: seq<Item<F>>, schema: Names, full: Columns<F>,
      requested: Names)
    requires full.Keys == SetOf(schema) && Rectangular(full)
    requires Answer(fl, es, schema, Some(full), requested).Rows?
    ensures var columns := Answer(fl, es, schema, Some(full), requested).columns;
            && columns.Keys == SetOf(requested)
            && (NoRepeats(AliasList(es)) ==>
                  forall it | Selected(es, requested, it) ::
                    NameOf(it) in columns && Computes(fl, it.e, full, columns[NameOf(it)]))
  {
    hide Project, SubExtend, Dedup, Checked, NoRepeats, AliasList, AttributeList, Uses, Computes;
    var sub := SubExtend(es, SetOf(Dedup(requested)));
    assert Needed(es, requested) != [];
    PruningChangesNothing(fl, es, schema, full, requested);
    SelectedNames(es, schema, requested);
    SubIs(es, requested);
    ProjectColumns(fl, sub, full);
    var columns := Answer(fl, es, schema, Some(full), requested).columns;
    forall it | NoRepeats(AliasList(es)) && Selected(es, requested, it)
      ensures NameOf(it) in columns && Computes(fl, it.e, full, columns[NameOf(it)])
    {
      assert it in sub;
      assert NameOf(it) in SetOf(requested);
    }
  }

  /** Some selected expression names the first requested name as an input. */
  ghost predicate FirstIsInput<F(!new)>(es: seq<Item<F>>, requested: Names)
  {
    requested != [] && exists it :: Selected(es, requested, it) && Uses(it.e, requested[0])
  }

  ghost predicate AtMostOneFloatEach<F(!new)>(es: seq<Item<F>>, requested: Names)
  {
    forall it | Selected(es, requested, it) :: FloatLeaves(it.e) <= 1
  }

  lemma FirstOf(xs: Names)
    ensures xs == [] <==> Dedup(xs) == []
    ensures xs != [] ==> Dedup(xs)[0] == xs[0]
    decreases |xs|
  {
    if |xs| > 1 {
      FirstOf(xs[..|xs| - 1]);
    }
  }

  /** Which outcome the guard of the first read takes. */
  lemma AnswerCases<F(!new)>(fl: FloatOps<F>, es: seq<Item<F>>, schema: Names, full: Columns<F>, rows: nat,
      requested: Names)
    requires full.Keys == SetOf(schema) && HasRows(full, rows) && rows > 0
    ensures var r := Answer(fl, es, schema, Some(full), requested);
            if !Acceptable(es, schema, requested) then r.Failed?
            else if requested == [] then r.Panicking?
            else if !FirstIsInput(es, requested) then r.NoRows?
            else r == Project(fl, SubExtend(es, SetOf(Dedup(requested))), full)
  {
    hide Acceptable, Dedup;
    CheckedIs(es, schema, requested);
    FirstOf(requested);
    if Acceptable(es, schema, requested) && requested != [] {
      var needed := Needed(es, requested);
      NeededIs(es, requested, requested[0]);
      assert FirstIsInput(es, requested) <==> requested[0] in needed;
      assert requested[0] in needed ==> requested[0] in SetOf(needed);
      if requested[0] in needed {
        PruningChangesNothing(fl, es, schema, full, requested);
      }
    }
  }

  lemma SelectedOutcome<F(!new)>(fl: FloatOps<F>, es: seq<Item<F>>, full: Columns<F>, rows: nat, requested: Names)
    requires full != map[] && HasRows(full, rows) && rows > 0
    requires forall it | it in es :: OpsKnown(it.e) && WellTyped(it.e, full)
    requires forall it, name | Selected(es, requested, it) && Uses(it.e, name) :: name in full
    ensures var r := Project(fl, SubExtend(es, SetOf(Dedup(requested))), full);
            if AtMostOneFloatEach(es, requested) then r.Rows? else r.Failed?
  {
    hide SubExtend, Dedup, Project, Eval, WellTyped, OpsKnown, Uses, FloatLeaves;
    var sub := SubExtend(es, SetOf(Dedup(requested)));
    SubIs(es, requested);
    ProjectOutcome(fl, sub, full);
    forall it | it in sub
      ensures !Eval(fl, it.e, full).Panicked? && (Eval(fl, it.e, full).Cells? <==> FloatLeaves(it.e) <= 1)
    {
      assert Selected(es, requested, it);
      EvalSucceedsIff(fl, it.e, full, rows);
      EvalRefinesRows(fl, it.e, full, rows);
    }
  }

  /** The outcome of a first read over a non-empty, well-typed relation, in full. An
      unacceptable request fails. Otherwise an empty one panics; one whose first requested
      output is not also an input of a selected expression gives no rows at all, as the
      guard looks that name up among the inputs; and the rest give rows exactly when no
      selected expression has two float leaves. No name is looked up in vain. */
  lemma ReadExactly<F(!new)>(fl: FloatOps<F>, es: seq<Item<F>>, schema: Names, full: Columns<F>, rows: nat,
      requested: Names)
    requires full.Keys == SetOf(schema) && HasRows(full, rows) && rows > 0
    requires forall it | it in es :: OpsKnown(it.e) && WellTyped(it.e, full)
    ensures var r := Answer(fl, es, schema, Some(full), requested);
            if !Acceptable(es, schema, requested) then r.Failed?
            else if requested == [] then r.Panicking?
            else if !FirstIsInput(es, requested) then r.NoRows?
            else if AtMostOneFloatEach(es, requested) then r.Rows?
            else r.Failed?
  {
    hide Answer, Project, OpsKnown, WellTyped, Uses, AtMostOneFloatEach, HasRows;
    AnswerCases(fl, es, schema, full, rows, requested);
    if Acceptable(es, schema, requested) && FirstIsInput(es, requested) {
      var it :| Selected(es, requested, it) && Uses(it.e, requested[0]);
      assert requested[0] in SetOf(schema) && requested[0] in full;
      forall it, name | Selected(es, requested, it) && Uses(it.e, name) ensures name in full {
        assert name in SetOf(schema);
      }
      SelectedOutcome(fl, es, full, rows, requested);
    }
  }

  /** Renaming a column loses it: asked for "b", the projection of `a` as "b" gives no rows. */
  lemma RenamedColumnIsLost(fl: FloatOps<real>, cell: I64)
    ensures var es := [Item("b", Attribute(T_INT, "a"))];
            Answer(fl, es, ["a"], Some(map["a" := [Int(cell)]]), ["b"]) == NoRows
  {
    var it: Item<real> := Item("b", Attribute(T_INT, "a"));
    var full: Columns<real> := map["a" := [Int(cell)]];
    assert Selected([it], ["b"], it) && Uses(it.e, "a");
    ReadExactly(fl, [it], ["a"], full, 1, ["b"]);
  }

  // ---- Names ---------------------------------------------------------------

  /** An item goes by its alias, and an attribute without one by the attribute's name. */
  predicate GoesBy<F>(it: Item<F>, name: string)
  {
    match it
    case Item("", Attribute(_, attribute)) => name == attribute
    case Item(alias, _) => name == alias
  }

  /** That name is what an item is listed under, requested by, and output under. */
  lemma NamesAre<F(!new)>(fl: FloatOps<F>, es: seq<Item<F>>, i: nat, wanted: set<string>, mp: Columns<F>)
    requires i < |es|
    ensures GoesBy(es[i], AliasList(es)[i])
    ensures es[i] in SubExtend(es, wanted) <==> exists name | name in wanted :: GoesBy(es[i], name)
    ensures Project(fl, [es[i]], mp).Rows? ==>
              forall name | name in Project(fl, [es[i]], mp).columns :: GoesBy(es[i], name)
  {
    SubExtendIs(es, wanted);
    assert [es[i]][..0] == [];
    assert GoesBy(es[i], NameOf(es[i]));
  }

  /** The selected items keep their order. */
  lemma {:induction false} SubExtendConcat<F>(xs: seq<Item<F>>, ys: seq<Item<F>>, wanted: set<string>)
    ensures SubExtend(xs + ys, wanted) == SubExtend(xs, wanted) + SubExtend(ys, wanted)
  {
    if ys == [] {
      assert xs + ys == xs;
    } else {
      assert (xs + ys)[..|xs + ys| - 1] == xs + ys[..|ys| - 1];
      SubExtendConcat(xs, ys[..|ys| - 1], wanted);
    }
  }

  /** One more item: its cells come after those that already go by its name, and no other
      column changes. */
  lemma NextColumn<F(!new)>(fl: FloatOps<F>, es: seq<Item<F>>, it: Item<F>, mp: Columns<F>, name: string)
    requires Project(fl, es + [it], mp).Rows?
    ensures Project(fl, es, mp).Rows? && Eval(fl, it.e, mp).Cells?
    ensures var before, after := Project(fl, es, mp).columns, Project(fl, es + [it], mp).columns;
            if GoesBy(it, name)
            then
              name in after && after[name] == (if name in before then before[name] else []) + Eval(fl, it.e, mp).cells
            else (name in after <==> name in before) && (name in before ==> after[name] == before[name])
  {
    assert (es + [it])[..|es|] == es;
    assert GoesBy(it, name) <==> name == NameOf(it);
  }

  /** A relation that was read already answers nothing, whatever is requested. */
  lemma SecondReadIsEmpty<F(!new)>(fl: FloatOps<F>, es: seq<Item<F>>, schema: Names, requested: Names)
    ensures Answer(fl, es, schema, None, requested) == NoRows
  {
  }

  /** A requested attribute without an alias comes back as the input column itself. */
  lemma AttributeComesBack<F(!new)>(fl: FloatOps<F>, es: seq<Item<F>>, schema: Names, full: Columns<F>,
                                    requested: Names, typ: Tag, name: string)
    requires full.Keys == SetOf(schema) && Rectangular(full) && NoRepeats(AliasList(es))
    requires Item("", Attribute(typ, name)) in es && name in requested
    requires Answer(fl, es, schema, Some(full), requested).Rows?
    ensures var columns := Answer(fl, es, schema, Some(full), requested).columns;
            name in columns && name in full && columns[name] == full[name]
  {
    hide Answer, AliasList, Acceptable, NoRepeats;
    var it: Item<F> := Item("", Attribute(typ, name));
    PruningPreservesMeaning(fl, es, schema, full, requested);
    assert Selected(es, requested, it);
  }

  /** With distinct names no other item has the name of `it`. */
  lemma OnlyOne<F(!new)>(es: seq<Item<F>>, it: Item<F>)
    requires NoRepeats(AliasList(es)) && it in es
    ensures forall other | other in es && NameOf(other) == NameOf(it) :: other == it
  {
    var names := AliasList(es);
    var i :| 0 <= i < |es| && es[i] == it;
    forall other | other in es && NameOf(other) == NameOf(it) ensures other == it {
      var j :| 0 <= j < |es| && es[j] == other;
      assert names[i] == names[j];
    }
  }

  lemma AttributeOnly<F(!new)>(es: seq<Item<F>>, schema: Names, typ: Tag, name: string)
    requires NoRepeats(AliasList(es)) && Item("", Attribute(typ, name)) in es && name in schema
    requires forall it | it in es :: UsesSome(it.e)
    ensures Acceptable(es, schema, [name]) && FirstIsInput(es, [name]) && AtMostOneFloatEach(es, [name])
  {
    hide NoRepeats, AliasList, UsesSome;
    var it: Item<F> := Item("", Attribute(typ, name));
    OnlyOne(es, it);
    assert Selected(es, [name], it) && NameOf(it) == name && Uses(it.e, name);
    assert forall other | Selected(es, [name], other) :: other == it;
  }

  /** And a request for it alone always succeeds: over a non-empty relation that has the
      attribute, the answer is exactly its column. */
  lemma AttributeAlone<F(!new)>(fl: FloatOps<F>, es: seq<Item<F>>, schema: Names, full: Columns<F>, rows: nat,
                                typ: Tag, name: string)
    requires full.Keys == SetOf(schema) && HasRows(full, rows) && rows > 0 && name in schema
    requires NoRepeats(AliasList(es)) && Item("", Attribute(typ, name)) in es
    requires forall it | it in es :: OpsKnown(it.e) && WellTyped(it.e, full) && UsesSome(it.e)
    ensures Answer(fl, es, schema, Some(full), [name]) == Rows(map[name := full[name]])
  {
    hide Answer, NoRepeats, AliasList, UsesSome, OpsKnown, WellTyped, Computes;
    hide Acceptable, FirstIsInput, AtMostOneFloatEach;
    AttributeOnly(es, schema, typ, name);
    ReadExactly(fl, es, schema, full, rows, [name]);
    PruningPreservesMeaning(fl, es, schema, full, [name]);
    AttributeComesBack(fl, es, schema, full, [name], typ, name);
    var columns := Answer(fl, es, schema, Some(full), [name]).columns;
    assert columns.Keys == {name};
    assert columns == map[name := full[name]];
  }
}
