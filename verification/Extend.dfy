/** Expressions over columns: column-at-a-time evaluation, and its meaning row by row. */
module Extend {
  import opened Wrappers
  import opened Values
  import opened Util
  import opened Overload

  datatype Expr<F> =
    | Const(v: Value<F>)
    | Attribute(typ: Tag, name: string)
    | Binary(op: int, left: Expr<F>, right: Expr<F>)

  function Attributes<F>(e: Expr<F>): Names
  {
    match e
    case Const(_) => []
    case Attribute(_, name) => [name]
    case Binary(_, l, r) => Dedup(Attributes(l) + Attributes(r))
  }

  /** The evaluation of the source: each operator runs over whole columns. */
  ghost function Eval<F>(fl: FloatOps<F>, e: Expr<F>, mp: Columns<F>): Evaluated<F>
  {
    match e
    case Const(v) => Cells(Repeated(v, RowCount(mp)), TagOf(v))
    case Attribute(typ, name) => if name in mp then Cells(mp[name], typ) else Error
    case Binary(op, l, r) =>
      var x := Eval(fl, l, mp);
      if !x.Cells? then x else
      var y := Eval(fl, r, mp);
      if !y.Cells? then y else
      BinaryResult(fl, op, x.tag, y.tag, x.cells, y.cells)
  }

  /** What the evaluation may give: the columns decide, except that each constant may take
      its length from any of them. */
  ghost predicate MayGive<F(!new)>(fl: FloatOps<F>, e: Expr<F>, mp: Columns<F>, r: Evaluated<F>)
  {
    match e
    case Const(v) => r.Cells? && IsLength(mp, |r.cells|) && r == Cells(Repeated(v, |r.cells|), TagOf(v))
    case Attribute(typ, name) => r == if name in mp then Cells(mp[name], typ) else Error
    case Binary(op, left, right) =>
      exists x | MayGive(fl, left, mp, x) ::
        if !x.Cells? then r == x else
        exists y | MayGive(fl, right, mp, y) ::
          r == if !y.Cells? then y else BinaryResult(fl, op, x.tag, y.tag, x.cells, y.cells)
  }

  method Evaluate<F(!new)>(fl: FloatOps<F>, e: Expr<F>, mp: Columns<F>) returns (r: Evaluated<F>)
    ensures MayGive(fl, e, mp, r)
  {
    match e {
      case Const(v) =>
        var rs, tag := EvalConstant(v, mp);
        return Cells(rs, tag);
      case Attribute(typ, name) =>
        return if name in mp then Cells(mp[name], typ) else Error;
      case Binary(op, left, right) =>
        var x := Evaluate(fl, left, mp);
        if !x.Cells? {
          return x;
        }
        var y := Evaluate(fl, right, mp);
        if !y.Cells? {
          return y;
        }
        r := BinaryEval(fl, op, x.tag, y.tag, x.cells, y.cells);
    }
  }

  /** On columns of equal length the evaluation gives one result only. */
  lemma {:induction false} EvaluationIsUnique<F(!new)>(fl: FloatOps<F>, e: Expr<F>, mp: Columns<F>, r: Evaluated<F>)
    requires Rectangular(mp)
    ensures MayGive(fl, e, mp, r) <==> r == Eval(fl, e, mp)
  {
    match e
    case Const(v) =>
      if r.Cells? && IsLength(mp, |r.cells|) && mp != map[] {
        var k :| k in mp && |mp[k]| == |r.cells|;
        RowCountIs(mp, k);
      }
    case Attribute(_, _) =>
    case Binary(_, left, right) =>
      forall x ensures MayGive(fl, left, mp, x) <==> x == Eval(fl, left, mp) {
        EvaluationIsUnique(fl, left, mp, x);
      }
      forall y ensures MayGive(fl, right, mp, y) <==> y == Eval(fl, right, mp) {
        EvaluationIsUnique(fl, right, mp, y);
      }
  }

  // ---- Row by row ----------------------------------------------------------

  type Row<F> = map<string, Value<F>>

  /** The expression on one row; None if a name is missing or two floats meet. */
  function EvalRow<F>(fl: FloatOps<F>, e: Expr<F>, row: Row<F>): Option<Value<F>>
  {
    match e
    case Const(v) => Some(v)
    case Attribute(_, name) => if name in row then Some(row[name]) else None
    case Binary(op, l, r) =>
      match (EvalRow(fl, l, row), EvalRow(fl, r, row))
      case (Some(x), Some(y)) => Scalar(fl, op, x, y)
      case _ => None
  }

  function RowOf<F>(mp: Columns<F>, i: nat): Row<F>
    requires forall k | k in mp :: i < |mp[k]|
  {
    map k | k in mp :: mp[k][i]
  }

  predicate HasRows<F>(mp: Columns<F>, rows: nat)
  {
    forall k | k in mp :: |mp[k]| == rows
  }

  /** Every operator is in the table. */
  predicate OpsKnown<F>(e: Expr<F>)
  {
    e.Binary? ==> Known(e.op) && OpsKnown(e.left) && OpsKnown(e.right)
  }

  /** The cells of a column have the tag that the expression claims for it. */
  predicate WellTyped<F>(e: Expr<F>, mp: Columns<F>)
  {
    match e
    case Const(_) => true
    case Attribute(typ, name) => name in mp ==> forall i | 0 <= i < |mp[name]| :: TagOf(mp[name][i]) == typ
    case Binary(_, l, r) => WellTyped(l, mp) && WellTyped(r, mp)
  }

  function FloatLeaves<F>(e: Expr<F>): nat
  {
    match e
    case Const(v) => if v.Float? then 1 else 0
    case Attribute(typ, _) => if typ == T_FLOAT then 1 else 0
    case Binary(_, l, r) => FloatLeaves(l) + FloatLeaves(r)
  }

  predicate Uses<F>(e: Expr<F>, name: string)
  {
    match e
    case Const(_) => false
    case Attribute(_, n) => n == name
    case Binary(_, l, r) => Uses(l, name) || Uses(r, name)
  }

  lemma {:induction false} AttributesAreUsed<F>(e: Expr<F>, name: string)
    ensures name in Attributes(e) <==> Uses(e, name)
    ensures NoRepeats(Attributes(e))
  {
    if e.Binary? {
      AttributesAreUsed(e.left, name);
      AttributesAreUsed(e.right, name);
      DedupIs(Attributes(e.left) + Attributes(e.right));
    }
  }

  /** `r` is the expression on every row of `mp`, or an error that every row shares. */
  ghost predicate RefinesRows<F(!new)>(fl: FloatOps<F>, e: Expr<F>, mp: Columns<F>, rows: nat, r: Evaluated<F>)
    requires HasRows(mp, rows)
  {
    match r
    case Cells(cells, tag) =>
      && |cells| == rows
      && (tag == T_INT || tag == T_FLOAT)
      && forall i | 0 <= i < rows :: TagOf(cells[i]) == tag && EvalRow(fl, e, RowOf(mp, i)) == Some(cells[i])
    case Error => forall i | 0 <= i < rows :: EvalRow(fl, e, RowOf(mp, i)) == None
    case Panicked => false
  }

  lemma BinaryRefinesRows<F(!new)>(fl: FloatOps<F>, e: Expr<F>, mp: Columns<F>, rows: nat)
    requires HasRows(mp, rows) && rows > 0 && e.Binary? && Known(e.op)
    requires RefinesRows(fl, e.left, mp, rows, Eval(fl, e.left, mp))
    requires RefinesRows(fl, e.right, mp, rows, Eval(fl, e.right, mp))
    ensures RefinesRows(fl, e, mp, rows, Eval(fl, e, mp))
  {
    hide Scalar;
    var x, y := Eval(fl, e.left, mp), Eval(fl, e.right, mp);
    if x.Cells? && y.Cells? {
      BinaryIsPointwise(fl, e.op, x.tag, y.tag, x.cells, y.cells);
      assert Eval(fl, e, mp) == BinaryResult(fl, e.op, x.tag, y.tag, x.cells, y.cells);
    }
  }

  /** Column-at-a-time evaluation is row-at-a-time evaluation: on non-empty, well-typed
      columns of equal length it never panics, its cells are the expression's value on
      each row with the returned tag, and when it fails, every single row would fail. */
  lemma {:induction false} EvalRefinesRows<F(!new)>(fl: FloatOps<F>, e: Expr<F>, mp: Columns<F>, rows: nat)
    requires mp != map[] && HasRows(mp, rows) && rows > 0 && WellTyped(e, mp) && OpsKnown(e)
    ensures RefinesRows(fl, e, mp, rows, Eval(fl, e, mp))
  {
    match e
    case Const(_) =>
    case Attribute(typ, name) =>
      if name in mp {
        assert TagOf(mp[name][0]) == typ;
      }
    case Binary(_, l, r) =>
      EvalRefinesRows(fl, l, mp, rows);
      EvalRefinesRows(fl, r, mp, rows);
      BinaryRefinesRows(fl, e, mp, rows);
  }

  /** Evaluation succeeds exactly when every name is a column and at most one leaf of the
      expression is a float, and the result is a float exactly when one is. */
  lemma {:induction false} EvalSucceedsIff<F(!new)>(fl: FloatOps<F>, e: Expr<F>, mp: Columns<F>, rows: nat)
    requires mp != map[] && HasRows(mp, rows) && rows > 0 && WellTyped(e, mp) && OpsKnown(e)
    ensures Eval(fl, e, mp).Cells? <==> (forall name | Uses(e, name) :: name in mp) && FloatLeaves(e) <= 1
    ensures Eval(fl, e, mp).Cells? ==> Eval(fl, e, mp).tag == if FloatLeaves(e) == 0 then T_INT else T_FLOAT
  {
    match e
    case Const(_) =>
    case Attribute(typ, name) =>
      assert Uses(e, name);
      if name in mp {
        assert TagOf(mp[name][0]) == typ;
      }
    case Binary(_, l, r) =>
      EvalSucceedsIff(fl, l, mp, rows);
      EvalSucceedsIff(fl, r, mp, rows);
      assert forall name :: Uses(e, name) <==> Uses(l, name) || Uses(r, name);
      EvalRefinesRows(fl, l, mp, rows);
      EvalRefinesRows(fl, r, mp, rows);
      var x, y := Eval(fl, l, mp), Eval(fl, r, mp);
      if x.Cells? && y.Cells? {
        BinaryIsPointwise(fl, e.op, x.tag, y.tag, x.cells, y.cells);
      }
  }

  /** Evaluation looks at no column that the expression does not name: any two sets of
      columns that agree on those, missing ones included, and have the same number of
      rows give the same result, errors and panics included. */
  lemma {:induction false} EvalReadsOnlyItsNames<F>(fl: FloatOps<F>, e: Expr<F>, mp: Columns<F>, mp': Columns<F>)
    requires RowCount(mp) == RowCount(mp')
    requires forall name | Uses(e, name) :: (name in mp <==> name in mp') && (name in mp ==> mp[name] == mp'[name])
    ensures Eval(fl, e, mp) == Eval(fl, e, mp')
  {
    match e
    case Const(_) =>
    case Attribute(_, name) => assert Uses(e, name);
    case Binary(_, l, r) =>
      assert forall name :: Uses(l, name) || Uses(r, name) ==> Uses(e, name);
      EvalReadsOnlyItsNames(fl, l, mp, mp');
      EvalReadsOnlyItsNames(fl, r, mp, mp');
  }

  /** What a sum or a difference of expressions is, cell by cell, from the cells of its two
      sides, left side first. */
  lemma SumAndDifference<F(!new)>(fl: FloatOps<F>, e: Expr<F>, mp: Columns<F>, rows: nat, i: nat)
    requires mp != map[] && HasRows(mp, rows) && i < rows && WellTyped(e, mp) && OpsKnown(e)
    requires e.Binary? && Eval(fl, e, mp).Cells?
    ensures Eval(fl, e.left, mp).Cells? && Eval(fl, e.right, mp).Cells?
    ensures |Eval(fl, e, mp).cells| == |Eval(fl, e.left, mp).cells| == |Eval(fl, e.right, mp).cells| == rows
    ensures var x, y, z := Eval(fl, e.left, mp).cells[i], Eval(fl, e.right, mp).cells[i], Eval(fl, e, mp).cells[i];
            match (x, y)
            case (Int(a), Int(b)) => z.Int? && IsInt64Of(z.i, if e.op == 0 then a + b else a - b)
            case (Int(a), Float(b)) => z == Float(if e.op == 0 then fl.add(fl.ofInt(a), b) else fl.sub(fl.ofInt(a), b))
            case (Float(a), Int(b)) => z == Float(if e.op == 0 then fl.add(a, fl.ofInt(b)) else fl.sub(a, fl.ofInt(b)))
            case _ => false
  {
    EvalRefinesRows(fl, e.left, mp, rows);
    EvalRefinesRows(fl, e.right, mp, rows);
    EvalRefinesRows(fl, e, mp, rows);
    var x, y := Eval(fl, e.left, mp).cells[i], Eval(fl, e.right, mp).cells[i];
    assert Scalar(fl, e.op, x, y) == Some(Eval(fl, e, mp).cells[i]);
    ScalarIs(fl, if x.Int? then x.i else 0, if y.Int? then y.i else 0,
             if x.Float? then x.f else if y.Float? then y.f else fl.ofInt(0));
  }

  // ---- The declared type ---------------------------------------------------

  function JoinTypes(x: Tag, y: Tag): Tag
  {
    if x == y then x else if x == T_INT || x == T_FLOAT then y else x
  }

  /** The type an expression declares before it is evaluated. */
  function ReturnType<F>(e: Expr<F>): Tag
  {
    match e
    case Const(v) => TagOf(v)
    case Attribute(typ, _) => typ
    case Binary(op, l, r) => if Known(op) then JoinTypes(ReturnType(l), ReturnType(r)) else 0
  }

  predicate LastLeafIsFloat<F>(e: Expr<F>)
  {
    match e
    case Const(v) => v.Float?
    case Attribute(typ, _) => typ == T_FLOAT
    case Binary(_, _, r) => LastLeafIsFloat(r)
  }

  predicate UsesAs<F>(e: Expr<F>, name: string, typ: Tag)
  {
    match e
    case Const(_) => false
    case Attribute(t, n) => n == name && t == typ
    case Binary(_, l, r) => UsesAs(l, name, typ) || UsesAs(r, name, typ)
  }

  lemma {:induction false} DeclaredType<F>(e: Expr<F>)
    requires OpsKnown(e) && (forall name, typ | UsesAs(e, name, typ) :: typ == T_INT || typ == T_FLOAT)
    ensures LastLeafIsFloat(e) ==> FloatLeaves(e) > 0
    ensures FloatLeaves(e) <= 1 ==> ReturnType(e) == if LastLeafIsFloat(e) then T_FLOAT else T_INT
  {
    match e
    case Const(_) =>
    case Attribute(typ, name) => assert UsesAs(e, name, typ);
    case Binary(_, l, r) =>
      assert forall name, typ :: UsesAs(l, name, typ) || UsesAs(r, name, typ) ==> UsesAs(e, name, typ);
      DeclaredType(l);
      DeclaredType(r);
  }

  lemma {:induction false} UsedTypes<F>(e: Expr<F>, mp: Columns<F>, rows: nat, name: string, typ: Tag)
    requires HasRows(mp, rows) && rows > 0 && WellTyped(e, mp) && UsesAs(e, name, typ) && name in mp
    ensures Uses(e, name) && (typ == T_INT || typ == T_FLOAT)
  {
    match e
    case Const(_) =>
    case Attribute(_, _) => assert TagOf(mp[name][0]) == typ;
    case Binary(_, l, r) =>
      if UsesAs(l, name, typ) {
        UsedTypes(l, mp, rows, name, typ);
      } else {
        UsedTypes(r, mp, rows, name, typ);
      }
  }

  lemma {:induction false} UsedAsIsUsed<F>(e: Expr<F>, name: string, typ: Tag)
    requires UsesAs(e, name, typ)
    ensures Uses(e, name)
  {
    if e.Binary? {
      if UsesAs(e.left, name, typ) {
        UsedAsIsUsed(e.left, name, typ);
      } else {
        UsedAsIsUsed(e.right, name, typ);
      }
    }
  }

  /** The declared type is the tag of the result exactly when the expression has no float
      leaf or its last leaf is the float one: `float + int` declares an int. */
  lemma ReturnTypeAgreesIff<F(!new)>(fl: FloatOps<F>, e: Expr<F>, mp: Columns<F>, rows: nat)
    requires mp != map[] && HasRows(mp, rows) && rows > 0 && WellTyped(e, mp) && OpsKnown(e)
    requires Eval(fl, e, mp).Cells?
    ensures ReturnType(e) == Eval(fl, e, mp).tag <==> FloatLeaves(e) == 0 || LastLeafIsFloat(e)
  {
    EvalSucceedsIff(fl, e, mp, rows);
    forall name, typ | UsesAs(e, name, typ) ensures typ == T_INT || typ == T_FLOAT {
      UsedAsIsUsed(e, name, typ);
      UsedTypes(e, mp, rows, name, typ);
    }
    DeclaredType(e);
  }

  /** A float constant plus an int column: declared an int, evaluated to a float. */
  lemma DeclaredTypeIsWrong<F(!new)>(fl: FloatOps<F>, x: F, i: I64)
    ensures var e := Binary(PLUS, Const(Float(x)), Attribute(T_INT, "a"));
            && ReturnType(e) == T_INT
            && Eval(fl, e, map["a" := [Int(i)]]) == Cells([Float(fl.add(x, fl.ofInt(i)))], T_FLOAT)
  {
    var mp: Columns<F> := map["a" := [Int(i)]];
    RowCountIs(mp, "a");
    assert Repeated(Float(x), 1) == [Float(x)];
  }
}
