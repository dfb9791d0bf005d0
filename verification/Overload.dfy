/** The typed operator table and the evaluation of one operator on two columns. */
module Overload {
  import opened Wrappers
  import opened Values

  const PLUS := 0
  const MINUS := 1

  /** One overload: the tags it takes and the tag it returns. */
  datatype BinOp = BinOp(leftType: Tag, rightType: Tag, returnType: Tag)

  const OVERLOADS: seq<BinOp> := [BinOp(T_INT, T_INT, T_INT), BinOp(T_INT, T_FLOAT, T_FLOAT),
      BinOp(T_FLOAT, T_INT, T_FLOAT)]

  /** The operator table: both operators have the same overloads. */
  const BIN_OPS: map<int, seq<BinOp>> := map[PLUS := OVERLOADS, MINUS := OVERLOADS]

  predicate Known(op: int) { op == PLUS || op == MINUS }

  function OnInts(op: int, a: I64, b: I64): I64 { Wrap(if op == PLUS then a + b else a - b) }

  function OnFloats<F>(fl: FloatOps<F>, op: int, a: F, b: F): F
  {
    if op == PLUS then fl.add(a, b) else fl.sub(a, b)
  }

  /** A known operator on single values, by their dynamic types; two floats have no sum
      and no difference. */
  function Scalar<F>(fl: FloatOps<F>, op: int, x: Value<F>, y: Value<F>): Option<Value<F>>
  {
    match (x, y)
    case (Int(a), Int(b)) => Some(Int(OnInts(op, a, b)))
    case (Int(a), Float(b)) => Some(Float(OnFloats(fl, op, fl.ofInt(a), b)))
    case (Float(a), Int(b)) => Some(Float(OnFloats(fl, op, a, fl.ofInt(b))))
    case (Float(_), Float(_)) => None
  }

  /** `c` is what `int64` arithmetic makes of the integer `x`. */
  ghost predicate IsInt64Of(c: int, x: int)
  {
    && -0x8000_0000_0000_0000 <= c < 0x8000_0000_0000_0000
    && (exists q: int :: x == c + q * 0x1_0000_0000_0000_0000)
    && (-0x8000_0000_0000_0000 <= x < 0x8000_0000_0000_0000 ==> c == x)
  }

  lemma WrapIs(x: int)
    ensures IsInt64Of(Wrap(x), x)
  {
    var y := x + TWO_63;
    assert y == (y / (2 * TWO_63)) * (2 * TWO_63) + y % (2 * TWO_63);
    assert x == Wrap(x) + (y / (2 * TWO_63)) * 0x1_0000_0000_0000_0000;
  }

  /** Operator 0 adds and operator 1 subtracts, left operand first: two ints in `int64`
      arithmetic, an int and a float in either order after the int is converted. */
  lemma ScalarIs<F>(fl: FloatOps<F>, a: I64, b: I64, x: F)
    ensures var r := Scalar(fl, 0, Int(a), Int(b)); r.Some? && r.value.Int? && IsInt64Of(r.value.i, a + b)
    ensures var r := Scalar(fl, 1, Int(a), Int(b)); r.Some? && r.value.Int? && IsInt64Of(r.value.i, a - b)
    ensures Scalar(fl, 0, Int(a), Float(x)) == Some(Float(fl.add(fl.ofInt(a), x)))
    ensures Scalar(fl, 1, Int(a), Float(x)) == Some(Float(fl.sub(fl.ofInt(a), x)))
    ensures Scalar(fl, 0, Float(x), Int(b)) == Some(Float(fl.add(x, fl.ofInt(b))))
    ensures Scalar(fl, 1, Float(x), Int(b)) == Some(Float(fl.sub(x, fl.ofInt(b))))
  {
    WrapIs(a + b);
    WrapIs(a - b);
  }

  predicate Overloaded(ltyp: Tag, rtyp: Tag)
  {
    (ltyp == T_INT && rtyp == T_INT) || (ltyp == T_INT && rtyp == T_FLOAT) || (ltyp == T_FLOAT && rtyp == T_INT)
  }

  function ReturnTag(ltyp: Tag, rtyp: Tag): Tag { if ltyp == T_INT && rtyp == T_INT then T_INT else T_FLOAT }

  /** Every element access of the loop is in range and every type assertion holds. */
  predicate Safe<F>(ltyp: Tag, rtyp: Tag, xs: Column<F>, ys: Column<F>)
  {
    |xs| <= |ys| && forall i | 0 <= i < |xs| :: TagOf(xs[i]) == ltyp && TagOf(ys[i]) == rtyp
  }

  function Zipped<F>(fl: FloatOps<F>, op: int, xs: Column<F>, ys: Column<F>): (rs: Column<F>)
    requires |xs| <= |ys| && forall i | 0 <= i < |xs| :: Scalar(fl, op, xs[i], ys[i]).Some?
  {
    seq(|xs|, i requires 0 <= i < |xs| => Scalar(fl, op, xs[i], ys[i]).value)
  }

  /** What one operator gives on two tagged columns. */
  function BinaryResult<F>(fl: FloatOps<F>, op: int, ltyp: Tag, rtyp: Tag, xs: Column<F>, ys: Column<F>): Evaluated<F>
  {
    if !Known(op) then Panicked
    else if !Overloaded(ltyp, rtyp) then Error
    else if !Safe(ltyp, rtyp, xs, ys) then Panicked
    else Cells(Zipped(fl, op, xs, ys), ReturnTag(ltyp, rtyp))
  }

  /** The element loop of one overload; a failed type assertion panics. */
  method RunLoop<F>(fl: FloatOps<F>, op: int, o: BinOp, xs: Column<F>, ys: Column<F>) returns (r: Evaluated<F>)
    requires Known(op) && Overloaded(o.leftType, o.rightType)
    ensures r == if Safe(o.leftType, o.rightType, xs, ys) then Cells(Zipped(fl, op, xs, ys), o.returnType) else Panicked
  {
    var rs: Column<F> := [];
    for i := 0 to |xs|
      invariant i <= |ys| && Safe(o.leftType, o.rightType, xs[..i], ys)
      invariant rs == Zipped(fl, op, xs[..i], ys)
    {
      if i >= |ys| || TagOf(xs[i]) != o.leftType || TagOf(ys[i]) != o.rightType {
        return Panicked;
      }
      if xs[i].Int? && ys[i].Int? {
        rs := rs + [Int(OnInts(op, xs[i].i, ys[i].i))];
      } else if xs[i].Int? {
        rs := rs + [Float(OnFloats(fl, op, fl.ofInt(xs[i].i), ys[i].f))];
      } else {
        rs := rs + [Float(OnFloats(fl, op, xs[i].f, fl.ofInt(ys[i].i)))];
      }
    }
    assert xs[..|xs|] == xs;
    return Cells(rs, o.returnType);
  }

  /** Searches the table for the first overload that takes the two tags. An operator
      outside the table panics while its error message is put together. */
  method BinaryEval<F>(fl: FloatOps<F>, op: int, ltyp: Tag, rtyp: Tag, xs: Column<F>, ys: Column<F>)
    returns (r: Evaluated<F>)
    ensures r == BinaryResult(fl, op, ltyp, rtyp, xs, ys)
  {
    if op in BIN_OPS {
      var os := BIN_OPS[op];
      for i := 0 to |os|
        invariant forall j | 0 <= j < i :: os[j].leftType != ltyp || os[j].rightType != rtyp
      {
        if os[i].leftType == ltyp && os[i].rightType == rtyp {
          r := RunLoop(fl, op, os[i], xs, ys);
          return;
        }
      }
      assert os[0] == BinOp(T_INT, T_INT, T_INT);
      assert os[1] == BinOp(T_INT, T_FLOAT, T_FLOAT);
      assert os[2] == BinOp(T_FLOAT, T_INT, T_FLOAT);
      return Error;
    }
    return Panicked;
  }

  /** On two columns of equal length whose cells have the tags, the operator never
      panics; it gives a result exactly when not both are floats, and then works cell
      by cell, every cell having the returned tag. */
  lemma BinaryIsPointwise<F>(fl: FloatOps<F>, op: int, ltyp: Tag, rtyp: Tag, xs: Column<F>, ys: Column<F>)
    requires Known(op) && Safe(ltyp, rtyp, xs, ys) && |xs| == |ys| > 0
    ensures var r := BinaryResult(fl, op, ltyp, rtyp, xs, ys);
            && !r.Panicked?
            && (r.Cells? <==> ltyp == T_INT || rtyp == T_INT)
            && (r.Cells? ==>
                  && |r.cells| == |xs|
                  && (r.tag == T_INT <==> ltyp == rtyp == T_INT)
                  && forall i | 0 <= i < |xs| ::
                       Scalar(fl, op, xs[i], ys[i]) == Some(r.cells[i]) && TagOf(r.cells[i]) == r.tag)
            && (r.Error? ==> forall i | 0 <= i < |xs| :: Scalar(fl, op, xs[i], ys[i]) == None)
  {
    assert TagOf(xs[0]) == ltyp && TagOf(ys[0]) == rtyp;
  }
}
