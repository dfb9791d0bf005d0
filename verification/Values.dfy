/** Cell values, columns, and the columns that a constant evaluates to. */
module Values {

  const TWO_63 := 0x8000_0000_0000_0000

  type I64 = x: int | -TWO_63 <= x < TWO_63

  /** Two's complement wrap-around of an `int64` result. */
  function Wrap(x: int): I64 { (x + TWO_63) % (2 * TWO_63) - TWO_63 }

  /** Floating point is left uninterpreted: nothing depends on what these compute. */
  datatype FloatOps<!F> = FloatOps(ofInt: I64 -> F, add: (F, F) -> F, sub: (F, F) -> F)

  datatype Value<F> = Int(i: I64) | Float(f: F)

  type Tag = nat

  const T_INT: Tag := 1
  const T_FLOAT: Tag := 3

  function TagOf<F>(v: Value<F>): Tag { if v.Int? then T_INT else T_FLOAT }

  type Column<F> = seq<Value<F>>

  type Columns<F> = map<string, Column<F>>

  /** What an evaluation gives: a column with its type tag, an error, or a run-time panic. */
  datatype Evaluated<F> = Cells(cells: Column<F>, tag: Tag) | Error | Panicked

  /** All columns have the same number of rows. */
  predicate Rectangular<F>(mp: Columns<F>)
  {
    forall j, k | j in mp && k in mp :: |mp[j]| == |mp[k]|
  }

  /** `n` is the length of one of the columns, 0 if there are none: a map iteration may
      start at any of them. */
  predicate IsLength<F>(mp: Columns<F>, n: nat)
  {
    if mp == map[] then n == 0 else exists k | k in mp :: |mp[k]| == n
  }

  /** The length that all columns share; on columns of different lengths any of theirs. */
  ghost function RowCount<F>(mp: Columns<F>): (n: nat)
    ensures IsLength(mp, n)
  {
    if mp == map[] then 0 else var k :| k in mp; |mp[k]|
  }

  lemma RowCountIs<F>(mp: Columns<F>, k: string)
    requires Rectangular(mp) && k in mp
    ensures RowCount(mp) == |mp[k]|
  {
  }

  method Length<F>(mp: Columns<F>) returns (n: nat)
    ensures IsLength(mp, n)
  {
    if mp == map[] {
      return 0;
    }
    var k :| k in mp;
    return |mp[k]|;
  }

  function Repeated<F>(v: Value<F>, n: nat): Column<F> { seq(n, _ => v) }

  /** A constant is a column of its own value, as long as one of the columns. */
  method EvalConstant<F>(v: Value<F>, mp: Columns<F>) returns (rs: Column<F>, tag: Tag)
    ensures IsLength(mp, |rs|) && rs == Repeated(v, |rs|) && tag == TagOf(v) == if v.Int? then 1 else 3
  {
    var n := Length(mp);
    rs := [];
    while |rs| < n
      invariant |rs| <= n && rs == Repeated(v, |rs|)
    {
      rs := rs + [v];
    }
    tag := TagOf(v);
  }
}
