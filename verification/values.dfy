/**
 The values the dashboard moves around: optional and fallible results, the
 contents of one table cell, and the small slice of IEEE-754 arithmetic the
 RSI formula needs (division by zero yields an infinity or NaN, never an
 exception). Reals stand in for float64 values exactly; rounding is not
 modelled.
 */
module Values {

  datatype Option<T> = None | Some(value: T)

  datatype Result<T, E> = Ok(value: T) | Err(error: E)

  /** One cell of a table, or one Python value handed to a formatter. */
  datatype Value =
    | Num(x: real)      // an int or a finite float
    | Missing           // a float NaN that stands for an absent observation
    | Undefined         // a float NaN produced by an indeterminate operation (0/0)
    | NoneValue         // Python's None
    | Text(s: string)   // a str

  /** pandas' isnull/notnull: NaN and None are null, everything else is not. */
  predicate IsNull(v: Value) {
    v.Missing? || v.Undefined? || v.NoneValue?
  }

  /** isinstance(v, (int, float)): numbers and float NaNs, not None or str. */
  predicate IsNumberType(v: Value) {
    v.Num? || v.Missing? || v.Undefined?
  }

  /** A column whose cells are all floats (possibly NaN), as after numeric coercion. */
  predicate NumericCells(vs: seq<Value>) {
    forall i :: 0 <= i < |vs| ==> IsNumberType(vs[i])
  }

  /** A column that holds no null cell and no text at all. */
  predicate AllNum(vs: seq<Value>) {
    forall i :: 0 <= i < |vs| ==> vs[i].Num?
  }

  /** The reals of a column with no null or text cell. */
  function Reals(vs: seq<Value>): (xs: seq<real>)
    requires AllNum(vs)
    ensures |xs| == |vs|
    ensures forall i :: 0 <= i < |vs| ==> vs[i] == Num(xs[i])
  {
    seq(|vs|, i requires 0 <= i < |vs| => vs[i].x)
  }

  /** The column holding the given reals. */
  function Nums(xs: seq<real>): (vs: seq<Value>)
    ensures |vs| == |xs| && AllNum(vs)
    ensures forall i :: 0 <= i < |xs| ==> vs[i] == Num(xs[i])
  {
    seq(|xs|, i requires 0 <= i < |xs| => Num(xs[i]))
  }

  /**
   pd.to_numeric(v, errors='coerce'): numbers stay, None becomes NaN, and a
   string becomes the number it spells or NaN. The string parser is Python's
   own and is taken as the parameter `parse`.
   */
  function ToNumeric(v: Value, parse: string -> Option<real>): (r: Value)
    ensures IsNumberType(r)
    ensures v.Num? ==> r == v
    ensures IsNull(v) ==> IsNull(r)
    ensures v.Text? ==> (r.Num? <==> parse(v.s).Some?)
  {
    match v
    case Num(_) => v
    case Missing => Missing
    case Undefined => Undefined
    case NoneValue => Missing
    case Text(s) => if parse(s).Some? then Num(parse(s).value) else Missing
  }

  /** Series.apply(pd.to_numeric, errors='coerce'): every cell of a column converted. */
  function Coerce(cells: seq<Value>, parse: string -> Option<real>): (r: seq<Value>)
    ensures |r| == |cells|
    ensures forall i :: 0 <= i < |cells| ==> r[i] == ToNumeric(cells[i], parse)
  {
    seq(|cells|, i requires 0 <= i < |cells| => ToNumeric(cells[i], parse))
  }

  /** Elementwise subtraction of two float columns; NaN on either side gives NaN. */
  function Minus(a: Value, b: Value): (r: Value)
    ensures r.Num? <==> a.Num? && b.Num?
    ensures r.Num? ==> r.x + b.x == a.x
  {
    if a.Num? && b.Num? then Num(a.x - b.x) else Missing
  }

  /** A float64 value with its non-finite cases; the sign of zero is not tracked. */
  datatype Float = Fin(r: real) | PosInf | NegInf | NaN

  function FNeg(a: Float): Float {
    match a
    case Fin(r) => Fin(-r)
    case PosInf => NegInf
    case NegInf => PosInf
    case NaN => NaN
  }

  /** IEEE-754 addition on the extended reals. */
  function FAdd(a: Float, b: Float): (r: Float)
    ensures a.Fin? && b.Fin? ==> r == Fin(a.r + b.r)
    ensures a.NaN? || b.NaN? ==> r.NaN?
  {
    match (a, b)
    case (NaN, _) => NaN
    case (_, NaN) => NaN
    case (PosInf, NegInf) => NaN
    case (NegInf, PosInf) => NaN
    case (PosInf, _) => PosInf
    case (NegInf, _) => NegInf
    case (_, PosInf) => PosInf
    case (_, NegInf) => NegInf
    case (Fin(x), Fin(y)) => Fin(x + y)
  }

  function FSub(a: Float, b: Float): Float {
    FAdd(a, FNeg(b))
  }

  /** IEEE-754 division: x/0 is a signed infinity for x != 0 and NaN for 0/0. */
  function FDiv(a: Float, b: Float): (r: Float)
    ensures a.Fin? && b.Fin? && b.r != 0.0 ==> r == Fin(a.r / b.r)
    ensures a == Fin(0.0) && b == Fin(0.0) ==> r.NaN?
  {
    match (a, b)
    case (NaN, _) => NaN
    case (_, NaN) => NaN
    case (Fin(x), Fin(y)) =>
      if y != 0.0 then Fin(x / y)
      else if x > 0.0 then PosInf
      else if x < 0.0 then NegInf
      else NaN
    case (Fin(_), _) => Fin(0.0)
    case (PosInf, Fin(y)) => if y < 0.0 then NegInf else PosInf
    case (NegInf, Fin(y)) => if y < 0.0 then PosInf else NegInf
    case (_, _) => NaN
  }

  /** A finite float or a NaN as a table cell (NaN from arithmetic is Undefined). */
  function CellOf(f: Float): (v: Value)
    requires f.Fin? || f.NaN?
    ensures v.Num? <==> f.Fin?
    ensures f.Fin? ==> v.x == f.r
    ensures f.NaN? ==> v == Undefined
  {
    if f.Fin? then Num(f.r) else Undefined
  }
}
