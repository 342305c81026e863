/** Cells of a pandas frame as seen by the pipeline: a missing value (NaN/None),
    a finite number, one of the two infinities, or a piece of text. Arithmetic and
    comparison follow IEEE 754 with NaN read as Missing; the order used to sort
    categories is a strict total order over all cells. */
module Cells {

  datatype Option<T> = None | Some(value: T)

  datatype Result<T, E> = Success(value: T) | Failure(error: E)

  datatype Cell = Missing | Fin(v: real) | PosInf | NegInf | Text(s: string)

  /** A cell an arithmetic operator of pandas accepts (text makes it raise). */
  predicate IsNumeric(c: Cell) { !c.Text? }

  predicate IsInfinite(c: Cell) { c.PosInf? || c.NegInf? }

  /** `c > 0` for a numeric cell: NaN compares false, +inf compares true. */
  predicate IsPositive(c: Cell) { (c.Fin? && c.v > 0.0) || c.PosInf? }

  /** IEEE division `a / b` with NaN as Missing. Reals have no signed zero, so a
      zero divisor counts as +0. */
  function Div(a: Cell, b: Cell): (r: Cell)
    requires IsNumeric(a) && IsNumeric(b)
    ensures IsNumeric(r)
  {
    match (a, b)
    case (Missing, _) => Missing
    case (_, Missing) => Missing
    case (Fin(x), Fin(y)) =>
      if y != 0.0 then Fin(x / y)
      else if x > 0.0 then PosInf
      else if x < 0.0 then NegInf
      else Missing
    case (Fin(_), _) => Fin(0.0)
    case (PosInf, Fin(y)) => if y < 0.0 then NegInf else PosInf
    case (NegInf, Fin(y)) => if y < 0.0 then PosInf else NegInf
    case (_, _) => Missing
  }

  /** Dividing a finite amount by a strictly positive finite count is ordinary
      division: the ratio is finite and equals the quotient. */
  lemma DivByPositive(a: Cell, b: Cell)
    requires a.Fin? && b.Fin? && IsPositive(b)
    ensures Div(a, b) == Fin(a.v / b.v)
  {
  }

  /** A finite amount divided by a zero amount is never a finite number: it is
      an infinity when the amount is non-zero and Missing (NaN) when it is zero. */
  lemma DivByZeroNotFinite(x: real)
    ensures !Div(Fin(x), Fin(0.0)).Fin?
    ensures x > 0.0 ==> Div(Fin(x), Fin(0.0)) == PosInf
    ensures x < 0.0 ==> Div(Fin(x), Fin(0.0)) == NegInf
    ensures x == 0.0 ==> Div(Fin(x), Fin(0.0)) == Missing
  {
  }

  // ---------------------------------------------------------------------
  // Order used to sort the categories of a column.

  /** Python's comparison of strings: lexicographic by code point. */
  predicate StrLess(a: string, b: string)
  {
    if a == [] then b != []
    else if b == [] then false
    else a[0] < b[0] || (a[0] == b[0] && StrLess(a[1..], b[1..]))
  }

  lemma {:induction false} StrLessIrreflexive(a: string)
    ensures !StrLess(a, a)
  {
    if a != [] {
      StrLessIrreflexive(a[1..]);
    }
  }

  lemma {:induction false} StrLessTransitive(a: string, b: string, c: string)
    requires StrLess(a, b) && StrLess(b, c)
    ensures StrLess(a, c)
  {
    if a != [] && b != [] && c != [] && a[0] == b[0] && b[0] == c[0] {
      StrLessTransitive(a[1..], b[1..], c[1..]);
    }
  }

  lemma {:induction false} StrLessAsymmetric(a: string, b: string)
    ensures StrLess(a, b) ==> !StrLess(b, a)
  {
    if a != [] && b != [] && a[0] == b[0] {
      StrLessAsymmetric(a[1..], b[1..]);
    }
  }

  lemma {:induction false} StrLessTotal(a: string, b: string)
    requires a != b
    ensures StrLess(a, b) || StrLess(b, a)
  {
    if a != [] && b != [] && a[0] == b[0] {
      assert a == [a[0]] + a[1..] && b == [b[0]] + b[1..];
      StrLessTotal(a[1..], b[1..]);
    }
  }

  /** Rank of a cell's kind in the category order: -inf, numbers, +inf, text. */
  function Tier(c: Cell): nat
  {
    match c
    case NegInf => 0
    case Fin(_) => 1
    case PosInf => 2
    case Text(_) => 3
    case Missing => 4
  }

  /** The strict order in which category values are sorted: numbers by value,
      text by code point, numbers before text. */
  predicate Less(a: Cell, b: Cell)
  {
    if Tier(a) != Tier(b) then Tier(a) < Tier(b)
    else match (a, b)
      case (Fin(x), Fin(y)) => x < y
      case (Text(s), Text(t)) => StrLess(s, t)
      case (_, _) => false
  }

  /** Less is a strict total order on cells. */
  lemma LessStrictTotal(a: Cell, b: Cell, c: Cell)
    ensures !Less(a, a)
    ensures Less(a, b) && Less(b, c) ==> Less(a, c)
    ensures a != b ==> Less(a, b) || Less(b, a)
    ensures Less(a, b) ==> !Less(b, a)
  {
    if a.Text? {
      StrLessIrreflexive(a.s);
    }
    if a.Text? && b.Text? && c.Text? && Less(a, b) && Less(b, c) {
      StrLessTransitive(a.s, b.s, c.s);
    }
    if a.Text? && b.Text? && a != b {
      StrLessTotal(a.s, b.s);
    }
    if a.Text? && b.Text? {
      StrLessAsymmetric(a.s, b.s);
    }
  }
}
