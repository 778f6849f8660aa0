/** JavaScript numbers with exact reals as their finite values, and the fields that hold them. */
module JsNumbers {
  import opened Wrappers

  datatype Num = NaN | PosInf | NegInf | Fin(r: real)

  /** A field that is absent, null or a number. */
  datatype Field = Undefined | Null | Number(n: Num)

  /** The `Number` conversion: null is zero, a missing value is NaN. */
  function ToNumber(f: Field): Num {
    match f
    case Undefined => NaN
    case Null => Fin(0.0)
    case Number(n) => n
  }

  /** `<`: NaN compares with nothing. */
  predicate Less(a: Num, b: Num) {
    match (a, b)
    case (Fin(x), Fin(y)) => x < y
    case (NegInf, Fin(_)) => true
    case (NegInf, PosInf) => true
    case (Fin(_), PosInf) => true
    case _ => false
  }

  /** `>=`. */
  predicate AtLeast(a: Num, b: Num) {
    a != NaN && b != NaN && !Less(a, b)
  }

  /** `isFiniteNumber`: finite after conversion, so true of null. */
  predicate IsFinite(f: Field) {
    ToNumber(f).Fin?
  }

  function OrNull(o: Option<real>): Field {
    match o
    case None => Null
    case Some(x) => Number(Fin(x))
  }

  /** `a ?? b`. */
  function Coalesce(a: Field, b: Field): Field {
    if a.Number? then a else b
  }
}
