/** Values that may be missing (a pandas NaN) and computations that may fail. */
module Optional {

  /** `None` stands for every NaN the source produces: a missing lookback, a zero
      denominator, or the mean of a column with no defined entry. */
  datatype Option<+T> = None | Some(value: T)

  /** A computation that either produces a value or raises in the source. */
  datatype Result<+R, +E> = Success(value: R) | Failure(error: E)

  /** Subtraction of two possibly undefined values: NaN on either side gives NaN. */
  function Minus(a: Option<real>, b: Option<real>): (r: Option<real>)
    ensures r.Some? <==> a.Some? && b.Some?
    ensures r.Some? ==> a.value == b.value + r.value
  {
    if a.Some? && b.Some? then Some(a.value - b.value) else None
  }

  /** Scales a possibly undefined value; NaN stays NaN. */
  function Times(a: Option<real>, c: real): (r: Option<real>)
    ensures r.Some? <==> a.Some?
    ensures r.Some? ==> r.value == a.value * c
  {
    if a.Some? then Some(a.value * c) else None
  }
}
