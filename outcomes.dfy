/** Failure values shared by both variants of the Rational class.
    The source signals failure in two ways: the constructor throws when the
    denominator is zero, and `parseInt` yields NaN when a numeral has no digits.
    Both become an `Err` here, so every failure path is explicit. */
module Outcomes {

  /** Why building a Rational failed. */
  datatype Error =
    | ZeroDenominator   // the constructor's `throw`
    | NotANumber        // a `parseInt` that would have produced NaN

  datatype Option<T> = None | Some(value: T)

  datatype Result<T> = Ok(value: T) | Err(error: Error)
}
