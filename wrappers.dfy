/** Failure-compatible result types shared by every module of the model.
    A Java exception that aborts a call becomes an `Err` carrying one of the
    `Error` kinds below; callers propagate it with `:-`. */
module Wrappers {

  datatype Option<+T> = None | Some(value: T)

  /** The exceptions the modelled Java code can raise. */
  datatype Error =
      /** UnsupportedOperationException: the char already has another role */
    | RoleTaken(role: string)
      /** ArrayIndexOutOfBoundsException (a char beyond the parser's limit, a
          negative rank, a variable index beyond the root's table, ...) */
    | IndexOutOfBounds
      /** NullPointerException (a missing operator implementation, a null bucket) */
    | NullReference
      /** IllegalArgumentException("Unbalanced parenthesis") */
    | UnbalancedParenthesis
      /** RuntimeException("Double comma/decimal point") */
    | DoubleComma
      /** RuntimeException("Invalid operation symbol") */
    | InvalidOperationSymbol
      /** IllegalArgumentException from setVariables: too few values */
    | TooFewValues
      /** IllegalArgumentException from result: evaluation not yet enabled */
    | VariablesMissing
      /** a walk through nested formulas exceeded its depth bound (where Java
          would overflow its stack on a cyclic structure) */
    | OutOfFuel

  datatype Result<+T> = Ok(value: T) | Err(error: Error) {
    predicate IsFailure() { Err? }

    function PropagateFailure<U>(): Result<U>
      requires Err?
    {
      Err(error)
    }

    function Extract(): T
      requires Ok?
    {
      value
    }
  }

  /** A result without a value, for operations that may only fail. */
  datatype Outcome = Pass | Fail(error: Error) {
    predicate IsFailure() { Fail? }

    function PropagateFailure(): Outcome
      requires Fail?
    {
      this
    }
  }
}
