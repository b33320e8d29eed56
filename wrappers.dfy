/** Failure-carrying results. The Python code signals failure by raising an
    exception; each exception class the core can raise is one `Error`. */
module Wrappers {

  /** The exceptions the modelled code can raise. `DomainError` is a failed
      `assert` on a parameter, `TypeError` a value of the wrong Python type,
      `IndexError` an index out of range, `ZeroDivision` a division by zero and
      `ValueError` a reduction (`max`, `min`) over an empty array. */
  datatype Error = DomainError | TypeError | IndexError | ZeroDivision | ValueError

  datatype Option<+T> = None | Some(value: T)

  datatype Result<+T> = Ok(value: T) | Err(error: Error)

  /** Outcome of an operation that returns nothing but may raise. */
  datatype Outcome = Pass | Fail(error: Error)
}
