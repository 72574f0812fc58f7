/** Option and Result values for the error returns of the modelled code. */
module Wrappers {

  datatype Option<+T> = None | Some(value: T)

  datatype Result<+T, +E> = Ok(value: T) | Err(error: E)

  /**
   * What a call that may panic does: return a value, or panic (an `unwrap`
   * of an error, or an index out of range).
   */
  datatype Outcome<+T> = Return(value: T) | Panic
}
