/** Failure-carrying result types shared by every module of the model. */
module Outcomes {

  /** A value that may be absent: Python's `None` or a value. */
  datatype Option<+T> = None | Some(value: T)

  /** A computation that either produced a value or raised an exception. */
  datatype Result<+T, +E> = Ok(value: T) | Err(error: E)
}
