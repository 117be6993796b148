/** Failure-compatible result types shared by the whole model. */
module Wrappers {

  /** Python's `None` or a value. */
  datatype Option<+T> = None | Some(value: T)

  /** A computation that returned a value or raised an exception carrying `message`. */
  datatype Result<+T> = Ok(value: T) | Failure(message: string)
}
