/** Failure-compatible results: the model's stand-in for the exceptions the
    library throws. */
module Wrappers {

  datatype Result<+T, +E> = Ok(value: T) | Err(error: E)

  datatype Outcome<+E> = Pass | Fail(error: E)
}
