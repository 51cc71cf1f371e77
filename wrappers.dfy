/** Failure-carrying values: the model's stand-in for Python's None and raised exceptions. */
module Wrappers {

  datatype Option<+T> = None | Some(value: T)

  /** `Ok(v)` is a normal return, `Err(e)` an exception carrying `e`. */
  datatype Result<+T, +E> = Ok(value: T) | Err(error: E)

  /** A statement that either finished or raised an exception with a reason. */
  datatype Outcome = Done | Raised(reason: string)
}
