/** Failure-carrying values used across the model in place of the Python
    exceptions that abort a run. */
module Outcomes {

  datatype Option<+T> = None | Some(value: T)

  datatype Result<+T, +E> = Ok(value: T) | Err(error: E)
}
