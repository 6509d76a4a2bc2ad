/** Success or failure of an operation, as the modelled code returns it. */
module Outcomes {
  datatype Result<+T, +E> = Ok(value: T) | Err(error: E)

  datatype Outcome<+E> = Pass | Fail(error: E)

  datatype Option<+T> = None | Some(value: T)
}
