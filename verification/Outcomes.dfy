/** The two result shapes the modelled Rust code returns everywhere. */
module Outcomes {

  /** A value that may be absent. */
  datatype Option<+T> = None | Some(value: T)

  /** A value or the error that replaced it. */
  datatype Result<+T, +E> = Ok(value: T) | Err(error: E)
}
