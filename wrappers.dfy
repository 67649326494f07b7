/** Option and Result, the shapes the job manager's "value or error" returns take. */
module Wrappers {

  datatype Option<+T> = None | Some(value: T)

  /** A value or an error; the error of the manager's operations is a message or a typed condition. */
  datatype Result<+T, +E> = Ok(value: T) | Err(error: E)
}
