/** Option and Result, used for the script's optional values and for the
    exceptions that abort a run. */
module Wrappers {

  datatype Option<+T> = None | Some(value: T)

  datatype Result<+T, +E> = Ok(value: T) | Err(error: E)
}
