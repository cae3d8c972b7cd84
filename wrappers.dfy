/** Failure-carrying values used throughout the model: an optional value (Python
    `None`, JavaScript `null`/`undefined`) and a success-or-error result (an
    HTTP error response, a raised validation error). */
module Wrappers {

  datatype Option<+T> = None | Some(value: T)

  datatype Result<+T, +E> = Ok(value: T) | Err(error: E)
}
