/** Option and Result, for the places where the program produces "nothing"
    (a regular expression that does not match) or stops with an error. */
module Wrappers {

  datatype Option<+T> = None | Some(value: T)

  datatype Result<+T, +E> = Ok(value: T) | Err(error: E)
}
