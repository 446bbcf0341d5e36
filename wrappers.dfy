/** Option and Result, for the optional keys of a parsed record and for the
    exceptions the parser raises. */
module Wrappers {

  datatype Option<T> = None | Some(value: T)

  datatype Result<T, E> = Ok(value: T) | Err(error: E)
}
