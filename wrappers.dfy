/** Option and Result, used for dictionary lookups and for errors that abort a pass. */
module Wrappers {

  datatype Option<T> = None | Some(value: T)

  datatype Result<T, E> = Ok(value: T) | Err(error: E)
}
