/** Option and Result, used for the values a lookup may not find and for the
    exceptions a constructor may raise. */
module Wrappers {

  datatype Option<T> = None | Some(value: T)

  datatype Result<T, E> = Ok(value: T) | Err(error: E)
}
