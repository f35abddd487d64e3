/** Option and Result values used where the C++ returns a null pointer,
    calls a visitor conditionally, or throws. */
module Wrappers {

  /** A value that may be absent: a null pointer, or a visitor that was not called. */
  datatype Option<+T> = None | Some(value: T)

  /** A value, or the error the C++ member would have thrown instead. */
  datatype Result<+T, +E> = Ok(value: T) | Err(error: E)
}
