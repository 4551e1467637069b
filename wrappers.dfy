/** Option and Result, used for Python's `None` and for the exceptions the
    traversal core raises. */
module Wrappers {

  datatype Option<+T> = None | Some(value: T)

  datatype Result<+R, +E> = Ok(value: R) | Err(error: E)
}
