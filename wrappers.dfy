/** Option and Result: the failure-carrying values that stand in for Python's
    `None` and for the exceptions the scripts raise. */
module Wrappers {

  datatype Option<+T> = None | Some(value: T)

  datatype Result<+R, +E> = Ok(value: R) | Err(error: E)
}
