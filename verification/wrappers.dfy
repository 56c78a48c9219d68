/** Option and Result, used for Python's `None` and for the exceptions the modelled code can raise. */
module Wrappers {

  datatype Option<+T> = None | Some(value: T)

  /** `Ok` carries the value a Python function returns, `Err` the exception it raises. */
  datatype Result<+T, +E> = Ok(value: T) | Err(error: E)
}
