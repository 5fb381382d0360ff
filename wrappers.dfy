/** Option and Result values used by the model in place of Python's `None`
    and of exceptions raised through the plugin. */
module Wrappers {

  /** `None` in Python, or a present value. */
  datatype Option<+T> = None | Some(value: T)

  /** A returned value, or an exception that propagates to the caller. */
  datatype Result<+T, +E> = Ok(value: T) | Err(error: E)
}
