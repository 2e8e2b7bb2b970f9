/** Option and Result, the two failure-compatible shapes the model uses for
    JavaScript's `null` returns and for a handler's validation exits. */
module Wrappers {

  datatype Option<+T> = None | Some(value: T)

  datatype Result<+R, +E> = Ok(value: R) | Err(error: E)
}
