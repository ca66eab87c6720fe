/** Option and Result values for the outcomes that the source signals with
    `None`, a skipped sheet or a swallowed exception. */
module Wrappers {
  datatype Option<+T> = None | Some(value: T)

  datatype Result<+T, +E> = Ok(value: T) | Err(error: E)
}
