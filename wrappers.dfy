/** Option and Result: an absent JavaScript value and a settled promise. */
module Wrappers {

  /** `undefined` / `null` (None) or a present value (Some). */
  datatype Option<+T> = None | Some(value: T)

  /** A promise that resolved with `value` (Ok) or rejected with `error` (Err). */
  datatype Result<+T, +E> = Ok(value: T) | Err(error: E)
}
