/** Option and Result values standing for `undefined` returns and thrown errors. */
module Wrappers {

  /** `T | undefined`: a lookup that may find nothing. */
  datatype Option<+T> = None | Some(value: T)

  /** A call that either returns a value or throws `new Error(message)`. */
  datatype Result<+T> = Ok(value: T) | Err(message: string)
}
