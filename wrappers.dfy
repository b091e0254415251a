/** Optional values and fallible results, as the Rust code uses `Option` and `Result`. */
module Wrappers {

  datatype Option<+T> = None | Some(value: T)

  /** A result whose error carries the message text a backend or parser returned. */
  datatype Result<+T> = Ok(value: T) | Err(error: string)
}
