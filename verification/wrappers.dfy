/** Optional values and results, used for the command's partial operations. */
module Wrappers {

  /** An optional value: `None` where the Kotlin code would see `null`. */
  datatype Option<+T> = None | Some(value: T)

  /** A value or an error: `Err` where the Kotlin code would throw. */
  datatype Result<+T, +E> = Ok(value: T) | Err(error: E)
}
