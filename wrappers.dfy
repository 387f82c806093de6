/** Optional values and error-carrying results, shared by the other modules. */
module Wrappers {

  /** A value that may be absent: TypeScript's `T | null` / `T | undefined`. */
  datatype Option<+T> = None | Some(value: T)

  /** The outcome of an operation that either returns a value or throws. */
  datatype Result<+T, +E> = Ok(value: T) | Err(error: E)
}
