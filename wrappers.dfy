/** Optional values and results carrying the exception a source operation raises. */
module Wrappers {
  datatype Option<T> = None | Some(value: T)

  /** `Err` carries the name of the exception the source raises on that path. */
  datatype Result<T> = Ok(value: T) | Err(error: string)
}
