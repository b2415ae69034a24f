/** Optional and fallible results, as returned by the toolkit's checked and
    validating operations. */
module Wrappers {

  /** `Option<T>`: `None` where the source returns `None`. */
  datatype Option<+T> = None | Some(value: T)

  /** `Result<T, E>`: the validating constructors' `Ok` / `Err`. */
  datatype Result<+T, +E> = Ok(value: T) | Err(error: E)
}
