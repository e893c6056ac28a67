/** Optional values and results, used for JavaScript's `undefined`/`null` returns and for
    thrown errors. */
module Wrappers {

  datatype Option<+T> = None | Some(value: T)

  datatype Result<+T, +E> = Ok(value: T) | Err(error: E)
}
