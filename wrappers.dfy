/** Optional values and results, the two shapes the source uses for
    `T | undefined`, `T | null` and thrown errors. */
module Wrappers {

  datatype Option<T> = None | Some(value: T)

  datatype Result<T, E> = Ok(value: T) | Err(error: E)
}
