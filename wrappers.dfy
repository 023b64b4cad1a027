/** Optional values and success/failure results, as the Rust source uses
    `Option<T>` and `Result<T, ()>`. */
module Wrappers {

  datatype Option<+T> = None | Some(value: T)

  /** `Result<T, ()>`: the source's error values carry no payload. */
  datatype Result<+T> = Ok(value: T) | Err
}
