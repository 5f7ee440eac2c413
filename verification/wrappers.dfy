/** Option and Result, the two failure-carrying shapes the Rust code uses. */
module Wrappers {

  datatype Option<+T> = None | Some(value: T)

  /** `Result<T>` of the source: either a value or an error message. */
  datatype Result<+T> = Ok(value: T) | Err(error: string)
}
