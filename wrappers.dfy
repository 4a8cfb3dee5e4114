/** Option, Result and raw bytes: the shapes every module below uses for absent values, error paths and payloads. */
module Wrappers {

  datatype Option<+T> = None | Some(value: T)

  datatype Result<+T, +E> = Ok(value: T) | Err(error: E)

  /** A byte string (`bytes` in Python, a request body or a digest). */
  type Bytes = seq<bv8>
}
