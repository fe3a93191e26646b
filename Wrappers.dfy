/** Option for Rust's `Option`, and Result for a computation that either
    returns a value or panics (`expect`, `unwrap`, `panic!`) with a message. */
module Wrappers {

  datatype Option<T> = None | Some(value: T)

  datatype Result<T> = Ok(value: T) | Panic(msg: string)
}
