/**
 Shared value types of the listing model: the optional and fallible
 wrappers that stand in for Rust's `Option` and `Result`, and the
 fixed-width unsigned integer ranges used by the file metadata.
 */
module Basics {

  /** Rust's `Option<T>`: a value that may be missing. */
  datatype Option<+T> = None | Some(value: T)

  /** Rust's `Result<T, E>`: a success value or an error value. */
  datatype Result<+T, +E> = Ok(value: T) | Err(error: E)

  /** Rust's `u32`. */
  type u32 = n: nat | n < 0x1_0000_0000

  /** Rust's `u64`. */
  type u64 = n: nat | n < 0x1_0000_0000_0000_0000
}
