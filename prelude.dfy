/** Shared vocabulary: optional values, results, and Rust's fixed-width unsigned integers. */
module Prelude {

  datatype Option<T> = None | Some(value: T)

  /** A fallible value, as Rust's `Result<T, E>`. */
  datatype Result<T, E> = Ok(value: T) | Err(error: E)

  const U32Limit: nat := 0x1_0000_0000
  const U64Limit: nat := 0x1_0000_0000_0000_0000

  /** Rust `u32`. */
  type uint32 = n: nat | n < 0x1_0000_0000

  /** Rust `u64`. */
  type uint64 = n: nat | n < 0x1_0000_0000_0000_0000
}
