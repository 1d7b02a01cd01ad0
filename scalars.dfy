/**
 * The payload types that a configuration leaf can carry.
 * Floating-point numbers and IP addresses are opaque here: their text form
 * and their ordering come from the standard library and are passed in as
 * parameters wherever the model needs them.
 */
module Scalars {
  const U64_LIMIT: nat := 0x1_0000_0000_0000_0000

  /** An unsigned 64-bit integer (`u64`); `usize` indices share the same range. */
  newtype u64 = x: int | 0 <= x < 0x1_0000_0000_0000_0000

  /** A 32-bit signed integer (`i32`), the type of error codes. */
  newtype i32 = x: int | -0x8000_0000 <= x < 0x8000_0000

  /** An IEEE double (`f64`), kept opaque. */
  type F64(==)

  /** An IPv4 or IPv6 address (`IpAddr`), kept opaque. */
  type IpAddr(==)
}
