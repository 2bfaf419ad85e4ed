/** The program's integer widths, and the conversion of byte counts to
    whole megabytes for display. */
module Sizes {

  const U64_MODULUS: nat := 0x1_0000_0000_0000_0000

  /** Rust's `u64`: byte counts. */
  type u64 = x: nat | x < U64_MODULUS

  /** Rust's `u8`: the configured number of tracked items. */
  type u8 = x: nat | x < 0x100

  /** Bytes in one megabyte (1024 * 1024). */
  const MB_FACTOR: u64 := 1024 * 1024

  /** `to_mb`: whole megabytes, truncating (never rounding up). */
  function ToMb(bytes: u64): (mb: u64)
    ensures mb * MB_FACTOR <= bytes < (mb + 1) * MB_FACTOR
  {
    bytes / MB_FACTOR
  }

  /** `ToMb` never reorders sizes, so a list ordered by bytes stays ordered
      in megabytes. */
  lemma ToMbMonotonic(a: u64, b: u64)
    requires a <= b
    ensures ToMb(a) <= ToMb(b)
  {
  }

  /** `u64` addition as a release build performs it: modulo 2^64. */
  function WrappingAdd(a: u64, b: u64): (r: u64)
    ensures a + b < U64_MODULUS ==> r == a + b
    ensures a + b >= U64_MODULUS ==> r == a + b - U64_MODULUS
  {
    (a + b) % U64_MODULUS
  }
}
