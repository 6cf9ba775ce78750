/** Machine-level types shared by the allocator and the capture buffer. */
module CTypes {

  /** Largest value of `std::size_t` on the 64-bit target. */
  const SIZE_MAX: nat := 0xFFFF_FFFF_FFFF_FFFF

  /** Number of distinct `std::size_t` values: size_t arithmetic is taken modulo this. */
  const SIZE_RANGE: nat := 0x1_0000_0000_0000_0000

  /** Largest value of `uint32_t`. */
  const UINT32_MAX: nat := 0xFFFF_FFFF

  /** A `std::size_t` value. */
  type SizeT = n: nat | n <= SIZE_MAX

  /** A `uint8_t`. */
  type Byte = bv8

  /** The null pointer. Every other pointer is a positive address. */
  const NULL: nat := 0

  /** A value that may be absent: an uninitialised field, or an operation that threw. */
  datatype Option<T> = None | Some(value: T)
}
