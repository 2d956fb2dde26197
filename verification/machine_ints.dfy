/** Fixed-width unsigned integers of the C++ source, written out explicitly.
    Dafny integers are unbounded, so every place where the source relies on
    `uint32_t`, `size_t` or `VkDeviceSize` wrap-around uses these helpers. */
module MachineInts {

  const U32_LIMIT: nat := 0x1_0000_0000
  const U32_MAX: nat := 0xFFFF_FFFF
  const U64_LIMIT: nat := 0x1_0000_0000_0000_0000

  /** A value of a `uint32_t` variable. */
  type u32 = x: int | 0 <= x < 0x1_0000_0000

  /** One byte of a file or of mapped memory. */
  type byte = x: int | 0 <= x < 256

  /** The result of a `uint32_t` computation whose exact value is `x`. */
  function WrapU32(x: nat): (r: u32)
    ensures x < U32_LIMIT ==> r == x
    ensures (r - x) % U32_LIMIT == 0
  {
    x % U32_LIMIT
  }

  /** The result of a 64-bit unsigned computation whose exact value is `x`. */
  function WrapU64(x: nat): (r: nat)
    ensures r < U64_LIMIT
    ensures x < U64_LIMIT ==> r == x
    ensures (r - x) % U64_LIMIT == 0
  {
    x % U64_LIMIT
  }
}
