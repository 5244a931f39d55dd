/** Sizes of machine words. */
module Words {
  /** `uint32_t` and `uint64_t` wrap at these values. */
  const U32: nat := 0x1_0000_0000
  const U64: nat := 0x1_0000_0000_0000_0000
}
