/** Constants and types of implicit.h: the 32-bit boundary-tag word and the
    allocator's configuration. */
module Config {

  /** `sizeof(block_size_t)`: the size of a header, and of a footer, in bytes. */
  const HeaderSize: int := 4

  /** `alignof(uint64_t)`: every payload starts at a multiple of this. */
  const PayloadAlign: int := 8

  /** A block is split when it is at least this many bytes larger than needed. */
  const MaxUnusedBytes: int := 128

  /** `sizeof(struct heap)` on an LP64 platform: an enum, padding, an intptr_t
      and two pointers. */
  const HeapStructSize: int := 32

  const U32: int := 0x1_0000_0000
  const U64: int := 0x1_0000_0000_0000_0000

  /** A `block_size_t` (uint32_t) value: one header or footer word. */
  type Word = x: int | 0 <= x < 0x1_0000_0000

  /** `search_alg_t`. */
  datatype SearchAlg = FirstFit | NextFit | BestFit

  /** A pointer that may be NULL. */
  datatype Option<T> = None | Some(value: T)
}
