/** The layout arithmetic of `heap_create` (implicit.c:181-199): the `struct
    heap` header takes the first bytes of the region `sbrk` returned, the
    arena start is shifted so that every payload is 8-aligned, and the arena
    size is trimmed to whole 8-byte units. Addresses are plain integers. */
module ArenaLayout {
  import opened Config

  /** Conversion to `size_t` (unsigned 64-bit): reduction modulo 2^64. */
  function SizeT(x: int): (r: nat)
    ensures r < U64 && (x - r) % U64 == 0
  {
    x % U64
  }

  /** Conversion of a `size_t` to `int`, as GCC defines it: the low 32 bits
      read as a two's complement number. */
  function ToCInt(x: nat): (r: int)
    ensures -0x8000_0000 <= r < 0x8000_0000
    ensures (x - r) % U32 == 0
  {
    var low := x % U32;
    if low < 0x8000_0000 then low else low - U32
  }

  /** A value reduced modulo 2^64 keeps its remainder modulo 8. */
  lemma {:induction false} SizeTMod8(x: int)
    ensures SizeT(x) % 8 == x % 8
  {
    var q := x / U64;
    assert x == U64 * q + SizeT(x);
    assert U64 == 8 * 0x2000_0000_0000_0000;
    assert x == 8 * (0x2000_0000_0000_0000 * q) + SizeT(x);
  }

  /** The shift `delta` of `heap_start`: `PAYLOAD_ALIGN - HEADER_SIZE -
      heap_start % PAYLOAD_ALIGN` is computed in `size_t`, stored in an `int`
      and made non-negative by adding `PAYLOAD_ALIGN` once. It is the one
      shift below 8 that puts the first payload on an 8-byte boundary. */
  function AlignDelta(heapStart: nat): (d: int)
    ensures 0 <= d < PayloadAlign
    ensures (heapStart + d + HeaderSize) % 8 == 0
  {
    var delta := ToCInt(SizeT(PayloadAlign - HeaderSize - heapStart % 8));
    assert delta == 4 - heapStart % 8;
    if delta < 0 then delta + PayloadAlign else delta
  }

  /** Any shift below 8 that aligns the first payload is the one
      `heap_create` takes. */
  lemma {:induction false} AlignDeltaUnique(heapStart: nat, d: int)
    requires 0 <= d < PayloadAlign && (heapStart + d + HeaderSize) % 8 == 0
    ensures d == AlignDelta(heapStart)
  {
    var a := AlignDelta(heapStart);
    assert (d - a) % 8 == 0;
  }

  /** `size -= (size - 2 * HEADER_SIZE) % PAYLOAD_ALIGN`: the subtraction
      and the remainder are computed in `size_t`, which drops exactly the
      bytes that do not make up a whole 8-byte unit. */
  function TrimmedSize(size: int): (r: int)
    ensures r % 8 == 0 && r <= size < r + PayloadAlign
  {
    SizeTMod8(size - 2 * HeaderSize);
    size - SizeT(size - 2 * HeaderSize) % 8
  }

  /** Where the arena of a `heap_create(size, ..)` whose `sbrk` returned
      `base` starts, and how many bytes it holds. */
  datatype Layout = Layout(start: int, size: int)

  /** The layout `heap_create` computes: the struct takes `sizeof(heap)`
      bytes, the start moves by `delta`, and the size loses the struct, the
      shift and the trimmed bytes. */
  function LayoutOf(base: nat, size: int): (l: Layout)
    ensures (l.start + HeaderSize) % 8 == 0
    ensures base + HeapStructSize <= l.start < base + HeapStructSize + PayloadAlign
    ensures l.size % 8 == 0
    ensures l.size <= size - (l.start - base) < l.size + PayloadAlign
  {
    var heapStart := base + HeapStructSize;
    var delta := AlignDelta(heapStart);
    Layout(heapStart + delta, TrimmedSize(size - HeapStructSize - delta))
  }

  /** The arena holds one block, at least a header and a footer, and its
      size fits a `block_size_t`: the one free block `heap_create` writes is
      then well-formed. */
  predicate ArenaFits(l: Layout)
  {
    2 * HeaderSize <= l.size < U32
  }

  /** Which requests leave room for the one free block: every request of at
      least 56 bytes whose arena stays below 2^32 bytes does, and none below
      40 bytes does, wherever the break is. */
  lemma {:induction false} ArenaFitsRange(base: nat, size: int)
    ensures 56 <= size < U32 + HeapStructSize ==> ArenaFits(LayoutOf(base, size))
    ensures ArenaFits(LayoutOf(base, size)) ==> 40 <= size < U32 + 48
  {
  }

  /** The two regions of the test fixtures on an 8-aligned break:
      `heap_create(64, ..)` leaves a 24-byte arena and `heap_create(256, ..)`
      a 216-byte one, each starting 36 bytes into the region. */
  lemma {:induction false} FixtureLayouts(base: nat)
    requires base % 8 == 0
    ensures LayoutOf(base, 64) == Layout(base + 36, 24)
    ensures LayoutOf(base, 256) == Layout(base + 36, 216)
  {
    var d := AlignDelta(base + HeapStructSize);
    AlignDeltaUnique(base + HeapStructSize, 4);
    assert d == 4;
  }
}
