# Boundary-tag heap of implicit.c, in Dafny

This project models the block layer of a small implicit-list heap allocator,
written in C. The heap is one byte region. It is cut into blocks. Each block
carries the same 32-bit tag at both ends: an 8-aligned size with the in-use
flag in its low bit. The blocks are found by walking from the first block,
adding sizes.

The model covers:
- the tag codec;
- the traversal helpers;
- `coalesce`, `get_size_to_allocate` and `prepare_block_for_use`;
- the layout arithmetic of `heap_create`;
- the free-block averaging walk `heap_find_avg_free_block_size`.

Representation:

- The arena is a sequence of 32-bit words (`Config.Word`). Word `i` is the
  word at address `h->start + 4 * i`.
- A block pointer is the index of its header word. All arithmetic on block
  pointers in the source adds or subtracts multiples of 4 bytes, so it
  becomes index arithmetic.
- `-HEADER_SIZE & w` is `4 * (w / 4)`, `1 & w` is `w % 2`, and
  `size | in_use` is written out in `BlockCodec.Tag`.
- The pure layer works on `seq<Word>`. Each function there is the meaning
  of one in-place operation:
  - `BlockCodec.WithHeader` for `set_block_header`;
  - `Coalescer.Coalesced` for `coalesce`;
  - `Splitter.Prepared` for `prepare_block_for_use`.
- The class `HeapModel.Heap` holds `struct heap`'s fields and the arena as
  an `array<Word>`. Each method writes the array step by step, as the C does,
  and is proved to leave `words[..]` equal to the pure function of the old
  contents.
- The chain invariant is `Chain.WellFormed`: walking from word 0
  visits only blocks whose header equals their footer, and ends exactly at the
  end of the arena. `Chain.Blocks` lists the blocks in address order. The
  block-level properties are stated over that list.
- `sbrk` is a parameter of `HeapModel.Heap.Create`: `None` when it fails,
  otherwise the address it returned.
- The fixtures of tests.c, `h_0` and `h_1`, are block lists (`Fixtures`). Their
  lemmas hold for every arena whose chain lists those blocks. `Tiling` builds one
  such arena from any list of blocks.

## Model

| member | source | states |
|---|---|---|
| BlockCodec.BlockSize | implicit.c:19-22 | the size read from a header is the word with its two low bits cleared: a multiple of 4, at most the word and less than 4 below it |
| BlockCodec.HeaderDecodes | implicit.c:11-22 | a header word is the tag of the size `get_block_size` reads and the flag `block_is_in_use` reads, plus bit 1, which neither looks at |
| BlockCodec.PayloadSize | implicit.c:27-30 | the payload size is the block size less 8 bytes; for a block size below 8 the uint32 subtraction wraps to 2^32 more |
| BlockCodec.Payload | implicit.c:43-46 | the payload starts `HEADER_SIZE` bytes after the header |
| BlockCodec.BlockStart | implicit.c:35-38 | `get_payload(get_block_start(p)) == p` |
| BlockCodec.PayloadRoundTrip | implicit.c:35-46 | `get_block_start` and `get_payload` are inverse in both directions |
| BlockCodec.Tag | implicit.c:54 | the tag keeps every bit of the size but the low one, and has its low bit set exactly when the block is in use (or the bit was already set) |
| BlockCodec.SetHeaderAgreement | implicit.c:11-58 | after `set_block_header(b, s, u)` with `s` a multiple of 4 and at least 8, and the block inside the arena, the header and the footer `s - 4` bytes later both hold the tag of `s` and `u`; reading back gives size `s`, flag `u` and payload size `s - 8`; no other word changes |
| BlockCodec.WithHeaderStores | implicit.c:52-58 | for any size of at least 8 bytes, aligned or not, `set_block_header` stores the tag at the header and at the last whole word of the block, and nowhere else |
| Chain.Next | implicit.c:64-67 | the next block is exactly the block size further on |
| Chain.Previous | implicit.c:73-76 | the previous block is the size read from the footer just before `b` back |
| Chain.WithinHeapIsWord | implicit.c:105-108 | `is_within_heap_range` holds exactly for the words of the arena, and not for its end |
| Chain.FirstBlockIff | implicit.c:94-97 | `is_first_block` holds of a block exactly when no footer precedes it, so `get_previous_block` applies to every other block |
| Chain.PreviousInvertsNext | implicit.c:64-76 | in a well-formed arena, `get_previous_block(get_next_block(b)) == b` for every block `b` |
| Chain.NextInvertsPrevious | implicit.c:64-97 | for every block `c` except the first, `get_previous_block` reaches a block of the chain whose next block is `c` again |
| Chain.PreviousWalk | implicit.c:73-76 | the same, for any walk from `a` to `c` with `a < c` |
| Chain.IsBlockIff | implicit.c:99-108 | the loop idiom visits exactly the block starts: the words reached from the first block that are within the heap range |
| Chain.BlockOnChain | implicit.c:99-108 | a block reached by the loop idiom within the heap range is well-formed, and so is the rest of the chain after it |
| Chain.ChainFromIff | implicit.c:99-108 | the walk from `b` visits only well-formed blocks and ends at the end of the arena exactly when it arrives there |
| Chain.ChainEndsAligned | implicit.c:196-199 | a chain from an 8-aligned block ends 8-aligned |
| Chain.WellFormedArena | implicit.c:99-108 | the chain invariant is: the arena is below 2^32 bytes and the walk from the first block arrives at its end; such an arena is a whole number of 8-byte units and, unless empty, starts with a block |
| Chain.ChainTiles | implicit.c:99-108 | the block sizes along a chain add up to the bytes from its start to the end of the arena, and every one is a positive multiple of 8 |
| Chain.BetweenTiles | implicit.c:99-108 | the blocks walked from `c` to `b` span exactly the bytes between them |
| Chain.ReachesAligned | implicit.c:186-199 | every block walked from an 8-aligned block is 8-aligned too |
| Chain.FreeTallyStep | implicit.c:236-241 | one loop step adds a block's size to the free sum, and one to the count, exactly when it is free |
| Chain.BlockStarts | tests.c:31-44 | the `i`-th block of a chain starts at the running sum of the sizes before it, with the listed size and flag |
| Chain.SumFreeAtMostTotal | implicit.c:235-238 | the free bytes of a block list never exceed its total size |
| Coalescer.MergeableInList | implicit.c:119-124 | `coalesce` merges exactly when the block's entry in the block list is free and is followed by a free entry |
| Coalescer.Coalesced | implicit.c:114-131 | the arena keeps its size, the block keeps its flag and never shrinks, and it grows exactly when it merges |
| Coalescer.CoalesceNoOp | implicit.c:114-131 | `coalesce` changes nothing when the block is in use, its successor is outside the heap, or its successor is in use |
| Coalescer.CoalesceWords | implicit.c:119-127 | otherwise exactly two words change, the first header and the second footer, both to the tag of one free block of `s1 + s2` bytes |
| Coalescer.CoalesceMerges | implicit.c:119-127 | otherwise the arena stays well-formed, and the two free entries of the block list become one free entry of `s1 + s2` bytes, the rest unchanged |
| Coalescer.CoalescePreservesWellFormed | implicit.c:114-131 | coalescing keeps the chain invariant in every case |
| Coalescer.MergeSpan | implicit.c:120-125 | the merged span is the block and its successor, of `s1 + s2` bytes, and the chain continues after it |
| Splitter.SizeToAllocate | implicit.c:138-147 | both branches compute `8 * ceil(u / 8) + 8`, reduced modulo 2^32 as `block_size_t` arithmetic is |
| Splitter.SizeToAllocateFits | implicit.c:138-147 | without wrap-around the result is a multiple of 8, at least `u + 8` and below `u + 16` |
| Splitter.SizeToAllocateWraps | implicit.c:138-147 | requests of `2^32 - 8` and `2^32 - 1` bytes get blocks of 0 and 8 bytes |
| Splitter.CheckedSizeToAllocate | implicit.c:138-147 | the corrected sizing fails exactly when the block size would not fit in 32 bits, and agrees with the source otherwise |
| Splitter.CheckedSizeToAllocateFits | implicit.c:138-147 | every block size the corrected sizing returns is a multiple of 8 that holds the request, the header and the footer |
| Splitter.SplitsAgree | implicit.c:161 | the split test as written and as intended agree for every size below 2^31 |
| Splitter.SplitsAsWrittenOverflows | implicit.c:161 | a block of 2^31 bytes asked for whole passes the test as written, leaving a remainder too small for a header and a footer |
| Splitter.SplitsAsWrittenDiverges | implicit.c:161 | a block of 2^31 + 64 bytes asked for 2^31 passes the test as written, leaving a 64-byte remainder, and fails the intended test |
| Splitter.SplitRemainder | implicit.c:161-163 | when the intended test splits an aligned block, the remainder is a multiple of 8 with room for a header and a footer |
| Splitter.SplitFits | implicit.c:161-163 | the two blocks of a split lie inside the old one, each at least 8 bytes and a multiple of 8 |
| Splitter.SplitWords | implicit.c:161-165 | after a split the block reads back as `r` bytes in use, the next header as the rest of the block free, and no word outside the old block changes |
| Splitter.SplitReadBack | implicit.c:162-163 | the same facts, for the two `set_block_header` calls one after the other |
| Splitter.Prepared | implicit.c:154-170 | preparing touches no word outside the block; a block at least `r` bytes long reads back in use, of `r` bytes when the intended test splits it and of its old size otherwise |
| Splitter.PrepareTooSmall | implicit.c:157-160 | a block smaller than the size asked for is left unchanged |
| Splitter.PrepareSplits | implicit.c:161-165 | a split leaves a well-formed arena where the block's list entry is replaced by `r` bytes in use followed by `size - r` bytes free, the rest unchanged |
| Splitter.PrepareWhole | implicit.c:166-169 | without a split the block keeps its size and is marked in use; fewer than 128 bytes and at most half of it go unused; the block list changes in that entry only |
| Splitter.PreparePreservesWellFormed | implicit.c:154-170 | preparing keeps the chain invariant in every case, and a block handed out is in use and holds at least `r` bytes |
| Splitter.PreparedBySplit | implicit.c:162-163 | the two `set_block_header` calls of a split give exactly the arena `Prepared` describes, and it is well-formed |
| Splitter.PreparedByWhole | implicit.c:167 | the one `set_block_header` call of the no-split case gives exactly the arena `Prepared` describes, and it is well-formed |
| Rewrite.WriteBlock | implicit.c:52-58 | `set_block_header` with an aligned size writes one well-formed block and leaves every word outside it alone |
| Rewrite.OneFreeBlock | implicit.c:207 | `set_block_header(h->start, size, 0)` over the whole arena leaves a well-formed arena holding one free block of `size` bytes, whatever it held before |
| Rewrite.SpliceOne | implicit.c:126 | one block written over a run of blocks of the chain takes their place in the block list |
| Rewrite.SpliceTwo | implicit.c:162-163 | two blocks written one after the other over one block of the chain take its place in the block list |
| ArenaLayout.SizeT | implicit.c:188-189 | a `size_t` value is the unique number below 2^64 congruent to the mathematical one |
| ArenaLayout.ToCInt | implicit.c:188-189 | storing a `size_t` in an `int` keeps its value modulo 2^32, in the signed range |
| ArenaLayout.AlignDelta | implicit.c:188-191 | the shift `delta` is in `0..7` and puts the first payload on an 8-byte boundary |
| ArenaLayout.AlignDeltaUnique | implicit.c:188-195 | it is the only such shift below 8 |
| ArenaLayout.TrimmedSize | implicit.c:199 | the trimmed size is a multiple of 8, at most the size before and less than 8 below it |
| ArenaLayout.LayoutOf | implicit.c:181-199 | the arena starts between 32 and 39 bytes into the region, with its first payload 8-aligned; its size is a multiple of 8 and drops fewer than 8 of the bytes left after the struct and the shift |
| ArenaLayout.ArenaFitsRange | implicit.c:181-207 | every request of at least 56 bytes whose arena stays below 2^32 bytes leaves room for the one free block, and no request below 40 bytes does |
| ArenaLayout.FixtureLayouts | tests.c:16-17 | on an 8-aligned break, `heap_create(64)` leaves a 24-byte arena and `heap_create(256)` a 216-byte one, both 36 bytes in |
| Tiling.TileOf | tests.c:25-44 | the words of one block laid out by `set_block_header`: its tag at both ends, recording its size and flag |
| Tiling.TilesChain | tests.c:31-44 | laying out a list of blocks one after the other gives a chain whose block list is that list again |
| Tiling.TilesWellFormed | tests.c:14-50 | such a layout within 32-bit sizes is a well-formed arena |
| Fixtures.FixturesWellFormed | tests.c:14-50 | `h_0` and `h_1` laid out are well-formed arenas of 24 and 216 bytes listing their blocks |
| Fixtures.H1Average | implicit.c:230-243 | on `h_1` the free sizes sum to 152 over 4 free blocks, so the average is 38 |
| Fixtures.H1Starts | tests.c:31-36 | the first three blocks of `h_1` start at bytes 0, 16 and 48 with sizes 16, 32 and 64 |
| Fixtures.H1CoalesceInUse | implicit.c:119 | coalescing the first block of `h_1`, which is in use, changes nothing |
| Fixtures.H1CoalesceFree | implicit.c:124-127 | coalescing the second block of `h_1` with the third gives one free block of 96 bytes |
| Fixtures.H1Previous | implicit.c:73-76 | the previous block of `h_1`'s third block is the second |
| Fixtures.SplitExample | implicit.c:138-165 | a 256-byte request needs 264 bytes, and a free 512-byte block splits into 264 in use and 248 free |
| Fixtures.WholeExample | implicit.c:166-169 | a free 64-byte block asked for 48 bytes is handed out whole |
| Fixtures.TooSmallExample | implicit.c:157-160 | a free 64-byte block asked for 72 bytes is refused and left as it was |
| HeapModel.PayloadAligned | implicit.c:186-199 | in an arena whose first payload is 8-aligned, every block's payload is 8-aligned |
| HeapModel.Heap.Init | implicit.c:201-207 | the fields are set, `next` is the first block, and the arena is one free block of `size` bytes |
| HeapModel.Heap.Create | implicit.c:175-209 | NULL exactly when `sbrk` fails; otherwise the start and size are `LayoutOf` the region, and the arena is valid and one free block |
| HeapModel.Heap.SetBlockHeader | implicit.c:52-58 | the two stores leave the arena equal to `WithHeader` of the old one |
| HeapModel.Heap.Coalesce | implicit.c:114-131 | returns its argument, keeps the heap valid, and leaves the arena equal to `Coalesced` of the old one |
| HeapModel.Heap.PrepareBlockForUse | implicit.c:154-170 | NULL exactly when the block is smaller than `r`, otherwise the block itself; keeps the heap valid and leaves the arena equal to `Prepared` of the old one |
| HeapModel.Heap.Split | implicit.c:162-163 | the two `set_block_header` calls of a split: a header and footer of `r` bytes in use at `b`, then of the remaining bytes, free, right after them |
| HeapModel.Heap.AvgFreeBlockSize | implicit.c:230-243 | the walk returns the floor of the summed free block sizes over the number of free blocks, and its 32-bit sum never wraps |

## Left out

- `sbrk` is an operating-system call. Its result is the parameter of `HeapModel.Heap.Create`. The region's contents are not modelled: `Init` allocates a fresh array, and the one free block it writes covers it whole.
- The address of `struct heap` itself and its fields' storage inside the region are not modelled. Only `sizeof(struct heap)` (32 bytes on LP64) enters the layout.
- `heap_print`: output only.
- `heap_free`, `malloc_first_fit`, `malloc_best_fit`, `malloc_next_fit` and `heap_malloc`'s dispatch are stubs that do nothing or return NULL. They are not modelled. `next` and `searchAlg` are kept but no operation reads them. No operation in the model updates `next`.
- The `wrapper_*` functions are one-line pass-throughs.
- The commented-out version of `get_previous_block` is not modelled.
- implicit-test.c is a random workload driver, and tests.h holds only constants. Neither is part of this model.
- HeapModel.Heap.Create: requires the layout to leave an arena of at least 8 bytes and below 2^32 bytes (`ArenaLayout.ArenaFits`). A smaller request makes `set_block_header` write outside the region in the source. A larger one cannot be described by a 32-bit size.
- HeapModel.Heap.Create: the `intptr_t` size may be negative or huge in the source. Only the values `ArenaFits` admits are modelled, and the pointer arithmetic is on unbounded integers.
- Splitter.Prepared: requires `r` to be a multiple of 8 and at least 8, which is what `Splitter.CheckedSizeToAllocate` returns. `get_size_to_allocate` itself returns 0 or 8 for requests above 2^32 - 16 bytes (`Splitter.SizeToAllocateWraps`). For other `r` only the split branch would write a misaligned or corrupt block. The too-small branch writes nothing, and the whole-block branch writes a well-formed block for any `r`; the model does not cover those two branches for such `r`.
- HeapModel.Heap.PrepareBlockForUse: the same requirement on `r`, for the same reason.
- Splitter.Prepared and HeapModel.Heap.PrepareBlockForUse: both use the intended split test `Splits`, not the wrapping one the source computes. The two agree below 2^31 (`Splitter.SplitsAgree`); see Findings. Above that they differ in two ways. A 2^31-byte block asked for 2^31 bytes is split by the source into a zero-size block, which corrupts the arena (`Splitter.SplitsAsWrittenOverflows`). A block of 2^31 + 64 bytes asked for 2^31 bytes is split by the source into 2^31 bytes in use and a well-formed 64-byte free block, where the model hands the block out whole (`Splitter.SplitsAsWrittenDiverges`).
- HeapModel.Heap.AvgFreeBlockSize: requires at least one free block. With none, the source divides by zero.
- HeapModel.Heap.Coalesce: the source passes the sum of the two sizes through an `int`. For arenas below 2^32 bytes the sum is a size below 2^32, and the conversion back to `block_size_t` restores it, so the model adds unbounded integers.
- HeapModel.Heap.Coalesce and HeapModel.Heap.PrepareBlockForUse: require `b` to be a block of a well-formed arena. The source does not check its argument.

## Findings

| source | as written | input that shows it | evidently intended | confidence | as-written member | corrected member |
|---|---|---|---|---|---|---|
| implicit.c:161 | `2*real_size` and `real_size + MAX_UNUSED_BYTES` are `block_size_t` expressions and wrap modulo 2^32 | a 2^31-byte free block asked for 2^31 bytes: `2*real_size` is 0, so the block splits and a zero-size block is written after it | the comparison on the true values, as the comment at implicit.c:149-152 states | not executed | Splitter.SplitsAsWritten, Splitter.SplitsAsWrittenOverflows, Splitter.SplitsAsWrittenDiverges | Splitter.Splits, Splitter.SplitsAgree, Splitter.SplitRemainder |
| implicit.c:138-147 | the block size is `block_size_t` arithmetic and wraps for requests above 2^32 - 16 bytes | a request of 2^32 - 8 bytes gets a 0-byte block; 2^32 - 1 bytes gets an 8-byte block | report that no block can hold the request | not executed | Splitter.SizeToAllocate, Splitter.SizeToAllocateWraps | Splitter.CheckedSizeToAllocate, Splitter.CheckedSizeToAllocateFits |
