/** `struct heap` and the operations of implicit.c that change an arena in
    place. The arena is an array of 32-bit words: `words[i]` is the word at
    address `h->start + 4 * i`, and a block pointer is the index of its
    header word. Each method is proved against the pure definition of its
    effect (`WithHeader`, `Coalesced`, `Prepared`), whose properties are
    proved in the codec, coalescer and splitter modules. */
module HeapModel {
  import opened Config
  import opened BlockCodec
  import opened Chain
  import opened Rewrite
  import opened Coalescer
  import opened Splitter
  import opened ArenaLayout

  /** A payload of a block of a valid arena lies on an 8-byte boundary. */
  lemma {:induction false} PayloadAligned(mem: seq<Word>, start: int, b: int)
    requires (start + HeaderSize) % 8 == 0 && Reaches(mem, 0, b)
    ensures (start + 4 * Payload(b)) % 8 == 0
  {
    ReachesAligned(mem, 0, b);
  }

  /** A quotient of naturals by a positive divisor is at most the dividend. */
  lemma {:induction false} QuotientAtMost(a: nat, d: int)
    requires 1 <= d
    ensures 0 <= a / d <= a
  {
    var q := a / d;
    assert a == d * q + a % d;
    assert d * q == q + (d - 1) * q;
  }

  class Heap {
    /** `h->search_alg`: kept, but no search strategy is part of the model. */
    const searchAlg: SearchAlg
    /** `h->size`: the arena size in bytes. */
    const size: int
    /** `h->next`, as a word index: where a next-fit search would resume. */
    var next: int
    /** `h->start`: the address of the first block. */
    const start: int
    /** The arena's words. */
    const words: array<Word>

    /** The heap invariant: the words cover exactly `h->size` bytes, the
        first payload is 8-aligned, and the blocks tile the arena with
        equal headers and footers. */
    ghost predicate Valid()
      reads this, words
    {
      && ArenaSize(words[..]) == size
      && (start + HeaderSize) % 8 == 0
      && WellFormed(words[..])
    }

    /** The end of `heap_create`, once the layout is known: the fields are
        set, `h->next = h->start`, and `set_block_header(h->start, size, 0)`
        makes the whole arena one free block. */
    constructor Init(start: int, size: int, alg: SearchAlg)
      requires (start + HeaderSize) % 8 == 0
      requires size % 8 == 0 && 2 * HeaderSize <= size < U32
      ensures Valid() && fresh(words)
      ensures this.start == start && this.size == size && next == 0 && searchAlg == alg
      ensures Blocks(words[..]) == [Block(size, false)]
    {
      this.start := start;
      this.size := size;
      searchAlg := alg;
      next := 0;
      words := new Word[size / 4];
      new;
      ghost var mem := words[..];
      SetBlockHeader(0, size, false);
      OneFreeBlock(mem);
    }

    /** `heap_create(size, alg)`: `sbrk` is a parameter, `None` when it
        fails. The layout steps of implicit.c:182-199 are taken one by one
        and agree with `LayoutOf`. */
    static method Create(sbrk: Option<nat>, size: int, alg: SearchAlg) returns (h: Heap?)
      requires sbrk.Some? ==> ArenaFits(LayoutOf(sbrk.value, size))
      ensures h == null <==> sbrk.None?
      ensures h != null ==>
        && fresh(h) && fresh(h.words) && h.Valid()
        && Layout(h.start, h.size) == LayoutOf(sbrk.value, size)
        && h.next == 0 && h.searchAlg == alg
        && Blocks(h.words[..]) == [Block(h.size, false)]
    {
      if sbrk.None? {
        return null;
      }
      var heapStart := sbrk.value;
      heapStart := heapStart + HeapStructSize;
      var sz := size - HeapStructSize;
      var delta := ToCInt(SizeT(PayloadAlign - HeaderSize - heapStart % 8));
      if delta < 0 {
        delta := delta + PayloadAlign;
      }
      assert delta == AlignDelta(heapStart);
      if delta > 0 {
        heapStart := heapStart + delta;
        sz := sz - delta;
      }
      SizeTMod8(sz - 2 * HeaderSize);
      sz := sz - SizeT(sz - 2 * HeaderSize) % 8;
      h := new Heap.Init(heapStart, sz, alg);
    }

    /** `set_block_header(b, s, in_use)`: the tag goes to the header, then to
        the footer found from the header just written. */
    method SetBlockHeader(b: int, s: Word, inUse: bool)
      requires IsWord(words[..], b) && 2 * HeaderSize <= s && b + s / 4 <= words.Length
      modifies words
      ensures words[..] == WithHeader(old(words[..]), b, s, inUse)
    {
      var header := Tag(s, inUse);
      words[b] := header;
      var footer := Payload(b) + PayloadSize(words[..], b) / 4;
      words[footer] := header;
    }

    /** `coalesce(h, b)`: returns `b`, and merges it with its successor when
        both are free. */
    method Coalesce(b: int) returns (r: int)
      requires Valid() && IsBlock(words[..], b)
      modifies words
      ensures r == b && Valid()
      ensures words[..] == Coalesced(old(words[..]), b)
    {
      ghost var mem := words[..];
      BlockOnChain(mem, b);
      CoalescePreservesWellFormed(mem, b);
      if !InUse(words[..], b) {
        var nxt := Next(words[..], b);
        if WithinHeap(size, nxt) && !InUse(words[..], nxt) {
          var n, e := MergeSpan(mem, b);
          var total := BlockSize(words[..], b) + BlockSize(words[..], nxt);
          SetBlockHeader(b, total, false);
          return b;
        }
      }
      return b;
    }

    /** `prepare_block_for_use(b, r)` for a size `get_size_to_allocate`
        returns: `None` (NULL) when the block is too small, and `b` otherwise,
        after the block is marked in use and split when much larger than
        needed. */
    method PrepareBlockForUse(b: int, r: Word) returns (p: Option<int>)
      requires Valid() && IsBlock(words[..], b)
      requires r % 8 == 0 && 2 * HeaderSize <= r
      modifies words
      ensures p == None <==> BlockSize(old(words[..]), b) < r
      ensures p != None ==> p.value == b
      ensures words[..] == Prepared(old(words[..]), b, r) && Valid()
    {
      ghost var mem := words[..];
      var blk := BlockSize(words[..], b);
      if blk < r {
        PrepareTooSmall(mem, b, r);
        return None;
      }
      BlockOnChain(mem, b);
      if Splits(blk, r) {
        Split(b, r);
        PreparedBySplit(mem, b, r, words[..]);
        return Some(b);
      } else {
        SetBlockHeader(b, blk, true);
        PreparedByWhole(mem, b, r, words[..]);
        return Some(b);
      }
    }

    /** The split of `prepare_block_for_use`: `r` bytes in use at `b`, then
        the rest of the block free. */
    method Split(b: int, r: Word)
      requires ValidBlockAt(words[..], b) && r % 8 == 0 && 2 * HeaderSize <= r
      requires r <= BlockSize(words[..], b) && Splits(BlockSize(words[..], b), r)
      modifies words
      ensures words[..] == WithHeader(WithHeader(old(words[..]), b, r, true), b + r / 4, BlockSize(old(words[..]), b) - r, false)
    {
      ghost var mem := words[..];
      SplitFits(mem, b, r);
      var blk := BlockSize(words[..], b);
      SetBlockHeader(b, r, true);
      SetBlockHeader(b + r / 4, blk - r, false);
    }

    /** `heap_find_avg_free_block_size`: walks the chain summing the sizes of
        the free blocks in a `block_size_t` and counting them, then divides.
        The sum never wraps, as it is at most the arena size. */
    method AvgFreeBlockSize() returns (avg: Word)
      requires Valid() && CountFree(Blocks(words[..])) > 0
      ensures avg == SumFree(Blocks(words[..])) / CountFree(Blocks(words[..]))
    {
      ghost var mem := words[..];
      ghost var all := Blocks(mem);
      ChainTiles(mem, 0);
      SumFreeAtMostTotal(all);
      var blk := 0;
      var count := 0;
      var sum: Word := 0;
      while WithinHeap(size, blk)
        invariant 0 <= blk <= |mem| && ChainFrom(mem, blk)
        invariant sum + SumFree(BlocksFrom(mem, blk)) == SumFree(all)
        invariant count + CountFree(BlocksFrom(mem, blk)) == CountFree(all)
        decreases |mem| - blk
      {
        FreeTallyStep(mem, blk);
        var nxt := Next(words[..], blk);
        if !InUse(words[..], blk) {
          assert sum + BlockSize(mem, blk) < U32;
          sum := (sum + BlockSize(words[..], blk)) % U32;
          count := count + 1;
        }
        blk := nxt;
      }
      assert blk == |mem|;
      QuotientAtMost(sum, count);
      avg := sum / count;
    }
  }
}
