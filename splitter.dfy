/** Sizing a request and carving a block out of a free one:
    `get_size_to_allocate` (implicit.c:138-147) and `prepare_block_for_use`
    (implicit.c:154-170). Sizes are `block_size_t`, so every sum and product
    of the source wraps modulo 2^32 and is written out so here. */
module Splitter {
  import opened Config
  import opened BlockCodec
  import opened Chain
  import opened Rewrite

  /** `get_size_to_allocate(user_size)`: the block size for a request of
      `u` payload bytes, computed in uint32 arithmetic. */
  function SizeToAllocate(u: Word): (r: Word)
    ensures r == (8 * ((u + 7) / 8) + 2 * HeaderSize) % U32
  {
    if u % 8 == 0 then (u + 2 * HeaderSize) % U32
    else (8 * (u / 8 + 2)) % U32
  }

  /** Whenever it does not wrap, the block size holds the header, the footer
      and the request rounded up to the payload alignment, and no more. */
  lemma {:induction false} SizeToAllocateFits(u: Word)
    requires u <= U32 - 16
    ensures var r := SizeToAllocate(u);
      && r % 8 == 0
      && u + 2 * HeaderSize <= r < u + 2 * HeaderSize + PayloadAlign
      && r - 2 * HeaderSize < u + PayloadAlign
  {
    var k := (u + 7) / 8;
    assert 8 * k <= u + 7 < 8 * k + 8;
    assert SizeToAllocate(u) == 8 * k + 8;
  }

  /** The largest requests wrap around to a block too small for them. */
  lemma SizeToAllocateWraps()
    ensures SizeToAllocate(U32 - 8) == 0
    ensures SizeToAllocate(U32 - 1) == 8
  {
  }

  /** The corrected sizing: `None` when the block size would not fit in a
      `block_size_t`. */
  function CheckedSizeToAllocate(u: Word): (r: Option<Word>)
    ensures r.Some? <==> u <= U32 - 16
    ensures r.Some? ==> r.value == SizeToAllocate(u)
  {
    if u <= U32 - 16 then Some(SizeToAllocate(u)) else None
  }

  /** The corrected sizing always yields a block that holds the request. */
  lemma {:induction false} CheckedSizeToAllocateFits(u: Word)
    ensures var r := CheckedSizeToAllocate(u);
      r.Some? ==> r.value % 8 == 0 && u + 2 * HeaderSize <= r.value < u + 2 * HeaderSize + PayloadAlign
  {
    if u <= U32 - 16 {
      SizeToAllocateFits(u);
    }
  }

  /** The split test of `prepare_block_for_use` as written: `2 * real_size`
      and `real_size + MAX_UNUSED_BYTES` are uint32 expressions. */
  predicate SplitsAsWritten(blk: Word, r: Word)
  {
    blk > (2 * r) % U32 || blk >= (r + MaxUnusedBytes) % U32
  }

  /** The split test as intended: the block is more than twice the size
      needed, or at least `MAX_UNUSED_BYTES` larger. */
  predicate Splits(blk: int, r: int)
  {
    blk > 2 * r || blk >= r + MaxUnusedBytes
  }

  /** The two tests agree for every size below 2^31. */
  lemma {:induction false} SplitsAgree(blk: Word, r: Word)
    requires r < 0x8000_0000
    ensures SplitsAsWritten(blk, r) <==> Splits(blk, r)
  {
    assert (2 * r) % U32 == 2 * r;
    assert (r + MaxUnusedBytes) % U32 == r + MaxUnusedBytes;
  }

  /** A block of 2^31 bytes, asked for whole, passes the test as written
      although nothing is left over, and the remainder written after it
      would be a block of size 0. */
  lemma SplitsAsWrittenOverflows()
    ensures var blk, r := 0x8000_0000, 0x8000_0000;
      SplitsAsWritten(blk, r) && !Splits(blk, r) && blk - r < 2 * HeaderSize
  {
  }

  /** The tests also differ where the source splits harmlessly: a block of
      2^31 + 64 bytes asked for 2^31 passes the test as written and leaves a
      well-formed 64-byte free block, while the intended test hands the
      block out whole. */
  lemma SplitsAsWrittenDiverges()
    ensures var blk, r := 0x8000_0040, 0x8000_0000;
      SplitsAsWritten(blk, r) && !Splits(blk, r) && blk - r == 64
  {
  }

  /** Whenever the intended test splits an aligned block, the remainder is a
      well-formed block size: at least a header and a footer, and aligned. */
  lemma {:induction false} SplitRemainder(blk: int, r: int)
    requires r % 8 == 0 && blk % 8 == 0 && 2 * HeaderSize <= r <= blk
    requires Splits(blk, r)
    ensures 2 * HeaderSize <= blk - r && (blk - r) % 8 == 0
  {
  }

  /** The words of a split block: `r` bytes at `b`, the rest after them. */
  lemma {:induction false} SplitFits(mem: seq<Word>, b: int, r: Word)
    requires ValidBlockAt(mem, b) && r % 8 == 0 && 2 * HeaderSize <= r
    requires r <= BlockSize(mem, b) && Splits(BlockSize(mem, b), r)
    ensures 4 * (r / 4) == r && (r / 4) % 2 == 0 && 2 <= r / 4
    ensures var n2 := SizeWords(mem, b) - r / 4;
      && 2 <= n2 && n2 % 2 == 0 && b + r / 4 + n2 <= |mem| && 4 * n2 == BlockSize(mem, b) - r
  {
    SplitRemainder(BlockSize(mem, b), r);
  }

  /** The two `set_block_header` calls of a split: `r` bytes in use at `b`,
      then the rest of the block free right after them. */
  function SplitWords(mem: seq<Word>, b: int, r: Word): (m': seq<Word>)
    requires ValidBlockAt(mem, b) && r % 8 == 0 && 2 * HeaderSize <= r
    requires r <= BlockSize(mem, b) && Splits(BlockSize(mem, b), r)
    ensures |m'| == |mem| && IsWord(m', b + r / 4)
    ensures BlockSize(m', b) == r && InUse(m', b)
    ensures BlockSize(m', b + r / 4) == BlockSize(mem, b) - r && !InUse(m', b + r / 4)
    ensures forall k :: 0 <= k < |mem| && (k < b || Next(mem, b) <= k) ==> m'[k] == mem[k]
  {
    SplitFits(mem, b, r);
    var m1 := WithHeader(mem, b, r, true);
    var m2 := WithHeader(m1, b + r / 4, BlockSize(mem, b) - r, false);
    SplitReadBack(mem, b, r, m1, m2);
    m2
  }

  /** What the two headers of a split read back as, and the words they
      leave alone. */
  lemma {:induction false} SplitReadBack(mem: seq<Word>, b: int, r: Word, m1: seq<Word>, m2: seq<Word>)
    requires ValidBlockAt(mem, b) && r % 8 == 0 && 2 * HeaderSize <= r
    requires r <= BlockSize(mem, b) && Splits(BlockSize(mem, b), r)
    requires b + r / 4 < |mem| && b + SizeWords(mem, b) <= |mem|
    requires m1 == WithHeader(mem, b, r, true)
    requires m2 == WithHeader(m1, b + r / 4, BlockSize(mem, b) - r, false)
    ensures |m2| == |mem| && IsWord(m2, b + r / 4)
    ensures BlockSize(m2, b) == r && InUse(m2, b)
    ensures BlockSize(m2, b + r / 4) == BlockSize(mem, b) - r && !InUse(m2, b + r / 4)
    ensures forall k :: 0 <= k < |mem| && (k < b || Next(mem, b) <= k) ==> m2[k] == mem[k]
  {
    SplitFits(mem, b, r);
    var n1 := r / 4;
    var n2 := SizeWords(mem, b) - n1;
    assert (BlockSize(mem, b) - r) / 4 == n2;
    SetHeaderAgreement(mem, b, r, true);
    SetHeaderAgreement(m1, b + n1, BlockSize(mem, b) - r, false);
    assert m2[b] == m1[b];
  }

  /** A split is the first `set_block_header` call followed by the second. */
  lemma {:induction false} SplitWordsIs(mem: seq<Word>, b: int, r: Word, m1: seq<Word>)
    requires ValidBlockAt(mem, b) && r % 8 == 0 && 2 * HeaderSize <= r
    requires r <= BlockSize(mem, b) && Splits(BlockSize(mem, b), r)
    requires m1 == WithHeader(mem, b, r, true)
    ensures IsWord(m1, b + r / 4) && b + r / 4 + (BlockSize(mem, b) - r) / 4 <= |m1|
    ensures SplitWords(mem, b, r) == WithHeader(m1, b + r / 4, BlockSize(mem, b) - r, false)
  {
    SplitFits(mem, b, r);
  }

  /** The arena after `prepare_block_for_use(b, r)` for an aligned block size
      `r` as `get_size_to_allocate` returns: unchanged when the block is too
      small; the block marked in use and the rest split off as a free block
      when the block is much larger than needed; otherwise the whole block
      marked in use. The split test is the intended one (see `Splits`). */
  function Prepared(mem: seq<Word>, b: int, r: Word): (m': seq<Word>)
    requires WellFormed(mem) && IsBlock(mem, b)
    requires r % 8 == 0 && 2 * HeaderSize <= r
    ensures |m'| == |mem| && IsWord(m', b)
    ensures r <= BlockSize(mem, b) ==>
      && InUse(m', b)
      && BlockSize(m', b) == (if Splits(BlockSize(mem, b), r) then r else BlockSize(mem, b))
    ensures forall k :: 0 <= k < |mem| && (k < b || Next(mem, b) <= k) ==> m'[k] == mem[k]
  {
    var blk := BlockSize(mem, b);
    if blk < r then
      mem
    else if Splits(blk, r) then
      SplitWords(mem, b, r)
    else
      SetHeaderAgreement(mem, b, blk, true);
      WithHeader(mem, b, blk, true)
  }

  /** The two headers of a split, written one after the other, give the
      arena `Prepared` describes. */
  lemma {:induction false} PreparedBySplit(mem: seq<Word>, b: int, r: Word, m': seq<Word>)
    requires WellFormed(mem) && IsBlock(mem, b) && ValidBlockAt(mem, b)
    requires r % 8 == 0 && 2 * HeaderSize <= r
    requires r <= BlockSize(mem, b) && Splits(BlockSize(mem, b), r)
    requires m' == WithHeader(WithHeader(mem, b, r, true), b + r / 4, BlockSize(mem, b) - r, false)
    ensures m' == Prepared(mem, b, r) && WellFormed(m') && |m'| == |mem|
  {
    PreparePreservesWellFormed(mem, b, r);
    SplitWordsIs(mem, b, r, WithHeader(mem, b, r, true));
  }

  /** The one header of a block handed out whole gives the arena
      `Prepared` describes. */
  lemma {:induction false} PreparedByWhole(mem: seq<Word>, b: int, r: Word, m': seq<Word>)
    requires WellFormed(mem) && IsBlock(mem, b) && ValidBlockAt(mem, b)
    requires r % 8 == 0 && 2 * HeaderSize <= r
    requires r <= BlockSize(mem, b) && !Splits(BlockSize(mem, b), r)
    requires m' == WithHeader(mem, b, BlockSize(mem, b), true)
    ensures m' == Prepared(mem, b, r) && WellFormed(m') && |m'| == |mem|
  {
    PreparePreservesWellFormed(mem, b, r);
  }

  /** `prepare_block_for_use` returns NULL, and changes nothing, exactly
      when the block is smaller than the size asked for. */
  lemma {:induction false} PrepareTooSmall(mem: seq<Word>, b: int, r: Word)
    requires WellFormed(mem) && IsBlock(mem, b)
    requires r % 8 == 0 && 2 * HeaderSize <= r
    requires BlockSize(mem, b) < r
    ensures Prepared(mem, b, r) == mem
  {
  }

  /** A split writes an in-use block of exactly `r` bytes and a free block
      of the rest right after it, in the place of the old block. */
  lemma {:induction false} PrepareSplits(mem: seq<Word>, b: int, r: Word)
    requires WellFormed(mem) && IsBlock(mem, b)
    requires r % 8 == 0 && 2 * HeaderSize <= r
    requires r <= BlockSize(mem, b) && Splits(BlockSize(mem, b), r)
    ensures var blk := BlockSize(mem, b);
      var m' := Prepared(mem, b, r);
      var i := |BlocksBetween(mem, 0, b)|;
      && WellFormed(m') && IsBlock(m', b) && BlockSize(m', b) == r && InUse(m', b)
      && i < |Blocks(mem)|
      && Blocks(mem)[i] == Block(blk, InUse(mem, b))
      && Blocks(m') == Blocks(mem)[..i] + [Block(r, true), Block(blk - r, false)] + Blocks(mem)[i + 1..]
  {
    var pre, post := SplitSplice(mem, b, r);
    ReplaceOne(Blocks(mem), pre, Block(BlockSize(mem, b), InUse(mem, b)), [Block(r, true), Block(BlockSize(mem, b) - r, false)], post);
  }

  /** The block lists before and after a split, around the split block. */
  lemma {:induction false} SplitSplice(mem: seq<Word>, b: int, r: Word) returns (pre: seq<Block>, post: seq<Block>)
    requires WellFormed(mem) && IsBlock(mem, b)
    requires r % 8 == 0 && 2 * HeaderSize <= r
    requires r <= BlockSize(mem, b) && Splits(BlockSize(mem, b), r)
    ensures var blk := BlockSize(mem, b);
      var m' := Prepared(mem, b, r);
      && WellFormed(m') && IsBlock(m', b) && BlockSize(m', b) == r && InUse(m', b)
      && pre == BlocksBetween(mem, 0, b)
      && Blocks(mem) == pre + ([Block(blk, InUse(mem, b))] + post)
      && Blocks(m') == pre + ([Block(r, true), Block(blk - r, false)] + post)
  {
    assert Prepared(mem, b, r) == SplitWords(mem, b, r);
    pre, post := SplitWordsSplice(mem, b, r);
  }

  /** The two blocks of a split take the place of the split block. */
  lemma {:induction false} SplitWordsSplice(mem: seq<Word>, b: int, r: Word) returns (pre: seq<Block>, post: seq<Block>)
    requires WellFormed(mem) && IsBlock(mem, b)
    requires r % 8 == 0 && 2 * HeaderSize <= r
    requires r <= BlockSize(mem, b) && Splits(BlockSize(mem, b), r)
    ensures var blk := BlockSize(mem, b);
      var m' := SplitWords(mem, b, r);
      && WellFormed(m') && IsBlock(m', b) && BlockSize(m', b) == r && InUse(m', b)
      && pre == BlocksBetween(mem, 0, b)
      && Blocks(mem) == pre + ([Block(blk, InUse(mem, b))] + post)
      && Blocks(m') == pre + ([Block(r, true), Block(blk - r, false)] + post)
  {
    var m1 := SplitWritten(mem, b, r);
    pre, post := SpliceSplit(mem, m1, SplitWords(mem, b, r), b, r);
  }

  /** An in-use block of `r` bytes and a free block of the rest, written over
      a block of the chain, take its place in the block list. */
  lemma {:induction false} SpliceSplit(mem: seq<Word>, m1: seq<Word>, m2: seq<Word>, b: int, r: Word)
    returns (pre: seq<Block>, post: seq<Block>)
    requires WellFormed(mem) && IsBlock(mem, b)
    requires r % 8 == 0 && 2 * HeaderSize <= r
    requires r <= BlockSize(mem, b) && Splits(BlockSize(mem, b), r)
    requires Written(mem, m1, b, r / 4, true)
    requires Written(m1, m2, b + r / 4, SizeWords(mem, b) - r / 4, false)
    ensures var blk := BlockSize(mem, b);
      && WellFormed(m2) && IsBlock(m2, b) && BlockSize(m2, b) == r && InUse(m2, b)
      && pre == BlocksBetween(mem, 0, b)
      && Blocks(mem) == pre + ([Block(blk, InUse(mem, b))] + post)
      && Blocks(m2) == pre + ([Block(r, true), Block(blk - r, false)] + post)
  {
    var blk := BlockSize(mem, b);
    SplitFits(mem, b, r);
    var n1 := r / 4;
    var n2 := SizeWords(mem, b) - n1;
    var e := Next(mem, b);
    BlockOnChain(mem, b);
    OneBlockWalk(mem, b);
    SpliceTwo(mem, m1, m2, b, e, r, n1, true, blk - r, n2, false);
    pre, post := BlocksBetween(mem, 0, b), BlocksFrom(mem, e);
  }

  /** A split is two `set_block_header` calls, each writing one block. */
  lemma {:induction false} SplitWritten(mem: seq<Word>, b: int, r: Word) returns (m1: seq<Word>)
    requires ValidBlockAt(mem, b) && r % 8 == 0 && 2 * HeaderSize <= r
    requires r <= BlockSize(mem, b) && Splits(BlockSize(mem, b), r)
    ensures var n1 := r / 4;
      && Written(mem, m1, b, n1, true)
      && Written(m1, SplitWords(mem, b, r), b + n1, SizeWords(mem, b) - n1, false)
  {
    SplitFits(mem, b, r);
    var n1 := r / 4;
    m1 := WithHeader(mem, b, r, true);
    WriteBlock(mem, b, r, n1, true);
    WriteBlock(m1, b + n1, BlockSize(mem, b) - r, SizeWords(mem, b) - n1, false);
  }

  /** Without a split the whole block is marked in use: its size stays, and
      fewer than `MAX_UNUSED_BYTES` bytes, and at most half of it, go unused. */
  lemma {:induction false} PrepareWhole(mem: seq<Word>, b: int, r: Word)
    requires WellFormed(mem) && IsBlock(mem, b)
    requires r % 8 == 0 && 2 * HeaderSize <= r
    requires r <= BlockSize(mem, b) && !Splits(BlockSize(mem, b), r)
    ensures var blk := BlockSize(mem, b);
      var m' := Prepared(mem, b, r);
      var i := |BlocksBetween(mem, 0, b)|;
      && blk - r < MaxUnusedBytes && blk <= 2 * r
      && WellFormed(m') && IsBlock(m', b) && BlockSize(m', b) == blk && InUse(m', b)
      && i < |Blocks(mem)|
      && Blocks(mem)[i] == Block(blk, InUse(mem, b))
      && Blocks(m') == Blocks(mem)[..i] + [Block(blk, true)] + Blocks(mem)[i + 1..]
  {
    var pre, post := WholeSplice(mem, b, r);
    ReplaceOne(Blocks(mem), pre, Block(BlockSize(mem, b), InUse(mem, b)), [Block(BlockSize(mem, b), true)], post);
  }

  /** The block lists before and after marking the whole block in use. */
  lemma {:induction false} WholeSplice(mem: seq<Word>, b: int, r: Word) returns (pre: seq<Block>, post: seq<Block>)
    requires WellFormed(mem) && IsBlock(mem, b)
    requires r % 8 == 0 && 2 * HeaderSize <= r
    requires r <= BlockSize(mem, b) && !Splits(BlockSize(mem, b), r)
    ensures var blk := BlockSize(mem, b);
      var m' := Prepared(mem, b, r);
      && WellFormed(m') && IsBlock(m', b) && BlockSize(m', b) == blk && InUse(m', b)
      && pre == BlocksBetween(mem, 0, b)
      && Blocks(mem) == pre + ([Block(blk, InUse(mem, b))] + post)
      && Blocks(m') == pre + ([Block(blk, true)] + post)
  {
    var n := SizeWords(mem, b);
    WholeWritten(mem, b, r);
    BlockOnChain(mem, b);
    var e := Next(mem, b);
    OneBlockWalk(mem, b);
    SpliceOne(mem, Prepared(mem, b, r), b, e, BlockSize(mem, b), n, true);
    pre, post := BlocksBetween(mem, 0, b), BlocksFrom(mem, e);
  }

  /** Without a split, preparing is one `set_block_header` call over the
      whole block. */
  lemma {:induction false} WholeWritten(mem: seq<Word>, b: int, r: Word)
    requires WellFormed(mem) && IsBlock(mem, b)
    requires r % 8 == 0 && 2 * HeaderSize <= r
    requires r <= BlockSize(mem, b) && !Splits(BlockSize(mem, b), r)
    ensures Written(mem, Prepared(mem, b, r), b, SizeWords(mem, b), true)
  {
    var blk := BlockSize(mem, b);
    assert Prepared(mem, b, r) == WithHeader(mem, b, blk, true);
    WriteBlock(mem, b, blk, SizeWords(mem, b), true);
  }

  /** Preparing a block keeps the arena well-formed, whatever the case, and
      any block it hands out is in use and holds at least `r` bytes. */
  lemma {:induction false} PreparePreservesWellFormed(mem: seq<Word>, b: int, r: Word)
    requires WellFormed(mem) && IsBlock(mem, b)
    requires r % 8 == 0 && 2 * HeaderSize <= r
    ensures var m' := Prepared(mem, b, r);
      && WellFormed(m')
      && (r <= BlockSize(mem, b) ==> IsBlock(m', b) && InUse(m', b) && r <= BlockSize(m', b))
  {
    if BlockSize(mem, b) < r {
    } else if Splits(BlockSize(mem, b), r) {
      var pre, post := SplitSplice(mem, b, r);
    } else {
      var pre, post := WholeSplice(mem, b, r);
    }
  }
}
