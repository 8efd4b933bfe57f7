/** The test fixtures of tests.c:14-50 as concrete arenas, and the
    behaviour of the operations on them. */
module Fixtures {
  import opened Config
  import opened BlockCodec
  import opened Chain
  import opened Coalescer
  import opened Splitter
  import opened Tiling

  /** `h_0`: a 24-byte arena holding one free block. */
  function H0Layout(): seq<Block>
  {
    [Block(24, false)]
  }

  /** `h_1`: a 216-byte arena, 16(u) 32(f) 64(f) 32(f) 16(u) 32(u) 24(f). */
  function H1Layout(): seq<Block>
  {
    [Block(16, true), Block(32, false), Block(64, false), Block(32, false),
     Block(16, true), Block(32, true), Block(24, false)]
  }

  /** Laying out the blocks of `h_0` and `h_1` gives well-formed arenas
      listing these blocks, of the sizes `heap_create(64)` and `heap_create(256)`
      leave. */
  lemma {:induction false} FixturesWellFormed(bs0: seq<Block>, bs1: seq<Block>)
    requires bs0 == H0Layout() && bs1 == H1Layout()
    ensures Fits(bs0) && WellFormed(Tiles(bs0)) && ArenaSize(Tiles(bs0)) == 24 && Blocks(Tiles(bs0)) == bs0
    ensures Fits(bs1) && WellFormed(Tiles(bs1)) && ArenaSize(Tiles(bs1)) == 216 && Blocks(Tiles(bs1)) == bs1
  {
    TilesWellFormed(bs0);
    TilesWellFormed(bs1);
  }

  /** An arena laid out as `h_1`. */
  ghost predicate IsH1(mem: seq<Word>)
  {
    WellFormed(mem) && Blocks(mem) == H1Layout()
  }

  /** The average free block size of `h_1` is 152 / 4 = 38 bytes. */
  lemma {:induction false} H1Average(mem: seq<Word>)
    requires IsH1(mem)
    ensures SumFree(Blocks(mem)) == 152 && CountFree(Blocks(mem)) == 4
    ensures SumFree(Blocks(mem)) / CountFree(Blocks(mem)) == 38
  {
    H1Tally(H1Layout());
  }

  /** The free tally of `h_1`'s block list, one block at a time. */
  lemma {:induction false} H1Tally(bs: seq<Block>)
    requires bs == H1Layout()
    ensures SumFree(bs) == 152 && CountFree(bs) == 4
  {
    assert SumFree(bs[7..]) == 0 && CountFree(bs[7..]) == 0;
    assert bs[6..][1..] == bs[7..];
    assert SumFree(bs[6..]) == 24 && CountFree(bs[6..]) == 1;
    assert bs[5..][1..] == bs[6..];
    assert SumFree(bs[5..]) == 24 && CountFree(bs[5..]) == 1;
    assert bs[4..][1..] == bs[5..];
    assert SumFree(bs[4..]) == 24 && CountFree(bs[4..]) == 1;
    assert bs[3..][1..] == bs[4..];
    assert SumFree(bs[3..]) == 56 && CountFree(bs[3..]) == 2;
    assert bs[2..][1..] == bs[3..];
    assert SumFree(bs[2..]) == 120 && CountFree(bs[2..]) == 3;
    assert bs[1..][1..] == bs[2..];
    assert SumFree(bs[1..]) == 152 && CountFree(bs[1..]) == 4;
  }

  /** The first three blocks of `h_1` start at words 0, 4 and 12. */
  lemma {:induction false} H1Starts(mem: seq<Word>)
    requires IsH1(mem)
    ensures IsBlock(mem, 0) && BlockSize(mem, 0) == 16 && InUse(mem, 0)
    ensures IsBlock(mem, 4) && BlockSize(mem, 4) == 32 && !InUse(mem, 4)
    ensures IsBlock(mem, 12) && BlockSize(mem, 12) == 64 && !InUse(mem, 12)
    ensures BlocksBetween(mem, 0, 4) == [Block(16, true)]
  {
    var bs := H1Layout();
    assert bs[..0] == [];
    assert bs[..1] == [Block(16, true)];
    assert bs[..2] == [Block(16, true), Block(32, false)];
    assert TotalSize([Block(16, true), Block(32, false)]) == 48;
    var b0 := BlockStarts(mem, 0, 0);
    var b1 := BlockStarts(mem, 0, 1);
    var b2 := BlockStarts(mem, 0, 2);
    assert b0 == 0 && b1 == 4 && b2 == 12;
    BlockOnChain(mem, 0);
    BlockOnChain(mem, 4);
    BlockOnChain(mem, 12);
  }

  /** Coalescing the first block of `h_1`, which is in use, changes nothing. */
  lemma {:induction false} H1CoalesceInUse(mem: seq<Word>)
    requires IsH1(mem)
    ensures IsBlock(mem, 0) && Coalesced(mem, 0) == mem
  {
    H1Starts(mem);
    CoalesceNoOp(mem, 0);
  }

  /** Coalescing the second block of `h_1` (32, free) with the third (64,
      free) leaves one free block of 96 bytes in their place. */
  lemma {:induction false} H1CoalesceFree(mem: seq<Word>)
    requires IsH1(mem)
    ensures IsBlock(mem, 4) && WellFormed(Coalesced(mem, 4))
    ensures Blocks(Coalesced(mem, 4))
      == [Block(16, true), Block(96, false), Block(32, false), Block(16, true), Block(32, true), Block(24, false)]
  {
    H1Starts(mem);
    assert Next(mem, 4) == 12;
    var bs := H1Layout();
    assert bs[..1] == [Block(16, true)];
    assert bs[3..] == [Block(32, false), Block(16, true), Block(32, true), Block(24, false)];
    CoalesceMerges(mem, 4);
  }

  /** `get_previous_block` of the third block of `h_1` is the second. */
  lemma {:induction false} H1Previous(mem: seq<Word>)
    requires IsH1(mem)
    ensures IsWord(mem, 11) && Previous(mem, 12) == 4
  {
    H1Starts(mem);
    PreviousInvertsNext(mem, 4);
  }

  /** A 256-byte request needs 264 bytes, and a free 512-byte block splits
      into 264 bytes in use and 248 bytes free. */
  lemma {:induction false} SplitExample(mem: seq<Word>)
    requires WellFormed(mem) && Blocks(mem) == [Block(512, false)]
    ensures SizeToAllocate(256) == 264
    ensures IsBlock(mem, 0) && WellFormed(Prepared(mem, 0, 264))
    ensures Blocks(Prepared(mem, 0, 264)) == [Block(264, true), Block(248, false)]
  {
    var b := BlockStarts(mem, 0, 0);
    PrepareSplits(mem, 0, 264);
  }

  /** A free 64-byte block asked for 48 bytes is handed out whole. */
  lemma {:induction false} WholeExample(mem: seq<Word>)
    requires WellFormed(mem) && Blocks(mem) == [Block(64, false)]
    ensures IsBlock(mem, 0) && WellFormed(Prepared(mem, 0, 48))
    ensures Blocks(Prepared(mem, 0, 48)) == [Block(64, true)]
  {
    var b := BlockStarts(mem, 0, 0);
    PrepareWhole(mem, 0, 48);
  }

  /** A free 64-byte block asked for 72 bytes is refused and left as it was. */
  lemma {:induction false} TooSmallExample(mem: seq<Word>)
    requires WellFormed(mem) && Blocks(mem) == [Block(64, false)]
    ensures IsBlock(mem, 0) && Prepared(mem, 0, 72) == mem
  {
    var b := BlockStarts(mem, 0, 0);
    PrepareTooSmall(mem, 0, 72);
  }
}
