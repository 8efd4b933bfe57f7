/** `coalesce` (implicit.c:114-131): merge a free block with its immediate
    successor when that successor exists and is free. */
module Coalescer {
  import opened Config
  import opened BlockCodec
  import opened Chain
  import opened Rewrite

  /** The block at `b` is free, it has a successor inside the heap, and the
      successor is free: the condition under which `coalesce` merges. */
  predicate Mergeable(mem: seq<Word>, b: int)
    requires IsWord(mem, b)
  {
    && !InUse(mem, b)
    && WithinHeap(ArenaSize(mem), Next(mem, b))
    && !InUse(mem, Next(mem, b))
  }

  /** The merge condition on the block list: the block at `b` is the `i`-th
      entry, and `coalesce` merges exactly when that entry and the next one
      both exist and are free. */
  lemma {:induction false} MergeableInList(mem: seq<Word>, b: int) returns (i: nat)
    requires WellFormed(mem) && IsBlock(mem, b)
    ensures i < |Blocks(mem)| && Blocks(mem)[i] == Block(BlockSize(mem, b), InUse(mem, b))
    ensures Mergeable(mem, b) <==>
      i + 1 < |Blocks(mem)| && !Blocks(mem)[i].inUse && !Blocks(mem)[i + 1].inUse
  {
    BlockOnChain(mem, b);
    ChainJoin(mem, 0, b);
    var n := Next(mem, b);
    var pre := BlocksBetween(mem, 0, b);
    var rest := BlocksFrom(mem, n);
    assert BlocksFrom(mem, b) == [Block(BlockSize(mem, b), InUse(mem, b))] + rest;
    assert Blocks(mem) == pre + ([Block(BlockSize(mem, b), InUse(mem, b))] + rest);
    i := |pre|;
    if WithinHeap(ArenaSize(mem), n) {
      assert rest[0] == Block(BlockSize(mem, n), InUse(mem, n));
      assert Blocks(mem)[i + 1] == rest[0];
    } else {
      assert rest == [];
    }
  }

  /** The arena after `coalesce(h, b)`: when both blocks are free, one free
      header/footer pair spanning both; otherwise the arena as it was. The
      `int` sum of the two sizes is below 2^32 here, so its conversions to
      `int` and back to `block_size_t` change nothing. */
  function Coalesced(mem: seq<Word>, b: int): (m': seq<Word>)
    requires WellFormed(mem) && IsBlock(mem, b)
    ensures |m'| == |mem| && IsWord(m', b)
    ensures InUse(m', b) == InUse(mem, b) && BlockSize(mem, b) <= BlockSize(m', b)
    ensures Mergeable(mem, b) <==> BlockSize(mem, b) < BlockSize(m', b)
  {
    BlockOnChain(mem, b);
    if !InUse(mem, b) then
      var next := Next(mem, b);
      if WithinHeap(ArenaSize(mem), next) && !InUse(mem, next) then
        var s := BlockSize(mem, b) + BlockSize(mem, next);
        SetHeaderAgreement(mem, b, s, false);
        WithHeader(mem, b, s, false)
      else
        mem
    else
      mem
  }

  /** `coalesce` is a no-op when the block is in use, when it is the last
      block, or when its successor is in use. */
  lemma {:induction false} CoalesceNoOp(mem: seq<Word>, b: int)
    requires WellFormed(mem) && IsBlock(mem, b) && !Mergeable(mem, b)
    ensures Coalesced(mem, b) == mem
  {
  }

  /** Otherwise `coalesce` rewrites exactly two words, the header of the
      first block and the footer of the second, with the tag of one free block
      whose size is the two sizes summed. */
  lemma {:induction false} CoalesceWords(mem: seq<Word>, b: int)
    requires WellFormed(mem) && IsBlock(mem, b) && Mergeable(mem, b)
    ensures var n := Next(mem, b);
      var s := BlockSize(mem, b) + BlockSize(mem, n);
      var e := Next(mem, n);
      var m' := Coalesced(mem, b);
      && e <= |mem|
      && m' != mem
      && m'[b] == s
      && m'[e - 1] == s
      && forall k :: 0 <= k < |mem| && k != b && k != e - 1 ==> m'[k] == mem[k]
  {
    var n, e := MergeSpan(mem, b);
    var s := BlockSize(mem, b) + BlockSize(mem, n);
    assert s / 4 == e - b;
    assert Coalesced(mem, b) == WithHeader(mem, b, s, false);
    SetHeaderAgreement(mem, b, s, false);
  }

  /** ... and the arena stays well-formed, its block list being the old one
      with the two entries of the merged blocks replaced by one free entry. */
  lemma {:induction false} CoalesceMerges(mem: seq<Word>, b: int)
    requires WellFormed(mem) && IsBlock(mem, b) && Mergeable(mem, b)
    ensures var s1 := BlockSize(mem, b);
      var s2 := BlockSize(mem, Next(mem, b));
      var m' := Coalesced(mem, b);
      var i := |BlocksBetween(mem, 0, b)|;
      && WellFormed(m')
      && i + 1 < |Blocks(mem)|
      && Blocks(mem)[i] == Block(s1, false)
      && Blocks(mem)[i + 1] == Block(s2, false)
      && Blocks(m') == Blocks(mem)[..i] + [Block(s1 + s2, false)] + Blocks(mem)[i + 2..]
  {
    var s1, s2 := BlockSize(mem, b), BlockSize(mem, Next(mem, b));
    var pre, post := CoalesceSplice(mem, b);
    ReplacePair(Blocks(mem), pre, Block(s1, false), Block(s2, false), Block(s1 + s2, false), post);
  }

  /** The block lists before and after a merge, around the merged blocks. */
  lemma {:induction false} CoalesceSplice(mem: seq<Word>, b: int) returns (pre: seq<Block>, post: seq<Block>)
    requires WellFormed(mem) && IsBlock(mem, b) && Mergeable(mem, b)
    ensures var s1 := BlockSize(mem, b);
      var s2 := BlockSize(mem, Next(mem, b));
      && WellFormed(Coalesced(mem, b))
      && pre == BlocksBetween(mem, 0, b)
      && Blocks(mem) == pre + ([Block(s1, false), Block(s2, false)] + post)
      && Blocks(Coalesced(mem, b)) == pre + ([Block(s1 + s2, false)] + post)
  {
    var n, e := MergeSpan(mem, b);
    var s1, s2 := BlockSize(mem, b), BlockSize(mem, n);
    CoalescedWritten(mem, b, n, e);
    SpliceOne(mem, Coalesced(mem, b), b, e, s1 + s2, e - b, false);
    pre, post := BlocksBetween(mem, 0, b), BlocksFrom(mem, e);
  }

  /** When the blocks merge, `coalesce` writes one free block over both. */
  lemma {:induction false} CoalescedWritten(mem: seq<Word>, b: int, n: int, e: int)
    requires WellFormed(mem) && IsBlock(mem, b) && Mergeable(mem, b)
    requires n == Next(mem, b) && ValidBlockAt(mem, n) && e == Next(mem, n)
    requires (e - b) % 2 == 0
    ensures Written(mem, Coalesced(mem, b), b, e - b, false)
  {
    var s := BlockSize(mem, b) + BlockSize(mem, n);
    assert Coalesced(mem, b) == WithHeader(mem, b, s, false);
    WriteBlock(mem, b, s, e - b, false);
  }

  /** The two blocks `coalesce` merges: the second starts at `n` and ends at
      `e`, and the blocks walked from `b` to `e` are just these two. */
  lemma {:induction false} MergeSpan(mem: seq<Word>, b: int) returns (n: int, e: int)
    requires WellFormed(mem) && IsBlock(mem, b) && Mergeable(mem, b)
    ensures n == Next(mem, b) && ValidBlockAt(mem, n) && e == Next(mem, n)
    ensures 4 * (e - b) == BlockSize(mem, b) + BlockSize(mem, n)
    ensures (e - b) % 2 == 0 && 2 <= e - b && e <= |mem|
    ensures ChainFrom(mem, e) && Reaches(mem, b, e)
    ensures BlocksBetween(mem, b, e) == [Block(BlockSize(mem, b), false), Block(BlockSize(mem, n), false)]
  {
    BlockOnChain(mem, b);
    n := Next(mem, b);
    e := Next(mem, n);
    assert ValidBlockAt(mem, n) && ChainFrom(mem, e);
    OneBlockWalk(mem, b);
    OneBlockWalk(mem, n);
    ReachesTrans(mem, b, n, e);
  }

  /** Coalescing keeps the arena well-formed, whatever the case. */
  lemma {:induction false} CoalescePreservesWellFormed(mem: seq<Word>, b: int)
    requires WellFormed(mem) && IsBlock(mem, b)
    ensures WellFormed(Coalesced(mem, b))
  {
    if Mergeable(mem, b) {
      CoalesceMerges(mem, b);
    }
  }
}
