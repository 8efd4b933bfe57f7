/** Arenas laid out from a list of blocks, as the test fixtures build them
    (tests.c:14-50): one `set_block_header` per block, each block starting
    where the previous one ends. The words between a header and its footer
    are left at zero. */
module Tiling {
  import opened Config
  import opened BlockCodec
  import opened Chain

  /** A block size `set_block_header` can lay down in a chain: whole 8-byte
      units, at least a header and a footer, and within a `block_size_t`. */
  predicate FitsBlock(x: Block)
  {
    x.size % 8 == 0 && 2 * HeaderSize <= x.size < U32
  }

  predicate Fits(bs: seq<Block>)
  {
    forall i :: 0 <= i < |bs| ==> FitsBlock(bs[i])
  }

  /** The words of one block: its tag at both ends. */
  function TileOf(x: Block): (t: seq<Word>)
    requires FitsBlock(x)
    ensures 4 * |t| == x.size && 2 <= |t| && |t| % 2 == 0
    ensures t[0] == t[|t| - 1] && t[0] / 4 == |t| && (t[0] % 2 == 1 <==> x.inUse)
  {
    var n := x.size / 4;
    var tag := Tag(x.size, x.inUse);
    var t := [tag] + seq(n - 2, _ => 0) + [tag];
    assert |t| == n && t[0] == tag && t[n - 1] == tag;
    t
  }

  /** The words of the blocks `bs` laid out one after the other. */
  function Tiles(bs: seq<Block>): (m: seq<Word>)
    requires Fits(bs)
    ensures 4 * |m| == TotalSize(bs)
    decreases |bs|
  {
    if bs == [] then [] else TileOf(bs[0]) + Tiles(bs[1..])
  }

  /** Words put in front of an arena shift one of its blocks unchanged. */
  lemma {:induction false} ShiftBlock(p: seq<Word>, q: seq<Word>, j: int)
    requires 0 <= j && ValidBlockAt(q, j)
    ensures ValidBlockAt(p + q, |p| + j) && Next(p + q, |p| + j) == |p| + Next(q, j)
    ensures BlockSize(p + q, |p| + j) == BlockSize(q, j) && InUse(p + q, |p| + j) == InUse(q, j)
  {
    var m := p + q;
    var k := |p| + j;
    var n := SizeWords(q, j);
    assert m[k] == q[j] && m[k + n - 1] == q[j + n - 1];
  }

  /** Words put in front of an arena shift its chain without changing it. */
  lemma {:induction false} ShiftChain(p: seq<Word>, q: seq<Word>, j: int)
    requires 0 <= j && ChainFrom(q, j)
    ensures ChainFrom(p + q, |p| + j) && BlocksFrom(p + q, |p| + j) == BlocksFrom(q, j)
    decreases |q| - j
  {
    if j != |q| {
      ShiftBlock(p, q, j);
      ShiftChain(p, q, Next(q, j));
      assert BlocksFrom(p + q, |p| + j) ==
        [Block(BlockSize(q, j), InUse(q, j))] + BlocksFrom(p + q, |p| + Next(q, j));
    }
  }

  /** Laying out `bs` gives a chain whose block list is `bs` again. */
  lemma {:induction false} TilesChain(bs: seq<Block>)
    requires Fits(bs)
    ensures ChainFrom(Tiles(bs), 0) && BlocksFrom(Tiles(bs), 0) == bs
    decreases |bs|
  {
    if bs != [] {
      var x := bs[0];
      var t := TileOf(x);
      var rest := Tiles(bs[1..]);
      assert Fits(bs[1..]) by {
        forall i | 0 <= i < |bs[1..]| ensures FitsBlock(bs[1..][i]) {
          assert bs[1..][i] == bs[i + 1];
        }
      }
      TilesChain(bs[1..]);
      ShiftChain(t, rest, 0);
      var m := Tiles(bs);
      assert m == t + rest;
      var n := |t|;
      assert m[0] == t[0] && m[n - 1] == t[n - 1];
      assert SizeWords(m, 0) == n;
      assert ValidBlockAt(m, 0) && Next(m, 0) == n;
      assert Block(BlockSize(m, 0), InUse(m, 0)) == x;
      assert bs == [x] + bs[1..];
    }
  }

  /** A layout small enough for 32-bit sizes is a well-formed arena whose
      block list is the one laid out. */
  lemma {:induction false} TilesWellFormed(bs: seq<Block>)
    requires Fits(bs) && TotalSize(bs) < U32
    ensures WellFormed(Tiles(bs)) && Blocks(Tiles(bs)) == bs
  {
    TilesChain(bs);
  }
}
