/** Traversal of the implicit block chain (implicit.c:64-108) and the
    well-formedness invariant the loop idiom
    `for (blk = h->start; is_within_heap_range(h, blk); blk = get_next_block(blk))`
    relies on: walking from the first block by block sizes visits well-formed
    blocks (header equal to footer) and ends exactly at the end of the arena.
    Block pointers are header-word indices, as in the codec. */
module Chain {
  import opened Config
  import opened BlockCodec

  /** `h->size` of an arena held in `mem`. */
  function ArenaSize(mem: seq<Word>): int
  {
    4 * |mem|
  }

  /** `is_within_heap_range(h, addr)` for the word at index `w`, with `size`
      being `h->size` in bytes. */
  predicate WithinHeap(size: int, w: int)
  {
    0 <= 4 * w < size
  }

  /** `is_first_block(h, b)`. */
  predicate IsFirstBlock(b: int)
  {
    b == 0
  }

  /** `get_next_block`: the block size is added to the pointer. */
  function Next(mem: seq<Word>, b: int): (n: int)
    requires IsWord(mem, b)
    ensures 4 * (n - b) == BlockSize(mem, b)
  {
    b + SizeWords(mem, b)
  }

  /** `get_previous_block`: the size is read from the footer just before `b`,
      so `b` must not be the first block. */
  function Previous(mem: seq<Word>, b: int): (p: int)
    requires IsWord(mem, b - 1)
    ensures 4 * (b - p) == BlockSize(mem, b - 1)
  {
    b - SizeWords(mem, b - 1)
  }

  /** A block as the chain sees it. */
  datatype Block = Block(size: nat, inUse: bool)

  /** A well-formed block starts at `b`: it holds at least a header and a
      footer, its size keeps payloads aligned, it ends inside the arena and
      its footer equals its header. */
  ghost predicate ValidBlockAt(mem: seq<Word>, b: int)
  {
    && IsWord(mem, b)
    && var n := SizeWords(mem, b);
    && 2 <= n
    && n % 2 == 0
    && b + n <= |mem|
    && mem[b + n - 1] == mem[b]
  }

  /** Walking from `b` visits only well-formed blocks and stops exactly at the
      end of the arena. */
  ghost predicate ChainFrom(mem: seq<Word>, b: int)
    decreases |mem| - b
  {
    b == |mem| || (ValidBlockAt(mem, b) && ChainFrom(mem, Next(mem, b)))
  }

  /** The chain invariant of an arena: it tiles `[0, h->size)` exactly and is
      small enough for a 32-bit block size to describe any block in it. */
  ghost predicate WellFormed(mem: seq<Word>)
  {
    ArenaSize(mem) < U32 && ChainFrom(mem, 0)
  }

  /** Walking from `c` passes through well-formed blocks and arrives at `b`. */
  ghost predicate Reaches(mem: seq<Word>, c: int, b: int)
    decreases b - c
  {
    c == b || (c < b && ValidBlockAt(mem, c) && Reaches(mem, Next(mem, c), b))
  }

  /** `b` is the start of a block of the arena's chain. */
  ghost predicate IsBlock(mem: seq<Word>, b: int)
  {
    Reaches(mem, 0, b) && ValidBlockAt(mem, b)
  }

  /** The blocks of the chain from `b` to the end of the arena. */
  ghost function BlocksFrom(mem: seq<Word>, b: int): seq<Block>
    requires ChainFrom(mem, b)
    decreases |mem| - b
  {
    if b == |mem| then []
    else [Block(BlockSize(mem, b), InUse(mem, b))] + BlocksFrom(mem, Next(mem, b))
  }

  /** The blocks walked over from `c` up to, not including, `b`. */
  ghost function BlocksBetween(mem: seq<Word>, c: int, b: int): seq<Block>
    requires Reaches(mem, c, b)
    decreases b - c
  {
    if c == b then []
    else [Block(BlockSize(mem, c), InUse(mem, c))] + BlocksBetween(mem, Next(mem, c), b)
  }

  /** All blocks of the arena, in address order. */
  ghost function Blocks(mem: seq<Word>): seq<Block>
    requires ChainFrom(mem, 0)
  {
    BlocksFrom(mem, 0)
  }

  /** The sum of the sizes of `bs`. */
  function TotalSize(bs: seq<Block>): nat
  {
    if bs == [] then 0 else bs[0].size + TotalSize(bs[1..])
  }

  /** The sum of the sizes of the free blocks of `bs`. */
  function SumFree(bs: seq<Block>): nat
  {
    if bs == [] then 0 else (if bs[0].inUse then 0 else bs[0].size) + SumFree(bs[1..])
  }

  /** The number of free blocks of `bs`. */
  function CountFree(bs: seq<Block>): nat
  {
    if bs == [] then 0 else (if bs[0].inUse then 0 else 1) + CountFree(bs[1..])
  }

  /** Replacing one entry of a sequence by several. */
  lemma {:induction false} ReplaceOne<T>(all: seq<T>, pre: seq<T>, x: T, ys: seq<T>, post: seq<T>)
    requires all == pre + ([x] + post)
    ensures |pre| < |all| && all[|pre|] == x
    ensures pre + (ys + post) == all[..|pre|] + ys + all[|pre| + 1..]
  {
    assert all[..|pre|] == pre;
    assert all[|pre| + 1..] == post;
  }

  /** Replacing two adjacent entries of a sequence by one. */
  lemma {:induction false} ReplacePair<T>(all: seq<T>, pre: seq<T>, x: T, y: T, z: T, post: seq<T>)
    requires all == pre + ([x, y] + post)
    ensures |pre| + 1 < |all| && all[|pre|] == x && all[|pre| + 1] == y
    ensures pre + ([z] + post) == all[..|pre|] + [z] + all[|pre| + 2..]
  {
    assert all[..|pre|] == pre;
    assert all[|pre| + 2..] == post;
  }

  /** Free bytes never exceed all bytes. */
  lemma {:induction false} SumFreeAtMostTotal(bs: seq<Block>)
    ensures SumFree(bs) <= TotalSize(bs)
    decreases |bs|
  {
    if bs != [] {
      SumFreeAtMostTotal(bs[1..]);
    }
  }

  /** The sum invariant: the block sizes of a chain add up to the bytes it
      spans, and every block is at least a header and a footer, in whole
      alignment units. */
  lemma {:induction false} ChainTiles(mem: seq<Word>, b: int)
    requires ChainFrom(mem, b)
    ensures TotalSize(BlocksFrom(mem, b)) == 4 * (|mem| - b)
    ensures forall i :: 0 <= i < |BlocksFrom(mem, b)| ==>
      BlocksFrom(mem, b)[i].size >= 2 * HeaderSize && BlocksFrom(mem, b)[i].size % 8 == 0
    decreases |mem| - b
  {
    if b != |mem| {
      var n := Next(mem, b);
      ChainTiles(mem, n);
      var bs := BlocksFrom(mem, b);
      assert bs[1..] == BlocksFrom(mem, n);
      forall i | 0 <= i < |bs|
        ensures bs[i].size >= 2 * HeaderSize && bs[i].size % 8 == 0
      {
        if i > 0 {
          assert bs[i] == BlocksFrom(mem, n)[i - 1];
        }
      }
    }
  }

  /** The blocks walked from `c` to `b` span exactly the bytes between them. */
  lemma {:induction false} BetweenTiles(mem: seq<Word>, c: int, b: int)
    requires Reaches(mem, c, b)
    ensures TotalSize(BlocksBetween(mem, c, b)) == 4 * (b - c)
    decreases b - c
  {
    if c != b {
      BetweenTiles(mem, Next(mem, c), b);
    }
  }

  /** Every block of a chain that starts at an 8-byte boundary does too: with
      `(h->start + 4) % 8 == 0`, every payload is 8-aligned. */
  lemma {:induction false} ReachesAligned(mem: seq<Word>, c: int, b: int)
    requires Reaches(mem, c, b) && (4 * c) % 8 == 0
    ensures (4 * b) % 8 == 0
    decreases b - c
  {
    if c != b {
      ReachesAligned(mem, Next(mem, c), b);
    }
  }

  /** A well-formed block is walked over in one step. */
  lemma {:induction false} OneBlockWalk(mem: seq<Word>, b: int)
    requires ValidBlockAt(mem, b)
    ensures Reaches(mem, b, Next(mem, b))
    ensures BlocksBetween(mem, b, Next(mem, b)) == [Block(BlockSize(mem, b), InUse(mem, b))]
  {
    assert Reaches(mem, Next(mem, b), Next(mem, b));
  }

  /** A walk may be extended by one well-formed block. */
  lemma {:induction false} ReachesStep(mem: seq<Word>, c: int, b: int)
    requires Reaches(mem, c, b) && ValidBlockAt(mem, b)
    ensures Reaches(mem, c, Next(mem, b))
    ensures BlocksBetween(mem, c, Next(mem, b)) == BlocksBetween(mem, c, b) + [Block(BlockSize(mem, b), InUse(mem, b))]
    decreases b - c
  {
    if c != b {
      ReachesStep(mem, Next(mem, c), b);
    } else {
      assert Reaches(mem, Next(mem, b), Next(mem, b));
    }
  }

  /** A chain from `c` through `b` is the blocks walked before `b` followed by
      the chain from `b`; and a chain from `b` extends to any walk ending at `b`. */
  lemma {:induction false} ChainJoin(mem: seq<Word>, c: int, b: int)
    requires Reaches(mem, c, b) && ChainFrom(mem, b)
    ensures ChainFrom(mem, c)
    ensures BlocksFrom(mem, c) == BlocksBetween(mem, c, b) + BlocksFrom(mem, b)
    decreases b - c
  {
    if c != b {
      var n := Next(mem, c);
      ChainJoin(mem, n, b);
      var x := [Block(BlockSize(mem, c), InUse(mem, c))];
      var between, from := BlocksBetween(mem, n, b), BlocksFrom(mem, b);
      assert BlocksFrom(mem, c) == x + (between + from);
      assert x + (between + from) == (x + between) + from;
    }
  }

  /** The chain from a block reached by walking a chain is itself a chain. */
  lemma {:induction false} ChainSuffix(mem: seq<Word>, c: int, b: int)
    requires ChainFrom(mem, c) && Reaches(mem, c, b)
    ensures ChainFrom(mem, b)
    decreases b - c
  {
    if c != b {
      ChainSuffix(mem, Next(mem, c), b);
    }
  }

  /** Two walks that meet make one walk, listing the blocks of both. */
  lemma {:induction false} ReachesTrans(mem: seq<Word>, a: int, b: int, c: int)
    requires Reaches(mem, a, b) && Reaches(mem, b, c)
    ensures Reaches(mem, a, c)
    ensures BlocksBetween(mem, a, c) == BlocksBetween(mem, a, b) + BlocksBetween(mem, b, c)
    decreases b - a
  {
    if a != b {
      var n := Next(mem, a);
      ReachesTrans(mem, n, b, c);
      var x := [Block(BlockSize(mem, a), InUse(mem, a))];
      var ab, bc := BlocksBetween(mem, n, b), BlocksBetween(mem, b, c);
      assert BlocksBetween(mem, a, c) == x + (ab + bc);
      assert x + (ab + bc) == (x + ab) + bc;
    }
  }

  /** A block reached in a well-formed arena, and not past its end, is a
      well-formed block, and its successor is reached in turn. */
  lemma {:induction false} BlockOnChain(mem: seq<Word>, b: int)
    requires WellFormed(mem) && Reaches(mem, 0, b) && WithinHeap(ArenaSize(mem), b)
    ensures IsBlock(mem, b) && ChainFrom(mem, b) && ChainFrom(mem, Next(mem, b))
    ensures Reaches(mem, 0, Next(mem, b))
    ensures WithinHeap(ArenaSize(mem), Next(mem, b)) ==> ValidBlockAt(mem, Next(mem, b))
  {
    ChainSuffix(mem, 0, b);
    ReachesStep(mem, 0, b);
  }

  /** In a well-formed arena the block starts are exactly the words inside
      the arena that the walk from the first block reaches. */
  lemma {:induction false} IsBlockIff(mem: seq<Word>, b: int)
    requires WellFormed(mem)
    ensures IsBlock(mem, b) <==> Reaches(mem, 0, b) && WithinHeap(ArenaSize(mem), b)
  {
    if Reaches(mem, 0, b) && WithinHeap(ArenaSize(mem), b) {
      BlockOnChain(mem, b);
    }
  }

  /** `is_within_heap_range` on the arena's own size picks out exactly the
      words of the arena; the end of the arena is outside it. */
  lemma {:induction false} WithinHeapIsWord(mem: seq<Word>, w: int)
    ensures WithinHeap(ArenaSize(mem), w) <==> IsWord(mem, w)
    ensures !WithinHeap(ArenaSize(mem), |mem|)
  {
  }

  /** `is_first_block` holds of a block exactly when no footer word precedes
      it, that is, exactly when `get_previous_block` cannot be applied. */
  lemma {:induction false} FirstBlockIff(mem: seq<Word>, b: int)
    requires IsBlock(mem, b)
    ensures IsFirstBlock(b) <==> !IsWord(mem, b - 1)
  {
  }

  /** A chain from `b` is a walk from `b` that arrives at the end of the
      arena. */
  lemma {:induction false} ChainFromIff(mem: seq<Word>, b: int)
    requires 0 <= b <= |mem|
    ensures ChainFrom(mem, b) <==> Reaches(mem, b, |mem|)
    decreases |mem| - b
  {
    if b < |mem| && ValidBlockAt(mem, b) {
      ChainFromIff(mem, Next(mem, b));
    }
  }

  /** A chain from an 8-aligned block ends on an 8-aligned end. */
  lemma {:induction false} ChainEndsAligned(mem: seq<Word>, b: int)
    requires ChainFrom(mem, b) && b % 2 == 0
    ensures |mem| % 2 == 0
    decreases |mem| - b
  {
    if b != |mem| {
      ChainEndsAligned(mem, Next(mem, b));
    }
  }

  /** The chain invariant: the arena is below 2^32 bytes and the walk from
      the first block ends exactly at its end. Such an arena is a whole
      number of 8-byte units and, unless empty, starts with a block. */
  lemma {:induction false} WellFormedArena(mem: seq<Word>)
    ensures WellFormed(mem) <==> ArenaSize(mem) < U32 && Reaches(mem, 0, |mem|)
    ensures WellFormed(mem) ==> ArenaSize(mem) % 8 == 0 && (|mem| > 0 ==> IsBlock(mem, 0))
  {
    ChainFromIff(mem, 0);
    if WellFormed(mem) {
      ChainEndsAligned(mem, 0);
    }
  }

  /** One step of a walk that tallies free blocks: the block at `b` counts
      towards the free sum and count exactly when it is free. */
  lemma {:induction false} FreeTallyStep(mem: seq<Word>, b: int)
    requires ChainFrom(mem, b) && b < |mem|
    ensures ValidBlockAt(mem, b) && ChainFrom(mem, Next(mem, b))
    ensures var rest := BlocksFrom(mem, Next(mem, b));
      var free := !InUse(mem, b);
      && SumFree(BlocksFrom(mem, b)) == (if free then BlockSize(mem, b) else 0) + SumFree(rest)
      && CountFree(BlocksFrom(mem, b)) == (if free then 1 else 0) + CountFree(rest)
  {
    var bs := BlocksFrom(mem, b);
    assert bs[1..] == BlocksFrom(mem, Next(mem, b));
  }

  /** Walking visits the block starts at the running sums of the block sizes:
      the `i`-th block of the chain from `c` starts
      `TotalSize(blocks[..i])` bytes after `c`, is reached from `c`, and has
      the size and flag the chain lists for it. */
  lemma {:induction false} BlockStarts(mem: seq<Word>, c: int, i: int) returns (b: int)
    requires ChainFrom(mem, c) && 0 <= i < |BlocksFrom(mem, c)|
    ensures var bs := BlocksFrom(mem, c);
      && 4 * (b - c) == TotalSize(bs[..i])
      && Reaches(mem, c, b) && ValidBlockAt(mem, b) && ChainFrom(mem, b)
      && BlocksBetween(mem, c, b) == bs[..i]
      && BlocksFrom(mem, b) == bs[i..]
      && bs[i] == Block(BlockSize(mem, b), InUse(mem, b))
    decreases i
  {
    var bs := BlocksFrom(mem, c);
    if i > 0 {
      var n := Next(mem, c);
      var rest := BlocksFrom(mem, n);
      var x := Block(BlockSize(mem, c), InUse(mem, c));
      assert bs == [x] + rest;
      b := BlockStarts(mem, n, i - 1);
      ConsSlices(x, rest, i);
      assert BlocksBetween(mem, c, b) == [x] + BlocksBetween(mem, n, b);
    } else {
      b := c;
      assert bs[..0] == [];
      assert bs[0..] == bs;
    }
  }

  /** Prefixes and suffixes of a sequence with a first element put in front. */
  lemma {:induction false} ConsSlices(x: Block, rest: seq<Block>, i: int)
    requires 0 < i <= |rest| + 1
    ensures ([x] + rest)[..i] == [x] + rest[..i - 1]
    ensures ([x] + rest)[i..] == rest[i - 1..]
    ensures TotalSize(([x] + rest)[..i]) == x.size + TotalSize(rest[..i - 1])
  {
    assert ([x] + rest[..i - 1])[1..] == rest[..i - 1];
  }

  /** `previous` inverts `next`: for a block of the chain, the footer just
      before its successor names the block itself. */
  lemma {:induction false} PreviousInvertsNext(mem: seq<Word>, b: int)
    requires WellFormed(mem) && Reaches(mem, 0, b) && WithinHeap(ArenaSize(mem), b)
    ensures ValidBlockAt(mem, b)
    ensures IsWord(mem, Next(mem, b) - 1) && Previous(mem, Next(mem, b)) == b
  {
    BlockOnChain(mem, b);
  }

  /** `next` inverts `previous`: every block of the chain except the first
      has a predecessor on the chain, found from its footer, whose successor
      is the block again. */
  lemma {:induction false} NextInvertsPrevious(mem: seq<Word>, c: int)
    requires Reaches(mem, 0, c) && !IsFirstBlock(c)
    ensures IsWord(mem, c - 1)
    ensures Reaches(mem, 0, Previous(mem, c)) && ValidBlockAt(mem, Previous(mem, c))
    ensures Next(mem, Previous(mem, c)) == c
  {
    PreviousWalk(mem, 0, c);
  }

  lemma {:induction false} PreviousWalk(mem: seq<Word>, a: int, c: int)
    requires Reaches(mem, a, c) && a < c
    ensures IsWord(mem, c - 1)
    ensures Reaches(mem, a, Previous(mem, c)) && ValidBlockAt(mem, Previous(mem, c))
    ensures Next(mem, Previous(mem, c)) == c
    decreases c - a
  {
    var n := Next(mem, a);
    if n != c {
      PreviousWalk(mem, n, c);
    }
  }
}
