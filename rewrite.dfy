/** How `set_block_header` changes the chain: writing well-formed blocks over
    the span of some blocks of a well-formed arena keeps it well-formed and
    replaces just those blocks in its block list. */
module Rewrite {
  import opened Config
  import opened BlockCodec
  import opened Chain

  /** `m'` is `mem` with one well-formed block of `n` words written at `b`:
      the block reads back with that size and flag, and every word outside
      the block is as it was. */
  ghost predicate Written(mem: seq<Word>, m': seq<Word>, b: int, n: nat, inUse: bool)
  {
    && |m'| == |mem|
    && ValidBlockAt(m', b) && SizeWords(m', b) == n && InUse(m', b) == inUse
    && forall k :: 0 <= k < |mem| && (k < b || b + n <= k) ==> m'[k] == mem[k]
  }

  /** `set_block_header` with an aligned size of `s` bytes, `n` words, that
      fits writes one well-formed block. */
  lemma {:induction false} WriteBlock(mem: seq<Word>, b: int, s: Word, n: nat, inUse: bool)
    requires IsWord(mem, b) && 2 <= n && n % 2 == 0 && b + n <= |mem| && s == 4 * n
    ensures Written(mem, WithHeader(mem, b, s, inUse), b, n, inUse)
  {
    assert s / 4 == n;
    assert s % 4 == 0;
    SetHeaderAgreement(mem, b, s, inUse);
  }

  /** A block just written is walked over in one step. */
  lemma {:induction false} WrittenWalk(mem: seq<Word>, m': seq<Word>, b: int, n: nat, inUse: bool)
    requires Written(mem, m', b, n, inUse)
    ensures Next(m', b) == b + n && BlockSize(m', b) == 4 * n
    ensures Reaches(m', b, b + n) && BlocksBetween(m', b, b + n) == [Block(4 * n, inUse)]
  {
    assert Reaches(m', b + n, b + n);
  }

  /** `set_block_header(h->start, size, 0)` over a whole arena leaves one
      free block spanning it, whatever the arena held before. */
  lemma {:induction false} OneFreeBlock(mem: seq<Word>)
    requires 2 <= |mem| && |mem| % 2 == 0 && ArenaSize(mem) < U32
    ensures var m' := WithHeader(mem, 0, ArenaSize(mem), false);
      && WellFormed(m') && Blocks(m') == [Block(ArenaSize(mem), false)]
  {
    var n := |mem|;
    var m' := WithHeader(mem, 0, 4 * n, false);
    WriteBlock(mem, 0, 4 * n, n, false);
    WrittenWalk(mem, m', 0, n, false);
    assert ChainFrom(m', n) && BlocksFrom(m', n) == [];
    assert ChainFrom(m', 0);
  }

  /** Walking agrees on two memories that agree on every word of the walk. */
  lemma {:induction false} ReachesFrame(mem: seq<Word>, mem': seq<Word>, c: int, b: int)
    requires Reaches(mem, c, b) && |mem| == |mem'|
    requires forall k :: 0 <= k < |mem| && k < b ==> mem[k] == mem'[k]
    ensures Reaches(mem', c, b) && BlocksBetween(mem', c, b) == BlocksBetween(mem, c, b)
    decreases b - c
  {
    if c != b {
      var n := Next(mem, c);
      assert n <= b;
      assert mem'[c] == mem[c] && mem'[n - 1] == mem[n - 1];
      assert ValidBlockAt(mem', c) && Next(mem', c) == n;
      ReachesFrame(mem, mem', n, b);
    }
  }

  /** A chain depends only on the words from its start onwards. */
  lemma {:induction false} ChainFrame(mem: seq<Word>, mem': seq<Word>, x: int)
    requires ChainFrom(mem, x) && |mem| == |mem'| && 0 <= x
    requires forall k :: x <= k < |mem| ==> mem[k] == mem'[k]
    ensures ChainFrom(mem', x) && BlocksFrom(mem', x) == BlocksFrom(mem, x)
    decreases |mem| - x
  {
    if x != |mem| {
      var n := Next(mem, x);
      assert mem'[x] == mem[x] && mem'[n - 1] == mem[n - 1];
      assert ValidBlockAt(mem', x) && Next(mem', x) == n;
      ChainFrame(mem, mem', n);
    }
  }

  /** Rewriting the words of the span `[b, e)` of a well-formed arena, so that
      the span is walked by other well-formed blocks, keeps the arena
      well-formed and replaces just the span's blocks in the block list. */
  lemma {:induction false} Splice(mem: seq<Word>, mem': seq<Word>, b: int, e: int)
    requires WellFormed(mem) && Reaches(mem, 0, b) && Reaches(mem, b, e) && ChainFrom(mem, e)
    requires |mem'| == |mem| && 0 <= b
    requires forall k :: 0 <= k < |mem| && (k < b || e <= k) ==> mem'[k] == mem[k]
    requires Reaches(mem', b, e)
    ensures WellFormed(mem') && Reaches(mem', 0, b)
    ensures Blocks(mem) == BlocksBetween(mem, 0, b) + (BlocksBetween(mem, b, e) + BlocksFrom(mem, e))
    ensures Blocks(mem') == BlocksBetween(mem, 0, b) + (BlocksBetween(mem', b, e) + BlocksFrom(mem, e))
  {
    ReachesFrame(mem, mem', 0, b);
    ChainFrame(mem, mem', e);
    var pre, post := BlocksBetween(mem, 0, b), BlocksFrom(mem, e);
    ChainJoin(mem', b, e);
    ChainJoin(mem', 0, b);
    assert Blocks(mem') == pre + (BlocksBetween(mem', b, e) + post);
    ChainJoin(mem, b, e);
    ChainJoin(mem, 0, b);
    assert Blocks(mem) == pre + (BlocksBetween(mem, b, e) + post);
  }

  /** One block written over the whole span of the blocks walked from `b` to
      `e` takes their place. */
  lemma {:induction false} SpliceOne(mem: seq<Word>, m': seq<Word>, b: int, e: int, s: nat, n: nat, inUse: bool)
    requires WellFormed(mem) && Reaches(mem, 0, b) && Reaches(mem, b, e) && ChainFrom(mem, e)
    requires Written(mem, m', b, n, inUse) && e == b + n && s == 4 * n
    ensures WellFormed(m') && IsBlock(m', b)
    ensures Blocks(mem) == BlocksBetween(mem, 0, b) + (BlocksBetween(mem, b, e) + BlocksFrom(mem, e))
    ensures Blocks(m') == BlocksBetween(mem, 0, b) + ([Block(s, inUse)] + BlocksFrom(mem, e))
  {
    WrittenWalk(mem, m', b, n, inUse);
    Splice(mem, m', b, e);
  }

  /** Two blocks written one after the other are walked over in two steps,
      and the words outside both are as they were. */
  lemma {:induction false} WrittenTwoWalk(mem: seq<Word>, m1: seq<Word>, m2: seq<Word>, b: int,
                                          n1: nat, u1: bool, n2: nat, u2: bool)
    requires Written(mem, m1, b, n1, u1) && Written(m1, m2, b + n1, n2, u2)
    ensures |m2| == |mem| && ValidBlockAt(m2, b) && ValidBlockAt(m2, b + n1)
    ensures Reaches(m2, b, b + n1) && Reaches(m2, b, b + n1 + n2)
    ensures BlocksBetween(m2, b, b + n1 + n2) == [Block(4 * n1, u1), Block(4 * n2, u2)]
    ensures forall k :: 0 <= k < |mem| && (k < b || b + n1 + n2 <= k) ==> m2[k] == mem[k]
  {
    WrittenWalk(mem, m1, b, n1, u1);
    WrittenWalk(m1, m2, b + n1, n2, u2);
    ReachesFrame(m1, m2, b, b + n1);
    assert m2[b] == m1[b] && m2[b + n1 - 1] == m1[b + n1 - 1];
    assert ValidBlockAt(m2, b) && Next(m2, b) == b + n1;
    ReachesTrans(m2, b, b + n1, b + n1 + n2);
    assert BlocksBetween(m2, b, b + n1 + n2)
      == [Block(BlockSize(m2, b), InUse(m2, b))] + BlocksBetween(m2, b + n1, b + n1 + n2);
  }

  /** Two blocks written one after the other over the whole span of the
      blocks walked from `b` to `e` take their place. */
  lemma {:induction false} SpliceTwo(mem: seq<Word>, m1: seq<Word>, m2: seq<Word>, b: int, e: int,
                                     s1: nat, n1: nat, u1: bool, s2: nat, n2: nat, u2: bool)
    requires WellFormed(mem) && Reaches(mem, 0, b) && Reaches(mem, b, e) && ChainFrom(mem, e)
    requires Written(mem, m1, b, n1, u1) && Written(m1, m2, b + n1, n2, u2) && e == b + n1 + n2
    requires s1 == 4 * n1 && s2 == 4 * n2
    ensures WellFormed(m2) && IsBlock(m2, b) && IsBlock(m2, b + n1)
    ensures BlockSize(m2, b) == s1 && InUse(m2, b) == u1
    ensures Blocks(mem) == BlocksBetween(mem, 0, b) + (BlocksBetween(mem, b, e) + BlocksFrom(mem, e))
    ensures Blocks(m2) == BlocksBetween(mem, 0, b) + ([Block(s1, u1), Block(s2, u2)] + BlocksFrom(mem, e))
  {
    WrittenTwoWalk(mem, m1, m2, b, n1, u1, n2, u2);
    assert m2[b] == m1[b];
    Splice(mem, m2, b, e);
    ReachesTrans(m2, 0, b, b + n1);
  }
}
