/** The block codec of implicit.c: reading and writing the boundary tags.

    The arena is a sequence of 32-bit words starting at `h->start`. Every
    block starts at a word boundary, so a block pointer is modelled by the
    index `w` of its header word: the pointer itself is `h->start + 4 * w`.
    Pointer arithmetic by a byte count that is a multiple of 4 becomes index
    arithmetic by a quarter of it. */
module BlockCodec {
  import opened Config

  /** `w` is the index of a word of the arena. */
  predicate IsWord(mem: seq<Word>, w: int)
  {
    0 <= w < |mem|
  }

  /** The block size read from the header at `w`, counted in words. */
  function SizeWords(mem: seq<Word>, w: int): nat
    requires IsWord(mem, w)
  {
    mem[w] / 4
  }

  /** `get_block_size`: the header word with its two low bits masked off
      (`-HEADER_SIZE & word`). */
  function BlockSize(mem: seq<Word>, w: int): (s: nat)
    requires IsWord(mem, w)
    ensures s % 4 == 0 && s <= mem[w] < s + HeaderSize
  {
    4 * SizeWords(mem, w)
  }

  /** `block_is_in_use`: the low bit of the header word. */
  predicate InUse(mem: seq<Word>, w: int)
    requires IsWord(mem, w)
  {
    mem[w] % 2 == 1
  }

  /** `get_payload_size`: block size minus header and footer, computed in
      uint32 arithmetic, so a block size below 8 wraps around to a huge
      payload size. Adding the header and the footer back gives the block
      size again, or 2^32 more than it when the size is below 8. */
  function PayloadSize(mem: seq<Word>, w: int): (p: Word)
    requires IsWord(mem, w)
    ensures 2 * HeaderSize <= BlockSize(mem, w) ==> p + 2 * HeaderSize == BlockSize(mem, w)
    ensures BlockSize(mem, w) < 2 * HeaderSize ==> p + 2 * HeaderSize == BlockSize(mem, w) + U32
  {
    var s := BlockSize(mem, w);
    if s >= 2 * HeaderSize then s - 2 * HeaderSize else s - 2 * HeaderSize + U32
  }

  /** `get_payload`: the payload starts `HEADER_SIZE` bytes, one word, after
      the header. */
  function Payload(w: int): (p: int)
    ensures 4 * p == 4 * w + HeaderSize
  {
    w + 1
  }

  /** `get_block_start`: the inverse of `get_payload`. */
  function BlockStart(p: int): (w: int)
    ensures Payload(w) == p
  {
    p - 1
  }

  /** `get_block_start` and `get_payload` invert each other. */
  lemma {:induction false} PayloadRoundTrip(w: int, p: int)
    ensures BlockStart(Payload(w)) == w && Payload(BlockStart(p)) == p
  {
  }

  /** The tag `size | in_use` for an in-use flag of 0 or 1. */
  function Tag(s: Word, inUse: bool): (t: Word)
    ensures t / 2 == s / 2 && t / 4 == s / 4
    ensures t % 2 == 1 <==> inUse || s % 2 == 1
  {
    if inUse && s % 2 == 0 then
      SetLowBitQuotient(s);
      SetLowBitParity(s);
      s + 1
    else
      s
  }

  /** Setting the low bit of an even number keeps every other bit. */
  lemma {:induction false} SetLowBitQuotient(s: int)
    requires s % 2 == 0
    ensures (s + 1) / 2 == s / 2 && (s + 1) / 4 == s / 4
  {
  }

  /** Setting the low bit of an even number makes it odd. */
  lemma {:induction false} SetLowBitParity(s: int)
    requires s % 2 == 0
    ensures (s + 1) % 2 == 1
  {
  }

  /** The memory after `set_block_header(w, s, in_use)`: the tag goes to the
      header at `w`, and then to the footer, which is found from the header
      just written, `get_payload_size(w)` bytes after `get_payload(w)`. */
  function WithHeader(mem: seq<Word>, w: int, s: Word, inUse: bool): (m': seq<Word>)
    requires IsWord(mem, w)
    requires 2 * HeaderSize <= s && w + s / 4 <= |mem|
    ensures |m'| == |mem|
  {
    var header := Tag(s, inUse);
    var m1 := mem[w := header];
    var footer := Payload(w) + PayloadSize(m1, w) / 4;
    m1[footer := header]
  }

  /** Codec agreement: for a size that is a multiple of 4, `set_block_header`
      writes the same tag at both ends of the block, reading the block back
      gives the size and flag that were written, and no other word changes. */
  lemma {:induction false} SetHeaderAgreement(mem: seq<Word>, w: int, s: Word, inUse: bool)
    requires IsWord(mem, w)
    requires s % 4 == 0 && 2 * HeaderSize <= s && w + s / 4 <= |mem|
    ensures var m' := WithHeader(mem, w, s, inUse);
      && m'[w] == Tag(s, inUse) == s + (if inUse then 1 else 0)
      && m'[w + s / 4 - 1] == Tag(s, inUse)
      && SizeWords(m', w) == s / 4
      && BlockSize(m', w) == s
      && InUse(m', w) == inUse
      && PayloadSize(m', w) == s - 2 * HeaderSize
      && forall k :: 0 <= k < |mem| && k != w && k != w + s / 4 - 1 ==> m'[k] == mem[k]
  {
  }

  /** Decoding a header word: it is the tag of the size and the in-use flag
      read from it, plus the second bit, which neither reader looks at. */
  lemma {:induction false} HeaderDecodes(mem: seq<Word>, w: int)
    requires IsWord(mem, w)
    ensures mem[w] == Tag(BlockSize(mem, w), InUse(mem, w)) + 2 * (mem[w] / 2 % 2)
  {
    var x := mem[w];
    var q := x / 4;
    assert x == 4 * q + x % 4;
    assert x / 2 % 2 == x % 4 / 2;
    assert InUse(mem, w) <==> x % 4 % 2 == 1;
  }

  /** `set_block_header` for any size of at least 8 bytes, aligned or not:
      the footer is found by reading the header just written, and lands on
      the last whole word of the block. */
  lemma {:induction false} WithHeaderStores(mem: seq<Word>, w: int, s: Word, inUse: bool)
    requires IsWord(mem, w)
    requires 2 * HeaderSize <= s && w + s / 4 <= |mem|
    ensures WithHeader(mem, w, s, inUse) == mem[w := Tag(s, inUse)][w + s / 4 - 1 := Tag(s, inUse)]
  {
  }
}
