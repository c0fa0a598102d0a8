/** The 128-byte data blocks of kernel/fs.h, and the free-list pointer that overlies a free one. */
module Blocks {
  import opened Common

  const START_ADDR: nat := 0xffff_8000_7fc4_2000
  const STRIDE: nat := 0x1000            // one block at the start of each page
  const BLOCK_SIZE: nat := 128
  const BLOCK_DATA_SIZE: nat := 124
  const SLOTS: nat := 129                // MAX_BLOCK_SIZE + 1
  const BLOCK_INDEX_END: nat := 0xFFFF_FFFF

  type byte = b: int | 0 <= b < 256

  /** data_block_t: a 4-byte index and 124 data bytes. */
  datatype Block = Block(index: nat, data: seq<byte>)

  ghost predicate BlockOk(b: Block) {
    b.index < TWO32 && |b.data| == BLOCK_DATA_SIZE
  }

  // ----- slots: block number 32 * s is the only one used in page s

  function SlotAddr(s: nat): nat {
    START_ADDR + STRIDE * s
  }

  /** The block number of an address, as fs.c computes it from two pointers. */
  function IndexOf(addr: nat): int {
    (addr - START_ADDR) / BLOCK_SIZE
  }

  function SlotIndex(s: nat): nat {
    32 * s
  }

  /** Does this block number name one of the 129 blocks? */
  predicate IsSlot(index: nat) {
    index % 32 == 0 && index / 32 < SLOTS
  }

  lemma SlotArithmetic(s: nat)
    requires s < SLOTS
    ensures SlotAddr(s) == 0xffff_8000_7fc4_2000 + 0x1000 * s && IndexOf(SlotAddr(s)) == SlotIndex(s) == 32 * s
    ensures IsSlot(SlotIndex(s)) && SlotIndex(s) / 32 == s
    ensures SlotIndex(s) < BLOCK_INDEX_END && 0 < SlotAddr(s) < TWO64
  {
  }

  // ----- a free block: struct node { struct node *next; } laid over the index and four data bytes

  /** The 8-byte little-endian pointer at the start of a block. */
  function ReadNext(b: Block): nat
    requires BlockOk(b)
  {
    var d0: int, d1: int, d2: int, d3: int := b.data[0], b.data[1], b.data[2], b.data[3];
    b.index + TWO32 * (d0 + 256 * (d1 + 256 * (d2 + 256 * d3)))
  }

  function WriteNext(b: Block, p: nat): Block
    requires BlockOk(b)
  {
    var high := p / TWO32;
    Block(p % TWO32, [high % 256, high / 256 % 256, high / 65536 % 256, high / 16777216 % 256] + b.data[4..])
  }

  lemma FourBytes(high: nat)
    requires high < TWO32
    ensures high % 256 + 256 * (high / 256 % 256 + 256 * (high / 65536 % 256 + 256 * (high / 16777216 % 256))) == high
  {
    assert high / 256 / 256 == high / 65536;
    assert high / 65536 / 256 == high / 16777216;
  }

  /** Linking a block into the free list and following the link gives the pointer back. */
  lemma NextRoundTrip(b: Block, p: nat)
    requires BlockOk(b) && p < TWO64
    ensures BlockOk(WriteNext(b, p)) && ReadNext(WriteNext(b, p)) == p
  {
    FourBytes(p / TWO32);
  }

  /** The index field of a block that has been linked in front of a free block is never a block number. */
  lemma LinkedIndexIsWild(b: Block, s: nat)
    requires BlockOk(b) && s < SLOTS
    ensures WriteNext(b, SlotAddr(s)).index == 0x7fc4_2000 + 0x1000 * s
    ensures !IsSlot(WriteNext(b, SlotAddr(s)).index) && WriteNext(b, SlotAddr(s)).index != BLOCK_INDEX_END
  {
    var low := 0x7fc4_2000 + STRIDE * s;
    assert SlotAddr(s) == 0xffff_8000 * TWO32 + low;
    LowWord(0xffff_8000, low);
    assert WriteNext(b, SlotAddr(s)).index == low;
    assert 32 * SLOTS <= low;
  }

  lemma LowWord(high: nat, low: nat)
    requires low < TWO32
    ensures (high * TWO32 + low) % TWO32 == low
  {
  }

  /** The index field of the last block of the free list reads as block number 0. */
  lemma LinkedIndexAtEnd(b: Block)
    requires BlockOk(b)
    ensures WriteNext(b, 0).index == 0
  {
  }
}
