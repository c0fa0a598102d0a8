/**
 The on-disk state of kernel/fs.c and its invariant: block chains, free list and file table, together with
 the layout they represent.
 */
module Disk {
  import opened Blocks

  datatype FileEntry = FileEntry(name: string, start: nat, size: nat)

  /** What the C code holds: the blocks, free_list, and the used part of the file table. */
  datatype Disk = Disk(blocks: seq<Block>, head: nat, entries: seq<FileEntry>)

  datatype Owner = InFile(e: nat, k: nat) | InFree(k: nat)

  /**
   The layout behind it: for each entry its chain of blocks, the free blocks with the head of the list last,
   and for each block the one place it has. The blocks that a deleted entry has leaked stay in its chain.
   */
  datatype Layout = Layout(chains: seq<seq<nat>>, free: seq<nat>, owner: seq<Owner>)

  // ----- the layout: every block in exactly one place

  ghost predicate Placed(l: Layout, s: nat)
    requires s < |l.owner|
  {
    match l.owner[s]
    case InFile(e, k) => e < |l.chains| && k < |l.chains[e]| && l.chains[e][k] == s
    case InFree(k) => k < |l.free| && l.free[k] == s
  }

  ghost predicate LayoutOk(l: Layout) {
    && |l.owner| == SLOTS
    && (forall e, k | 0 <= e < |l.chains| && 0 <= k < |l.chains[e]| ::
          l.chains[e][k] < SLOTS && l.owner[l.chains[e][k]] == InFile(e, k))
    && (forall k | 0 <= k < |l.free| :: l.free[k] < SLOTS && l.owner[l.free[k]] == InFree(k))
    && (forall s | 0 <= s < SLOTS :: Placed(l, s))
  }

  // ----- the pointers

  ghost predicate BlocksOk(bs: seq<Block>) {
    |bs| == SLOTS && forall s | 0 <= s < SLOTS :: BlockOk(bs[s])
  }

  ghost predicate InRange(c: seq<nat>) {
    forall k | 0 <= k < |c| :: c[k] < SLOTS
  }

  /** What free_list or a free block's pointer holds when n blocks of the list remain. */
  function TopAddr(free: seq<nat>, n: nat): nat
    requires n <= |free|
  {
    if n == 0 then 0 else SlotAddr(free[n - 1])
  }

  ghost predicate FreeLink(bs: seq<Block>, free: seq<nat>, k: nat)
    requires BlocksOk(bs) && k < |free| && free[k] < SLOTS
  {
    ReadNext(bs[free[k]]) == TopAddr(free, k)
  }

  ghost predicate FreeListOk(bs: seq<Block>, head: nat, free: seq<nat>)
    requires BlocksOk(bs) && InRange(free)
  {
    && head == TopAddr(free, |free|)
    && forall k | 0 <= k < |free| :: FreeLink(bs, free, k)
  }

  ghost predicate ChainLink(bs: seq<Block>, c: seq<nat>, k: nat)
    requires BlocksOk(bs) && InRange(c) && k + 1 < |c|
  {
    bs[c[k]].index == SlotIndex(c[k + 1])
  }

  /** The blocks of c follow one another; nothing is said of the last one. */
  ghost predicate Linked(bs: seq<Block>, c: seq<nat>)
    requires BlocksOk(bs) && InRange(c)
  {
    c != [] && forall k | 0 <= k < |c| - 1 :: ChainLink(bs, c, k)
  }

  ghost predicate Ended(bs: seq<Block>, c: seq<nat>)
    requires BlocksOk(bs) && InRange(c)
  {
    c != [] && bs[c[|c| - 1]].index == BLOCK_INDEX_END
  }

  /** Blocks a file of this size occupies: one at least, else as many as its bytes need. */
  function Need(size: nat): nat {
    if size == 0 then 1 else (size + BLOCK_DATA_SIZE - 1) / BLOCK_DATA_SIZE
  }

  /** A deleted entry keeps its place with an empty name; no live file has one. */
  predicate Live(entry: FileEntry) {
    entry.name != ""
  }

  ghost predicate FileOk(bs: seq<Block>, entry: FileEntry, c: seq<nat>)
    requires BlocksOk(bs) && InRange(c)
  {
    && c != []
    && (Live(entry) ==>
          && entry.start == SlotIndex(c[0])
          && |c| == Need(entry.size)
          && Linked(bs, c) && Ended(bs, c))
    && (!Live(entry) ==> entry.size == 0)
  }

  /** Everything but the pointers of the files. */
  ghost predicate BaseOk(d: Disk, l: Layout) {
    && BlocksOk(d.blocks)
    && LayoutOk(l)
    && InRange(l.free)
    && FreeListOk(d.blocks, d.head, l.free)
    && |l.chains| == |d.entries|
    && (forall e | 0 <= e < |l.chains| :: InRange(l.chains[e]))
  }

  ghost predicate Inv(d: Disk, l: Layout) {
    && BaseOk(d, l)
    && (forall e | 0 <= e < |d.entries| :: FileOk(d.blocks, d.entries[e], l.chains[e]))
  }

  // ----- the bytes of a file

  function ByteAt(bs: seq<Block>, c: seq<nat>, i: nat): byte {
    var k := i / BLOCK_DATA_SIZE;
    if k < |c| && c[k] < |bs| && i % BLOCK_DATA_SIZE < |bs[c[k]].data|
    then bs[c[k]].data[i % BLOCK_DATA_SIZE] else 0
  }

  function Content(bs: seq<Block>, c: seq<nat>, size: nat): (r: seq<byte>)
    ensures |r| == size
  {
    seq(size, i requires 0 <= i => ByteAt(bs, c, i))
  }

  // ----- frames

  lemma PlacesDiffer(l: Layout, e: nat, k: nat, s: nat)
    requires LayoutOk(l) && e < |l.chains| && k < |l.chains[e]| && s == l.chains[e][k]
    ensures forall f, j | 0 <= f < |l.chains| && 0 <= j < |l.chains[f]| && (f != e || j != k) :: l.chains[f][j] != s
    ensures s !in l.free
  {
    forall j | 0 <= j < |l.free|
      ensures l.free[j] != s
    {
    }
  }

  /** A file depends on its own blocks only. */
  lemma FileFrame(bs: seq<Block>, bs': seq<Block>, entry: FileEntry, c: seq<nat>)
    requires BlocksOk(bs) && BlocksOk(bs') && InRange(c) && FileOk(bs, entry, c)
    requires forall k | 0 <= k < |c| :: bs'[c[k]].index == bs[c[k]].index
    ensures FileOk(bs', entry, c)
  {
    if Live(entry) {
      forall k | 0 <= k < |c| - 1
        ensures ChainLink(bs', c, k)
      {
        assert ChainLink(bs, c, k);
      }
    }
  }

  lemma FreeFrame(bs: seq<Block>, bs': seq<Block>, head: nat, free: seq<nat>)
    requires BlocksOk(bs) && BlocksOk(bs') && InRange(free) && FreeListOk(bs, head, free)
    requires forall k | 0 <= k < |free| :: bs'[free[k]] == bs[free[k]]
    ensures FreeListOk(bs', head, free)
  {
    forall k | 0 <= k < |free|
      ensures FreeLink(bs', free, k)
    {
      assert FreeLink(bs, free, k);
    }
  }

  lemma ContentFrame(bs: seq<Block>, bs': seq<Block>, c: seq<nat>, size: nat)
    requires BlocksOk(bs) && BlocksOk(bs') && InRange(c)
    requires forall k | 0 <= k < |c| :: bs'[c[k]].data == bs[c[k]].data
    ensures Content(bs', c, size) == Content(bs, c, size)
  {
    forall i | 0 <= i < size
      ensures ByteAt(bs', c, i) == ByteAt(bs, c, i)
    {
    }
  }

  /** All bytes of a chain, beyond the end of the file too. */
  function Full(bs: seq<Block>, c: seq<nat>): seq<byte> {
    Content(bs, c, BLOCK_DATA_SIZE * |c|)
  }

  lemma ContentIsPrefix(bs: seq<Block>, c: seq<nat>, size: nat)
    requires size <= BLOCK_DATA_SIZE * |c|
    ensures Content(bs, c, size) == Full(bs, c)[..size]
  {
  }

  lemma ContentGrown(bs: seq<Block>, c: seq<nat>, s: nat, size: nat)
    requires size <= BLOCK_DATA_SIZE * |c|
    ensures Content(bs, c + [s], size) == Content(bs, c, size)
  {
    forall i | 0 <= i < size
      ensures ByteAt(bs, c + [s], i) == ByteAt(bs, c, i)
    {
      BlockOfByte(i, |c|);
    }
  }

  lemma BlockOfByte(i: nat, n: nat)
    requires i < BLOCK_DATA_SIZE * n
    ensures i / BLOCK_DATA_SIZE < n
  {
  }
}
