/** malloc of stdlib/mem.c over the anonymous case of SYS_mmap in kernel/interrupts.c. */
module Heap {
  import opened Common

  const ALIGNMENT: nat := 16
  const MMAP_MEM_START: nat := 0x800_0000_0000

  /** ROUND_UP(x, y) */
  function RoundUp(x: nat, y: nat): nat
    requires 0 < y
  {
    if x % y == 0 then x else x + (y - x % y)
  }

  /** For the two units malloc rounds to: the least multiple of y that is not below x. */
  lemma RoundUpIsLeast(x: nat, y: nat)
    requires y == 16 || y == 0x1000
    ensures RoundUp(x, y) % y == 0 && x <= RoundUp(x, y) < x + y
    ensures forall k: nat | x <= k && k % y == 0 :: RoundUp(x, y) <= k
  {
  }

  lemma AlignedSum(a: nat, b: nat)
    requires b % ALIGNMENT == 0
    ensures (a + b) % ALIGNMENT == a % ALIGNMENT
  {
  }

  lemma PagesAreAligned(a: nat)
    requires a % PAGESIZE == 0
    ensures a % ALIGNMENT == 0
  {
  }

  // ----- SYS_mmap

  /** A call of vm_map, by the page and the rights it asks for. */
  datatype Mapping = Mapping(page: nat, user: bool, writable: bool, executable: bool)

  /**
   The calls of SYS_mmap for length bytes at addr: after those in before, one for each page in turn, with the
   rights that bits 0, 1 and 2 of prot stand for.
   */
  ghost predicate MappedInTurn(before: seq<Mapping>, after: seq<Mapping>, addr: nat, length: nat, prot: nat) {
    && before <= after && |after| == |before| + length / 0x1000
    && forall k | |before| <= k < |after| ::
         after[k] == Mapping((addr + (k - |before|) * 0x1000) % 0x1_0000_0000_0000_0000,
                             prot % 2 == 1, prot / 2 % 2 == 1, prot / 4 % 2 == 1)
  }

  ghost predicate HasPage(mapped: seq<Mapping>, page: nat) {
    exists k :: 0 <= k < |mapped| && mapped[k] == Mapping(page, true, true, false)
  }

  /** Every page that begins in [lo, hi) has been mapped for reading and writing by the user. */
  ghost predicate Covered(mapped: seq<Mapping>, lo: nat, hi: nat) {
    forall page: nat | lo <= page < hi && page % 0x1000 == 0 :: HasPage(mapped, page)
  }

  lemma HasPageKept(before: seq<Mapping>, after: seq<Mapping>, page: nat)
    requires before <= after && HasPage(before, page)
    ensures HasPage(after, page)
  {
    var k :| 0 <= k < |before| && before[k] == Mapping(page, true, true, false);
    assert after[k] == before[k];
  }

  lemma CoveredKept(before: seq<Mapping>, after: seq<Mapping>, lo: nat, hi: nat)
    requires before <= after && Covered(before, lo, hi)
    ensures Covered(after, lo, hi)
  {
    forall page: nat | lo <= page < hi && page % 0x1000 == 0
      ensures HasPage(after, page)
    {
      HasPageKept(before, after, page);
    }
  }

  /** In a region that does not wrap around, the pages mapped are exactly its page-aligned addresses, each once. */
  lemma RegionPages(before: seq<Mapping>, after: seq<Mapping>, addr: nat, length: nat, prot: nat)
    requires MappedInTurn(before, after, addr, length, prot)
    requires addr % 0x1000 == 0 && length % 0x1000 == 0 && addr + length <= 0x1_0000_0000_0000_0000
    ensures forall k | |before| <= k < |after| ::
              after[k].page % 0x1000 == 0 && addr <= after[k].page < addr + length
    ensures forall j, k | |before| <= j < k < |after| :: after[j].page != after[k].page
    ensures forall page: nat | addr <= page < addr + length && page % 0x1000 == 0 ::
              exists k :: |before| <= k < |after| && after[k].page == page
    ensures prot == 3 ==> Covered(after, addr, addr + length)
  {
    forall k | |before| <= k < |after|
      ensures after[k].page == addr + (k - |before|) * 0x1000 && after[k].page % 0x1000 == 0
      ensures addr <= after[k].page < addr + length
    {
      PageAt(addr, length, k - |before|);
    }
    forall page: nat | addr <= page < addr + length && page % 0x1000 == 0
      ensures exists k :: |before| <= k < |after| && after[k].page == page
      ensures prot == 3 ==> HasPage(after, page)
    {
      var k := |before| + (page - addr) / 0x1000;
      PageIndex(addr, length, page);
      assert after[k].page == page;
      assert prot == 3 ==> after[k] == Mapping(page, true, true, false);
    }
  }

  lemma PageAt(addr: nat, length: nat, k: nat)
    requires addr % 0x1000 == 0 && addr + length <= 0x1_0000_0000_0000_0000 && k < length / 0x1000
    ensures addr + k * 0x1000 < addr + length && (addr + k * 0x1000) % 0x1000 == 0
    ensures (addr + k * 0x1000) % 0x1_0000_0000_0000_0000 == addr + k * 0x1000
  {
  }

  lemma PageIndex(addr: nat, length: nat, page: nat)
    requires addr % 0x1000 == 0 && length % 0x1000 == 0 && addr <= page < addr + length && page % 0x1000 == 0
    ensures (page - addr) / 0x1000 < length / 0x1000 && addr + (page - addr) / 0x1000 * 0x1000 == page
  {
  }

  lemma PageAfter(a: nat, k: nat)
    ensures ((a + k * PAGESIZE) % TWO64 + PAGESIZE) % TWO64 == (a + (k + 1) * PAGESIZE) % TWO64
  {
    var x := a + k * PAGESIZE;
    assert a + (k + 1) * PAGESIZE == x + PAGESIZE;
    WordAdd(x, PAGESIZE);
  }

  lemma WordAdd(x: nat, y: nat)
    ensures (x % TWO64 + y) % TWO64 == (x + y) % TWO64
  {
  }

  /** By how much SYS_mmap moves mem_start: pages and pages * PAGESIZE are ints. */
  function Advance(length: nat): int {
    AsInt32(AsInt32(length / PAGESIZE) * PAGESIZE)
  }

  function NextStart(memStart: nat, length: nat): nat {
    (memStart + Advance(length)) % TWO64
  }

  /** Does the region stay below 2 GiB and inside the address space? */
  predicate Fits(memStart: nat, length: nat) {
    length < TWO31 && memStart + length < TWO64
  }

  lemma FitsBelow(memStart: nat, length: nat)
    requires Fits(memStart, length)
    ensures memStart + length < TWO64
  {
  }

  lemma AdvanceIsLength(length: nat)
    requires length % PAGESIZE == 0 && length < TWO64
    ensures -TWO31 <= Advance(length) < TWO31
    ensures Advance(length) == length <==> length < TWO31
  {
    Int32Range(length / PAGESIZE);
    Int32Range(AsInt32(length / PAGESIZE) * PAGESIZE);
  }

  /** From mem_start on, the next region starts where this one ends if and only if this one fits. */
  lemma NextStartIsEnd(memStart: nat, length: nat)
    requires length % PAGESIZE == 0 && length < TWO64 && MMAP_MEM_START <= memStart < TWO64
    ensures NextStart(memStart, length) == memStart + length <==> Fits(memStart, length)
  {
    AdvanceIsLength(length);
    WordOver(memStart + Advance(length));
  }

  lemma WordOver(x: nat)
    requires x < 2 * TWO64
    ensures x % TWO64 == if x < TWO64 then x else x - TWO64
  {
  }

  /** Where the overflow leaves the next start at or after this one, the next region overlaps this one. */
  lemma NextRegionOverlaps(memStart: nat, length: nat)
    requires length % PAGESIZE == 0 && TWO31 <= length && memStart + length < TWO64 && 0 <= Advance(length)
    ensures memStart <= NextStart(memStart, length) < memStart + length
  {
    AdvanceIsLength(length);
  }

  function Minus(length: nat, k: nat): nat {
    (length - k * PAGESIZE) % TWO64
  }

  /**
   The loop of SYS_mmap subtracts whole pages from a 64-bit unsigned length until it is zero. It comes to an
   end exactly when the length is a multiple of the page size, and then after length / PAGESIZE turns.
   */
  lemma MmapLoopEnds(length: nat)
    requires length < TWO64
    ensures (exists k: nat :: Minus(length, k) == 0) <==> length % PAGESIZE == 0
    ensures length % PAGESIZE == 0 ==>
      && Minus(length, length / PAGESIZE) == 0
      && forall k: nat | k < length / PAGESIZE :: Minus(length, k) == length - k * PAGESIZE > 0
  {
    if length % PAGESIZE == 0 {
      assert Minus(length, length / PAGESIZE) == 0;
    }
    forall k: nat | Minus(length, k) == 0
      ensures length % PAGESIZE == 0
    {
      var q := (length - k * PAGESIZE) / TWO64;
      assert length == k * PAGESIZE + q * TWO64;
      assert length == PAGESIZE * (k + q * 0x10_0000_0000_0000);
    }
  }

  datatype Region = Region(base: nat, size: nat)

  datatype Block = Block(addr: nat, size: nat)

  function EndOf(r: Region): nat {
    r.base + r.size
  }

  ghost predicate RegionAt(rs: seq<Region>, i: nat)
    requires i < |rs|
  {
    && rs[i].base % PAGESIZE == 0 && rs[i].size % PAGESIZE == 0 && 0 < rs[i].size
    && rs[i].base == if i == 0 then MMAP_MEM_START else EndOf(rs[i - 1])
  }

  /** Regions of whole pages, one after the other from MMAP_MEM_START up to mem_start. */
  ghost predicate RegionsOk(rs: seq<Region>, memStart: nat) {
    && (forall i | 0 <= i < |rs| :: RegionAt(rs, i))
    && memStart == (if rs == [] then MMAP_MEM_START else EndOf(rs[|rs| - 1]))
  }

  lemma {:induction false} RegionsAreHigh(rs: seq<Region>, memStart: nat)
    requires RegionsOk(rs, memStart)
    ensures MMAP_MEM_START <= memStart && memStart % PAGESIZE == 0
    decreases |rs|
  {
    if rs != [] {
      var init := rs[..|rs| - 1];
      assert RegionAt(rs, |rs| - 1);
      forall i | 0 <= i < |init|
        ensures RegionAt(init, i)
      {
        assert RegionAt(rs, i);
      }
      RegionsAreHigh(init, rs[|rs| - 1].base);
    }
  }

  lemma RegionAdded(rs: seq<Region>, memStart: nat, size: nat)
    requires RegionsOk(rs, memStart) && 0 < size && size % PAGESIZE == 0
    ensures RegionsOk(rs + [Region(memStart, size)], memStart + size)
  {
    RegionsAreHigh(rs, memStart);
    var rs' := rs + [Region(memStart, size)];
    forall i | 0 <= i < |rs'|
      ensures RegionAt(rs', i)
    {
      if i < |rs| {
        assert RegionAt(rs, i);
      }
    }
  }

  /** After one more region the list is in order if and only if that region fits. */
  lemma RegionAddedIff(rs: seq<Region>, memStart: nat, length: nat)
    requires memStart < TWO64 && 0 < length < TWO64 && length % PAGESIZE == 0
    ensures RegionsOk(rs, memStart) ==>
              (RegionsOk(rs + [Region(memStart, length)], NextStart(memStart, length)) <==> Fits(memStart, length))
  {
    if RegionsOk(rs, memStart) {
      RegionsAreHigh(rs, memStart);
      NextStartIsEnd(memStart, length);
      RegionAdded(rs, memStart, length);
      var rs' := rs + [Region(memStart, length)];
      assert rs'[|rs'| - 1] == Region(memStart, length);
    }
  }

  ghost predicate Inside(rs: seq<Region>, b: Block) {
    exists i :: 0 <= i < |rs| && rs[i].base <= b.addr && b.addr + b.size <= EndOf(rs[i])
  }

  /** Aligned blocks, each inside a region, at increasing addresses without overlap, all below the bump pointer. */
  ghost predicate BlocksOk(rs: seq<Region>, bs: seq<Block>, bump: nat) {
    && (forall i | 0 <= i < |bs| :: bs[i].addr % ALIGNMENT == 0 && Inside(rs, bs[i]))
    && (forall i, j | 0 <= i < j < |bs| :: bs[i].addr + bs[i].size <= bs[j].addr)
    && (forall i | 0 <= i < |bs| :: bs[i].addr + bs[i].size <= bump)
  }

  lemma BlocksKept(rs: seq<Region>, r: Region, bs: seq<Block>, bump: nat, bump': nat)
    requires BlocksOk(rs, bs, bump) && bump <= bump'
    ensures BlocksOk(rs + [r], bs, bump')
  {
    forall i | 0 <= i < |bs|
      ensures Inside(rs + [r], bs[i])
    {
      var k :| 0 <= k < |rs| && rs[k].base <= bs[i].addr && bs[i].addr + bs[i].size <= EndOf(rs[k]);
      assert (rs + [r])[k] == rs[k];
    }
  }

  /** The bump pointer moves past a block at the end of the last region. */
  lemma BlockTaken(rs: seq<Region>, memStart: nat, bs: seq<Block>, b: Block)
    requires RegionsOk(rs, memStart) && BlocksOk(rs, bs, b.addr)
    ensures BlocksOk(rs, bs, b.addr + b.size)
    ensures rs != [] && b.addr % ALIGNMENT == 0 && rs[|rs| - 1].base <= b.addr && b.addr + b.size <= memStart ==>
              BlocksOk(rs, bs + [b], b.addr + b.size)
  {
    if rs != [] && b.addr % ALIGNMENT == 0 && rs[|rs| - 1].base <= b.addr && b.addr + b.size <= memStart {
      assert b.addr + b.size <= EndOf(rs[|rs| - 1]);
      assert Inside(rs, b);
    }
  }

  /** Every page of every region has been mapped. */
  ghost predicate RegionsMapped(rs: seq<Region>, mapped: seq<Mapping>) {
    forall i | 0 <= i < |rs| :: Covered(mapped, rs[i].base, EndOf(rs[i]))
  }

  lemma RegionMapped(rs: seq<Region>, r: Region, before: seq<Mapping>, after: seq<Mapping>)
    requires RegionsMapped(rs, before) && MappedInTurn(before, after, r.base, r.size, 3)
    requires r.base % 0x1000 == 0 && r.size % 0x1000 == 0 && r.base + r.size <= TWO64
    ensures RegionsMapped(rs + [r], after)
  {
    RegionPages(before, after, r.base, r.size, 3);
    forall i | 0 <= i < |rs|
      ensures Covered(after, rs[i].base, EndOf(rs[i]))
    {
      CoveredKept(before, after, rs[i].base, EndOf(rs[i]));
    }
  }

  function PageBase(x: nat): nat {
    x - x % 0x1000
  }

  /** Every one of these bytes lies in a page that has been mapped, writable, for the user. */
  ghost predicate BytesMapped(mapped: seq<Mapping>, addr: nat, size: nat) {
    forall x: nat | addr <= x < addr + size :: HasPage(mapped, PageBase(x))
  }

  /** So it is for every block of a valid heap. */
  lemma BlockBytesMapped(h: Heap, b: Block)
    requires h.Valid() && b in h.blocks
    ensures BytesMapped(h.mapped, b.addr, b.size)
  {
    hide BytesMapped, Covered, HasPage;
    var n :| 0 <= n < |h.blocks| && h.blocks[n] == b;
    assert Inside(h.regions, b);
    var i :| 0 <= i < |h.regions| && h.regions[i].base <= b.addr && b.addr + b.size <= EndOf(h.regions[i]);
    assert RegionAt(h.regions, i);
    CoveredBytes(h.mapped, h.regions[i].base, EndOf(h.regions[i]), b.addr, b.size);
  }

  lemma CoveredBytes(mapped: seq<Mapping>, lo: nat, hi: nat, addr: nat, size: nat)
    requires Covered(mapped, lo, hi) && lo % 0x1000 == 0 && lo <= addr && addr + size <= hi
    ensures BytesMapped(mapped, addr, size)
  {
    hide HasPage, PageBase;
    forall x: nat | addr <= x < addr + size
      ensures HasPage(mapped, PageBase(x))
    {
      PageInside(lo, x);
    }
  }

  lemma PageInside(base: nat, x: nat)
    requires base % 0x1000 == 0 && base <= x
    ensures base <= PageBase(x) <= x && PageBase(x) % 0x1000 == 0
  {
  }

  class Heap {
    var bump: nat
    var spaceRemaining: nat
    var memStart: nat                // mem_start, in the kernel
    ghost var regions: seq<Region>   // what SYS_mmap has handed out
    ghost var blocks: seq<Block>     // the blocks malloc has returned, for requests that are not zero
    ghost var mapped: seq<Mapping>   // the calls of vm_map that SYS_mmap has made

    /** The three variables are 64-bit words. */
    predicate Words()
      reads this
    {
      bump < TWO64 && spaceRemaining < TWO64 && memStart < TWO64
    }

    ghost predicate Valid()
      reads this
    {
      && Words()
      && RegionsOk(regions, memStart) && BlocksOk(regions, blocks, bump) && RegionsMapped(regions, mapped)
      && bump % ALIGNMENT == 0 && spaceRemaining % ALIGNMENT == 0
      && (regions == [] ==> bump == 0 && spaceRemaining == 0)
      && (regions != [] ==> regions[|regions| - 1].base <= bump && bump + spaceRemaining == memStart)
    }

    lemma BumpIsBelow()
      requires Valid()
      ensures bump <= memStart
    {
    }

    constructor ()
      ensures Valid() && blocks == [] && regions == [] && mapped == []
      ensures bump == 0 && spaceRemaining == 0 && memStart == 0x800_0000_0000
    {
      bump, spaceRemaining, memStart := 0, 0, MMAP_MEM_START;
      regions, blocks, mapped := [], [], [];
    }

    /**
     SYS_mmap without an address. The number of pages and their size in bytes are computed as ints: the next
     region starts at the end of this one exactly when this one fits.
     */
    method SysMmap(length: nat, prot: nat) returns (addr: nat)
      requires Words() && 0 < length < TWO64 && length % PAGESIZE == 0
      modifies this`memStart, this`regions, this`mapped
      ensures addr == old(memStart) && memStart == NextStart(addr, length)
      ensures regions == old(regions) + [Region(addr, length)]
      ensures MappedInTurn(old(mapped), mapped, addr, length, prot)
      ensures old(RegionsOk(regions, memStart)) ==> (RegionsOk(regions, memStart) <==> Fits(addr, length))
    {
      addr := memStart;
      var pages := AsInt32(length / PAGESIZE);
      if length % PAGESIZE != 0 {
        pages := AsInt32(pages + 1);
      }
      memStart := (memStart + AsInt32(pages * PAGESIZE)) % TWO64;
      regions := regions + [Region(addr, length)];
      RegionAddedIff(old(regions), addr, length);
      MapPages(addr, length, prot);
    }

    /** The loop of SYS_mmap. */
    method MapPages(addr: nat, length: nat, prot: nat)
      requires length < TWO64 && length % PAGESIZE == 0 && addr < TWO64
      modifies this`mapped
      ensures MappedInTurn(old(mapped), mapped, addr, length, prot)
    {
      var page, left := addr, length;
      ghost var k: nat := 0;
      while left > 0
        invariant k <= length / PAGESIZE && left == length - k * PAGESIZE && page == (addr + k * PAGESIZE) % TWO64
        invariant MappedInTurn(old(mapped), mapped, addr, k * PAGESIZE, prot)
        decreases left
      {
        PageAfter(addr, k);
        var user, writable, executable := prot % 2 == 1, prot / 2 % 2 == 1, prot / 4 % 2 == 1;
        mapped := mapped + [Mapping(page, user, writable, executable)]; // vm_map
        left := (left - PAGESIZE) % TWO64;
        page := (page + PAGESIZE) % TWO64;
        k := k + 1;
      }
    }

    /**
     malloc. A new region is asked for exactly when the current one has too little space left. The heap stays
     well formed, so that the block is aligned, inside a region, and clear of every block returned before, if
     and only if the region asked for fits.
     */
    method Malloc(sz: nat) returns (p: nat)
      requires Words() && sz + PAGESIZE + ALIGNMENT < TWO64
      modifies this
      ensures Words()
      ensures var size := RoundUp(sz, 16); var length := RoundUp(size, 0x1000);
        && sz <= size < sz + 16
        && blocks == old(blocks) + (if sz == 0 then [] else [Block(p, size)])
        && bump == (p + size) % TWO64
        && if old(spaceRemaining) < size
           then p == old(memStart) && regions == old(regions) + [Region(p, length)]
                && spaceRemaining == length - size && memStart == NextStart(p, length)
           else p == old(bump) && regions == old(regions)
                && spaceRemaining == old(spaceRemaining) - size && memStart == old(memStart)
      ensures old(Valid()) ==>
        && p % 16 == 0 && (Valid() ==> bump == p + RoundUp(sz, 16))
        && (Valid() <==> (old(spaceRemaining) < RoundUp(sz, 16) ==> Fits(p, RoundUp(RoundUp(sz, 16), 0x1000))))
    {
      var size := RoundUp(sz, ALIGNMENT);
      RoundUpIsLeast(sz, ALIGNMENT);
      hide RegionsOk, RoundUp, BlocksOk, RegionsMapped, Fits, NextStart;
      if spaceRemaining < size {
        GrowHeap(size);
      }
      p := TakeBlock(size, sz != 0);
    }

    /** The end of malloc: the bump pointer moves past the block. */
    method TakeBlock(size: nat, named: bool) returns (p: nat)
      requires Words() && size <= spaceRemaining && size % ALIGNMENT == 0 && (named ==> 0 < size)
      modifies this`bump, this`spaceRemaining, this`blocks
      ensures Words() && p == old(bump) && bump == (p + size) % TWO64
      ensures spaceRemaining == old(spaceRemaining) - size
      ensures blocks == old(blocks) + if named then [Block(p, size)] else []
      ensures old(Valid()) ==> Valid() && p % ALIGNMENT == 0 && bump == p + size
      ensures old(bump % ALIGNMENT) == 0 ==> p % ALIGNMENT == 0
    {
      hide RegionsOk, BlocksOk, RegionsMapped;
      ghost var ok := Valid();
      if ok {
        BlockTaken(regions, memStart, blocks, Block(bump, size));
        AlignedSum(bump, size);
        AlignedSum(spaceRemaining - size, size);
      }
      p := bump;
      bump := (bump + size) % TWO64;
      spaceRemaining := spaceRemaining - size;
      if named {
        blocks := blocks + [Block(p, size)];
      }
    }

    /** The part of malloc that asks for a new region; mmap never returns NULL here. */
    method GrowHeap(size: nat)
      requires Words() && spaceRemaining < size && size % ALIGNMENT == 0 && size + PAGESIZE < TWO64
      modifies this
      ensures var length := RoundUp(size, PAGESIZE);
        && Words() && size <= spaceRemaining == length && bump == old(memStart) && blocks == old(blocks)
        && memStart == NextStart(bump, length) && regions == old(regions) + [Region(bump, length)]
      ensures old(Valid()) ==>
        && bump % ALIGNMENT == 0
        && (RegionsOk(regions, memStart) <==> Fits(bump, RoundUp(size, PAGESIZE)))
        && (Valid() <==> Fits(bump, RoundUp(size, PAGESIZE)))
    {
      var roundedUp := RoundUp(size, PAGESIZE);
      RoundUpIsLeast(size, PAGESIZE);
      ghost var r := Region(memStart, roundedUp);
      ghost var ok := Valid();
      if ok {
        RegionsAreHigh(regions, memStart);
        BumpIsBelow();
        BlocksKept(regions, r, blocks, bump, memStart);
        PagesAreAligned(memStart);
        NextStartIsEnd(memStart, roundedUp);
      }
      hide RoundUp, BlocksOk, RegionsOk, RegionsMapped, MappedInTurn, NextStart, Fits;
      PagesAreAligned(roundedUp);
      ghost var before := mapped;
      var newMem := SysMmap(roundedUp, 3); // PROT_READ | PROT_WRITE
      if ok && Fits(newMem, roundedUp) {
        FitsBelow(newMem, roundedUp);
        RegionMapped(old(regions), r, before, mapped);
      }
      bump := newMem;
      spaceRemaining := roundedUp;
    }
  }

  /** A region of 4 GiB is aligned already and does not move mem_start at all. */
  lemma FourGiB(memStart: nat)
    requires memStart < TWO64
    ensures RoundUp(TWO32, ALIGNMENT) == TWO32 == RoundUp(TWO32, PAGESIZE)
    ensures NextStart(memStart, TWO32) == memStart && !Fits(memStart, TWO32)
  {
    assert TWO32 / PAGESIZE * PAGESIZE == TWO32;
  }

  // ----- runs

  const LARGEST: nat := 0x7FFF_F000   // the largest request whose region fits

  lemma SmallFits(memStart: nat, sz: nat)
    requires sz <= LARGEST && memStart + TWO31 <= TWO64
    ensures Fits(memStart, RoundUp(RoundUp(sz, ALIGNMENT), PAGESIZE))
  {
    RoundUpIsLeast(sz, ALIGNMENT);
    RoundUpIsLeast(RoundUp(sz, ALIGNMENT), PAGESIZE);
    assert LARGEST % ALIGNMENT == 0 && LARGEST % PAGESIZE == 0;
  }

  lemma NextStartGrows(memStart: nat, length: nat)
    requires Fits(memStart, length) && length % PAGESIZE == 0 && MMAP_MEM_START <= memStart
    ensures NextStart(memStart, length) == memStart + length < memStart + TWO31
  {
    NextStartIsEnd(memStart, length);
  }

  /**
   Any run of requests of up to LARGEST bytes on a new heap: every block is aligned, ends before the next one
   begins, and has all its bytes in mapped pages.
   */
  method Requests(szs: seq<nat>) returns (h: Heap, ps: seq<nat>)
    requires |szs| <= TWO32 && forall i | 0 <= i < |szs| :: szs[i] <= 0x7FFF_F000
    ensures fresh(h) && h.Valid() && |ps| == |szs| && h.blocks == Blocks(szs, ps)
    ensures forall i | 0 <= i < |szs| :: ps[i] % 16 == 0
    ensures forall i, j | 0 <= i < j < |szs| :: ps[i] + szs[i] <= ps[j]
    ensures forall i | 0 <= i < |szs| :: BytesMapped(h.mapped, ps[i], szs[i])
  {
    h := new Heap();
    ps := [];
    var i := 0;
    while i < |szs|
      invariant 0 <= i == |ps| <= |szs| && fresh(h) && h.Valid()
      invariant MMAP_MEM_START <= h.memStart <= MMAP_MEM_START + TWO31 * i
      invariant h.blocks == Blocks(szs[..i], ps) && InOrder(szs[..i], ps, h.bump)
    {
      ps := Request(h, szs[..i], ps, szs[i]);
      assert szs[..i + 1] == szs[..i] + [szs[i]];
      i := i + 1;
    }
    assert szs[..i] == szs;
    forall k | 0 <= k < |szs|
      ensures BytesMapped(h.mapped, ps[k], szs[k])
    {
      RequestMapped(h, szs, ps, k);
    }
  }

  /** The results so far: aligned, in order, and below the bump pointer. */
  ghost predicate InOrder(szs: seq<nat>, ps: seq<nat>, bump: nat) {
    && |szs| == |ps|
    && (forall i | 0 <= i < |szs| :: ps[i] % 16 == 0 && ps[i] + szs[i] <= bump)
    && (forall i, j | 0 <= i < j < |szs| :: ps[i] + szs[i] <= ps[j])
  }

  lemma InOrderSnoc(szs: seq<nat>, ps: seq<nat>, bump: nat, sz: nat, p: nat, bump': nat)
    requires InOrder(szs, ps, bump) && bump <= p && p % 16 == 0 && p + sz <= bump'
    ensures InOrder(szs + [sz], ps + [p], bump')
  {
  }

  /** One request of such a run. */
  method Request(h: Heap, ghost szs: seq<nat>, ps: seq<nat>, sz: nat) returns (ps': seq<nat>)
    requires h.Valid() && sz <= LARGEST && MMAP_MEM_START <= h.memStart && h.memStart + TWO31 <= TWO64
    requires |szs| == |ps| && h.blocks == Blocks(szs, ps) && InOrder(szs, ps, h.bump)
    modifies h
    ensures h.Valid() && old(h.memStart) <= h.memStart <= old(h.memStart) + TWO31
    ensures |ps'| == |ps| + 1 && h.blocks == Blocks(szs + [sz], ps') && InOrder(szs + [sz], ps', h.bump)
  {
    h.BumpIsBelow();
    hide RegionsOk, BlocksOk, RegionsMapped, RoundUp, NextStart, Fits, InOrder, Blocks;
    SmallFits(h.memStart, sz);
    RoundUpIsLeast(RoundUp(sz, ALIGNMENT), PAGESIZE);
    NextStartGrows(h.memStart, RoundUp(RoundUp(sz, ALIGNMENT), PAGESIZE));
    var p := h.Malloc(sz);
    BlocksSnoc(szs, ps, sz, p);
    InOrderSnoc(szs, ps, old(h.bump), sz, p, h.bump);
    ps' := ps + [p];
  }

  lemma {:induction false} BlockListed(szs: seq<nat>, ps: seq<nat>, k: nat)
    requires |szs| == |ps| && k < |szs| && szs[k] != 0
    ensures Block(ps[k], RoundUp(szs[k], ALIGNMENT)) in Blocks(szs, ps)
    decreases |szs|
  {
    if k < |szs| - 1 {
      BlockListed(szs[..|szs| - 1], ps[..|szs| - 1], k);
    }
  }

  lemma RequestMapped(h: Heap, szs: seq<nat>, ps: seq<nat>, k: nat)
    requires h.Valid() && |szs| == |ps| && h.blocks == Blocks(szs, ps) && k < |szs|
    ensures BytesMapped(h.mapped, ps[k], szs[k])
  {
    hide RegionsOk, BlocksOk, RegionsMapped, RoundUp;
    if szs[k] != 0 {
      BlockListed(szs, ps, k);
      RoundUpIsLeast(szs[k], ALIGNMENT);
      BlockBytesMapped(h, Block(ps[k], RoundUp(szs[k], ALIGNMENT)));
    }
  }

  /** The blocks of the requests that are not zero. */
  function Blocks(szs: seq<nat>, ps: seq<nat>): seq<Block>
    requires |szs| == |ps|
  {
    if szs == [] then []
    else
      var n := |szs| - 1;
      Blocks(szs[..n], ps[..n]) + if szs[n] == 0 then [] else [Block(ps[n], RoundUp(szs[n], ALIGNMENT))]
  }

  lemma BlocksSnoc(szs: seq<nat>, ps: seq<nat>, sz: nat, p: nat)
    requires |szs| == |ps|
    ensures Blocks(szs + [sz], ps + [p]) ==
            Blocks(szs, ps) + if sz == 0 then [] else [Block(p, RoundUp(sz, ALIGNMENT))]
  {
    assert (szs + [sz])[..|szs|] == szs && (ps + [p])[..|ps|] == ps;
  }
}
