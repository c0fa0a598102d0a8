/**
 The physical page allocator of kernel/memory.c, on values.

 Physical memory is a map from frame base address to what the kernel last stored there. A free chunk
 keeps its list node in its own first bytes, so a node and a page table compete for the same frame:
 writing one destroys the other.
 */
module FreeList {
  import opened Common

  const NODE_BYTES: nat := 24                  // sizeof(Node_t): two 64-bit words and a pointer
  const PHYS_LIMIT: nat := 0x10_0000_0000_0000 // physical addresses have 52 bits
  const NO_PAGE: nat := 0xFFFF_FFFF_FFFF_FFFF  // (uintptr_t)-1

  datatype Ptr = Null | At(addr: nat)

  datatype Entry = Entry(present: bool, writable: bool, user: bool, page_size: bool, no_execute: bool,
                         address: nat, other: nat)

  datatype Frame =
    | Table(entries: seq<Entry>)
    | Header(size: nat, addr: nat, next: Ptr)

  type Frames = map<nat, Frame>

  /** One node of the free list, as the pair it stores; node i lives at address cs[i].addr. */
  datatype Chunk = Chunk(addr: nat, size: nat)

  /** What the allocator and the page-table code share: memory, and the free list in list order. */
  datatype Mem = Mem(frames: Frames, free: seq<Chunk>)

  // ----- the list as it lies in memory

  function NextOf(cs: seq<Chunk>, i: int): Ptr
    requires -1 <= i < |cs|
  {
    if i + 1 < |cs| then At(cs[i + 1].addr) else Null
  }

  function HeaderOf(cs: seq<Chunk>, i: nat): Frame
    requires i < |cs|
  {
    Header(cs[i].size, cs[i].addr, NextOf(cs, i))
  }

  ghost predicate HeaderAt(frames: Frames, cs: seq<Chunk>, i: nat)
    requires i < |cs|
  {
    cs[i].addr in frames && frames[cs[i].addr] == HeaderOf(cs, i)
  }

  /** Every node of the list is stored, linked to its successor, at the start of its own chunk. */
  ghost predicate HeadersIn(frames: Frames, cs: seq<Chunk>) {
    && (forall i | 0 <= i < |cs| :: HeaderAt(frames, cs, i))
    && (forall i, j | 0 <= i < j < |cs| :: cs[i].addr != cs[j].addr)
  }

  // ----- the pages the list holds

  ghost function PagesOf(c: Chunk): set<nat> {
    set p: nat | c.addr <= p < c.addr + c.size && p % PAGESIZE == 0
  }

  ghost function FreePages(cs: seq<Chunk>): set<nat> {
    set k, p | 0 <= k < |cs| && p in PagesOf(cs[k]) :: p
  }

  ghost predicate ChunkOk(c: Chunk) {
    && c.addr % PAGESIZE == 0
    && c.size % PAGESIZE == 0
    && 0 < c.size
    && c.addr + c.size <= PHYS_LIMIT
  }

  /** Page-aligned, non-empty, pairwise disjoint chunks. */
  ghost predicate ChunksOk(cs: seq<Chunk>) {
    && (forall i | 0 <= i < |cs| :: ChunkOk(cs[i]))
    && (forall i, j | 0 <= i < j < |cs| :: PagesOf(cs[i]) !! PagesOf(cs[j]))
  }

  ghost predicate FreeOk(m: Mem) {
    ChunksOk(m.free) && HeadersIn(m.frames, m.free)
  }

  // ----- pmem_alloc

  function FirstFit(cs: seq<Chunk>): (k: nat)
    ensures k <= |cs|
    ensures forall j | 0 <= j < k :: cs[j].size < PAGESIZE
    ensures k < |cs| ==> PAGESIZE <= cs[k].size
  {
    if cs == [] || PAGESIZE <= cs[0].size then 0 else 1 + FirstFit(cs[1..])
  }

  function ShrinkAt(cs: seq<Chunk>, k: nat): seq<Chunk>
    requires k < |cs| && PAGESIZE <= cs[k].size
  {
    if cs[k].size == PAGESIZE then cs[..k] + cs[k + 1..]
    else cs[k := Chunk(cs[k].addr, cs[k].size - PAGESIZE)]
  }

  /** The last page of the first chunk that holds a page, and the memory left behind. */
  function Alloc(m: Mem): (Mem, nat) {
    var cs := m.free;
    var k := FirstFit(cs);
    if k == |cs| then (m, NO_PAGE)
    else
      var cs' := ShrinkAt(cs, k);
      var page := cs[k].addr + cs[k].size - PAGESIZE;
      if cs[k].size != PAGESIZE then
        (Mem(m.frames[cs[k].addr := HeaderOf(cs', k)], cs'), page)
      else
        // the used-up node is emptied in place before it is unlinked
        var f := m.frames[cs[k].addr := Header(0, cs[k].addr, NextOf(cs, k))];
        (Mem(if k == 0 then f else f[cs[k - 1].addr := HeaderOf(cs', k - 1)], cs'), page)
  }

  // ----- pmem_free

  function Free(m: Mem, p: nat): Mem {
    Mem(m.frames[p := Header(PAGESIZE, p, NextOf(m.free, -1))], [Chunk(p, PAGESIZE)] + m.free)
  }

  /** Frees the pages of ps, first one first. */
  function FreeAll(m: Mem, ps: seq<nat>): Mem {
    if ps == [] then m else Free(FreeAll(m, ps[..|ps| - 1]), ps[|ps| - 1])
  }

  // ----- arithmetic of aligned addresses

  lemma AlignedGap(p: nat, q: nat)
    requires p % PAGESIZE == 0 && q % PAGESIZE == 0 && p < q + PAGESIZE && q < p + PAGESIZE
    ensures p == q
  {
  }

  lemma PagesOfShrunk(c: Chunk)
    requires ChunkOk(c)
    ensures PAGESIZE <= c.size
    ensures (c.addr + c.size - PAGESIZE) % PAGESIZE == 0
    ensures PagesOf(c) == PagesOf(Chunk(c.addr, c.size - PAGESIZE)) + {c.addr + c.size - PAGESIZE}
    ensures c.addr + c.size - PAGESIZE !in PagesOf(Chunk(c.addr, c.size - PAGESIZE))
    ensures c.addr in PagesOf(c)
  {
    var last := c.addr + c.size - PAGESIZE;
    forall p | p in PagesOf(c) && last <= p
      ensures p == last
    {
      AlignedGap(p, last);
    }
  }

  lemma PagesOfOne(p: nat)
    requires p % PAGESIZE == 0
    ensures PagesOf(Chunk(p, PAGESIZE)) == {p}
  {
    forall q | q in PagesOf(Chunk(p, PAGESIZE))
      ensures q == p
    {
      AlignedGap(p, q);
    }
    assert p in PagesOf(Chunk(p, PAGESIZE));
  }

  /** Only the frames that hold nodes matter: memory may change anywhere else. */
  lemma HeadersFrame(f: Frames, f': Frames, cs: seq<Chunk>)
    requires HeadersIn(f, cs)
    requires forall i | 0 <= i < |cs| && cs[i].addr in f :: cs[i].addr in f' && f'[cs[i].addr] == f[cs[i].addr]
    ensures HeadersIn(f', cs)
  {
    forall i | 0 <= i < |cs|
      ensures HeaderAt(f', cs, i)
    {
      assert HeaderAt(f, cs, i);
    }
  }

  /** In particular, memory may change outside the free pages. */
  lemma HeadersOutsideFree(f: Frames, f': Frames, cs: seq<Chunk>)
    requires ChunksOk(cs) && HeadersIn(f, cs)
    requires forall p | p in FreePages(cs) && p in f :: p in f' && f'[p] == f[p]
    ensures HeadersIn(f', cs)
  {
    forall i | 0 <= i < |cs|
      ensures cs[i].addr in f && cs[i].addr in f' && f'[cs[i].addr] == f[cs[i].addr]
    {
      assert HeaderAt(f, cs, i);
      assert ChunkOk(cs[i]);
      assert cs[i].addr in PagesOf(cs[i]);
      assert cs[i].addr in FreePages(cs);
    }
    HeadersFrame(f, f', cs);
  }

  // ----- what allocation and release do to the set of free pages

  lemma DropFirst(cs: seq<Chunk>)
    requires ChunksOk(cs) && 0 < |cs| && cs[0].size == PAGESIZE
    ensures ChunksOk(cs[1..])
    ensures FreePages(cs[1..]) == FreePages(cs) - {cs[0].addr}
  {
    var cs' := cs[1..];
    assert ChunkOk(cs[0]);
    PagesOfOne(cs[0].addr);
    assert cs[0] == Chunk(cs[0].addr, PAGESIZE);
    forall q | q in FreePages(cs) && q != cs[0].addr
      ensures q in FreePages(cs')
    {
      var k :| 0 <= k < |cs| && q in PagesOf(cs[k]);
      assert q in PagesOf(cs'[k - 1]);
    }
    forall q | q in FreePages(cs')
      ensures q in FreePages(cs) - {cs[0].addr}
    {
      var k :| 0 <= k < |cs'| && q in PagesOf(cs'[k]);
      assert q in PagesOf(cs[k + 1]);
    }
  }

  /** cs and cs' differ in their first chunk, which loses the page p. */
  ghost predicate Trimmed(cs: seq<Chunk>, cs': seq<Chunk>, p: nat) {
    && 0 < |cs| == |cs'| && cs[1..] == cs'[1..]
    && ChunkOk(cs'[0]) && PagesOf(cs'[0]) == PagesOf(cs[0]) - {p} && p in PagesOf(cs[0])
  }

  lemma TrimmedPages(cs: seq<Chunk>, cs': seq<Chunk>, p: nat)
    requires ChunksOk(cs) && Trimmed(cs, cs', p)
    ensures FreePages(cs') == FreePages(cs) - {p}
  {
    assert forall k | 0 < k < |cs| :: cs'[k] == cs'[1..][k - 1] == cs[k];
    forall q | q in FreePages(cs) && q != p
      ensures q in FreePages(cs')
    {
      var k :| 0 <= k < |cs| && q in PagesOf(cs[k]);
      assert q in PagesOf(cs'[k]);
    }
    forall q | q in FreePages(cs')
      ensures q in FreePages(cs) - {p}
    {
      var k :| 0 <= k < |cs'| && q in PagesOf(cs'[k]);
      assert q in PagesOf(cs[k]);
    }
  }

  lemma TrimmedOk(cs: seq<Chunk>, cs': seq<Chunk>, p: nat)
    requires ChunksOk(cs) && Trimmed(cs, cs', p)
    ensures ChunksOk(cs')
  {
    assert forall k | 0 < k < |cs| :: cs'[k] == cs'[1..][k - 1] == cs[k];
  }

  lemma TrimFirst(cs: seq<Chunk>)
    requires ChunksOk(cs) && 0 < |cs| && PAGESIZE < cs[0].size
    ensures var cs' := cs[0 := Chunk(cs[0].addr, cs[0].size - PAGESIZE)];
      && ChunksOk(cs')
      && FreePages(cs') == FreePages(cs) - {cs[0].addr + cs[0].size - PAGESIZE}
  {
    var cs' := cs[0 := Chunk(cs[0].addr, cs[0].size - PAGESIZE)];
    var p := cs[0].addr + cs[0].size - PAGESIZE;
    assert ChunkOk(cs[0]);
    PagesOfShrunk(cs[0]);
    assert Trimmed(cs, cs', p);
    TrimmedPages(cs, cs', p);
    TrimmedOk(cs, cs', p);
  }

  lemma NodesAreFreePages(cs: seq<Chunk>)
    requires ChunksOk(cs)
    ensures forall i | 0 <= i < |cs| :: cs[i].addr in FreePages(cs)
  {
    forall i | 0 <= i < |cs|
      ensures cs[i].addr in FreePages(cs)
    {
      assert ChunkOk(cs[i]);
      assert cs[i].addr in PagesOf(cs[i]);
    }
  }

  /** What one allocation may touch: the headers of the list and nothing else. */
  ghost predicate SameOutside(f: Frames, f': Frames, touched: set<nat>) {
    forall x | x !in touched :: (x in f' <==> x in f) && (x in f ==> f'[x] == f[x])
  }

  /** In a list of whole pages the first node always fits, so allocation is a step on the first node. */
  lemma AllocAtHead(m: Mem)
    requires FreeOk(m) && m.free != []
    ensures var c := m.free[0];
      && PAGESIZE <= c.size
      && Alloc(m).1 == c.addr + c.size - PAGESIZE
      && Alloc(m).0 == (if c.size == PAGESIZE
                        then Mem(m.frames[c.addr := Header(0, c.addr, NextOf(m.free, 0))], m.free[1..])
                        else var rest := m.free[0 := Chunk(c.addr, c.size - PAGESIZE)];
                             Mem(m.frames[c.addr := HeaderOf(rest, 0)], rest))
  {
    assert ChunkOk(m.free[0]);
    PagesOfShrunk(m.free[0]);
    assert FirstFit(m.free) == 0;
    assert m.free[..0] + m.free[1..] == m.free[1..];
  }

  lemma HeadersDropFirst(f: Frames, cs: seq<Chunk>, dead: Frame)
    requires HeadersIn(f, cs) && cs != []
    ensures HeadersIn(f[cs[0].addr := dead], cs[1..])
  {
    var f', cs' := f[cs[0].addr := dead], cs[1..];
    forall i | 0 <= i < |cs'|
      ensures HeaderAt(f', cs', i)
    {
      assert HeaderAt(f, cs, i + 1);
    }
  }

  lemma HeadersResized(f: Frames, cs: seq<Chunk>, k: nat, size: nat)
    requires HeadersIn(f, cs) && k < |cs|
    ensures HeadersIn(f[cs[k].addr := Header(size, cs[k].addr, NextOf(cs, k))], cs[k := Chunk(cs[k].addr, size)])
  {
    var f', cs' := f[cs[k].addr := Header(size, cs[k].addr, NextOf(cs, k))], cs[k := Chunk(cs[k].addr, size)];
    forall i | 0 <= i < |cs|
      ensures HeaderAt(f', cs', i)
    {
      assert HeaderAt(f, cs, i);
      assert NextOf(cs', i) == NextOf(cs, i);
    }
  }

  /** m' is m with page p taken out of the free list, and only free pages written. */
  ghost predicate Took(m: Mem, m': Mem, p: nat) {
    && FreeOk(m')
    && p in FreePages(m.free) && p % PAGESIZE == 0 && p < PHYS_LIMIT
    && FreePages(m'.free) == FreePages(m.free) - {p}
    && SameOutside(m.frames, m'.frames, FreePages(m.free))
  }

  lemma WriteInside(f: Frames, x: nat, frame: Frame, touched: set<nat>)
    requires x in touched
    ensures SameOutside(f, f[x := frame], touched)
  {
  }

  lemma TookWhole(m: Mem)
    requires FreeOk(m) && m.free != [] && m.free[0].size == PAGESIZE
    ensures var c := m.free[0];
      Took(m, Mem(m.frames[c.addr := Header(0, c.addr, NextOf(m.free, 0))], m.free[1..]), c.addr)
  {
    DropFirst(m.free);
    HeadersDropFirst(m.frames, m.free, Header(0, m.free[0].addr, NextOf(m.free, 0)));
    assert ChunkOk(m.free[0]);
    NodesAreFreePages(m.free);
  }

  lemma LastPageIsFree(cs: seq<Chunk>)
    requires ChunksOk(cs) && cs != []
    ensures var p := cs[0].addr + cs[0].size - PAGESIZE;
      p in FreePages(cs) && p % PAGESIZE == 0 && p < PHYS_LIMIT
  {
    assert ChunkOk(cs[0]);
    PagesOfShrunk(cs[0]);
    var p := cs[0].addr + cs[0].size - PAGESIZE;
    assert p in PagesOf(cs[0]);
  }

  lemma TookPart(m: Mem, c: Chunk, rest: seq<Chunk>, p: nat)
    requires FreeOk(m) && m.free != [] && c == m.free[0] && PAGESIZE < c.size
    requires rest == m.free[0 := Chunk(c.addr, c.size - PAGESIZE)] && p == c.addr + c.size - PAGESIZE
    ensures Took(m, Mem(m.frames[c.addr := HeaderOf(rest, 0)], rest), p)
  {
    hide PagesOf, HeadersIn, FreePages;
    TrimFirst(m.free);
    HeadersResized(m.frames, m.free, 0, c.size - PAGESIZE);
    assert HeaderOf(rest, 0) == Header(c.size - PAGESIZE, c.addr, NextOf(m.free, 0));
    LastPageIsFree(m.free);
    NodesAreFreePages(m.free);
    WriteInside(m.frames, m.free[0].addr, HeaderOf(rest, 0), FreePages(m.free));
  }

  /**
   pmem_alloc fails exactly when no page is free. Otherwise the page it returns is aligned, was free, is
   free no longer, and holds no node of the remaining list; nothing outside the free pages is written.
   */
  lemma AllocTakesOne(m: Mem)
    requires FreeOk(m)
    ensures Alloc(m).1 == NO_PAGE <==> FreePages(m.free) == {}
    ensures Alloc(m).1 == NO_PAGE ==> Alloc(m).0 == m
    ensures Alloc(m).1 != NO_PAGE ==> Took(m, Alloc(m).0, Alloc(m).1)
  {
    if m.free == [] {
      assert FreePages(m.free) == {};
    } else {
      AllocAtHead(m);
      if m.free[0].size == PAGESIZE {
        TookWhole(m);
      } else {
        var c := m.free[0];
        TookPart(m, c, m.free[0 := Chunk(c.addr, c.size - PAGESIZE)], Alloc(m).1);
      }
    }
  }

  lemma HeadersPushed(f: Frames, cs: seq<Chunk>, c: Chunk)
    requires HeadersIn(f, cs) && forall i | 0 <= i < |cs| :: cs[i].addr != c.addr
    ensures HeadersIn(f[c.addr := Header(c.size, c.addr, NextOf(cs, -1))], [c] + cs)
  {
    var cs' := [c] + cs;
    var f' := f[c.addr := Header(c.size, c.addr, NextOf(cs, -1))];
    forall i | 0 <= i < |cs'|
      ensures HeaderAt(f', cs', i)
    {
      if i > 0 {
        assert HeaderAt(f, cs, i - 1);
        assert NextOf(cs', i) == NextOf(cs, i - 1);
      }
    }
  }

  lemma PushedPages(cs: seq<Chunk>, c: Chunk)
    ensures FreePages([c] + cs) == FreePages(cs) + PagesOf(c)
  {
    var cs' := [c] + cs;
    forall q | q in FreePages(cs)
      ensures q in FreePages(cs')
    {
      var k :| 0 <= k < |cs| && q in PagesOf(cs[k]);
      assert q in PagesOf(cs'[k + 1]);
    }
    forall q | q in PagesOf(c)
      ensures q in FreePages(cs')
    {
      assert q in PagesOf(cs'[0]);
    }
    forall q | q in FreePages(cs')
      ensures q in FreePages(cs) + PagesOf(c)
    {
      var k :| 0 <= k < |cs'| && q in PagesOf(cs'[k]);
      assert k > 0 ==> cs'[k] == cs[k - 1];
    }
  }

  lemma PushedOk(cs: seq<Chunk>, c: Chunk)
    requires ChunksOk(cs) && ChunkOk(c) && PagesOf(c) !! FreePages(cs)
    ensures ChunksOk([c] + cs)
  {
    var cs' := [c] + cs;
    forall i, j | 0 <= i < j < |cs'|
      ensures PagesOf(cs'[i]) !! PagesOf(cs'[j])
    {
      assert cs'[j] == cs[j - 1];
      if i == 0 {
        assert forall q | q in PagesOf(cs[j - 1]) :: q in FreePages(cs);
      } else {
        assert cs'[i] == cs[i - 1];
      }
    }
  }

  /** pmem_free of an aligned page that is not free adds exactly that page. */
  lemma FreeAddsOne(m: Mem, p: nat)
    requires FreeOk(m)
    requires p % PAGESIZE == 0 && p + PAGESIZE <= PHYS_LIMIT && p !in FreePages(m.free)
    ensures FreeOk(Free(m, p))
    ensures FreePages(Free(m, p).free) == FreePages(m.free) + {p}
  {
    PagesOfOne(p);
    NodesAreFreePages(m.free);
    HeadersPushed(m.frames, m.free, Chunk(p, PAGESIZE));
    PushedPages(m.free, Chunk(p, PAGESIZE));
    PushedOk(m.free, Chunk(p, PAGESIZE));
  }

  /** Freeing a page and allocating again returns that page and restores the list. */
  lemma FreeThenAlloc(m: Mem, p: nat)
    ensures Alloc(Free(m, p)).1 == p
    ensures Alloc(Free(m, p)).0.free == m.free
    ensures forall f | f != p ::
      (f in m.frames <==> f in Alloc(Free(m, p)).0.frames)
      && (f in m.frames ==> Alloc(Free(m, p)).0.frames[f] == m.frames[f])
  {
    var m1 := Free(m, p);
    assert FirstFit(m1.free) == 0;
    assert m1.free[..0] + m1.free[1..] == m.free;
  }
}
