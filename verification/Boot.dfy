/**
 Where the runs start: the free list that freelist_init builds from the boot loader's memory map, and what
 the allocator does with chunks of any size.
 */
module Boot {
  import opened Common
  import opened FreeList
  import opened Address
  import opened PageTable
  import opened KernelMemory

  // ----- a well-formed memory after freelist_init

  /** Usable memory as the boot protocol hands it over: whole pages, no entry empty, no two overlapping. */
  ghost predicate MemmapOk(es: seq<MemmapEntry>) {
    && (forall i | 0 <= i < |es| && es[i].kind == USABLE :: ChunkOk(Chunk(es[i].base, es[i].length)))
    && (forall i, j | 0 <= i < j < |es| && es[i].kind == USABLE && es[j].kind == USABLE ::
          PagesOf(Chunk(es[i].base, es[i].length)) !! PagesOf(Chunk(es[j].base, es[j].length)))
  }

  ghost function UsablePages(es: seq<MemmapEntry>): set<nat> {
    set i, p | 0 <= i < |es| && es[i].kind == USABLE && p in PagesOf(Chunk(es[i].base, es[i].length)) :: p
  }

  lemma {:induction false} UsableIsFree(es: seq<MemmapEntry>)
    requires MemmapOk(es)
    ensures ChunksOk(Usable(es)) && FreePages(Usable(es)) == UsablePages(es)
    decreases |es|
  {
    hide UsablePages, FreePages, ChunksOk, PagesOf, MemmapOk;
    if es == [] {
      NothingUsable();
    } else {
      var init, e := es[..|es| - 1], es[|es| - 1];
      var c := Chunk(e.base, e.length);
      assert es == init + [e];
      MemmapSnoc(init, e);
      UsableIsFree(init);
      if e.kind == USABLE {
        UsablePagesSnoc(init, e);
        assert Usable(es) == [c] + Usable(init);
        PushedPages(Usable(init), c);
        PushedOk(Usable(init), c);
      } else {
        UnusableAddsNothing(init, e);
        assert Usable(es) == Usable(init);
      }
    }
  }

  /** How many entries of the memory map are of kind 1. */
  function OfKind1(es: seq<MemmapEntry>): nat {
    if es == [] then 0 else OfKind1(es[..|es| - 1]) + if es[|es| - 1].kind == 1 then 1 else 0
  }

  /**
   The list after freelist_init, by position: one chunk for each entry of kind 1, and the one made of entry n
   stands behind those made of the kind-1 entries after n.
   */
  lemma {:induction false} UsableInOrder(es: seq<MemmapEntry>, n: nat)
    requires n < |es|
    ensures |Usable(es)| == OfKind1(es) && OfKind1(es[..n + 1]) <= OfKind1(es)
    ensures es[n].kind == 1 ==>
              0 <= OfKind1(es) - OfKind1(es[..n + 1]) < |Usable(es)|
              && Usable(es)[OfKind1(es) - OfKind1(es[..n + 1])] == Chunk(es[n].base, es[n].length)
    decreases |es|
  {
    var init := es[..|es| - 1];
    assert es[..n + 1][..n] == es[..n];
    if n < |init| {
      assert init[..n + 1] == es[..n + 1] && init[n] == es[n];
      UsableInOrder(init, n);
    } else {
      assert es[..n + 1] == es;
      UsableCount(es);
    }
  }

  lemma {:induction false} UsableCount(es: seq<MemmapEntry>)
    ensures |Usable(es)| == OfKind1(es)
    decreases |es|
  {
    if es != [] {
      UsableCount(es[..|es| - 1]);
    }
  }

  lemma NothingUsable()
    ensures ChunksOk(Usable([])) && FreePages(Usable([])) == {} == UsablePages([])
  {
  }

  lemma MemmapSnoc(init: seq<MemmapEntry>, e: MemmapEntry)
    requires MemmapOk(init + [e])
    ensures MemmapOk(init) && (e.kind == USABLE ==> ChunkOk(Chunk(e.base, e.length)))
  {
    var es := init + [e];
    assert es[|init|] == e && forall i | 0 <= i < |init| :: es[i] == init[i];
  }

  lemma UnusableAddsNothing(init: seq<MemmapEntry>, e: MemmapEntry)
    requires e.kind != USABLE
    ensures UsablePages(init + [e]) == UsablePages(init)
  {
    var es := init + [e];
    forall p | p in UsablePages(init)
      ensures p in UsablePages(es)
    {
      var i :| 0 <= i < |init| && init[i].kind == USABLE && p in PagesOf(Chunk(init[i].base, init[i].length));
      assert es[i] == init[i];
    }
    forall p | p in UsablePages(es)
      ensures p in UsablePages(init)
    {
      var i :| 0 <= i < |es| && es[i].kind == USABLE && p in PagesOf(Chunk(es[i].base, es[i].length));
      assert es[i] == init[i];
    }
  }

  lemma UsablePagesSnoc(init: seq<MemmapEntry>, e: MemmapEntry)
    requires MemmapOk(init + [e]) && e.kind == USABLE
    ensures UsablePages(init + [e]) == UsablePages(init) + PagesOf(Chunk(e.base, e.length))
    ensures UsablePages(init) !! PagesOf(Chunk(e.base, e.length))
  {
    var es := init + [e];
    forall p | p in UsablePages(init)
      ensures p in UsablePages(es) && p !in PagesOf(Chunk(e.base, e.length))
    {
      var i :| 0 <= i < |init| && init[i].kind == USABLE && p in PagesOf(Chunk(init[i].base, init[i].length));
      assert es[i] == init[i] && es[|init|] == e;
    }
    forall p | p in PagesOf(Chunk(e.base, e.length))
      ensures p in UsablePages(es)
    {
      assert es[|init|] == e;
    }
    forall p | p in UsablePages(es)
      ensures p in UsablePages(init) + PagesOf(Chunk(e.base, e.length))
    {
      var i :| 0 <= i < |es| && es[i].kind == USABLE && p in PagesOf(Chunk(es[i].base, es[i].length));
      assert i < |init| ==> es[i] == init[i];
    }
  }

  lemma {:induction false} ReachFrame(f: Frames, f': Frames, root: nat, p: Path)
    requires TreeOk(f, root) && p.Valid()
    requires forall t | t in Tables(f, root) :: t in f' && f'[t] == f[t]
    ensures Reach(f', root, p) == Reach(f, root, p)
    decreases p.Depth()
  {
    assert Live(f, root, Root) && root in Tables(f, root);
    match p
    case Root =>
    case Third(i4) =>
    case Second(i4, i3) =>
      ReachFrame(f, f', root, Third(i4));
      if Reach(f, root, Third(i4)).Some? {
        LiveIsTable(f, root, Third(i4));
      }
    case First(i4, i3, i2) =>
      ReachFrame(f, f', root, Second(i4, i3));
      if Reach(f, root, Second(i4, i3)).Some? {
        LiveIsTable(f, root, Second(i4, i3));
      }
  }

  lemma TreeFrame(f: Frames, f': Frames, root: nat)
    requires TreeOk(f, root)
    requires forall t | t in Tables(f, root) :: t in f' && f'[t] == f[t]
    ensures TreeOk(f', root) && Tables(f', root) == Tables(f, root)
  {
    forall p: Path | p.Valid()
      ensures Reach(f', root, p) == Reach(f, root, p)
      ensures Live(f, root, p) ==> Reach(f, root, p).value in Tables(f, root)
    {
      ReachFrame(f, f', root, p);
    }
    forall t | t in Tables(f', root)
      ensures t in Tables(f, root)
    {
      var p :| Live(f', root, p) && Reach(f', root, p).value == t;
      assert Live(f, root, p);
    }
    forall t | t in Tables(f, root)
      ensures t in Tables(f', root)
    {
      var p :| Live(f, root, p) && Reach(f, root, p).value == t;
      assert Live(f', root, p);
    }
    forall p, i | Live(f', root, p) && (p.Third? || p.Second?) && 0 <= i < FANOUT
      ensures var e := EntryAt(f', Reach(f', root, p).value, i); e.present || !e.page_size
    {
      assert Live(f, root, p) && EntryAt(f', Reach(f', root, p).value, i) == EntryAt(f, Reach(f, root, p).value, i);
    }
  }

  lemma AddrsArePages(es: seq<MemmapEntry>)
    requires MemmapOk(es)
    ensures UsableAddrs(es) <= UsablePages(es)
  {
    forall t | t in UsableAddrs(es)
      ensures t in UsablePages(es)
    {
      var e :| e in es && e.kind == USABLE && e.base == t;
      var i :| 0 <= i < |es| && es[i] == e;
      assert ChunkOk(Chunk(e.base, e.length));
      assert t in PagesOf(Chunk(es[i].base, es[i].length));
    }
  }

  /**
   If the boot loader's tables form a tree outside usable memory, the state after freelist_init is one in
   which vm_map and unmap_lower_half may run, and the free pages are exactly the usable ones.
   */
  lemma FreelistInitEstablishesInv(f: Frames, f': Frames, root: nat, es: seq<MemmapEntry>)
    requires MemmapOk(es) && TreeOk(f, root) && Tables(f, root) !! UsablePages(es)
    requires HeadersIn(f', Usable(es)) && SameOutside(f, f', UsableAddrs(es))
    ensures Inv(Mem(f', Usable(es)), root)
    ensures FreePages(Usable(es)) == UsablePages(es)
  {
    UsableIsFree(es);
    AddrsArePages(es);
    TreeFrame(f, f', root);
  }

  // ----- chunks of any size

  /** Byte ranges that do not overlap, each large enough for its own node. */
  ghost predicate RangesOk(cs: seq<Chunk>) {
    && (forall i | 0 <= i < |cs| :: cs[i].addr % PAGESIZE == 0 && NODE_BYTES <= cs[i].size)
    && (forall i, j | 0 <= i < |cs| && 0 <= j < |cs| && i != j ::
          cs[i].addr + cs[i].size <= cs[j].addr || cs[j].addr + cs[j].size <= cs[i].addr)
  }

  predicate NodeIn(c: Chunk, page: nat) {
    c.addr < page + PAGESIZE && page < c.addr + NODE_BYTES
  }

  /**
   pmem_alloc for chunks that need not be whole pages: it fails exactly when every chunk is smaller than a
   page; the page it returns lies inside one chunk and outside every remaining one; it is aligned exactly
   when that chunk ends on a page boundary; and it overlaps a node still in the list exactly when what is
   left of the chunk is too small to hold its node.
   */
  lemma AllocFromAnyChunks(m: Mem, k: nat)
    requires RangesOk(m.free) && k == FirstFit(m.free)
    ensures k == |m.free| <==> (forall i | 0 <= i < |m.free| :: m.free[i].size < PAGESIZE)
    ensures k == |m.free| ==> Alloc(m) == (m, NO_PAGE)
    ensures k < |m.free| ==>
      var (m', p) := Alloc(m); var c := m.free[k];
      && c.addr <= p && p + PAGESIZE == c.addr + c.size
      && (forall i | 0 <= i < |m'.free| ::
            m'.free[i].addr + m'.free[i].size <= p || p + PAGESIZE <= m'.free[i].addr)
      && (p % PAGESIZE == 0 <==> (c.addr + c.size) % PAGESIZE == 0)
      && ((exists i :: 0 <= i < |m'.free| && NodeIn(m'.free[i], p)) <==> 0 < c.size - 0x1000 < 24)
  {
    hide RangesOk, ShrinkAt, NodeIn, Alloc;
    AllocatedPage(m, k);
    if k < |m.free| {
      var p := m.free[k].addr + m.free[k].size - PAGESIZE;
      RemainingChunks(m.free, k, p);
      RemainingList(m, k);
      assert p + PAGESIZE == m.free[k].addr + m.free[k].size;
      SameAlignment(p);
    }
  }

  lemma SameAlignment(p: int)
    ensures p % PAGESIZE == 0 <==> (p + PAGESIZE) % PAGESIZE == 0
  {
  }

  lemma RemainingList(m: Mem, k: nat)
    requires k == FirstFit(m.free) < |m.free|
    ensures Alloc(m).0.free == ShrinkAt(m.free, k)
  {
  }

  lemma RemainingChunks(cs: seq<Chunk>, k: nat, p: nat)
    requires RangesOk(cs) && k < |cs| && PAGESIZE <= cs[k].size && p == cs[k].addr + cs[k].size - PAGESIZE
    ensures var cs' := ShrinkAt(cs, k);
      && (forall i | 0 <= i < |cs'| :: cs'[i].addr + cs'[i].size <= p || p + PAGESIZE <= cs'[i].addr)
      && ((exists i :: 0 <= i < |cs'| && NodeIn(cs'[i], p)) <==> 0 < cs[k].size - PAGESIZE < NODE_BYTES)
  {
    var cs' := ShrinkAt(cs, k);
    if cs[k].size == PAGESIZE {
      forall i | 0 <= i < |cs'|
        ensures cs'[i].addr + cs'[i].size <= p || p + PAGESIZE <= cs'[i].addr
        ensures !NodeIn(cs'[i], p)
      {
        assert cs'[i] == cs[if k <= i then i + 1 else i];
      }
    } else {
      assert cs'[k] == Chunk(cs[k].addr, cs[k].size - PAGESIZE);
      assert NodeIn(cs'[k], p) <==> cs[k].size - PAGESIZE < NODE_BYTES;
      forall i | 0 <= i < |cs'| && i != k
        ensures cs'[i].addr + cs'[i].size <= p || p + PAGESIZE <= cs'[i].addr
        ensures !NodeIn(cs'[i], p)
      {
        assert cs'[i] == cs[i];
      }
    }
  }
}
