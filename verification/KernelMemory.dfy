/**
 kernel/memory.c in its own form: memory and FREELIST are fields that the functions update in place.
 Each method is proved against the value-level function of the same name in FreeList, VmMap or
 UnmapLowerHalf.
 */
module KernelMemory {
  import opened Common
  import opened FreeList
  import opened Address
  import opened PageTable
  import Mapping = VmMap
  import Unmapping = UnmapLowerHalf

  /** A memory-map entry of the boot loader (kernel/stivale2.h); kind 1 is usable memory. */
  datatype MemmapEntry = MemmapEntry(base: nat, length: nat, kind: nat)

  const USABLE: nat := 1

  /** The chunks freelist_init makes of the first n entries: each usable one is pushed in front. */
  function Usable(es: seq<MemmapEntry>): seq<Chunk> {
    if es == [] then []
    else
      var e := es[|es| - 1];
      (if e.kind == USABLE then [Chunk(e.base, e.length)] else []) + Usable(es[..|es| - 1])
  }

  ghost function UsableAddrs(es: seq<MemmapEntry>): set<nat> {
    set e | e in es && e.kind == USABLE :: e.base
  }

  lemma {:induction false} UsableBases(es: seq<MemmapEntry>)
    ensures forall k | 0 <= k < |Usable(es)| :: Usable(es)[k].addr in UsableAddrs(es)
  {
    if es != [] {
      var init, e := es[..|es| - 1], es[|es| - 1];
      UsableBases(init);
      assert UsableAddrs(init) <= UsableAddrs(es);
      assert e in es;
    }
  }

  lemma UsableEntry(es: seq<MemmapEntry>, i: nat)
    requires i < |es| && es[i].kind == USABLE
    requires forall j, k | 0 <= j < k < |es| :: es[j].kind == es[k].kind == USABLE ==> es[j].base != es[k].base
    ensures es[i].base in UsableAddrs(es)
    ensures forall k | 0 <= k < |Usable(es[..i])| :: Usable(es[..i])[k].addr != es[i].base
  {
    UsableBases(es[..i]);
  }

  lemma OutsideTrans(f: Frames, f1: Frames, f2: Frames, touched: set<nat>)
    requires SameOutside(f, f1, touched) && SameOutside(f1, f2, touched)
    ensures SameOutside(f, f2, touched)
  {
  }

  class PhysicalMemory {
    var frames: Frames
    var head: Ptr             // FREELIST
    ghost var free: seq<Chunk>

    ghost predicate Valid()
      reads this
    {
      HeadersIn(frames, free) && head == NextOf(free, -1)
    }

    ghost function State(): Mem
      reads this
    {
      Mem(frames, free)
    }

    ghost predicate NotANode(p: nat)
      reads this
    {
      forall i | 0 <= i < |free| :: free[i].addr != p
    }

    constructor (f: Frames)
      ensures Valid() && State() == Mem(f, [])
    {
      frames, head, free := f, Null, [];
    }

    /** Puts a node for p's chunk in front of the list. */
    method Push(addr: nat, size: nat)
      requires Valid() && NotANode(addr)
      modifies this
      ensures Valid()
      ensures free == [Chunk(addr, size)] + old(free)
      ensures frames == old(frames)[addr := Header(size, addr, NextOf(old(free), -1))]
    {
      frames := frames[addr := Header(size, addr, head)];
      head := At(addr);
      HeadersPushed(old(frames), free, Chunk(addr, size));
      free := [Chunk(addr, size)] + free;
    }

    method FreelistInit(memmap: seq<MemmapEntry>)
      requires Valid() && free == []
      requires forall i, j | 0 <= i < j < |memmap| :: memmap[i].kind == memmap[j].kind == USABLE ==>
                 memmap[i].base != memmap[j].base
      modifies this
      ensures Valid()
      ensures free == Usable(memmap)
      ensures SameOutside(old(frames), frames, UsableAddrs(memmap))
    {
      assert SameOutside(frames, frames, UsableAddrs(memmap));
      hide HeadersIn, NextOf, SameOutside, UsableAddrs;
      var i := 0;
      while i < |memmap|
        invariant 0 <= i <= |memmap|
        invariant Valid() && free == Usable(memmap[..i])
        invariant SameOutside(old(frames), frames, UsableAddrs(memmap))
      {
        var entry := memmap[i];
        assert memmap[..i + 1][..i] == memmap[..i];
        if entry.kind == USABLE {
          UsableEntry(memmap, i);
          WriteInside(frames, entry.base, Header(entry.length, entry.base, NextOf(free, -1)), UsableAddrs(memmap));
          OutsideTrans(old(frames), frames, frames[entry.base := Header(entry.length, entry.base, NextOf(free, -1))],
                       UsableAddrs(memmap));
          Push(entry.base, entry.length);
        }
        i := i + 1;
      }
      assert memmap[..i] == memmap;
    }

    method PmemAlloc() returns (result: nat)
      requires Valid()
      modifies this
      ensures Valid()
      ensures State() == Alloc(old(State())).0
      ensures result == Alloc(old(State())).1
    {
      result := NO_PAGE;
      var curr, prev := head, Null;
      ghost var k := 0;
      while curr != Null
        invariant 0 <= k <= |free|
        invariant curr == NextOf(free, k - 1)
        invariant prev == if k == 0 then Null else At(free[k - 1].addr)
        invariant forall j | 0 <= j < k :: free[j].size < PAGESIZE
        decreases |free| - k
      {
        assert HeaderAt(frames, free, k);
        var node := frames[curr.addr];
        if node.size < PAGESIZE {
          prev := curr;
          curr := node.next;
          k := k + 1;
          continue;
        }
        AllocatedPage(State(), k);
        result := node.addr + node.size - PAGESIZE;
        ChopPage(curr.addr, prev, k);
        return;
      }
      AllocatedPage(State(), k);
    }

    /** The part of pmem_alloc that takes a page off the chunk at curr and unlinks an empty node. */
    method ChopPage(curr: nat, prev: Ptr, ghost k: nat)
      requires Valid() && k < |free| && curr == free[k].addr
      requires prev == if k == 0 then Null else At(free[k - 1].addr)
      requires PAGESIZE <= free[k].size && FirstFit(free) == k
      modifies this
      ensures Valid()
      ensures State() == Alloc(old(State())).0
    {
      ghost var f, cs := frames, free;
      hide FirstFit, Alloc, HeadersIn;
      HeadersAround(f, cs, k);
      AllocShape(f, cs, k);
      frames := frames[curr := frames[curr].(size := frames[curr].size - PAGESIZE)];
      if frames[curr].size == 0 {
        if prev == Null {
          head := frames[curr].next;
        } else {
          frames := frames[prev.addr := frames[prev.addr].(next := frames[curr].next)];
        }
        HeadersUnlinked(f, cs, k);
      } else {
        HeadersResized(f, cs, k, cs[k].size - PAGESIZE);
      }
      free := ShrinkAt(free, k);
    }

    method PmemFree(p: nat)
      requires Valid() && NotANode(p)
      modifies this
      ensures Valid()
      ensures State() == Free(old(State()), p)
    {
      Push(p, PAGESIZE);
    }

    // ----- page tables

    /** Reads an entry through a pointer; the frame must hold a table, never a list node. */
    method ReadEntry(t: nat, i: nat) returns (e: Entry)
      requires IsTable(frames, t) && i < FANOUT
      ensures e == EntryAt(frames, t, i)
    {
      e := frames[t].entries[i];
    }

    method WriteEntry(t: nat, i: nat, e: Entry)
      requires IsTable(frames, t) && i < FANOUT
      modifies `frames
      ensures frames == SetEntry(old(frames), t, i, e)
      ensures IsTable(frames, t) && EntryAt(frames, t, i) == e
    {
      frames := frames[t := Table(frames[t].entries[i := e])];
    }

    /** The part of vm_map that clears a new frame and fills in the entry that leads to it. */
    method LinkNewTable(t: nat, k: nat, page: nat)
      requires IsTable(frames, t) && k < FANOUT && t != page
      modifies `frames
      ensures frames == Mapping.Grow(old(State()), t, k, page).frames
    {
      frames := frames[page := ZeroTable()]; // memset
      ghost var f := frames;
      var entry := ReadEntry(t, k);
      WriteEntry(t, k, entry.(present := true));
      entry := ReadEntry(t, k);
      Overwrite(f, t, k, entry, entry.(user := true));
      WriteEntry(t, k, entry.(user := true));
      entry := ReadEntry(t, k);
      Overwrite(f, t, k, entry, entry.(writable := true));
      WriteEntry(t, k, entry.(writable := true));
      entry := ReadEntry(t, k);
      Overwrite(f, t, k, entry, entry.(no_execute := false));
      WriteEntry(t, k, entry.(no_execute := false));
      entry := ReadEntry(t, k);
      Overwrite(f, t, k, entry, entry.(address := page / PAGESIZE % ADDRESS_FIELD));
      WriteEntry(t, k, entry.(address := page / PAGESIZE % ADDRESS_FIELD));
    }

    /** The part of vm_map that fills in the level-1 entry. */
    method FillLeaf(t: nat, k: nat, user: bool, writable: bool, executable: bool)
      requires IsTable(frames, t) && k < FANOUT
      modifies `frames
      ensures frames == SetEntry(old(frames), t, k,
                                 Mapping.Leaf(EntryAt(old(frames), t, k), Rights(user, writable, executable)))
    {
      ghost var f := frames;
      var entry := ReadEntry(t, k);
      WriteEntry(t, k, entry.(present := true));
      entry := ReadEntry(t, k);
      Overwrite(f, t, k, entry, entry.(user := user));
      WriteEntry(t, k, entry.(user := user));
      entry := ReadEntry(t, k);
      Overwrite(f, t, k, entry, entry.(writable := writable));
      WriteEntry(t, k, entry.(writable := writable));
      entry := ReadEntry(t, k);
      Overwrite(f, t, k, entry, entry.(no_execute := !executable));
      WriteEntry(t, k, entry.(no_execute := !executable));
    }

    method VmMap(root: nat, address: nat, user: bool, writable: bool, executable: bool) returns (ok: bool)
      requires Valid() && Inv(State(), root)
      requires !Walk(frames, root, PageOf(address)).Huge?
      modifies this
      ensures Valid()
      ensures (State(), ok) == Mapping.Map(old(State()), root, address, Rights(user, writable, executable))
    {
      ghost var pg, q := PageOf(address), Rights(user, writable, executable);
      assert Reach(frames, root, Prefix(pg, 0)) == Some(root);
      hide Inv, HeadersIn, Walk, Reach, Prefix, Index, Alloc, NextOf, IsTable, EntryAt, Mapping.MapFrom, Mapping.Grow;
      var table := root;
      var i := 0;
      while i < 3
        invariant 0 <= i <= 3 && Valid() && Inv(State(), root)
        invariant !Walk(frames, root, pg).Huge? && Reach(frames, root, Prefix(pg, i)) == Some(table)
        invariant Mapping.MapFrom(State(), table, pg, i, q) == Mapping.Map(old(State()), root, address, q)
      {
        ghost var m := State();
        TableOnPath(m, root, table, pg, i);
        var index := Index(address, i);
        var entry := ReadEntry(table, index);
        if !entry.present {
          var page := PmemAlloc();
          NewTable(m, root, table, pg, i, q);
          if page == NO_PAGE {
            return false;
          }
          LinkNewTable(table, index, page);
        } else {
          Mapping.LinkTurn(m, root, table, pg, i, q);
        }
        entry := ReadEntry(table, index);
        table := Target(entry);
        i := i + 1;
      }
      ok := MapLeaf(root, table, address, user, writable, executable);
    }

    /** The part of vm_map that comes after its loop. */
    method MapLeaf(ghost root: nat, table: nat, address: nat, user: bool, writable: bool, executable: bool)
      returns (ok: bool)
      requires Valid() && Inv(State(), root) && Reach(frames, root, Prefix(PageOf(address), 3)) == Some(table)
      modifies this`frames
      ensures Valid()
      ensures (State(), ok) ==
              Mapping.MapFrom(old(State()), table, PageOf(address), 3, Rights(user, writable, executable))
    {
      ghost var pg, q := PageOf(address), Rights(user, writable, executable);
      TableOnPath(State(), root, table, pg, 3);
      var entry := ReadEntry(table, Index(address, 3));
      ok := !entry.present;
      if ok {
        Mapping.LeafStep(State(), root, pg, q);
        FillLeaf(table, Index(address, 3), user, writable, executable);
      }
    }

    /**
     vm_protect changes its local copy of the entry and never the table, so it reports whether the page is
     mapped and has no other effect.
     */
    method VmProtect(root: nat, address: nat, user: bool, writable: bool, executable: bool) returns (ok: bool)
      requires Inv(State(), root) && !Walk(frames, root, PageOf(address)).Huge?
      ensures ok <==> Walk(frames, root, PageOf(address)).Mapped?
    {
      ghost var pg := PageOf(address);
      var table := root;
      var entry;
      var i := 0;
      while i < 3
        invariant 0 <= i <= 3 && Reach(frames, root, Prefix(pg, i)) == Some(table)
      {
        hide TreeOk, FreeOk;
        TableOnPath(State(), root, table, pg, i);
        entry := ReadEntry(table, Index(address, i));
        if !entry.present {
          Mapping.NoEntryNoPage(frames, root, table, pg, i);
          return false;
        }
        Mapping.LinkTurn(State(), root, table, pg, i, ALL);
        table := Target(entry);
        i := i + 1;
      }
      TableOnPath(State(), root, table, pg, 3);
      entry := ReadEntry(table, Index(address, 3));
      LastEntryDecides(frames, root, table, pg);
      if !entry.present {
        return false;
      }
      entry := entry.(user := user);
      entry := entry.(writable := writable);
      entry := entry.(no_execute := !executable);
      return true;
    }

    // ----- unmap_lower_half

    /** The innermost loop: frees the level-1 tables that the level-2 table at l2 links. */
    method FreeLevel1Tables(l2: nat, ghost m: Mem, ghost done: seq<nat>)
      requires Valid() && State() == FreeAll(m, done)
      requires Unfreed(m, done, Unmapping.UnderSecond(m.frames, l2, FANOUT) + [l2]) && IsTable(m.frames, l2)
      modifies this
      ensures Valid()
      ensures State() == FreeAll(m, done + Unmapping.UnderSecond(m.frames, l2, FANOUT))
    {
      hide Unfreed, HeadersIn, FreeAll, Free, IsTable, EntryAt, Target, NextOf, Unmapping.UnderSecond;
      NothingFreed(m.frames, l2, done);
      var i := 0;
      while i < FANOUT
        invariant 0 <= i <= FANOUT
        invariant Valid() && State() == FreeAll(m, done + Unmapping.UnderSecond(m.frames, l2, i))
      {
        Level1Turn(m, done, l2, i);
        var entry := ReadEntry(l2, i);
        if entry.present && !entry.page_size {
          PmemFree(Target(entry));
        }
        i := i + 1;
      }
    }

    /** The loop over a level-3 table: frees what lies below each link, then the level-2 table. */
    method FreeLevel2Tables(l3: nat, ghost m: Mem, ghost done: seq<nat>)
      requires Valid() && State() == FreeAll(m, done)
      requires Unfreed(m, done, Unmapping.UnderThird(m.frames, l3, FANOUT) + [l3]) && IsTable(m.frames, l3)
      requires forall i | 0 <= i < FANOUT && Links(Third(0), EntryAt(m.frames, l3, i)) ::
                 IsTable(m.frames, Target(EntryAt(m.frames, l3, i)))
      modifies this
      ensures Valid()
      ensures State() == FreeAll(m, done + Unmapping.UnderThird(m.frames, l3, FANOUT))
    {
      hide Unfreed, HeadersIn, FreeAll, IsTable, EntryAt, Target, NextOf, Unmapping.UnderThird;
      NothingFreed(m.frames, l3, done);
      var i := 0;
      while i < FANOUT
        invariant 0 <= i <= FANOUT
        invariant Valid() && State() == FreeAll(m, done + Unmapping.UnderThird(m.frames, l3, i))
      {
        FreeLevel2Entry(l3, i, m, done);
        i := i + 1;
      }
    }

    /** One turn of that loop; the entry is read again after the level-1 tables below it have been freed. */
    method FreeLevel2Entry(l3: nat, i: nat, ghost m: Mem, ghost done: seq<nat>)
      requires i < FANOUT && Valid() && State() == FreeAll(m, done + Unmapping.UnderThird(m.frames, l3, i))
      requires Unfreed(m, done, Unmapping.UnderThird(m.frames, l3, FANOUT) + [l3]) && IsTable(m.frames, l3)
      requires Links(Third(0), EntryAt(m.frames, l3, i)) ==> IsTable(m.frames, Target(EntryAt(m.frames, l3, i)))
      modifies this
      ensures Valid()
      ensures State() == FreeAll(m, done + Unmapping.UnderThird(m.frames, l3, i + 1))
    {
      hide Unfreed, HeadersIn, FreeAll, Free, IsTable, EntryAt, Target, NextOf, Unmapping.UnderSecond,
        Unmapping.UnderThird;
      ghost var part := Unmapping.UnderThird(m.frames, l3, i);
      L3Survives(m, done, l3, i);
      var entry := ReadEntry(l3, i);
      if entry.present && !entry.page_size {
        var l2 := Target(entry);
        ghost var below := Unmapping.UnderSecond(m.frames, l2, FANOUT);
        Level2Turn(m, done, l3, i, part, below, l2);
        FreeLevel1Tables(l2, m, done + part);
        entry := ReadEntry(l3, i);
        PmemFree(Target(entry));
      } else {
        Level2Skip(m.frames, l3, i);
      }
    }

    method UnmapLowerHalf(root: nat)
      requires Valid() && Inv(State(), root)
      modifies this
      ensures Valid()
      ensures State() == Unmapping.Unmap(old(State()), root)
      ensures Unmapping.SplitByBit47(old(frames), frames, root)
    {
      ghost var m := State();
      HalfwayEnds(m, root);
      Unmapping.UnmapOnAddresses(m, root);
      hide Inv, HeadersIn, Unmapping.SplitByBit47, Halfway, IsTable, EntryAt, FreeAll, NextOf, Unfreed,
        Unmapping.UnderThird, Unmapping.UnderRoot, Unmapping.Cleared, Unmapping.Unmap;
      var i := 0;
      while i < Unmapping.LOWER
        invariant 0 <= i <= Unmapping.LOWER
        invariant Valid() && State() == Halfway(m, root, i, i)
      {
        RootSurvives(m, root, i);
        var entry := ReadEntry(root, i);
        if entry.present {
          RootClear(m, root, i, head);
          WriteEntry(root, i, entry.(present := false));
          RootTurn(m, root, i);
          entry := ReadEntry(root, i);
          var l3 := Target(entry);
          FreeLevel2Tables(l3, Mem(Unmapping.Cleared(m.frames, root, i + 1), m.free),
                           Unmapping.UnderRoot(m.frames, root, i));
          entry := ReadEntry(root, i);
          PmemFree(Target(entry));
        } else {
          RootSkip(m, root, i);
        }
        i := i + 1;
      }
    }
  }

  /** The first n level-4 entries are cleared, and the tables below the first k are freed. */
  function Halfway(m: Mem, root: nat, n: nat, k: nat): Mem {
    FreeAll(Mem(Unmapping.Cleared(m.frames, root, n), m.free), Unmapping.UnderRoot(m.frames, root, k))
  }

  lemma HalfwayEnds(m: Mem, root: nat)
    ensures Halfway(m, root, 0, 0) == m
    ensures Halfway(m, root, Unmapping.LOWER, Unmapping.LOWER) == Unmapping.Unmap(m, root)
  {
  }

  lemma RootNeverFreed(m: Mem, root: nat, k: nat)
    requires Inv(m, root) && k <= FANOUT
    ensures root !in Unmapping.UnderRoot(m.frames, root, k)
  {
    Unmapping.RootLists(m.frames, root, k);
    assert Live(m.frames, root, Root);
    assert forall p: Path | Live(m.frames, root, p) && !p.Root? :: Reach(m.frames, root, p) != Some(root);
  }

  lemma RootSurvives(m: Mem, root: nat, i: nat)
    requires Inv(m, root) && i < FANOUT
    ensures IsTable(m.frames, root) && IsTable(Halfway(m, root, i, i).frames, root)
    ensures EntryAt(Halfway(m, root, i, i).frames, root, i) == EntryAt(m.frames, root, i)
  {
    LiveIsTable(m.frames, root, Root);
    Unmapping.ClearedEntries(m.frames, root, i);
    RootNeverFreed(m, root, i);
    Unmapping.FreeAllWrites(Mem(Unmapping.Cleared(m.frames, root, i), m.free), Unmapping.UnderRoot(m.frames, root, i));
  }

  lemma RootSkip(m: Mem, root: nat, i: nat)
    requires Inv(m, root) && i < FANOUT && !EntryAt(m.frames, root, i).present
    ensures Halfway(m, root, i + 1, i + 1) == Halfway(m, root, i, i)
  {
    hide TreeOk, FreeOk, FreeAll;
    LiveIsTable(m.frames, root, Root);
    Unmapping.ClearedEntries(m.frames, root, i);
    var f := Unmapping.Cleared(m.frames, root, i);
    assert f[root].entries[i := f[root].entries[i]] == f[root].entries;
    assert EntryAt(f, root, i).(present := false) == EntryAt(f, root, i);
    assert Unmapping.Cleared(m.frames, root, i + 1) == f;
    assert Unmapping.UnderRoot(m.frames, root, i) + [] == Unmapping.UnderRoot(m.frames, root, i);
  }

  lemma {:induction false} FreeAllElsewhere(m: Mem, ps: seq<nat>, x: nat, frame: Frame)
    requires x !in ps
    ensures FreeAll(Mem(m.frames[x := frame], m.free), ps) ==
            Mem(FreeAll(m, ps).frames[x := frame], FreeAll(m, ps).free)
    decreases |ps|
  {
    if ps != [] {
      FreeAllElsewhere(m, ps[..|ps| - 1], x, frame);
      assert ps[|ps| - 1] != x;
    }
  }

  lemma HeadersElsewhere(f: Frames, cs: seq<Chunk>, x: nat, frame: Frame)
    requires HeadersIn(f, cs) && forall c | c in cs :: c.addr != x
    ensures HeadersIn(f[x := frame], cs)
  {
    var f' := f[x := frame];
    forall i | 0 <= i < |cs|
      ensures HeaderAt(f', cs, i)
    {
      assert HeaderAt(f, cs, i) && cs[i] in cs;
    }
  }

  lemma RootIsNoNode(m: Mem, root: nat, c: Chunk)
    requires Inv(m, root) && c in m.free
    ensures c.addr !in Tables(m.frames, root) && c.addr != root
  {
    LiveIsTable(m.frames, root, Root);
    NodesAreFreePages(m.free);
  }

  /** Marking a level-4 entry not present commutes with the frees made so far. */
  lemma RootClear(m: Mem, root: nat, i: nat, head: Ptr)
    requires Inv(m, root) && i < FANOUT
    requires HeadersIn(Halfway(m, root, i, i).frames, Halfway(m, root, i, i).free)
    ensures var e := EntryAt(m.frames, root, i).(present := false);
      var (m1, m2) := (Halfway(m, root, i, i), Halfway(m, root, i + 1, i));
      && m2.frames == SetEntry(m1.frames, root, i, e)
      && m2.free == m1.free && HeadersIn(m2.frames, m2.free)
  {
    hide TreeOk, FreeOk, HeadersIn;
    var f, done := Unmapping.Cleared(m.frames, root, i), Unmapping.UnderRoot(m.frames, root, i);
    var e := EntryAt(m.frames, root, i).(present := false);
    RootSurvives(m, root, i);
    Unmapping.ClearedEntries(m.frames, root, i);
    RootNeverFreed(m, root, i);
    var t := Table(f[root].entries[i := e]);
    FreeAllElsewhere(Mem(f, m.free), done, root, t);
    Unmapping.FreeAllWrites(Mem(f, m.free), done);
    FreeAllNodes(Mem(f, m.free), done);
    forall c | c in Halfway(m, root, i, i).free
      ensures c.addr != root
    {
      if c in m.free {
        RootIsNoNode(m, root, c);
      }
    }
    HeadersElsewhere(Halfway(m, root, i, i).frames, Halfway(m, root, i, i).free, root, t);
  }

  lemma {:induction false} UnderSecondSame(f: Frames, f': Frames, l2: nat, n: nat)
    requires forall j | 0 <= j < n :: EntryAt(f', l2, j) == EntryAt(f, l2, j)
    ensures Unmapping.UnderSecond(f', l2, n) == Unmapping.UnderSecond(f, l2, n)
  {
    if n > 0 {
      UnderSecondSame(f, f', l2, n - 1);
    }
  }

  lemma {:induction false} UnderThirdSame(f: Frames, f': Frames, root: nat, i4: nat, n: nat)
    requires TreeOk(f, root) && SameOutside(f, f', {root}) && Live(f, root, Third(i4)) && n <= FANOUT
    ensures var l3 := Reach(f, root, Third(i4)).value;
      l3 != root && Unmapping.UnderThird(f', l3, n) == Unmapping.UnderThird(f, l3, n)
  {
    var l3 := Reach(f, root, Third(i4)).value;
    assert Live(f, root, Root) && Reach(f, root, Root) == Some(root);
    if n > 0 {
      UnderThirdSame(f, f', root, i4, n - 1);
      var e := EntryAt(f, l3, n - 1);
      if e.present && !e.page_size {
        ReachChild(f, root, Third(i4), n - 1);
        assert Live(f, root, Second(i4, n - 1));
        UnderSecondSame(f, f', Target(e), FANOUT);
      }
    }
  }

  /** The lower-half list, before and after the group of one level-4 entry. */
  lemma RootGroup(m: Mem, root: nat, i: nat) returns (l3: nat, below: seq<nat>)
    requires Inv(m, root) && i < Unmapping.LOWER && EntryAt(m.frames, root, i).present
    ensures l3 == Target(EntryAt(m.frames, root, i)) && Reach(m.frames, root, Third(i)) == Some(l3)
    ensures below == Unmapping.UnderThird(m.frames, l3, FANOUT)
    ensures below == Unmapping.UnderThird(Unmapping.Cleared(m.frames, root, i + 1), l3, FANOUT)
    ensures Unmapping.UnderRoot(m.frames, root, i + 1) == Unmapping.UnderRoot(m.frames, root, i) + (below + [l3])
    ensures Unfreed(Mem(Unmapping.Cleared(m.frames, root, i + 1), m.free), Unmapping.UnderRoot(m.frames, root, i),
                    below + [l3])
  {
    hide TreeOk, FreeOk, SameOutside, EntryAt, IsTable, Unmapping.Cleared, Unmapping.UnderThird, Unmapping.Distinct;
    l3 := Target(EntryAt(m.frames, root, i));
    below := Unmapping.UnderThird(m.frames, l3, FANOUT);
    LiveIsTable(m.frames, root, Root);
    Unmapping.ClearedEntries(m.frames, root, i + 1);
    UnderThirdSame(m.frames, Unmapping.Cleared(m.frames, root, i + 1), root, i, FANOUT);
    RootListed(m, root, i + 1);
  }

  lemma RootListed(m: Mem, root: nat, n: nat)
    requires Inv(m, root) && n <= FANOUT
    ensures Unmapping.Distinct(Unmapping.UnderRoot(m.frames, root, n))
    ensures forall x, k | x in Unmapping.UnderRoot(m.frames, root, n) && 0 <= k < |m.free| :: m.free[k].addr != x
  {
    var all := Unmapping.UnderRoot(m.frames, root, n);
    Unmapping.RootLists(m.frames, root, n);
    forall x, k | x in all && 0 <= k < |m.free|
      ensures m.free[k].addr != x
    {
      var p: Path :| Live(m.frames, root, p) && Unmapping.Below(p, Root, n) && Reach(m.frames, root, p) == Some(x);
      LiveIsTable(m.frames, root, p);
      RootIsNoNode(m, root, m.free[k]);
    }
  }

  /** What the turn of the level-4 loop for a linked level-3 table relies on. */
  lemma RootTurn(m: Mem, root: nat, i: nat)
    requires Inv(m, root) && i < Unmapping.LOWER && EntryAt(m.frames, root, i).present
    ensures var m1 := Mem(Unmapping.Cleared(m.frames, root, i + 1), m.free);
      var done, l3 := Unmapping.UnderRoot(m.frames, root, i), Target(EntryAt(m.frames, root, i));
      var below := Unmapping.UnderThird(m1.frames, l3, FANOUT);
      && Halfway(m, root, i + 1, i) == FreeAll(m1, done)
      && Unfreed(m1, done, below + [l3]) && IsTable(m1.frames, l3)
      && (forall j | 0 <= j < FANOUT && Links(Third(0), EntryAt(m1.frames, l3, j)) ::
            IsTable(m1.frames, Target(EntryAt(m1.frames, l3, j))))
      && (forall j | 0 <= j < |FreeAll(m1, done + below).free| :: FreeAll(m1, done + below).free[j].addr != l3)
      && Free(FreeAll(m1, done + below), l3) == Halfway(m, root, i + 1, i + 1)
      && IsTable(FreeAll(m1, done + below).frames, root)
      && Target(EntryAt(FreeAll(m1, done + below).frames, root, i)) == l3
  {
    var m1 := Mem(Unmapping.Cleared(m.frames, root, i + 1), m.free);
    var done := Unmapping.UnderRoot(m.frames, root, i);
    var l3, below := RootGroup(m, root, i);
    Level3Tables(m, root, i, l3, m1.frames);
    NodeIsNew(m1, done, below, below + [l3], l3);
    FreeAllSnoc(m1, done, below, l3);
    RootStillThere(m, root, i, done + below, l3);
  }

  /** The level-4 table is never freed, so it can be read after all frees beneath an entry. */
  lemma RootStillThere(m: Mem, root: nat, i: nat, freed: seq<nat>, l3: nat)
    requires Inv(m, root) && i < Unmapping.LOWER && l3 == Target(EntryAt(m.frames, root, i))
    requires freed + [l3] == Unmapping.UnderRoot(m.frames, root, i + 1)
    ensures var f := FreeAll(Mem(Unmapping.Cleared(m.frames, root, i + 1), m.free), freed).frames;
      IsTable(f, root) && Target(EntryAt(f, root, i)) == l3
  {
    LiveIsTable(m.frames, root, Root);
    RootNeverFreed(m, root, i + 1);
    Unmapping.ClearedEntries(m.frames, root, i + 1);
    Unmapping.FreeAllWrites(Mem(Unmapping.Cleared(m.frames, root, i + 1), m.free), freed);
    assert forall x | x in freed :: x in freed + [l3];
  }

  lemma Level3Tables(m: Mem, root: nat, i: nat, l3: nat, f': Frames)
    requires Inv(m, root) && i < Unmapping.LOWER && Reach(m.frames, root, Third(i)) == Some(l3)
    requires f' == Unmapping.Cleared(m.frames, root, i + 1)
    ensures IsTable(f', l3)
    ensures forall j | 0 <= j < FANOUT && Links(Third(0), EntryAt(f', l3, j)) ::
              IsTable(f', Target(EntryAt(f', l3, j)))
  {
    LiveIsTable(m.frames, root, Root);
    LiveIsTable(m.frames, root, Third(i));
    Unmapping.ClearedEntries(m.frames, root, i + 1);
    forall j | 0 <= j < FANOUT && Links(Third(0), EntryAt(f', l3, j))
      ensures IsTable(f', Target(EntryAt(f', l3, j)))
    {
      ReachChild(m.frames, root, Third(i), j);
      LiveIsTable(m.frames, root, Second(i, j));
    }
  }

  lemma GroupInPrefix(part: seq<nat>, below: seq<nat>, x: nat, all: seq<nat>, last: nat)
    requires part + (below + [x]) <= all
    ensures part + (below + [x]) == (part + below) + [x]
    ensures part + (below + [x]) <= all + [last] && (part + below) + [x] <= all + [last]
  {
    assert part + (below + [x]) == (part + below) + [x];
  }

  lemma L3Survives(m: Mem, done: seq<nat>, l3: nat, i: nat)
    requires i < FANOUT && Unfreed(m, done, Unmapping.UnderThird(m.frames, l3, FANOUT) + [l3])
    requires IsTable(m.frames, l3)
    ensures IsTable(FreeAll(m, done + Unmapping.UnderThird(m.frames, l3, i)).frames, l3)
    ensures EntryAt(FreeAll(m, done + Unmapping.UnderThird(m.frames, l3, i)).frames, l3, i) == EntryAt(m.frames, l3, i)
  {
    var all := Unmapping.UnderThird(m.frames, l3, FANOUT);
    UnderThirdPrefix(m.frames, l3, i, FANOUT);
    TableSurvives(m, done, Unmapping.UnderThird(m.frames, l3, i), all + [l3], |all|);
  }

  lemma NothingFreed(f: Frames, t: nat, done: seq<nat>)
    ensures done + Unmapping.UnderSecond(f, t, 0) == done == done + Unmapping.UnderThird(f, t, 0)
  {
  }

  /** What a turn of the level-2 loop relies on. */
  lemma Level1Turn(m: Mem, done: seq<nat>, l2: nat, i: nat)
    requires i < FANOUT && IsTable(m.frames, l2)
    requires Unfreed(m, done, Unmapping.UnderSecond(m.frames, l2, FANOUT) + [l2])
    ensures var e := EntryAt(m.frames, l2, i); var m1 := FreeAll(m, done + Unmapping.UnderSecond(m.frames, l2, i));
      && IsTable(m1.frames, l2) && EntryAt(m1.frames, l2, i) == e
      && FreeAll(m, done + Unmapping.UnderSecond(m.frames, l2, i + 1)) ==
         (if e.present && !e.page_size then Free(m1, Target(e)) else m1)
      && (e.present && !e.page_size ==> forall j | 0 <= j < |m1.free| :: m1.free[j].addr != Target(e))
  {
    hide Unfreed, FreeAll, Free;
    var all, part := Unmapping.UnderSecond(m.frames, l2, FANOUT), Unmapping.UnderSecond(m.frames, l2, i);
    UnderSecondPrefix(m.frames, l2, i + 1, FANOUT);
    TableSurvives(m, done, part, all + [l2], |all|);
    var e := EntryAt(m.frames, l2, i);
    if e.present && !e.page_size {
      assert Unmapping.UnderSecond(m.frames, l2, i + 1) == part + [Target(e)];
      NodeIsNew(m, done, part, all + [l2], Target(e));
      FreeAllSnoc(m, done, part, Target(e));
    } else {
      assert Unmapping.UnderSecond(m.frames, l2, i + 1) == part;
    }
  }

  /** The level-3 table comes last, so freeing what lies below it leaves it readable. */
  lemma L3StillThere(m: Mem, done: seq<nat>, part: seq<nat>, all: seq<nat>, l3: nat, i: nat)
    requires i < FANOUT && Unfreed(m, done, all + [l3]) && IsTable(m.frames, l3)
    requires part <= all + [l3] && |part| <= |all|
    ensures IsTable(FreeAll(m, done + part).frames, l3)
    ensures EntryAt(FreeAll(m, done + part).frames, l3, i) == EntryAt(m.frames, l3, i)
  {
    TableSurvives(m, done, part, all + [l3], |all|);
  }

  lemma Level2Skip(f: Frames, l3: nat, i: nat)
    requires !EntryAt(f, l3, i).present || EntryAt(f, l3, i).page_size
    ensures Unmapping.UnderThird(f, l3, i + 1) == Unmapping.UnderThird(f, l3, i)
  {
  }

  /** What the turn of the level-3 loop for a linked level-2 table relies on. */
  lemma Level2Turn(m: Mem, done: seq<nat>, l3: nat, i: nat, part: seq<nat>, below: seq<nat>, l2: nat)
    requires i < FANOUT && Unfreed(m, done, Unmapping.UnderThird(m.frames, l3, FANOUT) + [l3])
    requires part == Unmapping.UnderThird(m.frames, l3, i) && below == Unmapping.UnderSecond(m.frames, l2, FANOUT)
    requires var e := EntryAt(m.frames, l3, i); e.present && !e.page_size && Target(e) == l2
    requires IsTable(m.frames, l3)
    ensures Unfreed(m, done + part, below + [l2])
    ensures IsTable(FreeAll(m, done + part + below).frames, l3)
    ensures EntryAt(FreeAll(m, done + part + below).frames, l3, i) == EntryAt(m.frames, l3, i)
    ensures forall j | 0 <= j < |FreeAll(m, done + part + below).free| ::
              FreeAll(m, done + part + below).free[j].addr != l2
    ensures Free(FreeAll(m, done + part + below), l2) == FreeAll(m, done + Unmapping.UnderThird(m.frames, l3, i + 1))
  {
    hide Unfreed, Free, FreeAll, Unmapping.UnderSecond;
    var all := Unmapping.UnderThird(m.frames, l3, FANOUT);
    UnderThirdPrefix(m.frames, l3, i + 1, FANOUT);
    GroupInPrefix(part, below, l2, all, l3);
    assert Unmapping.UnderThird(m.frames, l3, i + 1) == (part + below) + [l2];
    UnfreedPart(m, done, part, below + [l2], all + [l3]);
    assert done + part + below == done + (part + below);
    NodeIsNew(m, done, part + below, all + [l3], l2);
    FreeAllSnoc(m, done, part + below, l2);
    L3StillThere(m, done, part + below, all, l3, i);
  }

  lemma {:induction false} UnderThirdPrefix(f: Frames, l3: nat, i: nat, n: nat)
    requires i <= n
    ensures Unmapping.UnderThird(f, l3, i) <= Unmapping.UnderThird(f, l3, n)
    decreases n
  {
    if i < n {
      UnderThirdPrefix(f, l3, i, n - 1);
    }
  }

  lemma UnfreedPart(m: Mem, done: seq<nat>, part: seq<nat>, mid: seq<nat>, todo: seq<nat>)
    requires Unfreed(m, done, todo) && part + mid <= todo
    ensures Unfreed(m, done + part, mid)
  {
    var s, t := done + todo, done + part + mid;
    assert forall j | 0 <= j < |t| :: t[j] == s[j];
    assert forall x | x in t :: x in s;
  }

  lemma LastEntryDecides(f: Frames, root: nat, t: nat, pg: Page)
    requires pg.Valid() && Reach(f, root, Prefix(pg, 3)) == Some(t)
    ensures EntryAt(f, t, pg.i1).present <==> Walk(f, root, pg).Mapped?
  {
    var r := WalkArrives(f, root, pg, 3);
  }

  // ----- freeing one frame after another

  /** The frames of todo are still as in m, when done has been freed: all different, and none a free chunk. */
  ghost predicate Unfreed(m: Mem, done: seq<nat>, todo: seq<nat>) {
    && Unmapping.Distinct(done + todo)
    && forall x, i | x in done + todo && 0 <= i < |m.free| :: m.free[i].addr != x
  }

  lemma {:induction false} UnderSecondPrefix(f: Frames, l2: nat, i: nat, n: nat)
    requires i <= n
    ensures Unmapping.UnderSecond(f, l2, i) <= Unmapping.UnderSecond(f, l2, n)
    decreases n
  {
    if i < n {
      UnderSecondPrefix(f, l2, i, n - 1);
    }
  }

  lemma FreeAllSnoc(m: Mem, done: seq<nat>, part: seq<nat>, x: nat)
    ensures Free(FreeAll(m, done + part), x) == FreeAll(m, done + (part + [x]))
  {
    var all := done + (part + [x]);
    assert all[..|all| - 1] == done + part;
  }

  /** A frame that comes later in the list still holds what it held before any was freed. */
  lemma TableSurvives(m: Mem, done: seq<nat>, part: seq<nat>, todo: seq<nat>, k: nat)
    requires Unfreed(m, done, todo) && part <= todo && |part| <= k < |todo|
    ensures todo[k] in m.frames ==>
              todo[k] in FreeAll(m, done + part).frames && FreeAll(m, done + part).frames[todo[k]] == m.frames[todo[k]]
  {
    Unmapping.FreeAllWrites(m, done + part);
    assert forall j | 0 <= j < |done + part| :: (done + part)[j] == (done + todo)[j] != (done + todo)[|done| + k];
    assert todo[k] !in Unmapping.Members(done + part);
  }

  lemma {:induction false} FreeAllNodes(m: Mem, ps: seq<nat>)
    ensures forall c | c in FreeAll(m, ps).free :: c.addr in ps || c in m.free
    decreases |ps|
  {
    if ps != [] {
      FreeAllNodes(m, ps[..|ps| - 1]);
    }
  }

  lemma NodeIsNew(m: Mem, done: seq<nat>, part: seq<nat>, todo: seq<nat>, x: nat)
    requires Unfreed(m, done, todo) && part + [x] <= todo
    ensures forall i | 0 <= i < |FreeAll(m, done + part).free| :: FreeAll(m, done + part).free[i].addr != x
  {
    FreeAllNodes(m, done + part);
    assert todo[|part|] == x && x in done + todo;
    assert forall j | 0 <= j < |done + part| :: (done + part)[j] == (done + todo)[j] != (done + todo)[|done + part|];
    forall i | 0 <= i < |FreeAll(m, done + part).free|
      ensures FreeAll(m, done + part).free[i].addr != x
    {
      var c := FreeAll(m, done + part).free[i];
      assert c in FreeAll(m, done + part).free;
    }
  }

  lemma Overwrite(f: Frames, t: nat, k: nat, e: Entry, e': Entry)
    ensures SetEntry(SetEntry(f, t, k, e), t, k, e') == SetEntry(f, t, k, e')
  {
    if t in f && f[t].Table? && k < |f[t].entries| {
      assert f[t].entries[k := e][k := e'] == f[t].entries[k := e'];
    }
  }

  lemma TableOnPath(m: Mem, root: nat, t: nat, pg: Page, i: nat)
    requires Inv(m, root) && pg.Valid() && i <= 3 && Reach(m.frames, root, Prefix(pg, i)) == Some(t)
    ensures IsTable(m.frames, t) && t in Tables(m.frames, root) && t !in FreePages(m.free)
  {
    LiveIsTable(m.frames, root, Prefix(pg, i));
  }

  /** What the loop of vm_map relies on when an entry is not present. */
  lemma NewTable(m: Mem, root: nat, t: nat, pg: Page, i: nat, q: Rights)
    requires Inv(m, root) && pg.Valid() && i < 3 && Reach(m.frames, root, Prefix(pg, i)) == Some(t)
    requires !Walk(m.frames, root, pg).Huge? && !EntryAt(m.frames, t, pg.At(i)).present
    ensures Alloc(m).1 == NO_PAGE ==> Mapping.MapFrom(m, t, pg, i, q) == (Alloc(m).0, false)
    ensures var (m1, n) := Alloc(m); n != NO_PAGE ==>
      var m2 := Mapping.Grow(m1, t, pg.At(i), n);
      && IsTable(m1.frames, t) && t != n
      && Inv(m2, root) && HeadersIn(m2.frames, m2.free) && m2.free == m1.free && !Walk(m2.frames, root, pg).Huge?
      && Target(EntryAt(m2.frames, t, pg.At(i))) == n && Reach(m2.frames, root, Prefix(pg, i + 1)) == Some(n)
      && IsTable(m2.frames, t)
      && Mapping.MapFrom(m, t, pg, i, q) == Mapping.MapFrom(m2, n, pg, i + 1, q)
  {
    hide TreeOk, ChunksOk, HeadersIn, Mapping.WalksSame;
    AllocTakesOne(m);
    if Alloc(m).1 != NO_PAGE {
      var n, m2 := Mapping.GrowTurn(m, root, t, pg, i);
      Mapping.MapFromGrows(m, t, pg, i, q, n, m2);
      TableOnPath(m, root, t, pg, i);
      assert Reach(m2.frames, root, Prefix(pg, i)) == Some(t);
      TableOnPath(m2, root, t, pg, i);
    }
  }

  lemma HeadersAround(f: Frames, cs: seq<Chunk>, k: nat)
    requires HeadersIn(f, cs) && k < |cs|
    ensures HeaderAt(f, cs, k) && (k > 0 ==> HeaderAt(f, cs, k - 1) && cs[k - 1].addr != cs[k].addr)
    ensures k == 0 ==> NextOf(cs, -1) == At(cs[0].addr)
  {
  }

  lemma AllocShape(f: Frames, cs: seq<Chunk>, k: nat)
    requires k < |cs| && FirstFit(cs) == k
    ensures var f1 := f[cs[k].addr := Header(cs[k].size - PAGESIZE, cs[k].addr, NextOf(cs, k))];
      Alloc(Mem(f, cs)).0 ==
      Mem(if cs[k].size != PAGESIZE || k == 0 then f1
          else f1[cs[k - 1].addr := Header(cs[k - 1].size, cs[k - 1].addr, NextOf(cs, k))],
          ShrinkAt(cs, k))
  {
    ShrunkHeaders(cs, k);
    hide FirstFit, ShrinkAt, HeaderOf, NextOf;
  }

  lemma ShrunkHeaders(cs: seq<Chunk>, k: nat)
    requires k < |cs| && PAGESIZE <= cs[k].size
    ensures var cs' := ShrinkAt(cs, k);
      && (cs[k].size != PAGESIZE ==>
            |cs'| == |cs| && HeaderOf(cs', k) == Header(cs[k].size - PAGESIZE, cs[k].addr, NextOf(cs, k)))
      && (cs[k].size == PAGESIZE && k > 0 ==>
            k <= |cs'| && HeaderOf(cs', k - 1) == Header(cs[k - 1].size, cs[k - 1].addr, NextOf(cs, k)))
  {
  }

  /** The page to return is read off the first chunk that is large enough. */
  lemma AllocatedPage(m: Mem, k: nat)
    requires k <= |m.free| && forall j | 0 <= j < k :: m.free[j].size < PAGESIZE
    requires k < |m.free| ==> PAGESIZE <= m.free[k].size
    ensures FirstFit(m.free) == k
    ensures Alloc(m).1 == if k < |m.free| then m.free[k].addr + m.free[k].size - PAGESIZE else NO_PAGE
    ensures k == |m.free| ==> Alloc(m).0 == m
  {
    assert FirstFit(m.free) == k;
  }

  lemma HeadersUnlinked(f: Frames, cs: seq<Chunk>, k: nat)
    requires HeadersIn(f, cs) && k < |cs| && PAGESIZE == cs[k].size
    ensures var f1, cs' := f[cs[k].addr := Header(0, cs[k].addr, NextOf(cs, k))], ShrinkAt(cs, k);
      HeadersIn(if k == 0 then f1 else f1[cs[k - 1].addr := Header(cs[k - 1].size, cs[k - 1].addr, NextOf(cs, k))], cs')
      && NextOf(cs', k - 1) == NextOf(cs, k)
  {
    var f1, cs' := f[cs[k].addr := Header(0, cs[k].addr, NextOf(cs, k))], cs[..k] + cs[k + 1..];
    var f' := if k == 0 then f1 else f1[cs[k - 1].addr := Header(cs[k - 1].size, cs[k - 1].addr, NextOf(cs, k))];
    forall i | 0 <= i < |cs'|
      ensures HeaderAt(f', cs', i)
    {
      var j := if k <= i then i + 1 else i;
      assert HeaderAt(f, cs, j);
      assert cs'[i] == cs[j] && (i != k - 1 ==> NextOf(cs', i) == NextOf(cs, j));
    }
  }
}
