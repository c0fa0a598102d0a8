/**
 What pages mean after any run: a finite map from the pages mapped to the rights they were mapped with, in
 the rights of the path that leads to them, and with the frame addresses that were there before.
 */
module PageMap {
  import opened Common
  import opened FreeList
  import opened Address
  import opened PageTable
  import opened VmMap
  import opened UnmapLowerHalf
  import opened AddressSpace

  // ----- slots whose tables are all made by vm_map

  /** Does entry i of the table at p belong to slot s of the level-4 table, or lie below it? */
  predicate InSlot(p: Path, i: nat, s: nat) {
    if p.Root? then i == s else p.i4 == s
  }

  /** An entry as vm_map leaves it: links carry every right, leaves carry no frame address. */
  predicate MadeByMap(p: Path, e: Entry) {
    if p.First? then e.address == 0 else e.present ==> Open(e) && (p.Root? || !e.page_size)
  }

  ghost predicate SlotMade(f: Frames, root: nat, s: nat) {
    forall p, i | Live(f, root, p) && 0 <= i < FANOUT && InSlot(p, i, s) ::
      MadeByMap(p, EntryAt(f, Reach(f, root, p).value, i))
  }

  lemma GrownMade(f: Frames, f': Frames, root: nat, p: Path, i: nat, n: nat, s: nat)
    requires TreeOk(f, root) && Grown(f, f', root, p, i, n) && SlotMade(f, root, s)
    ensures SlotMade(f', root, s)
  {
    forall q, j | Live(f', root, q) && 0 <= j < FANOUT && InSlot(q, j, s)
      ensures MadeByMap(q, EntryAt(f', Reach(f', root, q).value, j))
    {
      ReachGrown(f, f', root, p, i, n, q);
      if q == p.Child(i) {
        assert EntryAt(f', n, j) == BLANK;
      } else {
        LiveIsTable(f, root, q);
        var u := Reach(f, root, q).value;
        if u != Reach(f, root, p).value || j != i {
          assert EntryAt(f', u, j) == EntryAt(f, u, j);
        } else {
          assert q == p;
        }
      }
    }
  }

  lemma LeafedMade(f: Frames, f': Frames, root: nat, p: Path, i: nat, s: nat)
    requires TreeOk(f, root) && Leafed(f, f', root, p, i) && SlotMade(f, root, s)
    requires EntryAt(f', Reach(f, root, p).value, i).address == EntryAt(f, Reach(f, root, p).value, i).address
    ensures SlotMade(f', root, s)
  {
    forall q, j | Live(f', root, q) && 0 <= j < FANOUT && InSlot(q, j, s)
      ensures MadeByMap(q, EntryAt(f', Reach(f', root, q).value, j))
    {
      ReachLeafed(f, f', root, p, i, q);
      LiveIsTable(f, root, q);
      var u := Reach(f, root, q).value;
      if u != Reach(f, root, p).value || j != i {
        assert EntryAt(f', u, j) == EntryAt(f, u, j);
      } else {
        assert q == p;
      }
    }
  }

  lemma {:induction false} MapFromMade(m: Mem, root: nat, t: nat, pg: Page, i: nat, q: Rights, s: nat)
    requires Inv(m, root) && pg.Valid() && i <= 3 && Reach(m.frames, root, Prefix(pg, i)) == Some(t)
    requires !Walk(m.frames, root, pg).Huge? && SlotMade(m.frames, root, s)
    ensures SlotMade(MapFrom(m, t, pg, i, q).0.frames, root, s)
    decreases 3 - i
  {
    var k := pg.At(i);
    var e := EntryAt(m.frames, t, k);
    if i == 3 {
      if !e.present {
        LeafStep(m, root, pg, q);
        LeafedMade(m.frames, SetEntry(m.frames, t, k, Leaf(e, q)), root, Prefix(pg, 3), k, s);
      }
    } else if e.present {
      LinkTurn(m, root, t, pg, i, q);
      MapFromMade(m, root, Target(e), pg, i + 1, q, s);
    } else {
      AllocTakesOne(m);
      if Alloc(m).1 != NO_PAGE {
        var n, m2 := GrowTurn(m, root, t, pg, i);
        GrowStep(m, root, pg, i);
        GrownMade(m.frames, m2.frames, root, Prefix(pg, i), k, n, s);
        MapFromGrows(m, t, pg, i, q, n, m2);
        MapFromMade(m2, root, n, pg, i + 1, q, s);
      }
    }
  }

  lemma EmptyIsMade(f: Frames, root: nat, s: nat)
    requires !EntryAt(f, root, s).present
    ensures SlotMade(f, root, s)
  {
    forall p | Live(f, root, p) && !p.Root?
      ensures p.i4 != s
    {
      LiveHasThird(f, root, p);
    }
  }

  lemma LiveHasThird(f: Frames, root: nat, p: Path)
    requires Live(f, root, p) && !p.Root?
    ensures EntryAt(f, root, p.i4).present
  {
    if p.First? {
      assert Reach(f, root, Second(p.i4, p.i3)).Some?;
    }
    assert Reach(f, root, Third(p.i4)).Some?;
  }

  lemma UnmapMade(m: Mem, root: nat, s: nat)
    requires Inv(m, root) && s < FANOUT && SlotMade(m.frames, root, s)
    ensures SlotMade(Unmap(m, root).frames, root, s)
  {
    UnmapIsHalved(m, root);
    var f, f' := m.frames, Unmap(m, root).frames;
    if s < LOWER {
      EmptyIsMade(f', root, s);
    } else {
      forall p, i | Live(f', root, p) && 0 <= i < FANOUT && InSlot(p, i, s)
        ensures MadeByMap(p, EntryAt(f', Reach(f', root, p).value, i))
      {
        ReachHalved(f, f', root, p);
        assert EntryAt(f', Reach(f', root, p).value, i) == EntryAt(f, Reach(f, root, p).value, i);
      }
    }
  }

  /** Every run keeps a slot, of either half, as vm_map makes it. */
  lemma {:induction false} RunMade(m: Mem, root: nat, ops: seq<Op>, s: nat)
    requires Inv(m, root) && NoHuge(m, root, ops) && s < FANOUT && SlotMade(m.frames, root, s)
    ensures SlotMade(Run(m, root, ops).frames, root, s)
    decreases |ops|
  {
    if ops != [] {
      var init, op := ops[..|ops| - 1], ops[|ops| - 1];
      assert ops == init + [op];
      NoHugeSplit(m, root, init, op);
      RunKeeps(m, root, init);
      RunMade(m, root, init, s);
      var m1 := Run(m, root, init);
      match op
      case MapPage(a, q) =>
        MapFromMade(m1, root, root, PageOf(a), 0, q, s);
      case UnmapLower =>
        UnmapMade(m1, root, s);
    }
  }

  /** In a slot made by vm_map no link takes a right away, and no leaf names a frame. */
  lemma {:induction false} MadeWalk(f: Frames, root: nat, pg: Page, j: nat, u: nat, r: Rights)
    requires pg.Valid() && SlotMade(f, root, pg.i4)
    requires j <= 3 && Reach(f, root, Prefix(pg, j)) == Some(u)
    ensures var w := WalkFrom(f, u, pg, j, r);
      && !w.Huge?
      && (w.Unmapped? ==> w.path == r)
      && (w.Mapped? ==> w.leaf.address == 0 && w.rights == Narrow(r, w.leaf))
    decreases 3 - j
  {
    var e := EntryAt(f, u, pg.At(j));
    assert Live(f, root, Prefix(pg, j)) && InSlot(Prefix(pg, j), pg.At(j), pg.i4);
    assert MadeByMap(Prefix(pg, j), e);
    if j < 3 && e.present {
      PrefixStep(f, root, pg, j);
      MadeWalk(f, root, pg, j + 1, Target(e), Narrow(r, e));
    }
  }

  // ----- the frame address of a page

  /** The address field of pg's level-1 entry; a page without a level-1 table has that of a cleared one. */
  function FrameField(f: Frames, root: nat, pg: Page): nat {
    OldLeaf(f, root, pg).address
  }

  lemma GrownFrame(f: Frames, f': Frames, root: nat, p: Path, i: nat, n: nat, pg: Page)
    requires TreeOk(f, root) && Grown(f, f', root, p, i, n) && pg.Valid()
    ensures FrameField(f', root, pg) == FrameField(f, root, pg)
  {
    var c := Prefix(pg, 3);
    ReachChild(f, root, p, i);
    ReachGrown(f, f', root, p, i, n, c);
    if c == p.Child(i) {
      assert EntryAt(f', n, pg.i1) == BLANK;
    } else if Reach(f, root, c).Some? {
      LiveIsTable(f, root, c);
      assert Reach(f, root, c) != Reach(f, root, p);
    }
  }

  lemma LeafedFrame(f: Frames, f': Frames, root: nat, p: Path, i: nat, pg: Page)
    requires TreeOk(f, root) && Leafed(f, f', root, p, i) && pg.Valid()
    requires EntryAt(f', Reach(f, root, p).value, i).address == EntryAt(f, Reach(f, root, p).value, i).address
    ensures FrameField(f', root, pg) == FrameField(f, root, pg)
  {
    var c := Prefix(pg, 3);
    ReachLeafed(f, f', root, p, i, c);
    if Reach(f, root, c).Some? {
      LiveIsTable(f, root, c);
      var u := Reach(f, root, c).value;
      assert (u == Reach(f, root, p).value && pg.i1 == i) || EntryAt(f', u, pg.i1) == EntryAt(f, u, pg.i1);
    }
  }

  /** vm_map changes the frame address of no page, its own included. */
  lemma {:induction false} MapFromFrame(m: Mem, root: nat, t: nat, pg: Page, i: nat, q: Rights, other: Page)
    requires Inv(m, root) && pg.Valid() && other.Valid() && i <= 3
    requires Reach(m.frames, root, Prefix(pg, i)) == Some(t) && !Walk(m.frames, root, pg).Huge?
    ensures FrameField(MapFrom(m, t, pg, i, q).0.frames, root, other) == FrameField(m.frames, root, other)
    decreases 3 - i
  {
    var k := pg.At(i);
    var e := EntryAt(m.frames, t, k);
    if i == 3 {
      if !e.present {
        LeafStep(m, root, pg, q);
        LeafedFrame(m.frames, SetEntry(m.frames, t, k, Leaf(e, q)), root, Prefix(pg, 3), k, other);
      }
    } else if e.present {
      LinkTurn(m, root, t, pg, i, q);
      MapFromFrame(m, root, Target(e), pg, i + 1, q, other);
    } else {
      AllocTakesOne(m);
      if Alloc(m).1 != NO_PAGE {
        var n, m2 := GrowTurn(m, root, t, pg, i);
        GrowStep(m, root, pg, i);
        GrownFrame(m.frames, m2.frames, root, Prefix(pg, i), k, n, other);
        MapFromGrows(m, t, pg, i, q, n, m2);
        MapFromFrame(m2, root, n, pg, i + 1, q, other);
      }
    }
  }

  lemma UnmapFrame(m: Mem, root: nat, pg: Page)
    requires Inv(m, root) && pg.Valid()
    ensures FrameField(Unmap(m, root).frames, root, pg) ==
            if pg.i4 < LOWER then 0 else FrameField(m.frames, root, pg)
  {
    UnmapIsHalved(m, root);
    var f, f', c := m.frames, Unmap(m, root).frames, Prefix(pg, 3);
    ReachHalved(f, f', root, c);
    assert Live(f, root, c) || Reach(f, root, c) == None;
  }

  /** Has pg's level-1 table been given up in this run? */
  predicate Wiped(ops: seq<Op>, pg: Page) {
    pg.i4 < LOWER && UnmapLower in ops
  }

  /** No run assigns a frame to any page: its address field is the one it had at the start, or cleared. */
  lemma {:induction false} RunAssignsNoFrame(m: Mem, root: nat, ops: seq<Op>, pg: Page)
    requires Inv(m, root) && NoHuge(m, root, ops) && pg.Valid()
    ensures FrameField(Run(m, root, ops).frames, root, pg) ==
            if Wiped(ops, pg) then 0 else FrameField(m.frames, root, pg)
    decreases |ops|
  {
    if ops != [] {
      var init, op := ops[..|ops| - 1], ops[|ops| - 1];
      assert ops == init + [op];
      NoHugeSplit(m, root, init, op);
      RunKeeps(m, root, init);
      RunAssignsNoFrame(m, root, init, pg);
      match op
      case MapPage(a, q) =>
        MapFromFrame(Run(m, root, init), root, root, PageOf(a), 0, q, pg);
      case UnmapLower =>
        UnmapFrame(Run(m, root, init), root, pg);
    }
  }

  /** A mapped page translates to the frame that its level-1 entry names. */
  lemma {:induction false} WalkEndsInLeaf(f: Frames, root: nat, pg: Page, j: nat, u: nat, r: Rights)
    requires pg.Valid() && j <= 3 && Reach(f, root, Prefix(pg, j)) == Some(u)
    ensures var w := WalkFrom(f, u, pg, j, r); w.Mapped? ==> w.leaf == OldLeaf(f, root, pg)
    decreases 3 - j
  {
    var e := EntryAt(f, u, pg.At(j));
    if j < 3 && e.present && (j == 0 || !e.page_size) {
      PrefixStep(f, root, pg, j);
      WalkEndsInLeaf(f, root, pg, j + 1, Target(e), Narrow(r, e));
    }
  }

  // ----- the map a run builds

  /** The calls of vm_map that succeeded; unmap_lower_half takes the lower pages out. */
  function Mappings(m: Mem, root: nat, ops: seq<Op>): map<Page, Rights> {
    if ops == [] then map[]
    else
      var init := ops[..|ops| - 1];
      var pages := Mappings(m, root, init);
      match ops[|ops| - 1]
      case MapPage(a, q) => if Map(Run(m, root, init), root, a, q).1 then pages[PageOf(a) := q] else pages
      case UnmapLower => map pg | pg in pages && LOWER <= pg.i4 :: pages[pg]
  }

  function LeafRights(e: Entry): Rights {
    Rights(e.user, e.writable, !e.no_execute)
  }

  function Meet(r: Rights, q: Rights): Rights {
    Rights(r.user && q.user, r.writable && q.writable, r.executable && q.executable)
  }

  ghost predicate Agrees(f: Frames, root: nat, pages: map<Page, Rights>, path: Rights, pg: Page) {
    var w := Walk(f, root, pg);
    if pg in pages then w.Mapped? && LeafRights(w.leaf) == pages[pg] && w.rights == Meet(path, pages[pg])
    else w == Unmapped(path)
  }

  /** The rights along the path of an unmapped page; a path that vm_map must build afresh grants all. */
  function PathRights(m: Mem, root: nat, ops: seq<Op>, pg: Page): Rights
    requires Walk(m.frames, root, pg).Unmapped?
  {
    if Wiped(ops, pg) then ALL else Walk(m.frames, root, pg).path
  }

  lemma AgreesAfterMap(m: Mem, root: nat, a: nat, q: Rights, pages: map<Page, Rights>, path: Rights, pg: Page)
    requires Inv(m, root) && !Walk(m.frames, root, PageOf(a)).Huge?
    requires pg.Valid() && Agrees(m.frames, root, pages, path, pg)
    ensures var (m', ok) := Map(m, root, a, q);
      Agrees(m'.frames, root, if ok then pages[PageOf(a) := q] else pages, path, pg)
  {
    hide Inv;
    MapOutcome(m, root, a, q);
  }

  lemma AgreesAfterUnmap(m: Mem, root: nat, pages: map<Page, Rights>, path: Rights, pg: Page)
    requires Inv(m, root) && pg.Valid() && Agrees(m.frames, root, pages, path, pg)
    ensures Agrees(Unmap(m, root).frames, root, map p | p in pages && LOWER <= p.i4 :: pages[p],
                   if pg.i4 < LOWER then ALL else path, pg)
  {
    UnmapOutcome(m, root);
    if pg.i4 < LOWER {
      UnmapIsHalved(m, root);
      assert !EntryAt(Unmap(m, root).frames, root, pg.i4).present;
    }
  }

  /**
   After every run, a page that was not mapped at the start is mapped if and only if it is in the map of the
   successful calls; its leaf then carries exactly the bits asked for, and its effective rights are those
   bits as far as its path grants them. Building or mapping any other page changes neither.
   */
  lemma {:induction false} RunIsPageMap(m: Mem, root: nat, ops: seq<Op>, pg: Page)
    requires Inv(m, root) && NoHuge(m, root, ops)
    requires pg.Valid() && Walk(m.frames, root, pg).Unmapped?
    ensures Agrees(Run(m, root, ops).frames, root, Mappings(m, root, ops), PathRights(m, root, ops, pg), pg)
    decreases |ops|
  {
    if ops != [] {
      var init, op := ops[..|ops| - 1], ops[|ops| - 1];
      assert ops == init + [op];
      NoHugeSplit(m, root, init, op);
      RunKeeps(m, root, init);
      RunIsPageMap(m, root, init, pg);
      var pages, path := Mappings(m, root, init), PathRights(m, root, init, pg);
      match op
      case MapPage(a, q) =>
        AgreesAfterMap(Run(m, root, init), root, a, q, pages, path, pg);
      case UnmapLower =>
        AgreesAfterUnmap(Run(m, root, init), root, pages, path, pg);
    }
  }

  /**
   When vm_map has made every table on the path, because the level-4 entry was not in use at the start, the
   effective rights are exactly the ones asked for, and the page translates to frame 0.
   */
  lemma FreshSlotGivesRequestedRights(m: Mem, root: nat, ops: seq<Op>, pg: Page)
    requires Inv(m, root) && NoHuge(m, root, ops)
    requires pg.Valid() && !EntryAt(m.frames, root, pg.i4).present
    ensures var w := Walk(Run(m, root, ops).frames, root, pg); var pages := Mappings(m, root, ops);
      if pg in pages then w.Mapped? && w.rights == pages[pg] && w.leaf.address == 0 else w == Unmapped(ALL)
  {
    var f := Run(m, root, ops).frames;
    assert Walk(m.frames, root, pg) == Unmapped(ALL);
    RunIsPageMap(m, root, ops, pg);
    RunAssignsNoFrame(m, root, ops, pg);
    WalkEndsInLeaf(f, root, pg, 0, root, ALL);
    if Reach(m.frames, root, Prefix(pg, 3)).Some? {
      LiveHasThird(m.frames, root, Prefix(pg, 3));
    }
  }

  /** Any two pages mapped by a run translate to the same frame, frame 0, if their entries named none before. */
  lemma MappedPagesShareFrameZero(m: Mem, root: nat, ops: seq<Op>, a: nat, b: nat)
    requires Inv(m, root) && NoHuge(m, root, ops)
    requires forall pg | pg == PageOf(a) || pg == PageOf(b) ::
               && pg in Mappings(m, root, ops)
               && Walk(m.frames, root, pg).Unmapped? && FrameField(m.frames, root, pg) == 0
    ensures var f := Run(m, root, ops).frames;
      && Walk(f, root, PageOf(a)).Mapped? && Walk(f, root, PageOf(b)).Mapped?
      && Target(Walk(f, root, PageOf(a)).leaf) == Target(Walk(f, root, PageOf(b)).leaf) == 0
  {
    forall pg | pg == PageOf(a) || pg == PageOf(b)
      ensures Walk(Run(m, root, ops).frames, root, pg).Mapped?
      ensures Walk(Run(m, root, ops).frames, root, pg).leaf.address == 0
    {
      RunIsPageMap(m, root, ops, pg);
      RunAssignsNoFrame(m, root, ops, pg);
      WalkEndsInLeaf(Run(m, root, ops).frames, root, pg, 0, root, ALL);
    }
  }
}
