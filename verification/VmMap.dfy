/**
 vm_map of kernel/memory.c, on values, and what it does to the tree, the free pages and every walk.
 */
module VmMap {
  import opened Common
  import opened FreeList
  import opened Address
  import opened PageTable

  /** The entry vm_map makes out of e to link the table stored at n. */
  function LinkTo(e: Entry, n: nat): Entry {
    e.(present := true, user := true, writable := true, no_execute := false,
       address := n / PAGESIZE % ADDRESS_FIELD)
  }

  /** The entry vm_map makes out of e at level 1: no frame is assigned, the old address field stays. */
  function Leaf(e: Entry, q: Rights): Entry {
    e.(present := true, user := q.user, writable := q.writable, no_execute := !q.executable)
  }

  /** Clears the frame at n and links it into slot k of the table at t. */
  function Grow(m: Mem, t: nat, k: nat, n: nat): Mem {
    var f := m.frames[n := ZeroTable()];
    Mem(SetEntry(f, t, k, LinkTo(EntryAt(f, t, k), n)), m.free)
  }

  /** vm_map from loop step i on, with the table of that level at t. */
  function MapFrom(m: Mem, t: nat, pg: Page, i: nat, q: Rights): (Mem, bool)
    requires i <= 3
    decreases 3 - i
  {
    var k := pg.At(i);
    var e := EntryAt(m.frames, t, k);
    if i == 3 then
      if e.present then (m, false) else (Mem(SetEntry(m.frames, t, k, Leaf(e, q)), m.free), true)
    else if e.present then MapFrom(m, Target(e), pg, i + 1, q)
    else
      var (m1, n) := Alloc(m);
      if n == NO_PAGE then (m1, false)
      else
        var m2 := Grow(m1, t, k, n);
        MapFrom(m2, Target(EntryAt(m2.frames, t, k)), pg, i + 1, q)
  }

  function Map(m: Mem, root: nat, a: nat, q: Rights): (Mem, bool) {
    MapFrom(m, root, PageOf(a), 0, q)
  }

  // ----- one turn of the loop that adds a table

  lemma LinkedAddress(e: Entry, n: nat)
    requires n % PAGESIZE == 0 && n < PHYS_LIMIT
    ensures Target(LinkTo(e, n)) == n
  {
  }

  lemma AlignedBelowLimit(n: nat)
    requires n % PAGESIZE == 0 && n < PHYS_LIMIT
    ensures n + PAGESIZE <= PHYS_LIMIT
  {
  }

  lemma GrowWrites(m1: Mem, t: nat, k: nat, n: nat)
    requires IsTable(m1.frames, t) && k < FANOUT && t != n
    ensures var f', e := Grow(m1, t, k, n).frames, EntryAt(m1.frames, t, k);
      && (forall u | u != t && u != n :: (u in f' <==> u in m1.frames) && (u in f' ==> f'[u] == m1.frames[u]))
      && n in f' && f'[n] == ZeroTable()
      && IsTable(f', t)
      && EntryAt(f', t, k) == LinkTo(e, n)
      && (forall j | 0 <= j < FANOUT && j != k :: EntryAt(f', t, j) == EntryAt(m1.frames, t, j))
  {
  }

  lemma GrowKeepsFree(m: Mem, m1: Mem, t: nat, k: nat, n: nat)
    requires Took(m, m1, n) && t !in FreePages(m.free) && t != n
    requires IsTable(m1.frames, t) && k < FANOUT
    ensures FreeOk(Grow(m1, t, k, n))
  {
    GrowWrites(m1, t, k, n);
    HeadersOutsideFree(m1.frames, Grow(m1, t, k, n).frames, m1.free);
  }

  lemma TookKeepsTables(m: Mem, m1: Mem, root: nat, n: nat, p: Path)
    requires Inv(m, root) && Took(m, m1, n) && Live(m.frames, root, p)
    ensures var t := Reach(m.frames, root, p).value;
      t in Tables(m.frames, root) && t !in FreePages(m.free) && t != n && n !in Tables(m.frames, root)
      && IsTable(m1.frames, t) && m1.frames[t] == m.frames[t]
  {
    LiveIsTable(m.frames, root, p);
  }

  lemma GrowIsGrown(m: Mem, m1: Mem, root: nat, p: Path, k: nat, n: nat)
    requires Inv(m, root) && Took(m, m1, n)
    requires Live(m.frames, root, p) && !p.First? && k < FANOUT
    requires !EntryAt(m.frames, Reach(m.frames, root, p).value, k).present
    requires !p.Root? ==> !EntryAt(m.frames, Reach(m.frames, root, p).value, k).page_size
    ensures Grown(m.frames, Grow(m1, Reach(m.frames, root, p).value, k, n).frames, root, p, k, n)
  {
    var t := Reach(m.frames, root, p).value;
    TookKeepsTables(m, m1, root, n, p);
    GrowWrites(m1, t, k, n);
    LinkedAddress(EntryAt(m.frames, t, k), n);
    AlignedBelowLimit(n);
    assert EntryAt(m1.frames, t, k) == EntryAt(m.frames, t, k);
  }

  // ----- what vm_map promises

  predicate OnPath(pg: Page, p: Path) {
    p == Prefix(pg, 1) || p == Prefix(pg, 2) || p == Prefix(pg, 3)
  }

  /**
   m' is well formed, holds the same frames as m, split between tables and free pages; every table of m
   is where it was, and all new tables lie on the path of pg.
   */
  ghost predicate Kept(m: Mem, m': Mem, root: nat, pg: Page) {
    && Inv(m', root)
    && Tables(m'.frames, root) + FreePages(m'.free) == Tables(m.frames, root) + FreePages(m.free)
    && FreePages(m'.free) <= FreePages(m.free)
    && (forall p: Path | p.Valid() && Reach(m.frames, root, p).Some? ::
          Reach(m'.frames, root, p) == Reach(m.frames, root, p))
    && (forall p: Path | p.Valid() && !OnPath(pg, p) :: Reach(m'.frames, root, p) == Reach(m.frames, root, p))
  }

  ghost predicate WalksSame(f: Frames, f': Frames, root: nat) {
    forall pg: Page | pg.Valid() :: Walk(f', root, pg) == Walk(f, root, pg)
  }

  ghost predicate OtherWalksSame(f: Frames, f': Frames, root: nat, mapped: Page) {
    forall pg: Page | pg.Valid() && pg != mapped :: Walk(f', root, pg) == Walk(f, root, pg)
  }

  /** How many tables the path of pg lacks, from loop step i on. */
  function Missing(f: Frames, root: nat, pg: Page, i: nat): nat
    requires i <= 3
    decreases 3 - i
  {
    if i == 3 then 0
    else if Reach(f, root, Prefix(pg, i + 1)).Some? then Missing(f, root, pg, i + 1)
    else 3 - i
  }

  lemma GrowStep(m: Mem, root: nat, pg: Page, i: nat)
    requires Inv(m, root) && pg.Valid() && i < 3 && Reach(m.frames, root, Prefix(pg, i)).Some?
    requires !EntryAt(m.frames, Reach(m.frames, root, Prefix(pg, i)).value, pg.At(i)).present
    requires Alloc(m).1 != NO_PAGE
    ensures var t := Reach(m.frames, root, Prefix(pg, i)).value; var n := Alloc(m).1;
      var m2 := Grow(Alloc(m).0, t, pg.At(i), n);
      && Grown(m.frames, m2.frames, root, Prefix(pg, i), pg.At(i), n)
      && FreeOk(m2) && m2.free == Alloc(m).0.free
      && n in FreePages(m.free) && FreePages(m2.free) == FreePages(m.free) - {n}
  {
    AllocTakesOne(m);
    var t := Reach(m.frames, root, Prefix(pg, i)).value;
    var n, m1 := Alloc(m).1, Alloc(m).0;
    PrefixStep(m.frames, root, pg, i);
    TookKeepsTables(m, m1, root, n, Prefix(pg, i));
    GrowKeepsFree(m, m1, t, pg.At(i), n);
    GrowIsGrown(m, m1, root, Prefix(pg, i), pg.At(i), n);
  }

  lemma GrownKept(m: Mem, m2: Mem, root: nat, pg: Page, i: nat, n: nat)
    requires Inv(m, root) && pg.Valid() && i < 3
    requires Grown(m.frames, m2.frames, root, Prefix(pg, i), pg.At(i), n) && FreeOk(m2)
    requires n in FreePages(m.free) && FreePages(m2.free) == FreePages(m.free) - {n}
    ensures Kept(m, m2, root, pg)
    ensures WalksSame(m.frames, m2.frames, root)
    ensures Reach(m2.frames, root, Prefix(pg, i + 1)) == Some(n)
    ensures Reach(m.frames, root, Prefix(pg, i + 1)) == None
    ensures Missing(m2.frames, root, pg, i + 1) == 2 - i
  {
    var f, f', p, k := m.frames, m2.frames, Prefix(pg, i), pg.At(i);
    PrefixStep(f, root, pg, i);
    GrownTree(f, f', root, p, k, n);
    GrownTables(f, f', root, p, k, n);
    forall q: Path | q.Valid()
      ensures Reach(f', root, q) == if q == p.Child(k) then Some(n) else Reach(f, root, q)
    {
      ReachGrown(f, f', root, p, k, n, q);
    }
    forall other: Page | other.Valid()
      ensures Walk(f', root, other) == Walk(f, root, other)
    {
      WalkGrown(f, f', root, p, k, n, other, 0, root, ALL);
    }
    if i < 2 {
      PrefixStep(f', root, pg, i + 1);
      assert EntryAt(f', n, pg.At(i + 1)) == BLANK;
    }
  }

  /** The last step of vm_map, at the level-1 table of pg. */
  lemma LeafStep(m: Mem, root: nat, pg: Page, q: Rights)
    requires Inv(m, root) && pg.Valid() && Reach(m.frames, root, Prefix(pg, 3)).Some?
    requires !EntryAt(m.frames, Reach(m.frames, root, Prefix(pg, 3)).value, pg.i1).present
    ensures var t := Reach(m.frames, root, Prefix(pg, 3)).value;
      var e := Leaf(EntryAt(m.frames, t, pg.i1), q);
      var m' := Mem(SetEntry(m.frames, t, pg.i1, e), m.free);
      && Leafed(m.frames, m'.frames, root, Prefix(pg, 3), pg.i1)
      && EntryAt(m'.frames, t, pg.i1) == e
      && FreeOk(m')
  {
    var t := Reach(m.frames, root, Prefix(pg, 3)).value;
    var f' := SetEntry(m.frames, t, pg.i1, Leaf(EntryAt(m.frames, t, pg.i1), q));
    LiveIsTable(m.frames, root, Prefix(pg, 3));
    HeadersOutsideFree(m.frames, f', m.free);
  }

  lemma LeafedKept(m: Mem, m': Mem, root: nat, pg: Page, e: Entry)
    requires Inv(m, root) && pg.Valid()
    requires Leafed(m.frames, m'.frames, root, Prefix(pg, 3), pg.i1) && FreeOk(m') && m'.free == m.free
    requires !EntryAt(m.frames, Reach(m.frames, root, Prefix(pg, 3)).value, pg.i1).present
    requires EntryAt(m'.frames, Reach(m.frames, root, Prefix(pg, 3)).value, pg.i1) == e && e.present
    ensures Kept(m, m', root, pg)
    ensures OtherWalksSame(m.frames, m'.frames, root, pg)
    ensures Walk(m.frames, root, pg).Unmapped?
    ensures Walk(m'.frames, root, pg) == Mapped(e, Narrow(Walk(m.frames, root, pg).path, e))
  {
    var f, f' := m.frames, m'.frames;
    LeafedTree(f, f', root, Prefix(pg, 3), pg.i1);
    LeafedTables(f, f', root, Prefix(pg, 3), pg.i1);
    forall q: Path | q.Valid()
      ensures Reach(f', root, q) == Reach(f, root, q)
    {
      ReachLeafed(f, f', root, Prefix(pg, 3), pg.i1, q);
    }
    forall other: Page | other.Valid() && other != pg
      ensures Walk(f', root, other) == Walk(f, root, other)
    {
      WalkLeafedElsewhere(f, f', root, pg, other, 0, root, ALL);
    }
    WalkLeafedHere(f, f', root, pg, e, 0, root, ALL);
  }

  /** The level-1 entry of pg before the call; blank where the table is missing, since a new table is cleared. */
  function OldLeaf(f: Frames, root: nat, pg: Page): Entry {
    var t := Reach(f, root, Prefix(pg, 3));
    if t.Some? then EntryAt(f, t.value, pg.i1) else BLANK
  }

  /**
   What one call leaves behind, successful or not. When it succeeds, the page was unmapped and its walk now
   ends in the old level-1 entry with the bits asked for and nothing else changed, its frame address included;
   its effective rights are those of the links on its path, narrowed by the leaf. No other walk changes.
   */
  ghost predicate Outcome(m: Mem, m': Mem, ok: bool, root: nat, pg: Page, q: Rights) {
    && Kept(m, m', root, pg)
    && OtherWalksSame(m.frames, m'.frames, root, pg)
    && var before, after := Walk(m.frames, root, pg), Walk(m'.frames, root, pg);
    && (!ok ==> after == before)
    && (ok ==>
          && before.Unmapped? && after.Mapped?
          && after.rights == Narrow(before.path, after.leaf)
          && after.leaf == Leaf(OldLeaf(m.frames, root, pg), q))
  }

  lemma KeptTrans(m: Mem, m1: Mem, m2: Mem, root: nat, pg: Page)
    requires Kept(m, m1, root, pg) && Kept(m1, m2, root, pg)
    ensures Kept(m, m2, root, pg)
  {
    forall p: Path | p.Valid() && Reach(m.frames, root, p).Some?
      ensures Reach(m2.frames, root, p) == Reach(m.frames, root, p)
    {
      assert Reach(m1.frames, root, p) == Reach(m.frames, root, p);
    }
    forall p: Path | p.Valid() && !OnPath(pg, p)
      ensures Reach(m2.frames, root, p) == Reach(m.frames, root, p)
    {
      assert Reach(m1.frames, root, p) == Reach(m.frames, root, p);
    }
  }

  lemma OutcomeLeaf(m: Mem, root: nat, t: nat, pg: Page, q: Rights)
    requires Inv(m, root) && pg.Valid() && Reach(m.frames, root, Prefix(pg, 3)) == Some(t)
    ensures Outcome(m, MapFrom(m, t, pg, 3, q).0, MapFrom(m, t, pg, 3, q).1, root, pg, q)
  {
    var e := EntryAt(m.frames, t, pg.i1);
    if !e.present {
      LeafStep(m, root, pg, q);
      LeafedKept(m, Mem(SetEntry(m.frames, t, pg.i1, Leaf(e, q)), m.free), root, pg, Leaf(e, q));
    }
  }

  /** What a later state promises about m2, it promises about m. */
  lemma OutcomeGrown(m: Mem, m2: Mem, m': Mem, ok: bool, root: nat, pg: Page, q: Rights)
    requires pg.Valid() && Kept(m, m2, root, pg) && WalksSame(m.frames, m2.frames, root)
    requires OldLeaf(m2.frames, root, pg) == OldLeaf(m.frames, root, pg)
    requires Outcome(m2, m', ok, root, pg, q)
    ensures Outcome(m, m', ok, root, pg, q)
  {
    KeptTrans(m, m2, m', root, pg);
    assert Walk(m2.frames, root, pg) == Walk(m.frames, root, pg);
    forall other: Page | other.Valid() && other != pg
      ensures Walk(m'.frames, root, other) == Walk(m.frames, root, other)
    {
      assert Walk(m2.frames, root, other) == Walk(m.frames, root, other);
    }
  }

  lemma NoTableBelow(f: Frames, root: nat, pg: Page, i: nat)
    requires pg.Valid() && i <= 3 && Reach(f, root, Prefix(pg, i)) == None
    ensures Reach(f, root, Prefix(pg, 3)) == None
    decreases 3 - i
  {
    if i < 3 {
      PrefixStep(f, root, pg, i);
      NoTableBelow(f, root, pg, i + 1);
    }
  }

  /** A new table on the path of pg is empty, so the level-1 entry of pg is blank before and after. */
  lemma GrownLeaf(f: Frames, f': Frames, root: nat, pg: Page, i: nat, n: nat)
    requires pg.Valid() && i < 3 && n in f' && f'[n] == ZeroTable()
    requires Reach(f, root, Prefix(pg, i + 1)) == None && Reach(f', root, Prefix(pg, i + 1)) == Some(n)
    ensures OldLeaf(f', root, pg) == OldLeaf(f, root, pg)
  {
    NoTableBelow(f, root, pg, i + 1);
    if i < 2 {
      PrefixStep(f', root, pg, i + 1);
      assert EntryAt(f', n, pg.At(i + 1)) == BLANK;
      NoTableBelow(f', root, pg, i + 2);
    } else {
      assert EntryAt(f', n, pg.i1) == BLANK;
    }
  }

  /** One turn of the loop that adds a table, as a step from m to m2. */
  lemma GrowTurn(m: Mem, root: nat, t: nat, pg: Page, i: nat) returns (n: nat, m2: Mem)
    requires Inv(m, root) && pg.Valid() && i < 3 && Reach(m.frames, root, Prefix(pg, i)) == Some(t)
    requires !EntryAt(m.frames, t, pg.At(i)).present && FreePages(m.free) != {}
    ensures Alloc(m).1 == n != NO_PAGE && m2 == Grow(Alloc(m).0, t, pg.At(i), n)
    ensures Target(EntryAt(m2.frames, t, pg.At(i))) == n
    ensures Kept(m, m2, root, pg) && WalksSame(m.frames, m2.frames, root)
    ensures Walk(m2.frames, root, pg) == Walk(m.frames, root, pg)
    ensures Reach(m2.frames, root, Prefix(pg, i + 1)) == Some(n)
    ensures Reach(m.frames, root, Prefix(pg, i + 1)) == None
    ensures Missing(m2.frames, root, pg, i + 1) == 2 - i
    ensures n in FreePages(m.free) && FreePages(m2.free) == FreePages(m.free) - {n}
    ensures OldLeaf(m2.frames, root, pg) == OldLeaf(m.frames, root, pg)
  {
    AllocTakesOne(m);
    n := Alloc(m).1;
    m2 := Grow(Alloc(m).0, t, pg.At(i), n);
    GrowStep(m, root, pg, i);
    GrownKept(m, m2, root, pg, i, n);
    GrownLeaf(m.frames, m2.frames, root, pg, i, n);
  }

  lemma MapFromGrows(m: Mem, t: nat, pg: Page, i: nat, q: Rights, n: nat, m2: Mem)
    requires i < 3 && !EntryAt(m.frames, t, pg.At(i)).present
    requires Alloc(m).1 == n != NO_PAGE && m2 == Grow(Alloc(m).0, t, pg.At(i), n)
    requires Target(EntryAt(m2.frames, t, pg.At(i))) == n
    ensures MapFrom(m, t, pg, i, q) == MapFrom(m2, n, pg, i + 1, q)
  {
  }

  /** A turn of the loop that finds the table present. */
  lemma LinkTurn(m: Mem, root: nat, t: nat, pg: Page, i: nat, q: Rights)
    requires pg.Valid() && i < 3 && Reach(m.frames, root, Prefix(pg, i)) == Some(t)
    requires !Walk(m.frames, root, pg).Huge? && EntryAt(m.frames, t, pg.At(i)).present
    ensures var u := Target(EntryAt(m.frames, t, pg.At(i)));
      && Reach(m.frames, root, Prefix(pg, i + 1)) == Some(u)
      && Missing(m.frames, root, pg, i) == Missing(m.frames, root, pg, i + 1)
      && MapFrom(m, t, pg, i, q) == MapFrom(m, u, pg, i + 1, q)
  {
    var r := WalkArrives(m.frames, root, pg, i);
    PrefixStep(m.frames, root, pg, i);
  }

  lemma NoEntryNoPage(f: Frames, root: nat, t: nat, pg: Page, i: nat)
    requires pg.Valid() && i <= 3 && Reach(f, root, Prefix(pg, i)) == Some(t)
    requires !EntryAt(f, t, pg.At(i)).present
    ensures Walk(f, root, pg).Unmapped?
  {
    var r := WalkArrives(f, root, pg, i);
  }

  /** Every call of vm_map on a page that is not huge leaves such an outcome. */
  lemma {:induction false} MapFromOutcome(m: Mem, root: nat, t: nat, pg: Page, i: nat, q: Rights)
    requires Inv(m, root) && pg.Valid() && i <= 3 && Reach(m.frames, root, Prefix(pg, i)) == Some(t)
    requires !Walk(m.frames, root, pg).Huge?
    ensures Outcome(m, MapFrom(m, t, pg, i, q).0, MapFrom(m, t, pg, i, q).1, root, pg, q)
    decreases 3 - i
  {
    if i == 3 {
      OutcomeLeaf(m, root, t, pg, q);
    } else if EntryAt(m.frames, t, pg.At(i)).present {
      LinkTurn(m, root, t, pg, i, q);
      MapFromOutcome(m, root, Target(EntryAt(m.frames, t, pg.At(i))), pg, i + 1, q);
    } else {
      AllocTakesOne(m);
      if Alloc(m).1 != NO_PAGE {
        var n, m2 := GrowTurn(m, root, t, pg, i);
        MapFromOutcome(m2, root, n, pg, i + 1, q);
        MapFromGrows(m, t, pg, i, q, n, m2);
        OutcomeGrown(m, m2, MapFrom(m2, n, pg, i + 1, q).0, MapFrom(m2, n, pg, i + 1, q).1, root, pg, q);
      }
    }
  }

  /** A mapped page is refused at once: nothing at all changes. */
  lemma {:induction false} MapFromRefuses(m: Mem, root: nat, t: nat, pg: Page, i: nat, q: Rights)
    requires pg.Valid() && i <= 3 && Reach(m.frames, root, Prefix(pg, i)) == Some(t)
    requires Walk(m.frames, root, pg).Mapped?
    ensures MapFrom(m, t, pg, i, q) == (m, false)
    decreases 3 - i
  {
    if !EntryAt(m.frames, t, pg.At(i)).present {
      NoEntryNoPage(m.frames, root, t, pg, i);
    } else if i < 3 {
      LinkTurn(m, root, t, pg, i, q);
      MapFromRefuses(m, root, Target(EntryAt(m.frames, t, pg.At(i))), pg, i + 1, q);
    }
  }

  /** The success condition, for the loop from step i on. */
  ghost predicate Succeeds(m: Mem, r: (Mem, bool), lacking: nat) {
    && (r.1 <==> lacking <= |FreePages(m.free)|)
    && (!r.1 ==> FreePages(r.0.free) == {})
  }

  lemma SucceedsWithOneLess(m: Mem, m2: Mem, n: nat, r: (Mem, bool), lacking: nat)
    requires n in FreePages(m.free) && FreePages(m2.free) == FreePages(m.free) - {n}
    requires Succeeds(m2, r, lacking)
    ensures Succeeds(m, r, lacking + 1)
  {
    assert |FreePages(m.free)| == |FreePages(m2.free)| + 1;
  }

  lemma MissingHere(f: Frames, root: nat, t: nat, pg: Page, i: nat)
    requires pg.Valid() && i < 3 && Reach(f, root, Prefix(pg, i)) == Some(t)
    requires !EntryAt(f, t, pg.At(i)).present
    ensures Missing(f, root, pg, i) == 3 - i
  {
    PrefixStep(f, root, pg, i);
  }

  lemma NothingMissing(m: Mem, root: nat, t: nat, pg: Page, q: Rights)
    requires pg.Valid() && Reach(m.frames, root, Prefix(pg, 3)) == Some(t)
    requires Walk(m.frames, root, pg).Unmapped?
    ensures MapFrom(m, t, pg, 3, q).1
  {
    var r := WalkArrives(m.frames, root, pg, 3);
  }

  lemma SucceedsNoPage(m: Mem, t: nat, pg: Page, i: nat, q: Rights)
    requires FreeOk(m) && i < 3 && !EntryAt(m.frames, t, pg.At(i)).present && FreePages(m.free) == {}
    ensures Succeeds(m, MapFrom(m, t, pg, i, q), 3 - i)
  {
    AllocTakesOne(m);
  }

  lemma SucceedsNew(m: Mem, t: nat, pg: Page, i: nat, q: Rights, n: nat, m2: Mem)
    requires i < 3 && !EntryAt(m.frames, t, pg.At(i)).present
    requires Alloc(m).1 == n != NO_PAGE && m2 == Grow(Alloc(m).0, t, pg.At(i), n)
    requires Target(EntryAt(m2.frames, t, pg.At(i))) == n
    requires n in FreePages(m.free) && FreePages(m2.free) == FreePages(m.free) - {n}
    requires Succeeds(m2, MapFrom(m2, n, pg, i + 1, q), 2 - i)
    ensures Succeeds(m, MapFrom(m, t, pg, i, q), 3 - i)
  {
    MapFromGrows(m, t, pg, i, q, n, m2);
    SucceedsWithOneLess(m, m2, n, MapFrom(m2, n, pg, i + 1, q), 2 - i);
  }

  /** An unmapped page is mapped exactly when the missing tables do not outnumber the free pages. */
  lemma {:induction false} MapFromSucceeds(m: Mem, root: nat, t: nat, pg: Page, i: nat, q: Rights)
    requires Inv(m, root) && pg.Valid() && i <= 3 && Reach(m.frames, root, Prefix(pg, i)) == Some(t)
    requires Walk(m.frames, root, pg).Unmapped?
    ensures Succeeds(m, MapFrom(m, t, pg, i, q), Missing(m.frames, root, pg, i))
    decreases 3 - i
  {
    hide TreeOk, FreeOk;
    if i == 3 {
      NothingMissing(m, root, t, pg, q);
    } else if EntryAt(m.frames, t, pg.At(i)).present {
      LinkTurn(m, root, t, pg, i, q);
      MapFromSucceeds(m, root, Target(EntryAt(m.frames, t, pg.At(i))), pg, i + 1, q);
    } else {
      MissingHere(m.frames, root, t, pg, i);
      if FreePages(m.free) == {} {
        SucceedsNoPage(m, t, pg, i, q);
      } else {
        var n, m2 := GrowTurn(m, root, t, pg, i);
        MapFromSucceeds(m2, root, n, pg, i + 1, q);
        SucceedsNew(m, t, pg, i, q, n, m2);
      }
    }
  }
}
