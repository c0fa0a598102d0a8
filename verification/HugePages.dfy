/**
 Why the results on vm_map speak of pages outside huge pages only: vm_map does not test page_size, so in a
 2 MB page it takes the first frame of the page's data for a table.
 */
module HugePages {
  import opened Common
  import opened FreeList
  import opened Address
  import opened PageTable
  import opened VmMap
  import opened Boot

  /** A walk depends on the tables and nothing else. */
  lemma {:induction false} WalkFrame(f: Frames, f': Frames, root: nat, pg: Page, j: nat, u: nat, r: Rights)
    requires TreeOk(f, root) && forall t | t in Tables(f, root) :: t in f' && f'[t] == f[t]
    requires pg.Valid() && j <= 3 && Reach(f, root, Prefix(pg, j)) == Some(u)
    ensures WalkFrom(f', u, pg, j, r) == WalkFrom(f, u, pg, j, r)
    decreases 3 - j
  {
    LiveIsTable(f, root, Prefix(pg, j));
    var e := EntryAt(f, u, pg.At(j));
    if j < 3 && e.present && (j == 0 || !e.page_size) {
      PrefixStep(f, root, pg, j);
      WalkFrame(f, f', root, pg, j + 1, Target(e), Narrow(r, e));
    }
  }

  /** The table that holds the entry of a 2 MB page, and where vm_map stands when it gets there. */
  lemma HugeEntry(m: Mem, root: nat, pg: Page, q: Rights) returns (t: nat)
    requires pg.Valid() && Walk(m.frames, root, pg).Huge? && Walk(m.frames, root, pg).level == 2
    ensures Reach(m.frames, root, Prefix(pg, 2)) == Some(t)
    ensures EntryAt(m.frames, t, pg.i2) == Walk(m.frames, root, pg).e && Walk(m.frames, root, pg).e.present
    ensures MapFrom(m, root, pg, 0, q) == MapFrom(m, Target(Walk(m.frames, root, pg).e), pg, 3, q)
  {
    PrefixStep(m.frames, root, pg, 0);
    PrefixStep(m.frames, root, pg, 1);
    var l3 := Target(EntryAt(m.frames, root, pg.i4));
    t := Target(EntryAt(m.frames, l3, pg.i3));
    assert MapFrom(m, root, pg, 0, q) == MapFrom(m, l3, pg, 1, q);
    assert MapFrom(m, l3, pg, 1, q) == MapFrom(m, t, pg, 2, q);
  }

  /**
   vm_map of an address in a 2 MB page, whatever the first frame of its data is used for otherwise, as long as
   it can be read as 512 entries: it reports success exactly when the present bit of one of these is clear,
   and then overwrites that entry. If the data is a page table, one of its entries is overwritten.
   */
  lemma HugePageData(m: Mem, root: nat, a: nat, q: Rights)
    requires Walk(m.frames, root, PageOf(a)).Huge? && Walk(m.frames, root, PageOf(a)).level == 2
    requires IsTable(m.frames, Target(Walk(m.frames, root, PageOf(a)).e))
    ensures var (m', ok) := Map(m, root, a, q);
      var data := Target(Walk(m.frames, root, PageOf(a)).e); var word := EntryAt(m.frames, data, PageOf(a).i1);
      && (ok <==> !word.present)
      && m'.free == m.free
      && m'.frames == (if ok then SetEntry(m.frames, data, PageOf(a).i1, Leaf(word, q)) else m.frames)
  {
    var t := HugeEntry(m, root, PageOf(a), q);
  }

  /**
   If the data is neither a table nor free, the page stays the huge page it was, whatever is reported: what a
   successful call promises for other pages holds for no page inside a huge one.
   */
  lemma HugePageIsOverwritten(m: Mem, root: nat, a: nat, q: Rights)
    requires Inv(m, root) && Walk(m.frames, root, PageOf(a)).Huge? && Walk(m.frames, root, PageOf(a)).level == 2
    requires var data := Target(Walk(m.frames, root, PageOf(a)).e);
      IsTable(m.frames, data) && data !in Tables(m.frames, root) && data !in FreePages(m.free)
    ensures var (m', ok) := Map(m, root, a, q);
      && Inv(m', root) && Tables(m'.frames, root) == Tables(m.frames, root)
      && forall pg: Page | pg.Valid() :: Walk(m'.frames, root, pg) == Walk(m.frames, root, pg)
  {
    HugePageData(m, root, a, q);
    DataWritten(m, Map(m, root, a, q).0.frames, root, Target(Walk(m.frames, root, PageOf(a)).e));
  }

  lemma DataWritten(m: Mem, f': Frames, root: nat, data: nat)
    requires Inv(m, root) && data !in Tables(m.frames, root) && data !in FreePages(m.free)
    requires SameOutside(m.frames, f', {data})
    ensures Inv(Mem(f', m.free), root) && Tables(f', root) == Tables(m.frames, root)
    ensures forall pg: Page | pg.Valid() :: Walk(f', root, pg) == Walk(m.frames, root, pg)
  {
    TreeFrame(m.frames, f', root);
    HeadersOutsideFree(m.frames, f', m.free);
    forall pg: Page | pg.Valid()
      ensures Walk(f', root, pg) == Walk(m.frames, root, pg)
    {
      WalkFrame(m.frames, f', root, pg, 0, root, ALL);
    }
  }

  // ----- such a memory

  const ROOT: nat := 0x1000
  const LEVEL3: nat := 0x2000
  const LEVEL2: nat := 0x3000
  const DATA: nat := 0x20_0000

  function OneEntry(e: Entry): Frame {
    Table(seq(FANOUT, i => if i == 0 then e else BLANK))
  }

  /** Three tables, and at the lowest address a 2 MB page whose first frame holds zeros. */
  function FourFrames(): Frames {
    var link := LinkTo(BLANK, LEVEL3);
    map[ROOT := OneEntry(link), LEVEL3 := OneEntry(LinkTo(BLANK, LEVEL2)),
        LEVEL2 := OneEntry(LinkTo(BLANK, DATA).(page_size := true)), DATA := ZeroTable()]
  }

  lemma FourFramesReach(p: Path)
    requires p.Valid()
    ensures Reach(FourFrames(), ROOT, p) ==
            if p == Root then Some(ROOT) else if p == Third(0) then Some(LEVEL3)
            else if p == Second(0, 0) then Some(LEVEL2) else None
  {
    var f := FourFrames();
    if !p.Root? {
      assert Reach(f, ROOT, Third(p.i4)) == if p.i4 == 0 then Some(LEVEL3) else None;
      if !p.Third? {
        assert Reach(f, ROOT, Second(p.i4, p.i3)) == if p.i4 == 0 && p.i3 == 0 then Some(LEVEL2) else None;
      }
    }
  }

  lemma FourFramesWalk()
    ensures Walk(FourFrames(), ROOT, PageOf(0)).Huge? && Walk(FourFrames(), ROOT, PageOf(0)).level == 2
    ensures Target(Walk(FourFrames(), ROOT, PageOf(0)).e) == DATA && IsTable(FourFrames(), DATA)
    ensures PageOf(0) == Page(0, 0, 0, 0)
  {
  }

  lemma FourFramesTables(t: nat)
    requires t == ROOT || t == LEVEL3 || t == LEVEL2
    ensures IsTable(FourFrames(), t)
    ensures forall i | 0 <= i < FANOUT :: EntryAt(FourFrames(), t, i).present || !EntryAt(FourFrames(), t, i).page_size
  {
  }

  lemma FourFramesOk()
    ensures Inv(Mem(FourFrames(), []), ROOT) && DATA !in Tables(FourFrames(), ROOT)
  {
    var f := FourFrames();
    forall p: Path | p.Valid()
      ensures Reach(f, ROOT, p) ==
              if p == Root then Some(ROOT) else if p == Third(0) then Some(LEVEL3)
              else if p == Second(0, 0) then Some(LEVEL2) else None
    {
      FourFramesReach(p);
    }
    FourFramesTables(ROOT);
    FourFramesTables(LEVEL3);
    FourFramesTables(LEVEL2);
    hide FourFrames, Reach, EntryAt, IsTable;
    assert FreePages([]) == {};
  }

  /** vm_map reports success on address 0 of that memory, and the page is the huge page it was. */
  lemma SuccessWithoutMapping(q: Rights)
    ensures var (m', ok) := Map(Mem(FourFrames(), []), ROOT, 0, q);
      ok && Walk(m'.frames, ROOT, PageOf(0)).Huge? && m'.frames[DATA] != FourFrames()[DATA]
  {
    var m := Mem(FourFrames(), []);
    FourFramesOk();
    FourFramesWalk();
    assert FreePages([]) == {};
    hide Inv, Walk, Reach;
    HugePageData(m, ROOT, 0, q);
    HugePageIsOverwritten(m, ROOT, 0, q);
    assert EntryAt(m.frames, DATA, 0) == BLANK;
    assert EntryAt(Map(m, ROOT, 0, q).0.frames, DATA, 0).present;
  }
}
