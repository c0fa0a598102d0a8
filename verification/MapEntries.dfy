/** Entry by entry: which entries of which tables vm_map writes, and which of their fields. */
module MapEntries {
  import opened Common
  import opened FreeList
  import opened Address
  import opened PageTable
  import opened VmMap

  /** Entry i of the table at p is one that the walk of pg looks at. */
  predicate OnWalk(pg: Page, p: Path, i: nat) {
    p == Prefix(pg, p.Depth()) && i == pg.At(p.Depth())
  }

  /**
   An entry before (e) and after (e') a call. Entries off the walk and entries in use stay as they are. An
   unused entry on the walk may become present, as a link that grants everything or as a leaf; its page_size
   bit, its unnamed bits and, in a leaf, its address stay as they are.
   */
  predicate EntryStep(e: Entry, e': Entry, leaf: bool, onWalk: bool) {
    && (!onWalk || e.present ==> e' == e)
    && e'.other == e.other && e'.page_size == e.page_size
    && (leaf ==> e'.address == e.address)
    && (!e'.present ==> e' == e)
    && (!leaf && e' != e ==> e'.user && e'.writable && !e'.no_execute)
  }

  ghost predicate StepAt(f: Frames, f': Frames, root: nat, pg: Page, p: Path, i: nat)
    requires Live(f, root, p)
  {
    var t := Reach(f, root, p).value;
    && Reach(f', root, p) == Some(t)
    && EntryStep(EntryAt(f, t, i), EntryAt(f', t, i), p.First?, OnWalk(pg, p, i))
  }

  ghost predicate EntriesStep(f: Frames, f': Frames, root: nat, pg: Page) {
    forall p, i: nat | Live(f, root, p) && i < 512 :: StepAt(f, f', root, pg, p, i)
  }

  lemma StepTrans(f: Frames, f1: Frames, f2: Frames, root: nat, pg: Page)
    requires EntriesStep(f, f1, root, pg) && EntriesStep(f1, f2, root, pg)
    ensures EntriesStep(f, f2, root, pg)
  {
    forall p, i: nat | Live(f, root, p) && i < 512
      ensures StepAt(f, f2, root, pg, p, i)
    {
      assert StepAt(f, f1, root, pg, p, i) && StepAt(f1, f2, root, pg, p, i);
    }
  }

  /** The entry that a new table is linked from. */
  lemma LinkWritten(m: Mem, root: nat, pg: Page, i: nat)
    requires Inv(m, root) && pg.Valid() && i < 3 && Reach(m.frames, root, Prefix(pg, i)).Some?
    requires !EntryAt(m.frames, Reach(m.frames, root, Prefix(pg, i)).value, pg.At(i)).present
    requires Alloc(m).1 != NO_PAGE
    ensures var t := Reach(m.frames, root, Prefix(pg, i)).value; var n := Alloc(m).1;
      EntryAt(Grow(Alloc(m).0, t, pg.At(i), n).frames, t, pg.At(i)) == LinkTo(EntryAt(m.frames, t, pg.At(i)), n)
  {
    var t := Reach(m.frames, root, Prefix(pg, i)).value;
    PrefixStep(m.frames, root, pg, i);
    AllocTakesOne(m);
    hide Alloc, TreeOk, FreeOk, Reach, Prefix, Grow;
    TookKeepsTables(m, Alloc(m).0, root, Alloc(m).1, Prefix(pg, i));
    GrowWrites(Alloc(m).0, t, pg.At(i), Alloc(m).1);
  }

  lemma GrownEntries(f: Frames, f': Frames, root: nat, pg: Page, j: nat, n: nat)
    requires TreeOk(f, root) && pg.Valid() && j < 3 && Grown(f, f', root, Prefix(pg, j), pg.At(j), n)
    requires var t := Reach(f, root, Prefix(pg, j)).value;
      EntryAt(f', t, pg.At(j)) == LinkTo(EntryAt(f, t, pg.At(j)), n)
    ensures EntriesStep(f, f', root, pg)
  {
    PrefixStep(f, root, pg, j);
    forall p, i: nat | Live(f, root, p) && i < 512
      ensures StepAt(f, f', root, pg, p, i)
    {
      ReachGrown(f, f', root, Prefix(pg, j), pg.At(j), n, p);
      LiveIsTable(f, root, p);
      var u := Reach(f, root, p).value;
      if u == Reach(f, root, Prefix(pg, j)).value && i == pg.At(j) {
        assert p == Prefix(pg, j) && p.Depth() == j;
      } else {
        assert EntryAt(f', u, i) == EntryAt(f, u, i);
      }
    }
  }

  lemma LeafEntries(f: Frames, f': Frames, root: nat, pg: Page, q: Rights)
    requires TreeOk(f, root) && pg.Valid() && Leafed(f, f', root, Prefix(pg, 3), pg.i1)
    requires var t := Reach(f, root, Prefix(pg, 3)).value;
      !EntryAt(f, t, pg.i1).present && EntryAt(f', t, pg.i1) == Leaf(EntryAt(f, t, pg.i1), q)
    ensures EntriesStep(f, f', root, pg)
  {
    forall p, i: nat | Live(f, root, p) && i < 512
      ensures StepAt(f, f', root, pg, p, i)
    {
      ReachLeafed(f, f', root, Prefix(pg, 3), pg.i1, p);
      LiveIsTable(f, root, p);
      var u := Reach(f, root, p).value;
      if u == Reach(f, root, Prefix(pg, 3)).value && i == pg.i1 {
        assert p == Prefix(pg, 3) && p.First? && p.Depth() == 3;
      } else {
        assert EntryAt(f', u, i) == EntryAt(f, u, i);
      }
    }
  }

  /** A call, successful or not, writes no entry but unused ones on its own walk, and these only in their rights. */
  lemma {:induction false} MapFromEntries(m: Mem, root: nat, t: nat, pg: Page, i: nat, q: Rights)
    requires Inv(m, root) && pg.Valid() && i <= 3 && Reach(m.frames, root, Prefix(pg, i)) == Some(t)
    requires !Walk(m.frames, root, pg).Huge?
    ensures EntriesStep(m.frames, MapFrom(m, t, pg, i, q).0.frames, root, pg)
    decreases 3 - i
  {
    hide EntriesStep;
    var e := EntryAt(m.frames, t, pg.At(i));
    if i == 3 {
      if e.present {
        NoStep(m.frames, m.frames, root, pg);
      } else {
        LeafStep(m, root, pg, q);
        LeafEntries(m.frames, SetEntry(m.frames, t, pg.At(i), Leaf(e, q)), root, pg, q);
      }
    } else if e.present {
      LinkTurn(m, root, t, pg, i, q);
      MapFromEntries(m, root, Target(e), pg, i + 1, q);
    } else {
      AllocTakesOne(m);
      if Alloc(m).1 == NO_PAGE {
        NoStep(m.frames, m.frames, root, pg);
      } else {
        var n, m2 := GrowTurn(m, root, t, pg, i);
        GrowStep(m, root, pg, i);
        LinkWritten(m, root, pg, i);
        GrownEntries(m.frames, m2.frames, root, pg, i, n);
        MapFromGrows(m, t, pg, i, q, n, m2);
        MapFromEntries(m2, root, n, pg, i + 1, q);
        StepTrans(m.frames, m2.frames, MapFrom(m, t, pg, i, q).0.frames, root, pg);
      }
    }
  }

  lemma NoStep(f: Frames, f': Frames, root: nat, pg: Page)
    requires f' == f
    ensures EntriesStep(f, f', root, pg)
  {
  }

  /** The leaf after a successful vm_map, field by field. */
  lemma LeafFields(m: Mem, root: nat, a: nat, q: Rights)
    requires Inv(m, root) && !Walk(m.frames, root, PageOf(a)).Huge? && Map(m, root, a, q).1
    ensures var before := OldLeaf(m.frames, root, PageOf(a));
      var w := Walk(Map(m, root, a, q).0.frames, root, PageOf(a));
      && w.Mapped? && w.leaf.present
      && w.leaf.user == q.user && w.leaf.writable == q.writable && w.leaf.no_execute == !q.executable
      && w.leaf.address == before.address && w.leaf.other == before.other && w.leaf.page_size == before.page_size
  {
    MapFromOutcome(m, root, root, PageOf(a), 0, q);
  }
}
