/**
 unmap_lower_half of kernel/memory.c, on values. The specification lists the frames to free from the
 memory before the call; the code finds them in a memory that its own calls of pmem_free keep changing.
 */
module UnmapLowerHalf {
  import opened Common
  import opened FreeList
  import opened Address
  import opened PageTable

  const LOWER: nat := 256 // the level-4 entries of the lower half

  // ----- what is freed, in order

  function UnderSecond(f: Frames, l2: nat, n: nat): seq<nat> {
    if n == 0 then []
    else
      var e := EntryAt(f, l2, n - 1);
      UnderSecond(f, l2, n - 1) + if e.present && !e.page_size then [Target(e)] else []
  }

  function UnderThird(f: Frames, l3: nat, n: nat): seq<nat> {
    if n == 0 then []
    else
      var e := EntryAt(f, l3, n - 1);
      UnderThird(f, l3, n - 1)
      + if e.present && !e.page_size then UnderSecond(f, Target(e), FANOUT) + [Target(e)] else []
  }

  function UnderRoot(f: Frames, root: nat, n: nat): seq<nat> {
    if n == 0 then []
    else
      var e := EntryAt(f, root, n - 1);
      UnderRoot(f, root, n - 1) + if e.present then UnderThird(f, Target(e), FANOUT) + [Target(e)] else []
  }

  /** Memory with the first n level-4 entries marked not present. */
  function Cleared(f: Frames, root: nat, n: nat): Frames {
    if n == 0 then f
    else
      var f1 := Cleared(f, root, n - 1);
      SetEntry(f1, root, n - 1, EntryAt(f1, root, n - 1).(present := false))
  }

  function Unmap(m: Mem, root: nat): Mem {
    FreeAll(Mem(Cleared(m.frames, root, LOWER), m.free), UnderRoot(m.frames, root, LOWER))
  }

  // ----- the freed frames are the lower-half tables, each once

  ghost predicate Distinct(s: seq<nat>) {
    forall i, j | 0 <= i < j < |s| :: s[i] != s[j]
  }

  /** Is p strictly below top, through one of its first n slots? */
  predicate Below(p: Path, top: Path, n: nat) {
    match top
    case Root => !p.Root? && p.i4 < n
    case Third(i4) => (p.Second? || p.First?) && p.i4 == i4 && p.i3 < n
    case Second(i4, i3) => p.First? && p.i4 == i4 && p.i3 == i3 && p.i2 < n
    case First(_, _, _) => false
  }

  /** s lists, each once, the tables below top through its first n slots. */
  ghost predicate Lists(f: Frames, root: nat, s: seq<nat>, top: Path, n: nat) {
    && Distinct(s)
    && (forall x | x in s :: exists p: Path :: Live(f, root, p) && Below(p, top, n) && Reach(f, root, p) == Some(x))
    && (forall p: Path | Live(f, root, p) && Below(p, top, n) :: Reach(f, root, p).value in s)
  }

  lemma DistinctAppend(s: seq<nat>, t: seq<nat>, x: nat)
    requires Distinct(s) && Distinct(t) && x !in s && x !in t && forall y | y in s :: y !in t
    ensures Distinct(s + (t + [x]))
  {
    forall i, j | 0 <= i < j < |s + (t + [x])|
      ensures (s + (t + [x]))[i] != (s + (t + [x]))[j]
    {
      if i < |s| <= j < |s| + |t| {
        assert s[i] in s && t[j - |s|] in t;
      }
    }
  }

  /** The list grows by what lies below slot n of top, and then by the table linked there. */
  lemma ListsTake(f: Frames, root: nat, top: Path, n: nat, s: seq<nat>, t: seq<nat>, x: nat)
    requires TreeOk(f, root) && !top.First? && Live(f, root, top.Child(n)) && Reach(f, root, top.Child(n)) == Some(x)
    requires Lists(f, root, s, top, n) && Lists(f, root, t, top.Child(n), FANOUT)
    ensures Lists(f, root, s + (t + [x]), top, n + 1)
  {
    var c := top.Child(n);
    assert forall p: Path | Below(p, top, n) :: !Below(p, c, FANOUT) && p != c;
    assert forall p: Path | Live(f, root, p) ::
        Below(p, top, n + 1) <==> Below(p, top, n) || Below(p, c, FANOUT) || p == c;
    assert forall y | y in s :: y !in t && y != x;
    assert x !in t;
    DistinctAppend(s, t, x);
    forall y | y in s + (t + [x])
      ensures exists p: Path :: Live(f, root, p) && Below(p, top, n + 1) && Reach(f, root, p) == Some(y)
    {
      if y in s {
        var p: Path :| Live(f, root, p) && Below(p, top, n) && Reach(f, root, p) == Some(y);
        assert Below(p, top, n + 1);
      } else if y in t {
        var p: Path :| Live(f, root, p) && Below(p, c, FANOUT) && Reach(f, root, p) == Some(y);
        assert Below(p, top, n + 1);
      } else {
        assert Below(c, top, n + 1);
      }
    }
  }

  lemma LiveAbove(f: Frames, root: nat, p: Path, top: Path, n: nat)
    requires Live(f, root, p) && !top.First? && Below(p, top, n + 1) && !Below(p, top, n)
    ensures Reach(f, root, top.Child(n)).Some?
  {
    if p.First? {
      assert Reach(f, root, Second(p.i4, p.i3)).Some?;
      assert Reach(f, root, Third(p.i4)).Some?;
    }
  }

  lemma ListsSkip(f: Frames, root: nat, top: Path, n: nat, s: seq<nat>)
    requires !top.First? && Reach(f, root, top.Child(n)) == None
    requires Lists(f, root, s, top, n)
    ensures Lists(f, root, s, top, n + 1)
  {
    forall p: Path | Live(f, root, p) && Below(p, top, n + 1)
      ensures Below(p, top, n)
    {
      if !Below(p, top, n) {
        LiveAbove(f, root, p, top, n);
      }
    }
    forall x | x in s
      ensures exists p: Path :: Live(f, root, p) && Below(p, top, n + 1) && Reach(f, root, p) == Some(x)
    {
      var p: Path :| Live(f, root, p) && Below(p, top, n) && Reach(f, root, p) == Some(x);
      assert Below(p, top, n + 1);
    }
  }

  lemma ListsNone(f: Frames, root: nat, top: Path, n: nat)
    requires n == 0 || top.First?
    ensures Lists(f, root, [], top, n)
  {
  }

  lemma {:induction false} SecondLists(f: Frames, root: nat, top: Path, n: nat)
    requires TreeOk(f, root) && Live(f, root, top) && top.Second? && n <= FANOUT
    ensures Lists(f, root, UnderSecond(f, Reach(f, root, top).value, n), top, n)
  {
    hide TreeOk, Lists;
    if n == 0 {
      ListsNone(f, root, top, n);
    } else {
      var l2 := Reach(f, root, top).value;
      var e := EntryAt(f, l2, n - 1);
      SecondLists(f, root, top, n - 1);
      ReachChild(f, root, top, n - 1);
      if e.present && !e.page_size {
        ListsNone(f, root, top.Child(n - 1), FANOUT);
        ListsTake(f, root, top, n - 1, UnderSecond(f, l2, n - 1), [], Target(e));
        assert [] + [Target(e)] == [Target(e)];
      } else {
        ListsSkip(f, root, top, n - 1, UnderSecond(f, l2, n - 1));
        assert UnderSecond(f, l2, n) == UnderSecond(f, l2, n - 1);
      }
    }
  }

  lemma {:induction false} ThirdLists(f: Frames, root: nat, top: Path, n: nat)
    requires TreeOk(f, root) && Live(f, root, top) && top.Third? && n <= FANOUT
    ensures Lists(f, root, UnderThird(f, Reach(f, root, top).value, n), top, n)
  {
    hide TreeOk, Lists;
    if n == 0 {
      ListsNone(f, root, top, n);
    } else {
      var l3 := Reach(f, root, top).value;
      var e := EntryAt(f, l3, n - 1);
      ThirdLists(f, root, top, n - 1);
      ReachChild(f, root, top, n - 1);
      if e.present && !e.page_size {
        SecondLists(f, root, top.Child(n - 1), FANOUT);
        ListsTake(f, root, top, n - 1, UnderThird(f, l3, n - 1), UnderSecond(f, Target(e), FANOUT), Target(e));
      } else {
        ListsSkip(f, root, top, n - 1, UnderThird(f, l3, n - 1));
        assert UnderThird(f, l3, n) == UnderThird(f, l3, n - 1);
      }
    }
  }

  lemma {:induction false} RootLists(f: Frames, root: nat, n: nat)
    requires TreeOk(f, root) && n <= FANOUT
    ensures Lists(f, root, UnderRoot(f, root, n), Root, n)
  {
    hide TreeOk, Lists;
    if n == 0 {
      ListsNone(f, root, Root, n);
    } else {
      var e := EntryAt(f, root, n - 1);
      RootLists(f, root, n - 1);
      ReachChild(f, root, Root, n - 1);
      if e.present {
        ThirdLists(f, root, Third(n - 1), FANOUT);
        ListsTake(f, root, Root, n - 1, UnderRoot(f, root, n - 1), UnderThird(f, Target(e), FANOUT), Target(e));
      } else {
        ListsSkip(f, root, Root, n - 1, UnderRoot(f, root, n - 1));
        assert UnderRoot(f, root, n) == UnderRoot(f, root, n - 1);
      }
    }
  }

  // ----- freeing the listed frames

  function Members(s: seq<nat>): set<nat> {
    set x | x in s
  }

  lemma {:induction false} FreeAllWrites(m: Mem, ps: seq<nat>)
    ensures SameOutside(m.frames, FreeAll(m, ps).frames, Members(ps))
    decreases |ps|
  {
    if ps != [] {
      FreeAllWrites(m, ps[..|ps| - 1]);
      assert Members(ps) == Members(ps[..|ps| - 1]) + {ps[|ps| - 1]};
    }
  }

  lemma FreeOneMore(m: Mem, free: set<nat>, init: seq<nat>, p: nat)
    requires FreeOk(m) && FreePages(m.free) == free + Members(init)
    requires p !in init && p % PAGESIZE == 0 && p + PAGESIZE <= PHYS_LIMIT && p !in free
    ensures FreeOk(Free(m, p)) && FreePages(Free(m, p).free) == free + Members(init + [p])
  {
    FreeAddsOne(m, p);
    assert Members(init + [p]) == Members(init) + {p};
  }

  lemma {:induction false} FreeAllAdds(m: Mem, ps: seq<nat>)
    requires FreeOk(m) && Distinct(ps)
    requires forall p | p in ps :: p % PAGESIZE == 0 && p + PAGESIZE <= PHYS_LIMIT && p !in FreePages(m.free)
    ensures FreeOk(FreeAll(m, ps))
    ensures FreePages(FreeAll(m, ps).free) == FreePages(m.free) + Members(ps)
    decreases |ps|
  {
    if ps != [] {
      var init, p := ps[..|ps| - 1], ps[|ps| - 1];
      assert ps == init + [p];
      assert p !in init && p in ps;
      assert forall q | q in init :: q in ps;
      FreeAllAdds(m, init);
      FreeOneMore(FreeAll(m, init), FreePages(m.free), init, p);
    }
  }

  lemma {:induction false} ClearedEntries(f: Frames, root: nat, n: nat)
    requires IsTable(f, root) && n <= FANOUT
    ensures IsTable(Cleared(f, root, n), root)
    ensures SameOutside(f, Cleared(f, root, n), {root})
    ensures forall j | 0 <= j < FANOUT :: EntryAt(Cleared(f, root, n), root, j) ==
              if j < n then EntryAt(f, root, j).(present := false) else EntryAt(f, root, j)
  {
    if n > 0 {
      ClearedEntries(f, root, n - 1);
    }
  }

  // ----- the tree that is left

  ghost predicate Upper(p: Path) {
    p.Root? || LOWER <= p.i4
  }

  /** f' is f without the lower half: its entries are cleared, and the upper-half tables are as before. */
  ghost predicate Halved(f: Frames, f': Frames, root: nat) {
    && IsTable(f', root)
    && (forall j | 0 <= j < FANOUT :: EntryAt(f', root, j) ==
          if j < LOWER then EntryAt(f, root, j).(present := false) else EntryAt(f, root, j))
    && (forall p | Live(f, root, p) && Upper(p) && !p.Root? ::
          var t := Reach(f, root, p).value; t in f && t in f' && f'[t] == f[t])
  }

  lemma {:induction false} ReachHalved(f: Frames, f': Frames, root: nat, p: Path)
    requires Halved(f, f', root) && p.Valid()
    ensures Reach(f', root, p) == if Upper(p) then Reach(f, root, p) else None
    decreases p.Depth()
  {
    match p
    case Root =>
    case Third(i4) =>
    case Second(i4, i3) =>
      ReachHalved(f, f', root, Third(i4));
      assert Live(f, root, Third(i4)) || Reach(f, root, Third(i4)) == None;
    case First(i4, i3, i2) =>
      ReachHalved(f, f', root, Second(i4, i3));
      assert Live(f, root, Second(i4, i3)) || Reach(f, root, Second(i4, i3)) == None;
  }

  lemma HalvedTree(f: Frames, f': Frames, root: nat)
    requires TreeOk(f, root) && Halved(f, f', root)
    ensures TreeOk(f', root)
  {
    forall p: Path | p.Valid()
      ensures Reach(f', root, p) == if Upper(p) then Reach(f, root, p) else None
    {
      ReachHalved(f, f', root, p);
    }
    forall p | Live(f', root, p)
      ensures IsTable(f', Reach(f', root, p).value)
    {
      LiveIsTable(f, root, p);
    }
    forall p, i | Live(f', root, p) && (p.Third? || p.Second?) && 0 <= i < FANOUT
      ensures var e := EntryAt(f', Reach(f', root, p).value, i); e.present || !e.page_size
    {
      assert EntryAt(f', Reach(f', root, p).value, i) == EntryAt(f, Reach(f, root, p).value, i);
    }
  }

  lemma HalvedTables(f: Frames, f': Frames, root: nat, lower: seq<nat>)
    requires TreeOk(f, root) && Halved(f, f', root) && Lists(f, root, lower, Root, LOWER)
    ensures Tables(f', root) == Tables(f, root) - Members(lower)
    ensures Members(lower) <= Tables(f, root)
  {
    forall p: Path | p.Valid()
      ensures Reach(f', root, p) == if Upper(p) then Reach(f, root, p) else None
    {
      ReachHalved(f, f', root, p);
    }
    forall t | t in Tables(f, root) - Members(lower)
      ensures t in Tables(f', root)
    {
      var p :| Live(f, root, p) && Reach(f, root, p).value == t;
      assert !Below(p, Root, LOWER);
      LiveIsTable(f, root, p);
      assert Live(f', root, p);
    }
    forall t | t in Tables(f', root)
      ensures t in Tables(f, root) && t !in lower
    {
      var p :| Live(f', root, p) && Reach(f', root, p).value == t;
      assert Live(f, root, p) && Upper(p);
      LiveIsTable(f, root, p);
      assert forall q: Path | Live(f, root, q) && Below(q, Root, LOWER) :: Reach(f, root, q) != Some(t);
    }
    forall x | x in lower
      ensures x in Tables(f, root)
    {
      var p: Path :| Live(f, root, p) && Below(p, Root, LOWER) && Reach(f, root, p) == Some(x);
      LiveIsTable(f, root, p);
    }
  }

  lemma {:induction false} WalkHalved(f: Frames, f': Frames, root: nat, pg: Page, j: nat, u: nat, r: Rights)
    requires Halved(f, f', root) && TreeOk(f, root)
    requires pg.Valid() && LOWER <= pg.i4 && j <= 3 && Reach(f, root, Prefix(pg, j)) == Some(u)
    ensures WalkFrom(f', u, pg, j, r) == WalkFrom(f, u, pg, j, r)
    decreases 3 - j
  {
    LiveIsTable(f, root, Prefix(pg, j));
    var e := EntryAt(f, u, pg.At(j));
    assert EntryAt(f', u, pg.At(j)) == e;
    if j < 3 && e.present && (j == 0 || !e.page_size) {
      PrefixStep(f, root, pg, j);
      WalkHalved(f, f', root, pg, j + 1, Target(e), Narrow(r, e));
    }
  }

  // ----- the theorem

  lemma UnmapIsHalved(m: Mem, root: nat)
    requires Inv(m, root)
    ensures var lower := UnderRoot(m.frames, root, LOWER); var m' := Unmap(m, root);
      && Lists(m.frames, root, lower, Root, LOWER)
      && Halved(m.frames, m'.frames, root)
      && FreeOk(m')
      && FreePages(m'.free) == FreePages(m.free) + Members(lower)
  {
    var f, lower := m.frames, UnderRoot(m.frames, root, LOWER);
    var m1 := Mem(Cleared(f, root, LOWER), m.free);
    RootLists(f, root, LOWER);
    LiveIsTable(f, root, Root);
    ClearedEntries(f, root, LOWER);
    HeadersOutsideFree(f, m1.frames, m.free);
    forall x | x in lower
      ensures x in Tables(f, root) && x % PAGESIZE == 0 && x + PAGESIZE <= PHYS_LIMIT && x != root
    {
      var p: Path :| Live(f, root, p) && Below(p, Root, LOWER) && Reach(f, root, p) == Some(x);
      LiveIsTable(f, root, p);
      assert Reach(f, root, p) != Reach(f, root, Root);
    }
    FreeAllAdds(m1, lower);
    FreeAllWrites(m1, lower);
    var f' := Unmap(m, root).frames;
    assert f'[root] == m1.frames[root];
    forall p | Live(f, root, p) && Upper(p) && !p.Root?
      ensures var t := Reach(f, root, p).value; t in f && t in f' && f'[t] == f[t]
    {
      LiveIsTable(f, root, p);
      assert Reach(f, root, p) != Reach(f, root, Root);
      assert Reach(f, root, p).value !in lower;
    }
  }

  /**
   unmap_lower_half keeps the memory well formed, unmaps the lower half, changes no walk of the upper half,
   and frees exactly the level-3, level-2 and level-1 tables below the lower half, each once.
   */
  lemma UnmapOutcome(m: Mem, root: nat)
    requires Inv(m, root)
    ensures var m' := Unmap(m, root); var freed := UnderRoot(m.frames, root, LOWER);
      && Inv(m', root)
      && (forall pg: Page | pg.Valid() && pg.i4 < 256 :: Walk(m'.frames, root, pg).Unmapped?)
      && (forall pg: Page | pg.Valid() && 256 <= pg.i4 :: Walk(m'.frames, root, pg) == Walk(m.frames, root, pg))
      && Distinct(freed)
      && (forall x :: x in freed <==>
            exists p: Path :: Live(m.frames, root, p) && !p.Root? && p.i4 < 256
                              && Reach(m.frames, root, p) == Some(x))
      && FreePages(m'.free) == FreePages(m.free) + Members(freed)
      && Tables(m'.frames, root) == Tables(m.frames, root) - Members(freed)
      && Tables(m'.frames, root) + FreePages(m'.free) == Tables(m.frames, root) + FreePages(m.free)
  {
    UnmapIsHalved(m, root);
    var m' := Unmap(m, root);
    HalvedTree(m.frames, m'.frames, root);
    HalvedTables(m.frames, m'.frames, root, UnderRoot(m.frames, root, LOWER));
    forall pg: Page | pg.Valid() && LOWER <= pg.i4
      ensures Walk(m'.frames, root, pg) == Walk(m.frames, root, pg)
    {
      WalkHalved(m.frames, m'.frames, root, pg, 0, root, ALL);
    }
  }

  /** From f to f', addresses with bit 47 clear have been unmapped, and the others are as they were. */
  ghost predicate SplitByBit47(f: Frames, f': Frames, root: nat) {
    forall a: nat ::
      Walk(f', root, PageOf(a)) ==
      if a % 0x1_0000_0000_0000 < 0x8000_0000_0000 then Unmapped(ALL) else Walk(f, root, PageOf(a))
  }

  /** unmap_lower_half on addresses: bit 47 decides. */
  lemma UnmapOnAddresses(m: Mem, root: nat)
    requires Inv(m, root)
    ensures SplitByBit47(m.frames, Unmap(m, root).frames, root)
    ensures forall a: nat :: var w := Walk(Unmap(m, root).frames, root, PageOf(a));
              if a % 0x1_0000_0000_0000 < 0x8000_0000_0000 then w == Unmapped(ALL)
              else w == Walk(m.frames, root, PageOf(a))
  {
    UnmapOutcome(m, root);
    UnmapIsHalved(m, root);
    forall a: nat
      ensures var w := Walk(Unmap(m, root).frames, root, PageOf(a));
        if a % 0x1_0000_0000_0000 < 0x8000_0000_0000 then w == Unmapped(ALL)
        else w == Walk(m.frames, root, PageOf(a))
    {
      TopIndexBit(a);
      if PageOf(a).i4 < LOWER {
        assert !EntryAt(Unmap(m, root).frames, root, PageOf(a).i4).present;
      }
    }
  }
}
