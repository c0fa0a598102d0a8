/**
 The 4-level page tables of kernel/memory.c, on values: the walk, the tree the tables form, vm_map.
 */
module PageTable {
  import opened Common
  import opened FreeList
  import opened Address

  const BLANK := Entry(false, false, false, false, false, 0, 0)
  const ADDRESS_FIELD: nat := 0x100_0000_0000  // the entry's address bit-field has 40 bits

  // ----- entries

  datatype Rights = Rights(user: bool, writable: bool, executable: bool)

  const ALL := Rights(true, true, true)

  /** The entry at index i of the table stored at t; a blank one where no table is stored. */
  function EntryAt(f: Frames, t: nat, i: nat): Entry {
    if t in f && f[t].Table? && i < |f[t].entries| then f[t].entries[i] else BLANK
  }

  function SetEntry(f: Frames, t: nat, i: nat, e: Entry): Frames {
    if t in f && f[t].Table? && i < |f[t].entries| then f[t := Table(f[t].entries[i := e])] else f
  }

  function ZeroTable(): Frame {
    Table(seq(FANOUT, _ => BLANK))
  }

  function Target(e: Entry): nat {
    e.address * PAGESIZE
  }

  /** Rights that survive passing through e (section 4.6 of Intel SDM volume 3A). */
  function Narrow(r: Rights, e: Entry): Rights {
    Rights(r.user && e.user, r.writable && e.writable, r.executable && !e.no_execute)
  }

  // ----- the walk of the hardware

  /** Where a walk ends; Unmapped keeps the rights of the links that lead to the missing entry. */
  datatype Walked =
    | Unmapped(path: Rights)
    | Huge(level: nat, e: Entry, huge: Rights)
    | Mapped(leaf: Entry, rights: Rights)

  function WalkFrom(f: Frames, t: nat, pg: Page, i: nat, r: Rights): Walked
    requires i <= 3
    decreases 3 - i
  {
    var e := EntryAt(f, t, pg.At(i));
    if !e.present then Unmapped(r)
    else if i == 3 then Mapped(e, Narrow(r, e))
    else if i > 0 && e.page_size then Huge(i, e, Narrow(r, e))
    else WalkFrom(f, Target(e), pg, i + 1, Narrow(r, e))
  }

  function Walk(f: Frames, root: nat, pg: Page): Walked {
    WalkFrom(f, root, pg, 0, ALL)
  }

  // ----- the tree of tables

  /** The place of a table in the tree: the indices that lead to it from the level-4 table. */
  datatype Path = Root | Third(i4: nat) | Second(i4: nat, i3: nat) | First(i4: nat, i3: nat, i2: nat) {
    ghost predicate Valid() {
      match this
      case Root => true
      case Third(i) => i < FANOUT
      case Second(i, j) => i < FANOUT && j < FANOUT
      case First(i, j, k) => i < FANOUT && j < FANOUT && k < FANOUT
    }

    function Depth(): nat {
      match this case Root => 0 case Third(_) => 1 case Second(_, _) => 2 case First(_, _, _) => 3
    }

    function Child(i: nat): Path
      requires !First?
    {
      match this
      case Root => Third(i)
      case Third(i4) => Second(i4, i)
      case Second(i4, i3) => First(i4, i3, i)
    }
  }

  function Prefix(pg: Page, i: nat): Path
    requires i <= 3
  {
    match i
    case 0 => Root
    case 1 => Third(pg.i4)
    case 2 => Second(pg.i4, pg.i3)
    case 3 => First(pg.i4, pg.i3, pg.i2)
  }

  /** Does e, in the table at path p, lead to another table? */
  predicate Links(p: Path, e: Entry) {
    e.present && !p.First? && (p.Root? || !e.page_size)
  }

  function Follow(f: Frames, p: Path, t: Option<nat>, i: nat): Option<nat> {
    if t.Some? && Links(p, EntryAt(f, t.value, i)) then Some(Target(EntryAt(f, t.value, i))) else None
  }

  /** The address of the table at path p, when there is one. */
  function Reach(f: Frames, root: nat, p: Path): Option<nat>
    decreases p.Depth()
  {
    match p
    case Root => Some(root)
    case Third(i4) => Follow(f, Root, Some(root), i4)
    case Second(i4, i3) => Follow(f, Third(i4), Reach(f, root, Third(i4)), i3)
    case First(i4, i3, i2) => Follow(f, Second(i4, i3), Reach(f, root, Second(i4, i3)), i2)
  }

  ghost predicate IsTable(f: Frames, t: nat) {
    && t % PAGESIZE == 0 && t + PAGESIZE <= PHYS_LIMIT
    && t in f && f[t].Table? && |f[t].entries| == FANOUT
  }

  ghost predicate Live(f: Frames, root: nat, p: Path) {
    p.Valid() && Reach(f, root, p).Some?
  }

  /** The tables form a tree: every linked frame holds a table, and only one chain of entries leads to it. */
  ghost predicate TreeOk(f: Frames, root: nat) {
    && (forall p | Live(f, root, p) :: IsTable(f, Reach(f, root, p).value))
    && (forall p, q | Live(f, root, p) && Live(f, root, q) && Reach(f, root, p) == Reach(f, root, q) :: p == q)
    // an unused entry below level 4 has a clear page-size bit, so that vm_map turns it into a link
    && (forall p, i | Live(f, root, p) && (p.Third? || p.Second?) && 0 <= i < FANOUT ::
          !EntryAt(f, Reach(f, root, p).value, i).present ==> !EntryAt(f, Reach(f, root, p).value, i).page_size)
  }

  ghost function Tables(f: Frames, root: nat): set<nat> {
    set t | t in f && exists p :: Live(f, root, p) && Reach(f, root, p).value == t
  }

  /** A memory in which the kernel may run: a tree of tables, a sound free list, and no frame in both. */
  ghost predicate Inv(m: Mem, root: nat) {
    && TreeOk(m.frames, root)
    && FreeOk(m)
    && Tables(m.frames, root) !! FreePages(m.free)
  }

  // ----- one new table

  predicate Open(e: Entry) {
    e.user && e.writable && !e.no_execute
  }

  /** f' is f with an empty table n linked, with every right, into the unused slot i of the table at path p. */
  ghost predicate Grown(f: Frames, f': Frames, root: nat, p: Path, i: nat, n: nat) {
    && Live(f, root, p) && !p.First? && i < FANOUT
    && var t := Reach(f, root, p).value;
    && !EntryAt(f, t, i).present
    && Links(p, EntryAt(f', t, i)) && Target(EntryAt(f', t, i)) == n && Open(EntryAt(f', t, i))
    && (forall j | 0 <= j < FANOUT && j != i :: EntryAt(f', t, j) == EntryAt(f, t, j))
    && n !in Tables(f, root) && n in f' && f'[n] == ZeroTable()
    && IsTable(f', t) && IsTable(f', n)
    && (forall u | u in Tables(f, root) && u != t :: u in f' && f'[u] == f[u])
  }

  lemma LiveIsTable(f: Frames, root: nat, p: Path)
    requires TreeOk(f, root) && Live(f, root, p)
    ensures IsTable(f, Reach(f, root, p).value)
    ensures Reach(f, root, p).value in Tables(f, root)
  {
  }

  lemma ReachChild(f: Frames, root: nat, p: Path, i: nat)
    requires !p.First?
    ensures Reach(f, root, p.Child(i)) == Follow(f, p, Reach(f, root, p), i)
  {
  }

  lemma FollowGrown(f: Frames, f': Frames, root: nat, p: Path, i: nat, n: nat, q: Path, k: nat)
    requires TreeOk(f, root) && Grown(f, f', root, p, i, n) && q.Valid() && !q.First? && k < FANOUT
    requires Reach(f', root, q) == if q == p.Child(i) then Some(n) else Reach(f, root, q)
    ensures Reach(f', root, q.Child(k)) == if q.Child(k) == p.Child(i) then Some(n) else Reach(f, root, q.Child(k))
  {
    ReachChild(f, root, p, i);
    ReachChild(f, root, q, k);
    ReachChild(f', root, q, k);
    if q == p.Child(i) {
      assert Reach(f, root, q) == None;
      assert EntryAt(f', n, k) == BLANK;
    } else if Reach(f, root, q).Some? {
      LiveIsTable(f, root, q);
      if q != p {
        assert Reach(f, root, q) != Reach(f, root, p);
      }
    }
  }

  /** Linking a new table adds one place to the tree and moves none. */
  lemma {:induction false} ReachGrown(f: Frames, f': Frames, root: nat, p: Path, i: nat, n: nat, q: Path)
    requires TreeOk(f, root) && Grown(f, f', root, p, i, n) && q.Valid()
    ensures Reach(f', root, q) == if q == p.Child(i) then Some(n) else Reach(f, root, q)
    decreases q.Depth()
  {
    match q
    case Root =>
    case Third(i4) =>
      FollowGrown(f, f', root, p, i, n, Root, i4);
    case Second(i4, i3) =>
      ReachGrown(f, f', root, p, i, n, Third(i4));
      FollowGrown(f, f', root, p, i, n, Third(i4), i3);
    case First(i4, i3, i2) =>
      ReachGrown(f, f', root, p, i, n, Second(i4, i3));
      FollowGrown(f, f', root, p, i, n, Second(i4, i3), i2);
  }

  lemma GrownTree(f: Frames, f': Frames, root: nat, p: Path, i: nat, n: nat)
    requires TreeOk(f, root) && Grown(f, f', root, p, i, n)
    ensures TreeOk(f', root)
  {
    forall q: Path | q.Valid()
      ensures Reach(f', root, q) == if q == p.Child(i) then Some(n) else Reach(f, root, q)
    {
      ReachGrown(f, f', root, p, i, n, q);
    }
    LiveIsTable(f, root, p);
    forall q | Live(f', root, q)
      ensures IsTable(f', Reach(f', root, q).value)
    {
      if q != p.Child(i) {
        LiveIsTable(f, root, q);
      }
    }
    forall q, k | Live(f', root, q) && (q.Third? || q.Second?) && 0 <= k < FANOUT
      ensures var e := EntryAt(f', Reach(f', root, q).value, k); e.present || !e.page_size
    {
      if q == p.Child(i) {
        assert EntryAt(f', n, k) == BLANK;
      } else {
        LiveIsTable(f, root, q);
        var u := Reach(f, root, q).value;
        assert EntryAt(f, u, k).present || !EntryAt(f, u, k).page_size;
        if u == Reach(f, root, p).value && k == i {
          assert Links(p, EntryAt(f', u, k));
        } else {
          assert EntryAt(f', u, k) == EntryAt(f, u, k);
        }
      }
    }
    forall q, q' | Live(f', root, q) && Live(f', root, q') && Reach(f', root, q) == Reach(f', root, q')
      ensures q == q'
    {
      if q != p.Child(i) {
        LiveIsTable(f, root, q);
      }
      if q' != p.Child(i) {
        LiveIsTable(f, root, q');
      }
    }
  }

  lemma GrownTables(f: Frames, f': Frames, root: nat, p: Path, i: nat, n: nat)
    requires TreeOk(f, root) && Grown(f, f', root, p, i, n)
    ensures Tables(f', root) == Tables(f, root) + {n}
  {
    ReachChild(f, root, p, i);
    forall t | t in Tables(f', root)
      ensures t in Tables(f, root) + {n}
    {
      var q :| Live(f', root, q) && Reach(f', root, q).value == t;
      ReachGrown(f, f', root, p, i, n, q);
      if q != p.Child(i) {
        LiveIsTable(f, root, q);
      }
    }
    forall t | t in Tables(f, root)
      ensures t in Tables(f', root)
    {
      var q :| Live(f, root, q) && Reach(f, root, q).value == t;
      ReachGrown(f, f', root, p, i, n, q);
      assert q != p.Child(i);
      assert Live(f', root, q);
    }
    ReachGrown(f, f', root, p, i, n, p.Child(i));
    assert Live(f', root, p.Child(i));
  }

  lemma PrefixStep(f: Frames, root: nat, pg: Page, j: nat)
    requires j < 3 && pg.Valid()
    ensures Prefix(pg, j).Valid() && !Prefix(pg, j).First? && (Prefix(pg, j).Root? <==> j == 0)
    ensures Prefix(pg, j + 1) == Prefix(pg, j).Child(pg.At(j)) && pg.At(j) < FANOUT
    ensures Reach(f, root, Prefix(pg, j + 1)) == Follow(f, Prefix(pg, j), Reach(f, root, Prefix(pg, j)), pg.At(j))
  {
    ReachChild(f, root, Prefix(pg, j), pg.At(j));
  }

  /** An empty table maps nothing: linking one changes no walk. */
  lemma {:induction false} WalkGrown(f: Frames, f': Frames, root: nat, p: Path, i: nat, n: nat,
                                     pg: Page, j: nat, u: nat, r: Rights)
    requires TreeOk(f, root) && Grown(f, f', root, p, i, n)
    requires pg.Valid() && j <= 3 && Reach(f, root, Prefix(pg, j)) == Some(u)
    ensures WalkFrom(f', u, pg, j, r) == WalkFrom(f, u, pg, j, r)
    decreases 3 - j
  {
    LiveIsTable(f, root, Prefix(pg, j));
    var t := Reach(f, root, p).value;
    var k := pg.At(j);
    if u == t && k == i {
      assert Prefix(pg, j) == p;
      assert WalkFrom(f, u, pg, j, r) == Unmapped(r);
      PrefixStep(f, root, pg, j);
      assert EntryAt(f', n, pg.At(j + 1)) == BLANK;
    } else {
      assert EntryAt(f', u, k) == EntryAt(f, u, k);
      var e := EntryAt(f, u, k);
      if j < 3 && e.present && (j == 0 || !e.page_size) {
        PrefixStep(f, root, pg, j);
        WalkGrown(f, f', root, p, i, n, pg, j + 1, Target(e), Narrow(r, e));
      }
    }
  }

  // ----- one new leaf

  /** f' is f with slot i of the level-1 table at path p rewritten. */
  ghost predicate Leafed(f: Frames, f': Frames, root: nat, p: Path, i: nat) {
    && Live(f, root, p) && p.First? && i < FANOUT
    && var t := Reach(f, root, p).value;
    && IsTable(f', t)
    && (forall j | 0 <= j < FANOUT && j != i :: EntryAt(f', t, j) == EntryAt(f, t, j))
    && (forall u | u in Tables(f, root) && u != t :: u in f' && f'[u] == f[u])
  }

  lemma {:induction false} ReachLeafed(f: Frames, f': Frames, root: nat, p: Path, i: nat, q: Path)
    requires TreeOk(f, root) && Leafed(f, f', root, p, i) && q.Valid()
    ensures Reach(f', root, q) == Reach(f, root, q)
    decreases q.Depth()
  {
    match q
    case Root =>
    case Third(i4) =>
      FollowLeafed(f, f', root, p, i, Root, i4);
    case Second(i4, i3) =>
      ReachLeafed(f, f', root, p, i, Third(i4));
      FollowLeafed(f, f', root, p, i, Third(i4), i3);
    case First(i4, i3, i2) =>
      ReachLeafed(f, f', root, p, i, Second(i4, i3));
      FollowLeafed(f, f', root, p, i, Second(i4, i3), i2);
  }

  lemma FollowLeafed(f: Frames, f': Frames, root: nat, p: Path, i: nat, q: Path, k: nat)
    requires TreeOk(f, root) && Leafed(f, f', root, p, i) && q.Valid() && !q.First? && k < FANOUT
    requires Reach(f', root, q) == Reach(f, root, q)
    ensures Reach(f', root, q.Child(k)) == Reach(f, root, q.Child(k))
  {
    ReachChild(f, root, q, k);
    ReachChild(f', root, q, k);
    if Reach(f, root, q).Some? {
      LiveIsTable(f, root, q);
      assert Reach(f, root, q) != Reach(f, root, p);
    }
  }

  lemma LeafedTree(f: Frames, f': Frames, root: nat, p: Path, i: nat)
    requires TreeOk(f, root) && Leafed(f, f', root, p, i)
    ensures TreeOk(f', root)
  {
    forall q: Path | q.Valid()
      ensures Reach(f', root, q) == Reach(f, root, q)
    {
      ReachLeafed(f, f', root, p, i, q);
    }
    forall q | Live(f', root, q)
      ensures IsTable(f', Reach(f', root, q).value)
      ensures q != p ==> f'[Reach(f, root, q).value] == f[Reach(f, root, q).value]
    {
      LiveIsTable(f, root, q);
    }
    forall q, k | Live(f', root, q) && (q.Third? || q.Second?) && 0 <= k < FANOUT
      ensures var e := EntryAt(f', Reach(f', root, q).value, k); e.present || !e.page_size
    {
      assert EntryAt(f', Reach(f', root, q).value, k) == EntryAt(f, Reach(f, root, q).value, k);
    }
  }

  lemma LeafedTables(f: Frames, f': Frames, root: nat, p: Path, i: nat)
    requires TreeOk(f, root) && Leafed(f, f', root, p, i)
    ensures Tables(f', root) == Tables(f, root)
  {
    forall q: Path | q.Valid()
      ensures Reach(f', root, q) == Reach(f, root, q)
    {
      ReachLeafed(f, f', root, p, i, q);
    }
    forall t | t in Tables(f, root)
      ensures t in Tables(f', root)
    {
      var q :| Live(f, root, q) && Reach(f, root, q).value == t;
      assert Live(f', root, q);
    }
    forall t | t in Tables(f', root)
      ensures t in Tables(f, root)
    {
      var q :| Live(f', root, q) && Reach(f', root, q).value == t;
      assert Live(f, root, q);
    }
  }

  /** A new leaf maps no page but its own. */
  lemma {:induction false} WalkLeafedElsewhere(f: Frames, f': Frames, root: nat, mapped: Page,
                                               pg: Page, j: nat, u: nat, r: Rights)
    requires TreeOk(f, root) && mapped.Valid() && Leafed(f, f', root, Prefix(mapped, 3), mapped.i1)
    requires pg.Valid() && pg != mapped && j <= 3 && Reach(f, root, Prefix(pg, j)) == Some(u)
    ensures WalkFrom(f', u, pg, j, r) == WalkFrom(f, u, pg, j, r)
    decreases 3 - j
  {
    LiveIsTable(f, root, Prefix(pg, j));
    var e := EntryAt(f, u, pg.At(j));
    if u == Reach(f, root, Prefix(mapped, 3)).value {
      assert Prefix(pg, j) == Prefix(mapped, 3);
    }
    assert EntryAt(f', u, pg.At(j)) == e;
    if j < 3 && e.present && (j == 0 || !e.page_size) {
      PrefixStep(f, root, pg, j);
      WalkLeafedElsewhere(f, f', root, mapped, pg, j + 1, Target(e), Narrow(r, e));
    }
  }

  lemma LinkOnPath(f: Frames, root: nat, pg: Page, j: nat)
    requires pg.Valid() && j < 3 && Reach(f, root, Prefix(pg, 3)).Some?
    ensures Reach(f, root, Prefix(pg, j)).Some? && Reach(f, root, Prefix(pg, j + 1)).Some?
    ensures var e := EntryAt(f, Reach(f, root, Prefix(pg, j)).value, pg.At(j));
      Links(Prefix(pg, j), e) && Reach(f, root, Prefix(pg, j + 1)) == Some(Target(e))
  {
    PrefixStep(f, root, pg, 2);
    PrefixStep(f, root, pg, 1);
    PrefixStep(f, root, pg, 0);
  }

  /** A new leaf maps its own page, with the rights of the path narrowed by its own. */
  lemma {:induction false} WalkLeafedHere(f: Frames, f': Frames, root: nat, pg: Page, e: Entry,
                                          j: nat, u: nat, r: Rights)
    requires TreeOk(f, root) && pg.Valid() && Leafed(f, f', root, Prefix(pg, 3), pg.i1)
    requires !EntryAt(f, Reach(f, root, Prefix(pg, 3)).value, pg.i1).present
    requires EntryAt(f', Reach(f, root, Prefix(pg, 3)).value, pg.i1) == e && e.present
    requires j <= 3 && Reach(f, root, Prefix(pg, j)) == Some(u)
    ensures WalkFrom(f, u, pg, j, r).Unmapped?
    ensures WalkFrom(f', u, pg, j, r) == Mapped(e, Narrow(WalkFrom(f, u, pg, j, r).path, e))
    decreases 3 - j
  {
    if j < 3 {
      LinkOnPath(f, root, pg, j);
      PrefixStep(f, root, pg, j);
      LiveIsTable(f, root, Prefix(pg, j));
      assert Prefix(pg, j) != Prefix(pg, 3);
      var e1 := EntryAt(f, u, pg.At(j));
      assert EntryAt(f', u, pg.At(j)) == e1;
      WalkLeafedHere(f, f', root, pg, e, j + 1, Target(e1), Narrow(r, e1));
    }
  }

  /** A table that the tree reaches on the path of pg is a table that the walk of pg arrives at. */
  lemma WalkArrives(f: Frames, root: nat, pg: Page, j: nat) returns (r: Rights)
    requires pg.Valid() && j <= 3 && Reach(f, root, Prefix(pg, j)).Some?
    ensures Walk(f, root, pg) == WalkFrom(f, Reach(f, root, Prefix(pg, j)).value, pg, j, r)
  {
    if j == 0 {
      r := ALL;
    } else {
      PrefixStep(f, root, pg, j - 1);
      r := WalkArrives(f, root, pg, j - 1);
      r := Narrow(r, EntryAt(f, Reach(f, root, Prefix(pg, j - 1)).value, pg.At(j - 1)));
    }
  }
}
