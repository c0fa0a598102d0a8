/**
 Runs of vm_map and unmap_lower_half: what every run keeps, and what a run means for the pages of the
 lower half, which is where programs are loaded.
 */
module AddressSpace {
  import opened Common
  import opened FreeList
  import opened Address
  import opened PageTable
  import opened VmMap
  import opened UnmapLowerHalf

  datatype Op = MapPage(a: nat, q: Rights) | UnmapLower

  function Apply(m: Mem, root: nat, op: Op): Mem {
    match op
    case MapPage(a, q) => Map(m, root, a, q).0
    case UnmapLower => Unmap(m, root)
  }

  function Run(m: Mem, root: nat, ops: seq<Op>): Mem {
    if ops == [] then m else Apply(Run(m, root, ops[..|ops| - 1]), root, ops[|ops| - 1])
  }

  ghost function Owned(m: Mem, root: nat): set<nat> {
    Tables(m.frames, root) + FreePages(m.free)
  }

  /** vm_map never tests page_size: no address it is given may lie in a huge page at the time of the call. */
  ghost predicate NoHuge(m: Mem, root: nat, ops: seq<Op>) {
    forall i | 0 <= i < |ops| && ops[i].MapPage? :: !Walk(Run(m, root, ops[..i]).frames, root, PageOf(ops[i].a)).Huge?
  }

  lemma NoHugeSplit(m: Mem, root: nat, init: seq<Op>, op: Op)
    requires NoHuge(m, root, init + [op])
    ensures NoHuge(m, root, init)
    ensures op.MapPage? ==> !Walk(Run(m, root, init).frames, root, PageOf(op.a)).Huge?
  {
    var ops := init + [op];
    assert ops[..|init|] == init && ops[|init|] == op;
    forall i | 0 <= i < |init| && init[i].MapPage?
      ensures !Walk(Run(m, root, init[..i]).frames, root, PageOf(init[i].a)).Huge?
    {
      assert ops[i] == init[i] && ops[..i] == init[..i];
    }
  }

  // ----- one operation

  lemma MapOutcome(m: Mem, root: nat, a: nat, q: Rights)
    requires Inv(m, root) && !Walk(m.frames, root, PageOf(a)).Huge?
    ensures Outcome(m, Map(m, root, a, q).0, Map(m, root, a, q).1, root, PageOf(a), q)
  {
    MapFromOutcome(m, root, root, PageOf(a), 0, q);
  }

  /**
   vm_map on addresses. It succeeds exactly when the page is not mapped and the tables its path lacks do not
   outnumber the free pages. Success maps the page with the bits asked for; a refusal because the page is
   mapped changes nothing at all; a failure for want of pages changes no walk. In every case all pages
   with another page number keep their walk, and the same frames stay in use or free.
   */
  lemma MapOnAddresses(m: Mem, root: nat, a: nat, q: Rights)
    requires Inv(m, root) && !Walk(m.frames, root, PageOf(a)).Huge?
    ensures var (m', ok) := Map(m, root, a, q);
      && Inv(m', root) && Owned(m', root) == Owned(m, root)
      && (ok <==> Walk(m.frames, root, PageOf(a)).Unmapped?
                  && Missing(m.frames, root, PageOf(a), 0) <= |FreePages(m.free)|)
      && (ok ==> var w := Walk(m'.frames, root, PageOf(a));
            && w.Mapped? && w.rights == Narrow(Walk(m.frames, root, PageOf(a)).path, w.leaf)
            && w.leaf == Leaf(OldLeaf(m.frames, root, PageOf(a)), q))
      && (Walk(m.frames, root, PageOf(a)).Mapped? ==> m' == m)
      && (!ok ==> Walk(m'.frames, root, PageOf(a)) == Walk(m.frames, root, PageOf(a)))
      && (!ok && Walk(m.frames, root, PageOf(a)).Unmapped? ==> FreePages(m'.free) == {})
      && (forall b: nat | PageNumber(b) != PageNumber(a) ::
            Walk(m'.frames, root, PageOf(b)) == Walk(m.frames, root, PageOf(b)))
  {
    MapOutcome(m, root, a, q);
    if Walk(m.frames, root, PageOf(a)).Mapped? {
      MapFromRefuses(m, root, root, PageOf(a), 0, q);
    } else {
      MapFromSucceeds(m, root, root, PageOf(a), 0, q);
    }
    forall b: nat | PageNumber(b) != PageNumber(a)
      ensures Walk(Map(m, root, a, q).0.frames, root, PageOf(b)) == Walk(m.frames, root, PageOf(b))
    {
      IndicesIdentifyThePage(a, b);
    }
  }

  // ----- every run

  /** One operation keeps the invariant and the frames, and makes no huge page. */
  lemma ApplyKeeps(m: Mem, root: nat, op: Op)
    requires Inv(m, root) && (op.MapPage? ==> !Walk(m.frames, root, PageOf(op.a)).Huge?)
    ensures Inv(Apply(m, root, op), root)
    ensures Owned(Apply(m, root, op), root) == Owned(m, root)
    ensures forall pg: Page | pg.Valid() :: Walk(Apply(m, root, op).frames, root, pg).Huge? ==>
              Walk(m.frames, root, pg).Huge?
  {
    match op
    case MapPage(a, q) =>
      MapOutcome(m, root, a, q);
    case UnmapLower =>
      UnmapOutcome(m, root);
  }

  /** Safety and conservation over every run: tables and free pages trade frames and lose none. */
  lemma {:induction false} RunKeeps(m: Mem, root: nat, ops: seq<Op>)
    requires Inv(m, root) && NoHuge(m, root, ops)
    ensures Inv(Run(m, root, ops), root)
    ensures Owned(Run(m, root, ops), root) == Owned(m, root)
    ensures forall pg: Page | pg.Valid() :: Walk(Run(m, root, ops).frames, root, pg).Huge? ==>
              Walk(m.frames, root, pg).Huge?
    decreases |ops|
  {
    if ops != [] {
      var init, op := ops[..|ops| - 1], ops[|ops| - 1];
      assert ops == init + [op];
      NoHugeSplit(m, root, init, op);
      RunKeeps(m, root, init);
      ApplyKeeps(Run(m, root, init), root, op);
    }
  }

  /** It is enough to look at the start: no run makes a huge page. */
  lemma {:induction false} NoHugeFromStart(m: Mem, root: nat, ops: seq<Op>)
    requires Inv(m, root)
    requires forall op | op in ops && op.MapPage? :: !Walk(m.frames, root, PageOf(op.a)).Huge?
    ensures NoHuge(m, root, ops)
    decreases |ops|
  {
    if ops != [] {
      var init, op := ops[..|ops| - 1], ops[|ops| - 1];
      assert ops == init + [op] && op in ops;
      NoHugeFromStart(m, root, init);
      RunKeeps(m, root, init);
      forall i | 0 <= i < |ops| && ops[i].MapPage?
        ensures !Walk(Run(m, root, ops[..i]).frames, root, PageOf(ops[i].a)).Huge?
      {
        if i < |init| {
          assert ops[i] == init[i] && ops[..i] == init[..i];
        }
      }
    }
  }

  // ----- the round trip

  ghost predicate LowerOnly(ops: seq<Op>) {
    forall op | op in ops :: op.MapPage? && op.a % 0x1_0000_0000_0000 < 0x8000_0000_0000
  }

  lemma LowerMapKeepsUpper(m: Mem, root: nat, a: nat, q: Rights)
    requires Inv(m, root) && !Walk(m.frames, root, PageOf(a)).Huge? && PageOf(a).i4 < LOWER
    ensures var m' := Map(m, root, a, q).0;
      && (forall p: Path | p.Valid() && Upper(p) :: Reach(m'.frames, root, p) == Reach(m.frames, root, p))
      && (forall pg: Page | pg.Valid() && LOWER <= pg.i4 :: Walk(m'.frames, root, pg) == Walk(m.frames, root, pg))
  {
    MapOutcome(m, root, a, q);
    assert forall p: Path | Upper(p) :: !OnPath(PageOf(a), p);
  }

  /** Mapping pages of the lower half moves no upper-half table. */
  lemma {:induction false} LowerRunKeepsUpper(m: Mem, root: nat, ops: seq<Op>)
    requires Inv(m, root) && NoHuge(m, root, ops) && LowerOnly(ops)
    ensures forall p: Path | p.Valid() && Upper(p) ::
              Reach(Run(m, root, ops).frames, root, p) == Reach(m.frames, root, p)
    ensures forall pg: Page | pg.Valid() && LOWER <= pg.i4 ::
              Walk(Run(m, root, ops).frames, root, pg) == Walk(m.frames, root, pg)
    decreases |ops|
  {
    hide Inv, NoHuge, Walk, Reach;
    if ops != [] {
      var init, op := ops[..|ops| - 1], ops[|ops| - 1];
      assert ops == init + [op];
      NoHugeSplit(m, root, init, op);
      RunKeeps(m, root, init);
      assert op in ops;
      TopIndexBit(op.a);
      LowerRunKeepsUpper(m, root, init);
      LowerMapKeepsUpper(Run(m, root, init), root, op.a, op.q);
    }
  }

  lemma UpperTablesDecide(m: Mem, m': Mem, root: nat)
    requires Inv(m, root) && Inv(m', root)
    requires forall p: Path | p.Valid() && Upper(p) :: Reach(m'.frames, root, p) == Reach(m.frames, root, p)
    ensures Tables(Unmap(m', root).frames, root) <= Tables(Unmap(m, root).frames, root)
  {
    UnmapIsHalved(m, root);
    UnmapIsHalved(m', root);
    var f, f' := Unmap(m, root).frames, Unmap(m', root).frames;
    HalvedTree(m.frames, f, root);
    forall t | t in Tables(f', root)
      ensures t in Tables(f, root)
    {
      var p :| Live(f', root, p) && Reach(f', root, p).value == t;
      ReachHalved(m'.frames, f', root, p);
      ReachHalved(m.frames, f, root, p);
      LiveIsTable(f, root, p);
    }
  }

  /**
   Round trip: whatever pages of the lower half are mapped first, unmap_lower_half ends with the same
   tables and the same free pages as if nothing had been mapped.
   */
  lemma MapsThenUnmap(m: Mem, root: nat, ops: seq<Op>)
    requires Inv(m, root) && NoHuge(m, root, ops) && LowerOnly(ops)
    ensures Tables(Unmap(Run(m, root, ops), root).frames, root) == Tables(Unmap(m, root).frames, root)
    ensures FreePages(Unmap(Run(m, root, ops), root).free) == FreePages(Unmap(m, root).free)
  {
    var m' := Run(m, root, ops);
    RunKeeps(m, root, ops);
    LowerRunKeepsUpper(m, root, ops);
    UpperTablesDecide(m, m', root);
    UpperTablesDecide(m', m, root);
    UnmapOutcome(m, root);
    UnmapOutcome(m', root);
  }

  ghost predicate LowerEmpty(f: Frames, root: nat) {
    forall i | 0 <= i < 256 :: !EntryAt(f, root, i).present
  }

  lemma EmptyHasNoLowerTables(f: Frames, root: nat, p: Path)
    requires LowerEmpty(f, root) && p.Valid() && !Upper(p)
    ensures Reach(f, root, p) == None
  {
    assert !EntryAt(f, root, p.i4).present;
    assert Reach(f, root, Third(p.i4)) == None;
    if p.First? {
      assert Reach(f, root, Second(p.i4, p.i3)) == None;
    }
  }

  lemma EmptyHasNoHuge(m: Mem, root: nat, ops: seq<Op>)
    requires Inv(m, root) && LowerOnly(ops) && LowerEmpty(m.frames, root)
    ensures NoHuge(m, root, ops)
  {
    forall op | op in ops
      ensures !Walk(m.frames, root, PageOf(op.a)).Huge?
    {
      TopIndexBit(op.a);
      assert !EntryAt(m.frames, root, PageOf(op.a).i4).present;
    }
    NoHugeFromStart(m, root, ops);
  }

  lemma {:induction false} RunAfter(m: Mem, root: nat, op: Op, ops: seq<Op>)
    ensures Run(m, root, [op] + ops) == Run(Apply(m, root, op), root, ops)
    decreases |ops|
  {
    var all := [op] + ops;
    if ops == [] {
      assert all == [op] && [op][..0] == [];
    } else {
      assert all[..|all| - 1] == [op] + ops[..|ops| - 1];
      RunAfter(m, root, op, ops[..|ops| - 1]);
    }
  }

  /**
   What the kernel does at boot and before each program: once unmap_lower_half has been called, any page of
   the lower half may be mapped, whatever huge pages the boot loader had put there.
   */
  lemma LowerPagesAfterUnmap(m: Mem, root: nat, ops: seq<Op>)
    requires Inv(m, root)
    requires forall op | op in ops && op.MapPage? && 0x8000_0000_0000 <= op.a % 0x1_0000_0000_0000 ::
               !Walk(m.frames, root, PageOf(op.a)).Huge?
    ensures NoHuge(m, root, [UnmapLower] + ops)
  {
    var all, m1 := [UnmapLower] + ops, Unmap(m, root);
    UnmapOutcome(m, root);
    UnmapOnAddresses(m, root);
    NoHugeFromStart(m1, root, ops);
    forall i | 0 <= i < |all| && all[i].MapPage?
      ensures !Walk(Run(m, root, all[..i]).frames, root, PageOf(all[i].a)).Huge?
    {
      assert all[..i] == [UnmapLower] + ops[..i - 1] && all[i] == ops[i - 1];
      RunAfter(m, root, UnmapLower, ops[..i - 1]);
    }
  }

  /** From an empty lower half, mapping and then unmapping restores exactly the original free pages. */
  lemma FreePagesRestored(m: Mem, root: nat, ops: seq<Op>)
    requires Inv(m, root) && forall i | 0 <= i < 256 :: !EntryAt(m.frames, root, i).present
    requires forall op | op in ops :: op.MapPage? && op.a % 0x1_0000_0000_0000 < 0x8000_0000_0000
    ensures NoHuge(m, root, ops)
    ensures FreePages(Unmap(Run(m, root, ops), root).free) == FreePages(m.free)
  {
    EmptyHasNoHuge(m, root, ops);
    MapsThenUnmap(m, root, ops);
    UnmapOutcome(m, root);
    var freed := UnderRoot(m.frames, root, LOWER);
    forall p: Path | p.Valid() && !Upper(p)
      ensures !Live(m.frames, root, p)
    {
      EmptyHasNoLowerTables(m.frames, root, p);
    }
    assert Members(freed) == {};
  }
}
