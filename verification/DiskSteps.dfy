/** The single steps of kernel/fs.c on disk and layout, and what each of them keeps. */
module DiskSteps {
  import opened Common
  import opened Blocks
  import opened Disk

  // ----- taking the head of the free list

  function Top(l: Layout): nat
    requires l.free != []
  {
    l.free[|l.free| - 1]
  }

  /** The head of the free list becomes the last block of file e, or the first of a new file. */
  function MoveTo(l: Layout, e: nat): Layout
    requires l.free != [] && e <= |l.chains| && Top(l) < |l.owner|
  {
    var s := Top(l);
    var k := if e < |l.chains| then |l.chains[e]| else 0;
    Layout(if e < |l.chains| then l.chains[e := l.chains[e] + [s]] else l.chains + [[s]],
           l.free[..|l.free| - 1], l.owner[s := InFile(e, k)])
  }

  lemma MovePlaced(l: Layout, e: nat, s: nat)
    requires LayoutOk(l) && l.free != [] && e <= |l.chains| && s < SLOTS
    ensures Placed(MoveTo(l, e), s)
  {
    assert Placed(l, s);
    var l' := MoveTo(l, e);
    if s != Top(l) {
      assert l'.owner[s] == l.owner[s];
      if l.owner[s].InFree? {
        assert l.owner[s].k < |l.free| - 1;
      }
    }
  }

  lemma MoveKeeps(l: Layout, e: nat)
    requires LayoutOk(l) && l.free != [] && e <= |l.chains|
    ensures LayoutOk(MoveTo(l, e))
  {
    var l' := MoveTo(l, e);
    forall s | 0 <= s < SLOTS
      ensures Placed(l', s)
    {
      MovePlaced(l, e, s);
    }
    forall f, k | 0 <= f < |l'.chains| && 0 <= k < |l'.chains[f]|
      ensures l'.chains[f][k] < SLOTS && l'.owner[l'.chains[f][k]] == InFile(f, k)
    {
      if f < |l.chains| && k < |l.chains[f]| {
        assert l'.chains[f][k] == l.chains[f][k];
        assert l.owner[Top(l)] == InFree(|l.free| - 1);
      }
    }
    forall k | 0 <= k < |l'.free|
      ensures l'.free[k] < SLOTS && l'.owner[l'.free[k]] == InFree(k)
    {
      assert l.owner[l.free[k]] == InFree(k) && l.owner[Top(l)] == InFree(|l.free| - 1);
    }
  }

  lemma PopFree(bs: seq<Block>, head: nat, free: seq<nat>)
    requires BlocksOk(bs) && InRange(free) && FreeListOk(bs, head, free) && free != []
    ensures var s := free[|free| - 1];
      head == SlotAddr(s) && InRange(free[..|free| - 1]) && FreeListOk(bs, ReadNext(bs[s]), free[..|free| - 1])
  {
    var rest := free[..|free| - 1];
    assert FreeLink(bs, free, |free| - 1);
    assert TopAddr(free, |free| - 1) == TopAddr(rest, |rest|);
    forall k | 0 <= k < |rest|
      ensures FreeLink(bs, rest, k)
    {
      assert FreeLink(bs, free, k);
    }
  }

  /** l' is l with blocks from the head of the free list added, in list order, to the end of file e. */
  ghost predicate Lengthened(l: Layout, l': Layout, e: nat) {
    && |l'.chains| == |l.chains| && e < |l.chains|
    && (forall f | 0 <= f < |l.chains| && f != e :: l'.chains[f] == l.chains[f])
    && |l'.free| + |l'.chains[e]| == |l.free| + |l.chains[e]|
    && l'.free <= l.free && l.chains[e] <= l'.chains[e]
    && forall k | |l.chains[e]| <= k < |l'.chains[e]| :: l'.chains[e][k] == l.free[|l.free| - 1 - (k - |l.chains[e]|)]
  }

  lemma LengthenedStep(l: Layout, l1: Layout, e: nat)
    requires Lengthened(l, l1, e) && l1.free != [] && Top(l1) < |l1.owner|
    ensures Lengthened(l, MoveTo(l1, e), e)
  {
  }

  // ----- one more block for a file (the body of the allocation loop)

  /** Everything is in order except that file e may not be marked as ended, nor have the length of its size. */
  ghost predicate Growing(d: Disk, l: Layout, e: nat) {
    && BaseOk(d, l) && e < |d.entries|
    && (forall f | 0 <= f < |d.entries| && f != e :: FileOk(d.blocks, d.entries[f], l.chains[f]))
    && Live(d.entries[e]) && Linked(d.blocks, l.chains[e]) && d.entries[e].start == SlotIndex(l.chains[e][0])
  }

  function LastOf(l: Layout, e: nat): nat
    requires e < |l.chains| && l.chains[e] != []
  {
    l.chains[e][|l.chains[e]| - 1]
  }

  function SetIndex(bs: seq<Block>, s: nat, i: nat): seq<Block>
    requires s < |bs|
  {
    bs[s := bs[s].(index := i)]
  }

  lemma SetIndexOk(bs: seq<Block>, s: nat, i: nat)
    requires BlocksOk(bs) && s < SLOTS && i < TWO32
    ensures BlocksOk(SetIndex(bs, s, i))
    ensures forall t | 0 <= t < SLOTS :: SetIndex(bs, s, i)[t].data == bs[t].data
    ensures forall t | 0 <= t < SLOTS && t != s :: SetIndex(bs, s, i)[t] == bs[t]
  {
  }

  function Attach(d: Disk, l: Layout, e: nat): Disk
    requires BaseOk(d, l) && l.free != [] && e < |l.chains| && l.chains[e] != []
  {
    Disk(SetIndex(d.blocks, LastOf(l, e), SlotIndex(Top(l))), ReadNext(d.blocks[Top(l)]), d.entries)
  }

  lemma LinkedAttach(bs: seq<Block>, c: seq<nat>, s: nat)
    requires BlocksOk(bs) && InRange(c) && Linked(bs, c) && s < SLOTS
    requires forall k | 0 <= k < |c| - 1 :: c[k] != c[|c| - 1]
    requires BlocksOk(SetIndex(bs, c[|c| - 1], SlotIndex(s))) && InRange(c + [s])
    ensures Linked(SetIndex(bs, c[|c| - 1], SlotIndex(s)), c + [s])
  {
    var bs' := SetIndex(bs, c[|c| - 1], SlotIndex(s));
    forall k | 0 <= k < |c + [s]| - 1
      ensures ChainLink(bs', c + [s], k)
    {
      if k < |c| - 1 {
        assert ChainLink(bs, c, k);
      }
    }
  }

  lemma AttachBase(d: Disk, l: Layout, e: nat)
    requires BaseOk(d, l) && l.free != [] && e < |l.chains| && l.chains[e] != []
    ensures BaseOk(Attach(d, l, e), MoveTo(l, e))
  {
    hide FreeListOk;
    var last, s := LastOf(l, e), Top(l);
    assert InRange(l.chains[e]);
    SlotArithmetic(s);
    SetIndexOk(d.blocks, last, SlotIndex(s));
    MoveKeeps(l, e);
    PopFree(d.blocks, d.head, l.free);
    PlacesDiffer(l, e, |l.chains[e]| - 1, last);
    FreeFrame(d.blocks, Attach(d, l, e).blocks, ReadNext(d.blocks[s]), l.free[..|l.free| - 1]);
  }

  lemma AttachKeeps(d: Disk, l: Layout, e: nat)
    requires Growing(d, l, e) && l.free != []
    ensures Growing(Attach(d, l, e), MoveTo(l, e), e)
  {
    var d', l' := Attach(d, l, e), MoveTo(l, e);
    var last, s := LastOf(l, e), Top(l);
    AttachBase(d, l, e);
    PlacesDiffer(l, e, |l.chains[e]| - 1, last);
    SetIndexOk(d.blocks, last, SlotIndex(s));
    forall f | 0 <= f < |d.entries| && f != e
      ensures FileOk(d'.blocks, d'.entries[f], l'.chains[f])
    {
      assert InRange(l.chains[f]);
      FileFrame(d.blocks, d'.blocks, d.entries[f], l.chains[f]);
    }
    LinkedAttach(d.blocks, l.chains[e], s);
  }

  /** No byte of any chain changes, and only the file that grows has a new chain. */
  ghost predicate SameBytes(d: Disk, l: Layout, d': Disk, l': Layout) {
    && |d.entries| == |d'.entries| == |l.chains| == |l'.chains|
    && forall f | 0 <= f < |d.entries| ::
         d'.entries[f] == d.entries[f] && |l.chains[f]| <= |l'.chains[f]| && SameBytesIn(d, l, d', l', f)
  }

  ghost predicate SameBytesIn(d: Disk, l: Layout, d': Disk, l': Layout, f: nat)
    requires f < |l.chains| && f < |l'.chains|
  {
    forall size: nat | size <= BLOCK_DATA_SIZE * |l.chains[f]| ::
      Content(d'.blocks, l'.chains[f], size) == Content(d.blocks, l.chains[f], size)
  }

  lemma AttachBytes(d: Disk, l: Layout, e: nat)
    requires Growing(d, l, e) && l.free != []
    ensures SameBytes(d, l, Attach(d, l, e), MoveTo(l, e))
  {
    var d', l', s := Attach(d, l, e), MoveTo(l, e), Top(l);
    SlotArithmetic(s);
    assert InRange(l.chains[e]);
    SetIndexOk(d.blocks, LastOf(l, e), SlotIndex(s));
    forall f | 0 <= f < |l.chains|
      ensures SameBytesIn(d, l, d', l', f)
    {
      assert InRange(l.chains[f]);
      forall size: nat | size <= BLOCK_DATA_SIZE * |l.chains[f]|
        ensures Content(d'.blocks, l'.chains[f], size) == Content(d.blocks, l.chains[f], size)
      {
        ContentFrame(d.blocks, d'.blocks, l.chains[f], size);
        if f == e {
          ContentGrown(d'.blocks, l.chains[e], s, size);
        }
      }
    }
  }

  // ----- the end marker

  function Finish(d: Disk, l: Layout, e: nat): Disk
    requires e < |l.chains| && l.chains[e] != [] && LastOf(l, e) < |d.blocks|
  {
    Disk(SetIndex(d.blocks, LastOf(l, e), BLOCK_INDEX_END), d.head, d.entries)
  }

  lemma FinishKeeps(d: Disk, l: Layout, e: nat)
    requires Growing(d, l, e)
    ensures Growing(Finish(d, l, e), l, e) && Ended(Finish(d, l, e).blocks, l.chains[e])
  {
    var d', last := Finish(d, l, e), LastOf(l, e);
    assert InRange(l.chains[e]);
    SetIndexOk(d.blocks, last, BLOCK_INDEX_END);
    PlacesDiffer(l, e, |l.chains[e]| - 1, last);
    FreeFrame(d.blocks, d'.blocks, d.head, l.free);
    forall f | 0 <= f < |d.entries| && f != e
      ensures FileOk(d'.blocks, d'.entries[f], l.chains[f])
    {
      assert InRange(l.chains[f]);
      FileFrame(d.blocks, d'.blocks, d.entries[f], l.chains[f]);
    }
    forall k | 0 <= k < |l.chains[e]| - 1
      ensures ChainLink(d'.blocks, l.chains[e], k)
    {
      assert ChainLink(d.blocks, l.chains[e], k);
    }
  }

  lemma FinishBytes(d: Disk, l: Layout, e: nat)
    requires Growing(d, l, e)
    ensures SameBytes(d, l, Finish(d, l, e), l)
  {
    var d' := Finish(d, l, e);
    assert InRange(l.chains[e]);
    SetIndexOk(d.blocks, LastOf(l, e), BLOCK_INDEX_END);
    forall f | 0 <= f < |l.chains|
      ensures SameBytesIn(d, l, d', l, f)
    {
      assert InRange(l.chains[f]);
      forall size: nat | size <= BLOCK_DATA_SIZE * |l.chains[f]|
        ensures Content(d'.blocks, l.chains[f], size) == Content(d.blocks, l.chains[f], size)
      {
        ContentFrame(d.blocks, d'.blocks, l.chains[f], size);
      }
    }
  }

  lemma SameBytesTrans(d: Disk, l: Layout, d1: Disk, l1: Layout, d2: Disk, l2: Layout)
    requires SameBytes(d, l, d1, l1) && SameBytes(d1, l1, d2, l2)
    ensures SameBytes(d, l, d2, l2)
  {
    forall f | 0 <= f < |l.chains|
      ensures |l.chains[f]| <= |l2.chains[f]| && SameBytesIn(d, l, d2, l2, f)
    {
      assert SameBytesIn(d, l, d1, l1, f) && SameBytesIn(d1, l1, d2, l2, f);
    }
  }

  // ----- one byte (the body of the copy loop)

  function SetByte(bs: seq<Block>, s: nat, i: nat, b: byte): seq<Block>
    requires s < |bs| && i < |bs[s].data|
  {
    bs[s := bs[s].(data := bs[s].data[i := b])]
  }

  /** A byte of a file is stored in one place only. */
  lemma SetByteBytes(bs: seq<Block>, c: seq<nat>, k: nat, i: nat, b: byte)
    requires BlocksOk(bs) && InRange(c) && k < |c| && i < BLOCK_DATA_SIZE
    requires forall j | 0 <= j < |c| && j != k :: c[j] != c[k]
    ensures Full(SetByte(bs, c[k], i, b), c) == Full(bs, c)[BLOCK_DATA_SIZE * k + i := b]
  {
    var bs' := SetByte(bs, c[k], i, b);
    forall p | 0 <= p < BLOCK_DATA_SIZE * |c|
      ensures ByteAt(bs', c, p) == if p == BLOCK_DATA_SIZE * k + i then b else ByteAt(bs, c, p)
    {
      BlockOfByte(p, |c|);
    }
  }

  lemma SetByteKeeps(d: Disk, l: Layout, e: nat, k: nat, i: nat, b: byte)
    requires Growing(d, l, e) && Ended(d.blocks, l.chains[e]) && k < |l.chains[e]| && i < BLOCK_DATA_SIZE
    ensures var d' := Disk(SetByte(d.blocks, l.chains[e][k], i, b), d.head, d.entries);
      && Growing(d', l, e) && Ended(d'.blocks, l.chains[e])
      && (forall f | 0 <= f < |d.entries| && f != e :: SameBytesIn(d, l, d', l, f))
  {
    var s := l.chains[e][k];
    var bs' := SetByte(d.blocks, s, i, b);
    var d' := Disk(bs', d.head, d.entries);
    assert InRange(l.chains[e]);
    PlacesDiffer(l, e, k, s);
    FreeFrame(d.blocks, bs', d.head, l.free);
    forall f | 0 <= f < |d.entries| && f != e
      ensures FileOk(bs', d.entries[f], l.chains[f]) && SameBytesIn(d, l, d', l, f)
    {
      assert InRange(l.chains[f]);
      FileFrame(d.blocks, bs', d.entries[f], l.chains[f]);
      forall size: nat | size <= BLOCK_DATA_SIZE * |l.chains[f]|
        ensures Content(bs', l.chains[f], size) == Content(d.blocks, l.chains[f], size)
      {
        ContentFrame(d.blocks, bs', l.chains[f], size);
      }
    }
    forall j | 0 <= j < |l.chains[e]| - 1
      ensures ChainLink(bs', l.chains[e], j)
    {
      assert ChainLink(d.blocks, l.chains[e], j);
    }
  }
}
