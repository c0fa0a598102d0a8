/** From disk to files: what each operation of kernel/fs.c, taken as a whole, does to the files it represents. */
module DiskFiles {
  import opened Blocks
  import opened Disk
  import opened DiskSteps
  import opened FileModel

  function FileOf(d: Disk, l: Layout, e: nat): File
    requires e < |d.entries| == |l.chains|
  {
    File(d.entries[e].name, Content(d.blocks, l.chains[e], d.entries[e].size))
  }

  function FilesOf(d: Disk, l: Layout): seq<File>
    requires |d.entries| == |l.chains|
  {
    seq(|d.entries|, e requires 0 <= e < |d.entries| => FileOf(d, l, e))
  }

  lemma SizeFits(d: Disk, l: Layout, e: nat)
    requires Inv(d, l) && e < |d.entries|
    ensures d.entries[e].size <= BLOCK_DATA_SIZE * |l.chains[e]|
  {
    assert InRange(l.chains[e]) && FileOk(d.blocks, d.entries[e], l.chains[e]);
  }

  // ----- opening a new file

  function Created(d: Disk, l: Layout, name: string): Disk
    requires BaseOk(d, l) && l.free != []
  {
    Disk(SetIndex(d.blocks, Top(l), BLOCK_INDEX_END), ReadNext(d.blocks[Top(l)]),
         d.entries + [FileEntry(name, SlotIndex(Top(l)), 0)])
  }

  lemma CreatedBase(d: Disk, l: Layout, name: string)
    requires BaseOk(d, l) && l.free != []
    ensures BaseOk(Created(d, l, name), MoveTo(l, |l.chains|))
  {
    hide FreeListOk;
    var d', l', s := Created(d, l, name), MoveTo(l, |l.chains|), Top(l);
    MoveKeeps(l, |l.chains|);
    PopFree(d.blocks, d.head, l.free);
    SetIndexOk(d.blocks, s, BLOCK_INDEX_END);
    forall k | 0 <= k < |l'.free|
      ensures l'.free[k] != s
    {
      assert l.owner[l.free[k]] == InFree(k) && l.owner[s] == InFree(|l.free| - 1);
    }
    FreeFrame(d.blocks, d'.blocks, ReadNext(d.blocks[s]), l'.free);
  }

  /** fs_open of a new name takes one block and adds an empty file; every other file stays as it is. */
  lemma CreatedFile(d: Disk, l: Layout, name: string)
    requires Inv(d, l) && l.free != [] && name != ""
    ensures Inv(Created(d, l, name), MoveTo(l, |l.chains|))
    ensures FilesOf(Created(d, l, name), MoveTo(l, |l.chains|)) == FilesOf(d, l) + [File(name, [])]
  {
    var d', l', s := Created(d, l, name), MoveTo(l, |l.chains|), Top(l);
    CreatedBase(d, l, name);
    SetIndexOk(d.blocks, s, BLOCK_INDEX_END);
    forall e | 0 <= e < |d.entries|
      ensures FileOk(d'.blocks, d'.entries[e], l'.chains[e]) && FileOf(d', l', e) == FileOf(d, l, e)
    {
      assert InRange(l.chains[e]) && FileOk(d.blocks, d.entries[e], l.chains[e]);
      forall k | 0 <= k < |l.chains[e]|
        ensures l.chains[e][k] != s
      {
        assert l.owner[l.chains[e][k]] == InFile(e, k) && l.owner[s] == InFree(|l.free| - 1);
      }
      FileFrame(d.blocks, d'.blocks, d.entries[e], l.chains[e]);
      ContentFrame(d.blocks, d'.blocks, l.chains[e], d.entries[e].size);
    }
  }

  // ----- writing

  lemma InvIsGrowing(d: Disk, l: Layout, e: nat)
    requires Inv(d, l) && e < |d.entries| && Live(d.entries[e])
    ensures Growing(d, l, e) && Ended(d.blocks, l.chains[e]) && |l.chains[e]| == Need(d.entries[e].size)
  {
    assert InRange(l.chains[e]) && FileOk(d.blocks, d.entries[e], l.chains[e]);
  }

  function Sized(d: Disk, e: nat, size: nat): Disk
    requires e < |d.entries|
  {
    d.(entries := d.entries[e := d.entries[e].(size := size)])
  }

  /** A chain that is ended and as long as the size asks for makes the state whole again. */
  lemma GrowingIsInv(d: Disk, l: Layout, e: nat)
    requires Growing(d, l, e) && Ended(d.blocks, l.chains[e]) && |l.chains[e]| == Need(d.entries[e].size)
    ensures Inv(d, l)
  {
  }

  lemma SizedGrowing(d: Disk, l: Layout, e: nat, size: nat)
    requires Growing(d, l, e)
    ensures Growing(Sized(d, e, size), l, e)
  {
  }

  lemma NeedAfterWrite(n: nat, end: nat)
    ensures Need(if end > n then end else n) == Need(n) + Lacking(n, end)
  {
  }

  /** The bytes of a chain with buf written over them from index on. */
  function Over(full: seq<byte>, index: nat, buf: seq<byte>): seq<byte>
    requires index + |buf| <= |full|
  {
    full[..index] + buf + full[index + |buf|..]
  }

  lemma OverIsPatch(full: seq<byte>, n: nat, index: nat, buf: seq<byte>)
    requires index <= n <= |full| && index + |buf| <= |full|
    ensures var size := if index + |buf| > n then index + |buf| else n;
      Over(full, index, buf)[..size] == Patch(full[..n], index, buf)
  {
    assert full[..n][..index] == full[..index];
  }

  lemma OverSnoc(full: seq<byte>, index: nat, buf: seq<byte>, j: nat)
    requires index + |buf| <= |full| && j < |buf|
    ensures Over(full, index, buf[..j])[index + j := buf[j]] == Over(full, index, buf[..j + 1])
  {
  }

  /**
   The end of a successful fs_write_at: the chain has been extended without changing a byte (d1), and the
   buffer copied over it (d2).
   */
  lemma WrittenFile(d: Disk, l: Layout, d1: Disk, l1: Layout, d2: Disk, e: nat, index: nat, buf: seq<byte>)
    requires Inv(d, l) && e < |d.entries| && index <= d.entries[e].size
    requires SameBytes(d, l, d1, l1)
    requires |l1.chains[e]| == Need(d.entries[e].size) + Lacking(d.entries[e].size, index + |buf|)
    requires d2.entries == d1.entries && index + |buf| <= BLOCK_DATA_SIZE * |l1.chains[e]|
    requires Full(d2.blocks, l1.chains[e]) == Over(Full(d1.blocks, l1.chains[e]), index, buf)
    requires forall f | 0 <= f < |d.entries| && f != e :: SameBytesIn(d1, l1, d2, l1, f)
    ensures var n := d.entries[e].size;
      var d3 := Sized(d2, e, if index + |buf| > n then index + |buf| else n);
      var was := FileOf(d, l, e);
      FilesOf(d3, l1) == FilesOf(d, l)[e := File(was.name, Patch(was.content, index, buf))]
  {
    var n := d.entries[e].size;
    var size := if index + |buf| > n then index + |buf| else n;
    var d3 := Sized(d2, e, size);
    SizeFits(d, l, e);
    assert SameBytesIn(d, l, d1, l1, e);
    ContentIsPrefix(d1.blocks, l1.chains[e], n);
    ContentIsPrefix(d2.blocks, l1.chains[e], size);
    OverIsPatch(Full(d1.blocks, l1.chains[e]), n, index, buf);
    forall f | 0 <= f < |d.entries| && f != e
      ensures FileOf(d3, l1, f) == FileOf(d, l, f)
    {
      SizeFits(d, l, f);
      assert SameBytesIn(d, l, d1, l1, f) && SameBytesIn(d1, l1, d2, l1, f);
    }
  }

  /**
   When blocks run out midway, the file's old last block has been linked on: no layout whatever makes the
   state a well-formed one again.
   */
  lemma RunOutBreaks(d: Disk, l: Layout, e: nat, d': Disk, l': Layout)
    requires Inv(d, l) && e < |d.entries| && Live(d.entries[e]) && d'.entries == d.entries
    requires |d'.blocks| == SLOTS && d'.blocks[LastOf(l, e)].index != BLOCK_INDEX_END
    requires forall k | 0 <= k < |l.chains[e]| - 1 :: d'.blocks[l.chains[e][k]].index == d.blocks[l.chains[e][k]].index
    ensures !Inv(d', l')
  {
    if Inv(d', l') {
      InvIsGrowing(d, l, e);
      InvIsGrowing(d', l', e);
      SameWay(d.blocks, d'.blocks, l.chains[e], l'.chains[e], |l.chains[e]| - 1);
    }
  }

  /** Following the same index fields from the same block leads through the same blocks. */
  lemma {:induction false} SameWay(bs: seq<Block>, bs': seq<Block>, c: seq<nat>, c': seq<nat>, k: nat)
    requires BlocksOk(bs) && BlocksOk(bs') && InRange(c) && InRange(c') && Linked(bs, c) && Linked(bs', c')
    requires k < |c| == |c'| && c[0] == c'[0]
    requires forall j | 0 <= j < k :: bs'[c[j]].index == bs[c[j]].index
    ensures c'[k] == c[k]
  {
    if k > 0 {
      SameWay(bs, bs', c, c', k - 1);
      assert ChainLink(bs, c, k - 1) && ChainLink(bs', c', k - 1);
    }
  }

  // ----- renaming and deleting

  lemma RenamedFile(d: Disk, l: Layout, e: nat, name: string)
    requires Inv(d, l) && e < |d.entries| && Live(d.entries[e]) && name != ""
    ensures var d' := d.(entries := d.entries[e := d.entries[e].(name := name)]);
      && Inv(d', l)
      && FilesOf(d', l) == FilesOf(d, l)[e := FilesOf(d, l)[e].(name := name)]
  {
    var d' := d.(entries := d.entries[e := d.entries[e].(name := name)]);
    forall f | 0 <= f < |d.entries|
      ensures FileOk(d'.blocks, d'.entries[f], l.chains[f])
    {
      assert InRange(l.chains[f]) && FileOk(d.blocks, d.entries[f], l.chains[f]);
    }
  }

  lemma DeletedFile(d: Disk, l: Layout, e: nat)
    requires Inv(d, l) && e < |d.entries|
    ensures var d' := d.(entries := d.entries[e := FileEntry("", 0, 0)]);
      && Inv(d', l)
      && FilesOf(d', l) == FilesOf(d, l)[e := File("", [])]
  {
    var d' := d.(entries := d.entries[e := FileEntry("", 0, 0)]);
    forall f | 0 <= f < |d.entries|
      ensures FileOk(d'.blocks, d'.entries[f], l.chains[f])
    {
      assert InRange(l.chains[f]) && FileOk(d.blocks, d.entries[f], l.chains[f]);
    }
  }

  /**
   The one way in which fs_delete of a longer file comes to an end: nothing was free, so the link written
   into the first block reads as block number 0, and block 0, another block, is marked as an end. The first
   block is freed and the others are lost.
   */
  function FirstFreed(l: Layout, e: nat): Layout
    requires e < |l.chains| && 1 < |l.chains[e]| && |l.owner| == SLOTS
  {
    var c := l.chains[e];
    Layout(l.chains[e := c[1..]], [c[0]],
           seq(SLOTS, s requires 0 <= s < SLOTS =>
             if s == c[0] then InFree(0)
             else if l.owner[s].InFile? && l.owner[s].e == e && l.owner[s].k > 0 then InFile(e, l.owner[s].k - 1)
             else l.owner[s]))
  }

  lemma FirstFreedOk(l: Layout, e: nat)
    requires LayoutOk(l) && e < |l.chains| && 1 < |l.chains[e]| && l.free == []
    ensures LayoutOk(FirstFreed(l, e))
  {
    var l', c := FirstFreed(l, e), l.chains[e];
    forall s | 0 <= s < SLOTS
      ensures Placed(l', s)
    {
      assert Placed(l, s);
    }
    forall f, k | 0 <= f < |l'.chains| && 0 <= k < |l'.chains[f]|
      ensures l'.chains[f][k] < SLOTS && l'.owner[l'.chains[f][k]] == InFile(f, k)
    {
      var j := if f == e then k + 1 else k;
      assert l'.chains[f][k] == l.chains[f][j] && l.owner[l.chains[f][j]] == InFile(f, j);
      assert l.owner[c[0]] == InFile(e, 0);
    }
  }

  lemma FirstFreedFile(d: Disk, l: Layout, e: nat)
    requires Inv(d, l) && e < |d.entries| && 1 < |l.chains[e]| && l.free == []
    ensures var s := l.chains[e][0];
      s < SLOTS && BlockOk(d.blocks[s]) &&
      var d' := Disk(d.blocks[s := WriteNext(d.blocks[s], 0)], SlotAddr(s), d.entries[e := FileEntry("", 0, 0)]);
      && Inv(d', FirstFreed(l, e))
      && FilesOf(d', FirstFreed(l, e)) == FilesOf(d, l)[e := File("", [])]
  {
    var s := l.chains[e][0];
    assert InRange(l.chains[e]);
    NextRoundTrip(d.blocks[s], 0);
    var d' := Disk(d.blocks[s := WriteNext(d.blocks[s], 0)], SlotAddr(s), d.entries[e := FileEntry("", 0, 0)]);
    hide LayoutOk, FirstFreed, FreeListOk, WriteNext, ReadNext;
    FirstFreedBase(d, l, e);
    forall f | 0 <= f < |d.entries|
      ensures FileOk(d'.blocks, d'.entries[f], FirstFreed(l, e).chains[f])
      ensures f != e ==> FileOf(d', FirstFreed(l, e), f) == FileOf(d, l, f)
    {
      FirstFreedEntry(d, l, e, f, d'.blocks[s]);
    }
  }

  lemma FirstFreedBase(d: Disk, l: Layout, e: nat)
    requires Inv(d, l) && e < |d.entries| && 1 < |l.chains[e]| && l.free == []
    ensures var s, l' := l.chains[e][0], FirstFreed(l, e);
      && |l'.chains| == |l.chains| && l'.chains[e] == l.chains[e][1..] && l'.free == [s]
      && s < SLOTS && BlockOk(d.blocks[s])
      && BaseOk(Disk(d.blocks[s := WriteNext(d.blocks[s], 0)], SlotAddr(s), d.entries[e := FileEntry("", 0, 0)]), l')
  {
    var s := l.chains[e][0];
    assert InRange(l.chains[e]);
    NextRoundTrip(d.blocks[s], 0);
    FirstFreedOk(l, e);
    assert FreeLink(d.blocks[s := WriteNext(d.blocks[s], 0)], [s], 0);
    assert forall f | 0 <= f < |l.chains| :: InRange(l.chains[f]);
  }

  lemma FirstFreedEntry(d: Disk, l: Layout, e: nat, f: nat, b: Block)
    requires Inv(d, l) && e < |d.entries| && 1 < |l.chains[e]| && f < |d.entries| && BlockOk(b)
    requires l.chains[e][0] < SLOTS && BlocksOk(d.blocks[l.chains[e][0] := b])
    ensures var bs, l' := d.blocks[l.chains[e][0] := b], FirstFreed(l, e);
      && |l'.chains| == |l.chains| && InRange(l'.chains[f])
      && FileOk(bs, if f == e then FileEntry("", 0, 0) else d.entries[f], l'.chains[f])
      && (f != e ==>
            && l'.chains[f] == l.chains[f]
            && Content(bs, l.chains[f], d.entries[f].size) == Content(d.blocks, l.chains[f], d.entries[f].size))
  {
    hide FreeListOk;
    var bs := d.blocks[l.chains[e][0] := b];
    assert InRange(l.chains[f]) && FileOk(d.blocks, d.entries[f], l.chains[f]);
    PlacesDiffer(l, e, 0, l.chains[e][0]);
    if f != e {
      FileFrame(d.blocks, bs, d.entries[f], l.chains[f]);
      ContentFrame(d.blocks, bs, l.chains[f], d.entries[f].size);
    }
  }

  // ----- conservation and capacity

  function Total(cs: seq<seq<nat>>): nat {
    if cs == [] then 0 else Total(cs[..|cs| - 1]) + |cs[|cs| - 1]|
  }

  ghost function Elements(s: seq<nat>): set<nat> {
    set x | x in s
  }

  lemma {:induction false} DistinctSize(s: seq<nat>)
    requires forall i, j | 0 <= i < j < |s| :: s[i] != s[j]
    ensures |Elements(s)| == |s|
  {
    if s != [] {
      var init, x := s[..|s| - 1], s[|s| - 1];
      DistinctSize(init);
      assert x !in init;
      assert Elements(s) == Elements(init) + {x};
    }
  }

  ghost function AllSlots(n: nat): (r: set<nat>)
    ensures forall s: int :: s in r <==> 0 <= s < n
  {
    if n == 0 then {} else AllSlots(n - 1) + {n - 1}
  }

  lemma {:induction false} AllSlotsSize(n: nat)
    ensures |AllSlots(n)| == n
  {
    if n > 0 {
      AllSlotsSize(n - 1);
    }
  }

  ghost function ChainedSlots(l: Layout, n: nat): set<nat>
    requires |l.owner| == SLOTS
  {
    set s | 0 <= s < SLOTS && l.owner[s].InFile? && l.owner[s].e < n
  }

  lemma {:induction false} ChainedSize(l: Layout, n: nat)
    requires LayoutOk(l) && n <= |l.chains|
    ensures |ChainedSlots(l, n)| == Total(l.chains[..n])
  {
    if n > 0 {
      ChainedSize(l, n - 1);
      var c := l.chains[n - 1];
      assert l.chains[..n][..n - 1] == l.chains[..n - 1];
      forall i, j | 0 <= i < j < |c|
        ensures c[i] != c[j]
      {
        assert l.owner[c[i]] == InFile(n - 1, i) && l.owner[c[j]] == InFile(n - 1, j);
      }
      DistinctSize(c);
      ChainElements(l, n - 1);
      assert ChainedSlots(l, n) == ChainedSlots(l, n - 1) + Elements(c);
    } else {
      assert ChainedSlots(l, 0) == {};
    }
  }

  lemma ChainElements(l: Layout, e: nat)
    requires LayoutOk(l) && e < |l.chains|
    ensures forall s :: s in Elements(l.chains[e]) <==> 0 <= s < SLOTS && l.owner[s].InFile? && l.owner[s].e == e
  {
    forall s | 0 <= s < SLOTS && l.owner[s].InFile? && l.owner[s].e == e
      ensures s in l.chains[e]
    {
      assert Placed(l, s);
    }
  }

  /** Free, chained and leaked blocks together are always the 129 blocks. */
  lemma BlocksConserved(l: Layout)
    requires LayoutOk(l)
    ensures Total(l.chains) + |l.free| == 129
  {
    hide AllSlots;
    ChainedSize(l, |l.chains|);
    assert l.chains[..|l.chains|] == l.chains;
    forall i, j | 0 <= i < j < |l.free|
      ensures l.free[i] != l.free[j]
    {
      assert l.owner[l.free[i]] == InFree(i) && l.owner[l.free[j]] == InFree(j);
    }
    DistinctSize(l.free);
    AllSlotsSize(SLOTS);
    forall s | 0 <= s < SLOTS
      ensures s in ChainedSlots(l, |l.chains|) || s in Elements(l.free)
    {
      assert Placed(l, s);
    }
    assert AllSlots(SLOTS) == ChainedSlots(l, |l.chains|) + Elements(l.free);
    assert ChainedSlots(l, |l.chains|) !! Elements(l.free);
  }

  function TotalSize(files: seq<File>): nat {
    if files == [] then 0 else TotalSize(files[..|files| - 1]) + |files[|files| - 1].content|
  }

  lemma {:induction false} SizesBounded(d: Disk, l: Layout, n: nat)
    requires Inv(d, l) && n <= |d.entries|
    ensures TotalSize(FilesOf(d, l)[..n]) <= BLOCK_DATA_SIZE * Total(l.chains[..n])
    ensures n <= Total(l.chains[..n])
  {
    if n > 0 {
      SizesBounded(d, l, n - 1);
      SizeFits(d, l, n - 1);
      assert FilesOf(d, l)[..n][..n - 1] == FilesOf(d, l)[..n - 1];
      assert l.chains[..n][..n - 1] == l.chains[..n - 1];
      assert InRange(l.chains[n - 1]) && FileOk(d.blocks, d.entries[n - 1], l.chains[n - 1]);
    }
  }

  /**
   In every well-formed state the files together hold at most 129 * 124 bytes, and at most 129 entries have
   ever been made, so the table of 256 entries is never full.
   */
  lemma Capacity(d: Disk, l: Layout)
    requires Inv(d, l)
    ensures TotalSize(FilesOf(d, l)) <= 124 * (129 - |l.free|)
    ensures |d.entries| + |l.free| <= 129 < MAX_FILES == 256
  {
    var n := |d.entries|;
    SizesBounded(d, l, n);
    assert FilesOf(d, l)[..n] == FilesOf(d, l) && l.chains[..n] == l.chains;
    BlocksConserved(l);
  }
}
