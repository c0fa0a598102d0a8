/**
 kernel/fs.c in its own form: block contents, free_list and the file table are updated in place, and each
 operation is proved against the operation of the same name in FileModel.
 */
module FileSystem {
  import opened Common
  import opened Blocks
  import opened Disk
  import opened DiskSteps
  import opened DiskFiles
  import Model = FileModel
  import FileLaws
  import opened FdTable

  function Min(a: nat, b: nat): nat {
    if a > b then b else a
  }

  class FileSys {
    const blocks: array<Block>       // the block at the start of each of the 129 pages
    const entries: array<FileEntry>
    const fds: FdList
    var freeList: nat                // an address; 0 is NULL
    var nextEntry: nat
    ghost var layout: Layout

    ghost predicate Shape()
      reads this, fds, fds.nodes
    {
      && blocks.Length == SLOTS && entries.Length == Model.MAX_FILES && nextEntry <= entries.Length
      && fds.Valid()
    }

    ghost function State(): Disk
      requires nextEntry <= entries.Length
      reads this, blocks, entries
    {
      Disk(blocks[..], freeList, entries[..nextEntry])
    }

    ghost predicate Valid()
      reads this, blocks, entries, fds, fds.nodes
    {
      && Shape() && |layout.chains| == nextEntry
      && Inv(State(), layout)
      && Model.FdsOk(Abs())
    }

    /** The files, descriptors and free space that the state stands for. */
    ghost function Abs(): Model.Fs
      requires nextEntry <= entries.Length && |layout.chains| == nextEntry
      reads this, blocks, entries, fds
    {
      Model.Fs(FilesOf(State(), layout), fds.View(), fds.nextFd, |layout.free|)
    }

    /** fs_init, over blocks that hold anything at all. */
    constructor (memory: seq<Block>)
      requires BlocksOk(memory)
      ensures Valid() && fresh(blocks) && fresh(entries) && fresh(fds) && fds.nodes == []
      ensures Abs() == Model.Fs([], map[], 0, SLOTS)
      ensures layout.chains == [] && |layout.free| == SLOTS && forall k | 0 <= k < SLOTS :: layout.free[k] == k
    {
      blocks := new Block[SLOTS](i requires 0 <= i < SLOTS => memory[i]);
      entries := new FileEntry[Model.MAX_FILES](_ => FileEntry("", 0, 0));
      fds := new FdList();
      freeList, nextEntry := 0, 0;
      layout := Layout([], [], []);
      new;
      LinkAllBlocks();
      assert State().entries == [] && FilesOf(State(), layout) == [];
    }

    /** The loop of fs_init. */
    method LinkAllBlocks()
      requires Shape() && BlocksOk(blocks[..]) && freeList == 0
      modifies this`freeList, this`layout, blocks
      ensures BaseOk(Disk(blocks[..], freeList, []), layout)
      ensures layout.chains == [] && |layout.free| == SLOTS && forall k | 0 <= k < SLOTS :: layout.free[k] == k
    {
      var i := 0;
      ghost var free: seq<nat> := [];
      while i < SLOTS
        invariant 0 <= i <= SLOTS && Shape()
        invariant BlocksOk(blocks[..])
        invariant |free| == i && forall k | 0 <= k < i :: free[k] == k
        invariant FreeListOk(blocks[..], freeList, free)
      {
        hide FreeListOk;
        ghost var was := blocks[..];
        HeadIsPointer(freeList, free, was);
        assert BlockOk(was[i]);
        NextRoundTrip(blocks[i], freeList);
        blocks[i] := WriteNext(blocks[i], freeList);
        assert blocks[..] == was[i := blocks[i]];
        FreePush(was, freeList, free, i, blocks[..]);
        freeList := SlotAddr(i);
        free := free + [i];
        i := i + 1;
      }
      layout := AllFree(free);
    }

    /** The slot of the block that an address points to. */
    function SlotOf(addr: nat): int {
      (addr - START_ADDR) / STRIDE
    }

    method FsOpen(name: string) returns (fd: int)
      requires Valid() && 0 < |name| < 32
      modifies this, entries, blocks, fds
      ensures Valid()
      ensures Abs() == Model.Open(old(Abs()), name).0 && fd == Model.Open(old(Abs()), name).1
      ensures nextEntry == old(nextEntry) ==> layout == old(layout)
      ensures nextEntry != old(nextEntry) ==> TookHead(old(layout), layout)
      ensures fd >= 0 <==> FileLaws.Exists(old(Abs()).files, name) || old(Abs()).room > 0
      ensures forall n | n in fds.nodes :: n in old(fds.nodes) || fresh(n)
    {
      OpenLaw(State(), layout, Abs(), name);
      FreeIsNull(State(), layout);
      hide Inv, FileLaws.Exists, Holds, NodesLinked, Decreasing, TookHead;
      fd := -1;
      if nextEntry < Model.MAX_FILES {
        var i := FindEntry(name);
        if i < nextEntry {
          fd := OpenEntry(i);
        } else if freeList != 0 {
          AddEntry(name);
          fd := OpenEntry(nextEntry - 1);
        }
      }
    }

    /** The search for a name in the file table, as in fs_open and fs_rename. */
    method FindEntry(name: string) returns (i: nat)
      requires Shape() && |layout.chains| == nextEntry
      ensures i == Model.Find(Abs().files, name) <= nextEntry
      ensures i < nextEntry ==> entries[i].name == name
    {
      i := 0;
      while i < nextEntry
        invariant i <= nextEntry
        invariant forall j | 0 <= j < i :: entries[j].name != name
      {
        if entries[i].name == name {
          break;
        }
        i := i + 1;
      }
      FoundEntry(State(), layout, name, i);
    }

    /** create_fd on an entry of the table. */
    method OpenEntry(i: nat) returns (fd: int)
      requires Valid() && i < nextEntry
      modifies fds
      ensures Valid()
      ensures Abs() == Model.OpenEntry(old(Abs()), i).0 && fd == Model.OpenEntry(old(Abs()), i).1
      ensures forall n | n in fds.nodes :: n in old(fds.nodes) || fresh(n)
    {
      hide Inv, Decreasing, ViewOf;
      fd := fds.Create(i);
      assert State() == old(State());
      assert forall n | n in fds.nodes :: n == fds.nodes[0] || n in fds.nodes[1..];
    }

    /** The part of fs_open that fills in a new entry and takes a block for it. */
    method AddEntry(name: string)
      requires Valid() && name != "" && nextEntry < Model.MAX_FILES && layout.free != []
      modifies this, entries, blocks
      ensures Valid() && nextEntry == old(nextEntry) + 1 && TookHead(old(layout), layout)
      ensures Abs() == old(Abs()).(files := old(Abs()).files + [Model.File(name, [])], room := old(Abs()).room - 1)
    {
      ghost var d, l := State(), layout;
      HeadSlot(d, l);
      var s := SlotOf(freeList);
      entries[nextEntry] := FileEntry(name, IndexOf(freeList), 0);
      freeList := ReadNext(blocks[s]);
      blocks[s] := blocks[s].(index := BLOCK_INDEX_END);
      nextEntry := nextEntry + 1;
      layout := MoveTo(l, |l.chains|);
      CreatedFile(d, l, name);
      assert blocks[..] == SetIndex(d.blocks, s, BLOCK_INDEX_END);
      assert entries[..nextEntry] == d.entries + [FileEntry(name, SlotIndex(s), 0)];
      assert State() == Created(d, l, name);
    }

    // ----- writing

    /** Follows the index fields of file e to its last block. */
    method LastBlock(e: nat) returns (s: nat)
      requires Shape() && e < nextEntry && Growing(State(), layout, e) && Ended(blocks[..], layout.chains[e])
      ensures s == LastOf(layout, e)
    {
      ghost var c := layout.chains[e];
      assert InRange(c);
      s := entries[e].start / 32;
      SlotArithmetic(c[0]);
      ghost var k := 0;
      while blocks[s].index != BLOCK_INDEX_END
        invariant 0 <= k < |c| && s == c[k]
        decreases |c| - k
      {
        assert k < |c| - 1 && ChainLink(blocks[..], c, k);
        SlotArithmetic(c[k + 1]);
        s := blocks[s].index / 32;
        k := k + 1;
      }
      if k < |c| - 1 {
        assert ChainLink(blocks[..], c, k);
        SlotArithmetic(c[k + 1]);
      }
    }

    /** One turn of the allocation loop: the head of the free list is linked behind the block at last. */
    method AttachBlock(ghost e: nat, last: nat) returns (s: nat)
      requires Shape() && e < nextEntry && Growing(State(), layout, e) && layout.free != []
      requires last == LastOf(layout, e)
      modifies this`freeList, this`layout, blocks
      ensures Growing(State(), layout, e)
      ensures State() == Attach(old(State()), old(layout), e) && layout == MoveTo(old(layout), e)
      ensures s == LastOf(layout, e)
    {
      hide Growing, BaseOk, BlocksOk, ReadNext, IndexOf;
      ghost var d, l := State(), layout;
      AttachKeeps(d, l, e);
      AttachFacts(d, l, e);
      s := SlotOf(freeList);
      var index := IndexOf(freeList);
      freeList := ReadNext(blocks[s]);
      blocks[last] := blocks[last].(index := index);
      layout := MoveTo(l, e);
      assert blocks[..] == SetIndex(d.blocks, last, SlotIndex(s));
    }

    /**
     The allocation part of fs_write_at. It succeeds exactly when enough blocks are free; when none is, it
     changes nothing; when some are but not enough, it leaves the chain without its end.
     */
    method ExtendChain(e: nat, n: nat) returns (ok: bool)
      requires Shape() && e < nextEntry && Growing(State(), layout, e) && Ended(blocks[..], layout.chains[e]) && 0 < n
      modifies this`freeList, this`layout, blocks
      ensures ok <==> n <= |old(layout).free|
      ensures ok ==>
        && Growing(State(), layout, e) && Ended(blocks[..], layout.chains[e])
        && |layout.chains[e]| == |old(layout).chains[e]| + n && |layout.free| == |old(layout).free| - n
        && SameBytes(old(State()), old(layout), State(), layout) && Lengthened(old(layout), layout, e)
      ensures !ok && old(layout).free == [] ==> State() == old(State()) && layout == old(layout)
      ensures !ok && old(layout).free != [] ==> Unended(old(State()), old(layout), e, blocks[..])
    {
      hide Growing, Ended, SameBytes, LayoutOk, FreeListOk, BlocksOk, Unended, Attach, MoveTo, Finish, LastOf,
        Lengthened;
      ghost var d, l := State(), layout;
      GrowingBase(d, l, e);
      var curr := LastBlock(e);
      ExtendedRefl(d, l, e);
      var i := 0;
      while i < n
        invariant 0 <= i <= n && BaseOk(State(), layout) && e < |layout.chains| && layout.chains[e] != []
        invariant Growing(State(), layout, e) && curr == LastOf(layout, e)
        invariant Extended(d, l, State(), layout, e, i)
        invariant i == 0 ==> State() == d && layout == l
        invariant 0 < i == n ==> Ended(blocks[..], layout.chains[e])
      {
        NullIsEmpty(State(), layout);
        if freeList == 0 {
          if i > 0 {
            ExtendedIsUnended(d, l, State(), layout, e, i);
          }
          return false;
        }
        ExtendedStep(d, l, State(), layout, e, i);
        curr := AttachBlock(e, curr);
        if i == n - 1 {
          MarkEnd(e, curr);
        }
        GrowingBase(State(), layout, e);
        i := i + 1;
      }
      ok := true;
    }

    method MarkEnd(ghost e: nat, last: nat)
      requires Shape() && e < nextEntry && Growing(State(), layout, e) && last == LastOf(layout, e)
      modifies blocks
      ensures State() == Finish(old(State()), layout, e)
      ensures Growing(State(), layout, e) && Ended(blocks[..], layout.chains[e])
      ensures last < blocks.Length && blocks[last].index == 0xFFFF_FFFF
    {
      hide Growing, Linked, FileOk;
      ghost var d := State();
      FinishKeeps(d, layout, e);
      AttachRange(d, layout, e);
      blocks[last] := blocks[last].(index := BLOCK_INDEX_END);
      assert blocks[..] == SetIndex(d.blocks, last, BLOCK_INDEX_END);
    }

    /** Follows n index fields of file e; past the last block there is only the end marker. */
    method SeekBlock(e: nat, n: nat) returns (curr: nat)
      requires Shape() && e < nextEntry && Growing(State(), layout, e) && Ended(blocks[..], layout.chains[e])
      requires n <= |layout.chains[e]|
      ensures curr == BlockNumber(layout.chains[e], n)
    {
      ghost var c := layout.chains[e];
      assert InRange(c);
      curr := entries[e].start;
      var i := 0;
      while i < n
        invariant 0 <= i <= n && curr == BlockNumber(c, i)
      {
        NextNumber(blocks[..], c, i);
        curr := blocks[curr / 32].index;
        i := i + 1;
      }
    }

    /** The copy loop of fs_write_at, from block k of the file (number first) and byte start of it on. */
    method CopyBytes(ghost e: nat, ghost k: nat, first: nat, start: nat, buf: seq<byte>)
      requires Shape() && e < nextEntry && Growing(State(), layout, e) && Ended(blocks[..], layout.chains[e])
      requires k <= |layout.chains[e]| && first == BlockNumber(layout.chains[e], k) && start < BLOCK_DATA_SIZE
      requires BLOCK_DATA_SIZE * k + start + |buf| <= BLOCK_DATA_SIZE * |layout.chains[e]|
      modifies blocks
      ensures Growing(State(), layout, e) && Ended(blocks[..], layout.chains[e])
      ensures Full(blocks[..], layout.chains[e]) ==
              Over(old(Full(blocks[..], layout.chains[e])), BLOCK_DATA_SIZE * k + start, buf)
      ensures OthersSame(old(State()), State(), layout, e)
    {
      ghost var d, c := State(), layout.chains[e];
      ghost var full, index := Full(d.blocks, c), BLOCK_DATA_SIZE * k + start;
      FullLength(d.blocks, c);
      hide Growing, Linked, Ended, BlocksOk, Full, Over, OthersSame, BlockNumber, InRange, CopyState, SetByte,
        LayoutOk, FreeListOk, FileOk, SameBytesIn, Decreasing, NodesLinked, Holds;
      var j, curr, point := 0, first, start;
      ghost var at: nat := k;
      CopyStart(d, layout, e, full, index);
      while j < |buf|
        invariant 0 <= j <= |buf| && BLOCK_DATA_SIZE * at + point == index + j && 0 <= point <= BLOCK_DATA_SIZE
        invariant at <= |c| && curr == BlockNumber(c, at)
        invariant CopyState(d, State(), layout, e, full, index, buf[..j])
      {
        if point == BLOCK_DATA_SIZE {
          CopyNext(d, State(), layout, e, full, index, buf[..j], at);
          curr := blocks[curr / 32].index;
          point := 0;
          at := at + 1;
        }
        CopyByte(d, e, full, index, buf, j, at, curr, point);
        point := point + 1;
        j := j + 1;
      }
      assert buf[..j] == buf;
      CopyEnd(d, State(), layout, e, full, index, buf);
    }

    /** One turn of the copy loop. */
    method CopyByte(ghost d: Disk, ghost e: nat, ghost full: seq<byte>, ghost index: nat, buf: seq<byte>, j: nat,
                    ghost at: nat, curr: nat, point: nat)
      requires Shape() && e < |layout.chains| && j < |buf| && CopyState(d, State(), layout, e, full, index, buf[..j])
      requires index + |buf| <= |full| && at < |layout.chains[e]| && curr == BlockNumber(layout.chains[e], at)
      requires point < BLOCK_DATA_SIZE && BLOCK_DATA_SIZE * at + point == index + j
      modifies blocks
      ensures CopyState(d, State(), layout, e, full, index, buf[..j + 1])
    {
      hide CopyState, SetByte, BlockNumber, NodesLinked, Holds, Decreasing;
      CopyNext(d, State(), layout, e, full, index, buf[..j], at);
      CopyOne(d, State(), layout, e, full, index, buf, j, at, point);
      StoreByte(curr / 32, point, buf[j]);
    }

    /** memcpy of one byte */
    method StoreByte(s: nat, i: nat, b: byte)
      requires s < blocks.Length && i < |blocks[s].data|
      modifies blocks
      ensures blocks[..] == SetByte(old(blocks[..]), s, i, b)
    {
      blocks[s] := blocks[s].(data := blocks[s].data[i := b]);
    }

    method FsWriteAt(fd: int, index: nat, buf: seq<byte>) returns (ok: bool)
      requires Valid() && !Model.Stale(Abs(), fd) && |buf| <= Model.MAX_WRITE
      modifies this`freeList, this`layout, blocks, entries
      ensures Model.RunsOut(old(Abs()), fd, index, buf) ==>
                !ok && forall l: Layout :: !Inv(State(), l)
      ensures !Model.RunsOut(old(Abs()), fd, index, buf) ==>
                && Valid()
                && Abs() == Model.WriteAt(old(Abs()), fd, index, buf).0
                && ok == Model.WriteAt(old(Abs()), fd, index, buf).1
                && (fd in fds.View() ==> Lengthened(old(layout), layout, fds.View()[fd]))
      ensures ok <==> FileLaws.CanWrite(old(Abs()), fd, index, |buf|)
      ensures !ok && !Model.RunsOut(old(Abs()), fd, index, buf) ==> Abs() == old(Abs())
    {
      ghost var fs := Abs();
      FileLaws.WriteSucceeds(fs, fd, index, buf);
      WriteRefused(fs, fd, index, buf);
      hide Lengthened, FileLaws.CanWrite, Holds, NodesLinked, Decreasing, ViewOf, Model.WriteAt, Model.RunsOut, Inv;
      ok := false;
      var r := fds.Find(fd);
      if r.Some? && index <= entries[r.value].size {
        ok := WriteFile(fd, r.value, index, buf);
      } else if r.Some? {
        LengthenedRefl(layout, r.value);
      }
    }

    /** fs_write_at once the entry is known and the index lies inside the file, in terms of the model. */
    method WriteFile(ghost fd: int, e: nat, index: nat, buf: seq<byte>) returns (ok: bool)
      requires Valid() && !Model.Stale(Abs(), fd) && fd in fds.View() && e == fds.View()[fd]
      requires index <= entries[e].size && |buf| <= Model.MAX_WRITE
      modifies this`freeList, this`layout, blocks, entries
      ensures Model.RunsOut(old(Abs()), fd, index, buf) ==>
                !ok && forall l: Layout :: !Inv(State(), l)
      ensures !Model.RunsOut(old(Abs()), fd, index, buf) ==>
                && Valid() && (Abs(), ok) == Model.WriteAt(old(Abs()), fd, index, buf)
                && Lengthened(old(layout), layout, e)
    {
      ghost var fs := Abs();
      hide Lengthened, Holds, NodesLinked, Decreasing, ViewOf, Model.WriteAt, Model.RunsOut, Inv;
      LengthenedRefl(layout, e);
      ok := WriteEntry(e, index, buf);
      if ok || fs.room == 0 {
        WriteDone(fs, Abs(), fd, index, buf, ok);
      } else {
        WriteRanOut(fs, fd, index, buf);
      }
    }

    /** fs_write_at once the entry is known and the index lies inside the file. */
    method WriteEntry(e: nat, index: nat, buf: seq<byte>) returns (ok: bool)
      requires Valid() && e < nextEntry && Live(entries[e]) && index <= entries[e].size && |buf| <= Model.MAX_WRITE
      modifies this`freeList, this`layout, blocks, entries
      ensures ok <==> Model.Lacking(old(entries[e].size), index + |buf|) <= |old(layout).free|
      ensures !ok && old(layout).free != [] ==> forall l: Layout :: !Inv(State(), l)
      ensures !ok && old(layout).free == [] ==> State() == old(State()) && layout == old(layout)
      ensures ok ==>
        && Inv(State(), layout)
        && |layout.free| == |old(layout).free| - Model.Lacking(old(entries[e].size), index + |buf|)
        && FilesOf(State(), layout) == Written(old(State()), old(layout), e, index, buf)
        && Lengthened(old(layout), layout, e)
    {
      hide Inv, Growing, Ended, SameBytes, OthersSame, Unended, Full, FilesOf, Written, Lengthened, AsInt32,
        BlockNumber, NodesLinked, Holds, Decreasing;
      ghost var d, l := State(), layout;
      var size := entries[e].size;
      WriteStart(d, l, e, index, buf);
      LengthenedRefl(l, e);
      var numBlocks := AsInt32(Max(1, (size + BLOCK_DATA_SIZE - 1) / BLOCK_DATA_SIZE));
      var blocksNeeded := AsInt32((index + |buf| + BLOCK_DATA_SIZE - 1) / BLOCK_DATA_SIZE);
      if blocksNeeded > numBlocks {
        ok := ExtendChain(e, blocksNeeded - numBlocks);
        if !ok {
          if l.free != [] {
            forall l': Layout
              ensures !Inv(State(), l')
            {
              UnendedBreaks(d, l, e, State(), l');
            }
          }
          return false;
        }
      }
      ghost var d1, l1 := State(), layout;
      assert SameBytes(d, l, d1, l1);
      EnoughBlocks(size, index, buf);
      GrowingBase(d1, l1, e);
      var first := SeekBlock(e, index / BLOCK_DATA_SIZE);
      SizedGrowing(d1, l1, e, Max(index + |buf|, size));
      entries[e] := entries[e].(size := Max(index + |buf|, size));
      assert State() == Sized(d1, e, Max(index + |buf|, size));
      CopyBytes(e, index / BLOCK_DATA_SIZE, first, index % BLOCK_DATA_SIZE, buf);
      WriteEnd(d, l, d1, l1, State(), e, index, buf);
      ok := true;
    }

    method FsWrite(fd: int, buf: seq<byte>) returns (ok: bool)
      requires Valid() && !Model.Stale(Abs(), fd) && |buf| <= Model.MAX_WRITE
      modifies this`freeList, this`layout, blocks, entries
      ensures Model.RunsOut(old(Abs()), fd, 0, buf) ==> !ok && forall l: Layout :: !Inv(State(), l)
      ensures !Model.RunsOut(old(Abs()), fd, 0, buf) ==>
                && Valid()
                && Abs() == Model.WriteAt(old(Abs()), fd, 0, buf).0 && ok == Model.WriteAt(old(Abs()), fd, 0, buf).1
      ensures ok <==> FileLaws.CanWrite(old(Abs()), fd, 0, |buf|)
      ensures !ok && !Model.RunsOut(old(Abs()), fd, 0, buf) ==> Abs() == old(Abs())
    {
      hide FileLaws.CanWrite;
      ok := FsWriteAt(fd, 0, buf);
    }

    method FsAppend(fd: int, buf: seq<byte>) returns (ok: bool)
      requires Valid() && !Model.Stale(Abs(), fd) && |buf| <= Model.MAX_WRITE
      modifies this`freeList, this`layout, blocks, entries
      ensures Model.RunsOut(old(Abs()), fd, Model.SizeOf(old(Abs()), fd), buf) ==>
                !ok && forall l: Layout :: !Inv(State(), l)
      ensures !Model.RunsOut(old(Abs()), fd, Model.SizeOf(old(Abs()), fd), buf) ==>
                Valid() && Abs() == Model.Append(old(Abs()), fd, buf).0 && ok == Model.Append(old(Abs()), fd, buf).1
      ensures ok <==> FileLaws.CanWrite(old(Abs()), fd, Model.SizeOf(old(Abs()), fd), |buf|)
      ensures !ok && !Model.RunsOut(old(Abs()), fd, Model.SizeOf(old(Abs()), fd), buf) ==> Abs() == old(Abs())
    {
      var r := fds.Find(fd);
      if r.None? {
        return false;
      }
      ok := FsWriteAt(fd, entries[r.value].size, buf);
    }

    // ----- reading

    /** What fs_read prints; None stands for its warning. */
    method FsRead(fd: int) returns (out: Option<seq<byte>>)
      requires Valid() && !Model.Stale(Abs(), fd)
      ensures out == Model.Read(Abs(), fd)
    {
      var r := fds.Find(fd);
      if r.None? {
        return None;
      }
      var text := ReadEntry(r.value);
      out := Some(text);
    }

    /** The two loops of fs_read; the remaining size is a 64-bit unsigned number. */
    method ReadEntry(e: nat) returns (text: seq<byte>)
      requires Valid() && e < nextEntry && Live(entries[e])
      ensures text == Content(blocks[..], layout.chains[e], entries[e].size)
    {
      hide LayoutOk, FreeListOk, FileOk, Model.FdsOk;
      ghost var bs, c, size := blocks[..], layout.chains[e], entries[e].size;
      InvIsGrowing(State(), layout, e);
      SizeFits(State(), layout, e);
      ChainFacts(State(), layout, e);
      var total := entries[e].size;
      var curr := entries[e].start;
      ghost var k := 0;
      text := [];
      while true
        invariant 0 <= k < |c| && curr == BlockNumber(c, k)
        invariant total == size - BLOCK_DATA_SIZE * k && 0 <= total
        invariant text == Content(bs, c, BLOCK_DATA_SIZE * k)
        decreases |c| - k
      {
        hide Linked, Ended, BlocksOk;
        NextNumber(bs, c, k);
        BlockHasData(bs, c, k);
        var s := curr / 32;
        var j := 0;
        while j < Min(BLOCK_DATA_SIZE, total)
          invariant 0 <= j <= Min(BLOCK_DATA_SIZE, total)
          invariant text == Content(bs, c, BLOCK_DATA_SIZE * k + j)
        {
          ContentSnoc(bs, c, k, j);
          text := text + [blocks[s].data[j]];
          j := j + 1;
        }
        // only the last block can hold less than a full block: there the subtraction may wrap, unused
        assert k < |c| - 1 ==> BLOCK_DATA_SIZE <= total by {
          OnlyLastIsPartial(size, |c|, k);
        }
        total := (total - BLOCK_DATA_SIZE) % TWO64;
        if blocks[s].index == BLOCK_INDEX_END {
          LastBlockOnly(bs, c, k);
          OnlyLastIsPartial(size, |c|, k);
          break;
        }
        NotLastBlock(bs, c, k);
        SmallTotal(size, k);
        curr := blocks[s].index;
        k := k + 1;
      }
    }

    // ----- renaming and deleting

    method FsRename(oldName: string, newName: string) returns (ok: bool)
      requires Valid() && oldName != "" && 0 < |newName| < 32
      modifies entries
      ensures Valid()
      ensures Abs() == Model.Rename(old(Abs()), oldName, newName).0
      ensures ok == Model.Rename(old(Abs()), oldName, newName).1
      ensures ok <==> FileLaws.Exists(old(Abs()).files, oldName)
    {
      FileLaws.FindExists(Abs().files, oldName);
      hide LayoutOk, FreeListOk, FileOk, FileLaws.Exists, Holds, NodesLinked, Decreasing;
      var i := FindEntry(oldName);
      ok := i < nextEntry;
      if ok {
        ghost var d := State();
        RenamedFile(d, layout, i, newName);
        entries[i] := entries[i].(name := newName);
        assert State() == d.(entries := d.entries[i := d.entries[i].(name := newName)]);
      }
    }

    /** The loop of fs_delete and the clearing of the entry. */
    method FreeChain(e: nat) returns (wild: bool)
      requires Valid() && e < nextEntry && Live(entries[e])
      modifies this`freeList, this`layout, blocks, entries
      ensures wild <==> !StaysInside(old(State()), old(layout), e)
      ensures !wild ==> Inv(State(), layout)
      ensures !wild ==> FilesOf(State(), layout) == FilesOf(old(State()), old(layout))[e := Model.File("", [])]
      ensures !wild ==>
                |layout.free| == if old(entries[e].size) <= BLOCK_DATA_SIZE then |old(layout).free| else 1
      ensures wild ==> forall l: Layout :: !Inv(State(), l)
    {
      hide Inv, FilesOf, DeleteState, StaysInside, BlocksOk, IsSlot, WriteNext, WildChain;
      ghost var d, l := State(), layout;
      DeleteStart(d, l, e);
      var curr: nat := entries[e].start;
      wild := false;
      ghost var turn := 0;
      while !wild && blocks[curr / 32].index != BLOCK_INDEX_END
        invariant 0 <= curr && (wild || curr / 32 < SLOTS)
        invariant entries[..] == old(entries[..])
        invariant DeleteState(d, l, e, blocks[..], freeList, curr, wild, turn)
        decreases 2 - turn
      {
        ghost var bs := blocks[..];
        DeleteStep(d, l, e, bs, freeList, curr, turn);
        var s := curr / 32;
        blocks[s] := WriteNext(blocks[s], freeList);
        assert blocks[..] == bs[s := WriteNext(bs[s], freeList)];
        freeList := SlotAddr(s);
        curr := blocks[s].index;
        wild := !IsSlot(curr);
        turn := turn + 1;
      }
      DeleteStop(d, l, e, blocks[..], freeList, curr, wild, turn);
      if wild {
        forall l': Layout
          ensures !Inv(State(), l')
        {
          WildBreaks(d, l, e, State(), l');
        }
        return;
      }
      entries[e] := FileEntry("", 0, 0);
      assert entries[..nextEntry] == d.entries[e := FileEntry("", 0, 0)];
      layout := AfterDelete(l, e);
    }

    /**
     fs_delete. It follows an index field after the free-list link has been written over it; wild reports
     that this led to a block number outside the 129 blocks, where this model stops, with a disk that no
     layout makes well formed. That happens exactly when StaysInside does not hold; otherwise the file is
     deleted as Model.Delete says, which frees no block of a short file and one block of a longer one.
     */
    method FsDelete(fd: int) returns (wild: bool)
      requires Valid() && !Model.Stale(Abs(), fd)
      modifies this`freeList, this`layout, blocks, entries, fds, fds.nodes
      ensures wild <==> fd in old(fds.View()) && !StaysInside(old(State()), old(layout), old(fds.View())[fd])
      ensures !wild ==> Valid()
      ensures !wild ==> Abs() == Model.Delete(old(Abs()), fd)
      ensures wild ==> forall l: Layout :: !Inv(State(), l)
      ensures forall n | n in fds.nodes :: n in old(fds.nodes)
    {
      hide StaysInside, LayoutOk, FreeListOk, FileOk, NodesLinked, Holds, ViewOf;
      var r := fds.Find(fd);
      if r.None? {
        return false;
      }
      var e := r.value;
      wild := FreeChain(e);
      if wild {
        return;
      }
      label Cleared:
      fds.Remove(fd);
      assert State() == old@Cleared(State());
    }
  }

  lemma OpenLaw(d: Disk, l: Layout, fs: Model.Fs, name: string)
    requires Inv(d, l) && fs.files == FilesOf(d, l) && Model.FdsOk(fs) && fs.room == |l.free|
    ensures |fs.files| < 256
    ensures Model.Open(fs, name).1 >= 0 <==> FileLaws.Exists(fs.files, name) || fs.room > 0
  {
    Capacity(d, l);
    FileLaws.OpenSucceeds(fs, name);
  }

  /** A new file took the block at the head of the free list. */
  ghost predicate TookHead(l: Layout, l': Layout) {
    && l.free != [] && l'.free == l.free[..|l.free| - 1] && l'.chains == l.chains + [[Top(l)]]
  }

  function AllFree(free: seq<nat>): (l: Layout)
    requires |free| == SLOTS && forall k | 0 <= k < SLOTS :: free[k] == k
    ensures LayoutOk(l) && l.chains == [] && l.free == free
  {
    var l := Layout([], free, seq(SLOTS, s requires 0 <= s => InFree(s)));
    assert forall s | 0 <= s < SLOTS :: Placed(l, s);
    l
  }

  lemma HeadIsPointer(head: nat, free: seq<nat>, bs: seq<Block>)
    requires BlocksOk(bs) && InRange(free) && FreeListOk(bs, head, free)
    ensures head < TWO64
  {
    if free != [] {
      SlotArithmetic(free[|free| - 1]);
    }
  }

  /** A block put in front of the free list. */
  lemma FreePush(bs: seq<Block>, head: nat, free: seq<nat>, s: nat, bs': seq<Block>)
    requires BlocksOk(bs) && BlocksOk(bs') && InRange(free) && FreeListOk(bs, head, free)
    requires s < SLOTS && s !in free && bs' == bs[s := bs'[s]] && ReadNext(bs'[s]) == head
    ensures FreeListOk(bs', SlotAddr(s), free + [s])
  {
    var free' := free + [s];
    forall k | 0 <= k < |free'|
      ensures FreeLink(bs', free', k)
    {
      if k < |free| {
        assert FreeLink(bs, free, k) && free[k] in free;
        assert TopAddr(free', k) == TopAddr(free, k);
      } else {
        assert TopAddr(free', |free|) == TopAddr(free, |free|);
      }
    }
  }

  lemma AttachFacts(d: Disk, l: Layout, e: nat)
    requires Growing(d, l, e) && l.free != []
    ensures BaseOk(d, l) && |d.blocks| == SLOTS && l.chains[e] != [] && LastOf(l, e) < SLOTS == |l.owner|
    ensures var s := Top(l);
      s < SLOTS && BlockOk(d.blocks[s]) && d.head == SlotAddr(s)
      && START_ADDR <= d.head && (d.head - START_ADDR) / STRIDE == s && IndexOf(d.head) == SlotIndex(s)
    ensures e < |MoveTo(l, e).chains| && MoveTo(l, e).chains[e] != [] && LastOf(MoveTo(l, e), e) == Top(l)
  {
    HeadSlot(d, l);
    assert InRange(l.chains[e]);
  }

  lemma FoundEntry(d: Disk, l: Layout, name: string, i: nat)
    requires |d.entries| == |l.chains| && i <= |d.entries|
    requires i < |d.entries| ==> d.entries[i].name == name
    requires forall j | 0 <= j < i :: d.entries[j].name != name
    ensures Model.Find(FilesOf(d, l), name) == i
  {
    Model.FindUnique(FilesOf(d, l), name, i);
  }

  lemma FreeIsNull(d: Disk, l: Layout)
    requires Inv(d, l)
    ensures d.head == 0 <==> l.free == []
  {
    NullIsEmpty(d, l);
  }

  lemma NullIsEmpty(d: Disk, l: Layout)
    requires BaseOk(d, l)
    ensures d.head == 0 <==> l.free == []
  {
    if l.free != [] {
      SlotArithmetic(Top(l));
    }
  }

  /** The block that free_list points to. */
  lemma HeadSlot(d: Disk, l: Layout)
    requires BaseOk(d, l) && l.free != []
    ensures var s := Top(l);
      s < SLOTS && BlockOk(d.blocks[s]) && d.head == SlotAddr(s)
      && START_ADDR <= d.head && (d.head - START_ADDR) / STRIDE == s && IndexOf(d.head) == SlotIndex(s)
  {
    SlotArithmetic(Top(l));
  }

  lemma AttachRange(d: Disk, l: Layout, e: nat)
    requires Growing(d, l, e)
    ensures |d.blocks| == SLOTS && l.chains[e] != [] && LastOf(l, e) < SLOTS
  {
    assert InRange(l.chains[e]);
  }

  lemma GrowingBase(d: Disk, l: Layout, e: nat)
    requires Growing(d, l, e)
    ensures BaseOk(d, l) && e < |l.chains| && l.chains[e] != []
  {
  }

  // ----- extending a chain

  lemma SameBytesRefl(d: Disk, l: Layout)
    requires |d.entries| == |l.chains|
    ensures SameBytes(d, l, d, l)
  {
    forall f | 0 <= f < |l.chains|
      ensures SameBytesIn(d, l, d, l, f)
    {
    }
  }

  /** d', l' is d, l with i free blocks moved to the end of file e. */
  ghost predicate Extended(d: Disk, l: Layout, d': Disk, l': Layout, e: nat, i: nat) {
    && SameBytes(d, l, d', l') && e < |l.chains|
    && |l'.chains[e]| == |l.chains[e]| + i && l'.chains[e][..|l.chains[e]|] == l.chains[e]
    && |l'.free| + i == |l.free| && Lengthened(l, l', e)
  }

  lemma ExtendedRefl(d: Disk, l: Layout, e: nat)
    requires BaseOk(d, l) && e < |l.chains|
    ensures Extended(d, l, d, l, e, 0)
  {
    SameBytesRefl(d, l);
  }

  lemma ExtendedStep(d: Disk, l: Layout, d1: Disk, l1: Layout, e: nat, i: nat)
    requires Extended(d, l, d1, l1, e, i) && Growing(d1, l1, e) && l1.free != []
    ensures var (d2, l2) := (Attach(d1, l1, e), MoveTo(l1, e));
      Growing(d2, l2, e) && Extended(d, l, d2, l2, e, i + 1) && Extended(d, l, Finish(d2, l2, e), l2, e, i + 1)
  {
    hide Lengthened;
    var d2, l2 := Attach(d1, l1, e), MoveTo(l1, e);
    AttachKeeps(d1, l1, e);
    LengthenedStep(l, l1, e);
    AttachBytes(d1, l1, e);
    SameBytesTrans(d, l, d1, l1, d2, l2);
    AttachRange(d2, l2, e);
    FinishBytes(d2, l2, e);
    SameBytesTrans(d, l, d2, l2, Finish(d2, l2, e), l2);
    assert l2.chains[e] == l1.chains[e] + [Top(l1)];
    assert l2.chains[e][..|l.chains[e]|] == l1.chains[e][..|l.chains[e]|];
  }

  /** The last block of the old chain has been linked on, and the links before it stand. */
  ghost predicate Unended(d: Disk, l: Layout, e: nat, bs': seq<Block>) {
    && |bs'| == SLOTS && e < |l.chains| && InRange(l.chains[e]) && l.chains[e] != [] && |d.blocks| == SLOTS
    && bs'[LastOf(l, e)].index != BLOCK_INDEX_END
    && forall k | 0 <= k < |l.chains[e]| - 1 :: bs'[l.chains[e][k]].index == d.blocks[l.chains[e][k]].index
  }

  lemma ExtendedIsUnended(d: Disk, l: Layout, d': Disk, l': Layout, e: nat, i: nat)
    requires Growing(d, l, e) && Growing(d', l', e) && Extended(d, l, d', l', e, i) && 0 < i
    ensures Unended(d, l, e, d'.blocks)
  {
    var c, c' := l.chains[e], l'.chains[e];
    assert InRange(c) && InRange(c');
    assert forall k | 0 <= k < |c| :: c'[k] == c'[..|c|][k] == c[k];
    forall k | 0 <= k < |c| - 1
      ensures d'.blocks[c[k]].index == d.blocks[c[k]].index
    {
      assert ChainLink(d.blocks, c, k) && ChainLink(d'.blocks, c', k);
    }
    assert ChainLink(d'.blocks, c', |c| - 1);
    SlotArithmetic(c'[|c|]);
  }

  // ----- copying the buffer

  function BlockNumber(c: seq<nat>, k: nat): nat {
    if k < |c| then SlotIndex(c[k]) else BLOCK_INDEX_END
  }

  lemma NextNumber(bs: seq<Block>, c: seq<nat>, k: nat)
    requires BlocksOk(bs) && InRange(c) && Linked(bs, c) && Ended(bs, c) && k < |c|
    ensures BlockNumber(c, k) / 32 == c[k] < SLOTS && bs[c[k]].index == BlockNumber(c, k + 1)
  {
    SlotArithmetic(c[k]);
    if k + 1 < |c| {
      assert ChainLink(bs, c, k);
    }
  }

  ghost predicate OthersSame(d: Disk, d': Disk, l: Layout, e: nat) {
    forall f | 0 <= f < |l.chains| && f != e :: SameBytesIn(d, l, d', l, f)
  }

  /** The copy loop so far: done has been written over the bytes of the chain, from index on. */
  ghost predicate CopyState(d: Disk, d': Disk, l: Layout, e: nat, full: seq<byte>, index: nat, done: seq<byte>) {
    && Growing(d', l, e) && Ended(d'.blocks, l.chains[e])
    && index + |done| <= |full| && Full(d'.blocks, l.chains[e]) == Over(full, index, done)
    && OthersSame(d, d', l, e)
  }

  lemma CopyStart(d: Disk, l: Layout, e: nat, full: seq<byte>, index: nat)
    requires Growing(d, l, e) && Ended(d.blocks, l.chains[e]) && full == Full(d.blocks, l.chains[e]) && index <= |full|
    ensures CopyState(d, d, l, e, full, index, [])
  {
    assert full == full[..index] + [] + full[index..];
  }

  lemma CopyNext(d: Disk, d1: Disk, l: Layout, e: nat, full: seq<byte>, index: nat, done: seq<byte>, k: nat)
    requires CopyState(d, d1, l, e, full, index, done) && k < |l.chains[e]|
    ensures |d1.blocks| == SLOTS
    ensures var c := l.chains[e];
      BlockNumber(c, k) / 32 == c[k] < SLOTS && d1.blocks[c[k]].index == BlockNumber(c, k + 1)
      && |d1.blocks[c[k]].data| == BLOCK_DATA_SIZE
  {
    assert InRange(l.chains[e]);
    NextNumber(d1.blocks, l.chains[e], k);
    assert BlockOk(d1.blocks[l.chains[e][k]]);
  }

  lemma CopyEnd(d: Disk, d1: Disk, l: Layout, e: nat, full: seq<byte>, index: nat, done: seq<byte>)
    requires CopyState(d, d1, l, e, full, index, done)
    ensures Growing(d1, l, e) && BlocksOk(d1.blocks) && InRange(l.chains[e]) && Ended(d1.blocks, l.chains[e])
    ensures index + |done| <= |full| && Full(d1.blocks, l.chains[e]) == Over(full, index, done)
    ensures OthersSame(d, d1, l, e)
  {
    assert InRange(l.chains[e]);
  }

  lemma FullLength(bs: seq<Block>, c: seq<nat>)
    ensures |Full(bs, c)| == BLOCK_DATA_SIZE * |c|
  {
  }

  lemma CopyOne(d: Disk, d1: Disk, l: Layout, e: nat, full: seq<byte>, index: nat, buf: seq<byte>, j: nat,
                k: nat, i: nat)
    requires j < |buf| && CopyState(d, d1, l, e, full, index, buf[..j])
    requires index + |buf| <= |full| && k < |l.chains[e]| && i < BLOCK_DATA_SIZE
    requires BLOCK_DATA_SIZE * k + i == index + j
    requires l.chains[e][k] < |d1.blocks| && i < |d1.blocks[l.chains[e][k]].data|
    ensures CopyState(d, Disk(SetByte(d1.blocks, l.chains[e][k], i, buf[j]), d1.head, d1.entries), l, e,
                      full, index, buf[..j + 1])
  {
    var c := l.chains[e];
    var d2 := Disk(SetByte(d1.blocks, c[k], i, buf[j]), d1.head, d1.entries);
    ChainDistinct(d1, l, e, k);
    SetByteKeeps(d1, l, e, k, i, buf[j]);
    SetByteBytes(d1.blocks, c, k, i, buf[j]);
    OverSnoc(full, index, buf, j);
    forall f | 0 <= f < |l.chains| && f != e
      ensures SameBytesIn(d, l, d2, l, f)
    {
      assert SameBytesIn(d, l, d1, l, f) && SameBytesIn(d1, l, d2, l, f);
    }
  }

  lemma ChainDistinct(d: Disk, l: Layout, e: nat, k: nat)
    requires Growing(d, l, e) && k < |l.chains[e]|
    ensures BlocksOk(d.blocks) && InRange(l.chains[e])
    ensures forall j | 0 <= j < |l.chains[e]| && j != k :: l.chains[e][j] != l.chains[e][k]
  {
    assert InRange(l.chains[e]);
    PlacesDiffer(l, e, k, l.chains[e][k]);
  }

  // ----- fs_write_at as a whole

  function Written(d: Disk, l: Layout, e: nat, index: nat, buf: seq<byte>): seq<Model.File>
    requires e < |d.entries| == |l.chains| && index <= d.entries[e].size
  {
    var was := FileOf(d, l, e);
    FilesOf(d, l)[e := Model.File(was.name, Model.Patch(was.content, index, buf))]
  }

  lemma WriteStart(d: Disk, l: Layout, e: nat, index: nat, buf: seq<byte>)
    requires Inv(d, l) && e < |d.entries| && Live(d.entries[e])
    requires index <= d.entries[e].size && |buf| <= Model.MAX_WRITE
    ensures Growing(d, l, e) && Ended(d.blocks, l.chains[e]) && |l.chains[e]| == Need(d.entries[e].size)
    ensures SameBytes(d, l, d, l)
    ensures AsInt32(Max(1, (d.entries[e].size + BLOCK_DATA_SIZE - 1) / BLOCK_DATA_SIZE)) == Need(d.entries[e].size)
    ensures AsInt32(BlocksFor(index + |buf|)) == BlocksFor(index + |buf|)
  {
    InvIsGrowing(d, l, e);
    SameBytesRefl(d, l);
    ChainFacts(d, l, e);
    CountsFit(d.entries[e].size, index + |buf|);
  }

  /** blocks_needed, before it is stored in an int. */
  function BlocksFor(end: nat): nat {
    (end + BLOCK_DATA_SIZE - 1) / BLOCK_DATA_SIZE
  }

  lemma CountsFit(size: nat, end: nat)
    requires Need(size) <= SLOTS && end <= size + Model.MAX_WRITE
    ensures AsInt32(Need(size)) == Need(size) && AsInt32(BlocksFor(end)) == BlocksFor(end)
    ensures Max(1, (size + BLOCK_DATA_SIZE - 1) / BLOCK_DATA_SIZE) == Need(size)
  {
    assert end <= BLOCK_DATA_SIZE * (TWO31 - 1);
    Int32Range(Need(size));
    Int32Range(BlocksFor(end));
  }

  /**
   What the bound on buffers protects from: blocks_needed is right exactly for writes that end below 2^31
   blocks, and for one that ends at 2^32 blocks it is 0, so that fs_write_at takes no block at all.
   */
  lemma BlockCountWraps(end: nat)
    ensures AsInt32(BlocksFor(end)) == BlocksFor(end) <==> end <= 124 * 0x7FFF_FFFF
    ensures end == 124 * 0x1_0000_0000 ==> AsInt32(BlocksFor(end)) == 0
    ensures Model.MAX_WRITE + 124 * 129 == 124 * 0x7FFF_FFFF
  {
    Int32Range(BlocksFor(end));
  }

  lemma WriteRefused(fs: Model.Fs, fd: int, index: nat, buf: seq<byte>)
    requires Model.FdsOk(fs)
    ensures fd !in fs.fds || |fs.files[fs.fds[fd]].content| < index ==>
              !Model.RunsOut(fs, fd, index, buf) && Model.WriteAt(fs, fd, index, buf) == (fs, false)
  {
  }

  lemma WriteRanOut(fs: Model.Fs, fd: int, index: nat, buf: seq<byte>)
    requires Model.FdsOk(fs) && fd in fs.fds && index <= |fs.files[fs.fds[fd]].content|
    requires 0 < fs.room < Model.Lacking(|fs.files[fs.fds[fd]].content|, index + |buf|)
    ensures Model.RunsOut(fs, fd, index, buf)
  {
  }

  /** What WriteEntry reports, in terms of the model. */
  lemma WriteDone(fs: Model.Fs, fs': Model.Fs, fd: int, index: nat, buf: seq<byte>, ok: bool)
    requires Model.FdsOk(fs) && fd in fs.fds && index <= |fs.files[fs.fds[fd]].content|
    requires var f := fs.files[fs.fds[fd]]; var lacking := Model.Lacking(|f.content|, index + |buf|);
      && (ok <==> lacking <= fs.room)
      && (ok ==> fs' == fs.(files := fs.files[fs.fds[fd] := Model.File(f.name, Model.Patch(f.content, index, buf))],
                            room := fs.room - lacking))
      && (!ok && fs.room == 0 ==> fs' == fs)
    ensures Model.RunsOut(fs, fd, index, buf) <==> !ok && fs.room != 0
    ensures !Model.RunsOut(fs, fd, index, buf) ==> (fs', ok) == Model.WriteAt(fs, fd, index, buf)
  {
  }

  lemma LengthenedRefl(l: Layout, e: nat)
    requires e < |l.chains|
    ensures Lengthened(l, l, e)
  {
  }

  lemma EnoughBlocks(size: nat, index: nat, buf: seq<byte>)
    requires index <= size
    ensures var n := Need(size) + Model.Lacking(size, index + |buf|);
      index / BLOCK_DATA_SIZE <= n && index + |buf| <= BLOCK_DATA_SIZE * n
  {
  }

  lemma UnendedBreaks(d: Disk, l: Layout, e: nat, d': Disk, l': Layout)
    requires Inv(d, l) && e < |d.entries| && Live(d.entries[e]) && d'.entries == d.entries
    requires Unended(d, l, e, d'.blocks)
    ensures !Inv(d', l')
  {
    RunOutBreaks(d, l, e, d', l');
  }

  lemma WriteEnd(d: Disk, l: Layout, d1: Disk, l1: Layout, d3: Disk, e: nat, index: nat, buf: seq<byte>)
    requires Inv(d, l) && e < |d.entries| && index <= d.entries[e].size
    requires SameBytes(d, l, d1, l1)
    requires |l1.chains[e]| == Need(d.entries[e].size) + Model.Lacking(d.entries[e].size, index + |buf|)
    requires d3.entries == Sized(d1, e, Max(index + |buf|, d.entries[e].size)).entries
    requires Growing(d3, l1, e) && Ended(d3.blocks, l1.chains[e])
    requires index + |buf| <= BLOCK_DATA_SIZE * |l1.chains[e]|
    requires Full(d3.blocks, l1.chains[e]) == Over(Full(d1.blocks, l1.chains[e]), index, buf)
    requires OthersSame(Sized(d1, e, Max(index + |buf|, d.entries[e].size)), d3, l1, e)
    ensures Inv(d3, l1) && FilesOf(d3, l1) == Written(d, l, e, index, buf)
  {
    var size := Max(index + |buf|, d.entries[e].size);
    var d2 := Disk(d3.blocks, d3.head, d1.entries);
    NeedAfterWrite(d.entries[e].size, index + |buf|);
    GrowingIsInv(d3, l1, e);
    forall f | 0 <= f < |d.entries| && f != e
      ensures SameBytesIn(d1, l1, d2, l1, f)
    {
      assert SameBytesIn(Sized(d1, e, size), l1, d3, l1, f);
    }
    WrittenFile(d, l, d1, l1, d2, e, index, buf);
    assert Sized(d2, e, size) == d3;
  }

  // ----- reading

  lemma ChainFacts(d: Disk, l: Layout, e: nat)
    requires Growing(d, l, e) && Ended(d.blocks, l.chains[e])
    ensures BlocksOk(d.blocks) && InRange(l.chains[e]) && Linked(d.blocks, l.chains[e]) && l.chains[e] != []
    ensures d.entries[e].start == BlockNumber(l.chains[e], 0)
    ensures Total(l.chains) <= SLOTS && |l.chains[e]| <= SLOTS
  {
    assert InRange(l.chains[e]);
    BlocksConserved(l);
    ChainLength(l, e);
  }

  lemma ChainLength(l: Layout, e: nat)
    requires LayoutOk(l) && e < |l.chains|
    ensures |l.chains[e]| <= SLOTS
  {
    var c := l.chains[e];
    forall i, j | 0 <= i < j < |c|
      ensures c[i] != c[j]
    {
      assert l.owner[c[i]] == InFile(e, i) && l.owner[c[j]] == InFile(e, j);
    }
    ChainedSize(l, e);
    DistinctSize(c);
    AllSlotsSize(SLOTS);
    BoundedSize(Elements(c), AllSlots(SLOTS));
  }

  lemma BoundedSize(a: set<nat>, b: set<nat>)
    requires a <= b
    ensures |a| <= |b|
  {
    assert |b| == |a| + |b - a| by {
      assert b == a + (b - a);
    }
  }

  lemma BlockHasData(bs: seq<Block>, c: seq<nat>, k: nat)
    requires BlocksOk(bs) && InRange(c) && k < |c|
    ensures |bs| == SLOTS && |bs[c[k]].data| == BLOCK_DATA_SIZE
  {
    assert BlockOk(bs[c[k]]);
  }

  lemma ContentSnoc(bs: seq<Block>, c: seq<nat>, k: nat, j: nat)
    requires k < |c| && c[k] < |bs| && |bs[c[k]].data| == BLOCK_DATA_SIZE && j < BLOCK_DATA_SIZE
    ensures Content(bs, c, BLOCK_DATA_SIZE * k + j + 1) == Content(bs, c, BLOCK_DATA_SIZE * k + j) + [bs[c[k]].data[j]]
  {
    assert (BLOCK_DATA_SIZE * k + j) / BLOCK_DATA_SIZE == k && (BLOCK_DATA_SIZE * k + j) % BLOCK_DATA_SIZE == j;
  }

  lemma OnlyLastIsPartial(size: nat, n: nat, k: nat)
    requires n == Need(size) && k < n
    ensures k < n - 1 ==> BLOCK_DATA_SIZE <= size - BLOCK_DATA_SIZE * k
    ensures k == n - 1 ==> 0 <= size - BLOCK_DATA_SIZE * k <= BLOCK_DATA_SIZE
  {
  }

  lemma LastBlockOnly(bs: seq<Block>, c: seq<nat>, k: nat)
    requires BlocksOk(bs) && InRange(c) && Linked(bs, c) && Ended(bs, c) && k < |c|
    requires bs[c[k]].index == BLOCK_INDEX_END
    ensures k == |c| - 1
  {
    if k < |c| - 1 {
      assert ChainLink(bs, c, k);
      SlotArithmetic(c[k + 1]);
    }
  }

  lemma NotLastBlock(bs: seq<Block>, c: seq<nat>, k: nat)
    requires BlocksOk(bs) && InRange(c) && Ended(bs, c) && k < |c|
    requires bs[c[k]].index != BLOCK_INDEX_END
    ensures k < |c| - 1
  {
  }

  lemma SmallTotal(size: nat, k: nat)
    requires BLOCK_DATA_SIZE * (k + 1) <= size < TWO32
    ensures (size - BLOCK_DATA_SIZE * k - BLOCK_DATA_SIZE) % TWO64 == size - BLOCK_DATA_SIZE * (k + 1)
  {
  }

  // ----- deleting

  /** One block, or nothing free and block 0 another block that is marked as an end. */
  ghost predicate StaysInside(d: Disk, l: Layout, e: nat)
    requires Inv(d, l) && e < |d.entries|
  {
    || |l.chains[e]| == 1
    || (l.free == [] && l.chains[e][0] != 0 && d.blocks[0].index == BLOCK_INDEX_END)
  }

  lemma DeleteFacts(d: Disk, l: Layout, e: nat)
    requires Inv(d, l) && e < |d.entries| && Live(d.entries[e])
    ensures var c := l.chains[e];
      && c != [] && c[0] < SLOTS == |d.blocks| == |l.owner| && BlocksOk(d.blocks)
      && d.entries[e].start == SlotIndex(c[0]) && IsSlot(SlotIndex(c[0])) && SlotIndex(c[0]) / 32 == c[0]
      && (d.blocks[c[0]].index == BLOCK_INDEX_END <==> |c| == 1)
  {
    InvIsGrowing(d, l, e);
    ChainFacts(d, l, e);
    SlotArithmetic(l.chains[e][0]);
    if |l.chains[e]| > 1 {
      assert ChainLink(d.blocks, l.chains[e], 0);
      SlotArithmetic(l.chains[e][1]);
    }
  }

  /** The loop of fs_delete: before its first turn, after one turn, and after two. */
  ghost predicate DeleteState(d: Disk, l: Layout, e: nat, bs: seq<Block>, head: nat, curr: nat, wild: bool, turn: nat) {
    && Inv(d, l) && e < |d.entries| && Live(d.entries[e])
    && var c := l.chains[e];
    && c != [] && c[0] < SLOTS == |d.blocks| && BlockOk(d.blocks[c[0]]) && BlocksOk(bs)
    && (!wild ==> IsSlot(curr))
    && (turn == 0 ==> !wild && bs == d.blocks && head == d.head && curr == SlotIndex(c[0]))
    && (turn == 1 ==>
          && 1 < |c| && (wild <==> l.free != [])
          && (!wild ==> curr == 0 && head == SlotAddr(c[0])
                        && bs == d.blocks[c[0] := WriteNext(d.blocks[c[0]], 0)]))
    && (turn == 2 ==> wild && !StaysInside(d, l, e))
    && turn <= 2
    && (wild ==> 1 < |c| && WildChain(bs, c[0]))
  }

  /** The block numbers followed from block s on leave the 129 blocks at once or after block 0. */
  ghost predicate WildChain(bs: seq<Block>, s: nat) {
    && |bs| == SLOTS && s < SLOTS
    && (WildIndex(bs[s].index) || (bs[s].index == 0 && WildIndex(bs[0].index)))
  }

  predicate WildIndex(index: nat) {
    !IsSlot(index) && index != BLOCK_INDEX_END
  }

  /** A file of two or more blocks whose chain is wild fits into no layout. */
  lemma WildBreaks(d: Disk, l: Layout, e: nat, d': Disk, l': Layout)
    requires Inv(d, l) && e < |d.entries| && Live(d.entries[e]) && d'.entries == d.entries
    requires 1 < |l.chains[e]| && l.chains[e][0] < SLOTS && WildChain(d'.blocks, l.chains[e][0])
    ensures !Inv(d', l')
  {
    hide LayoutOk, FreeListOk;
    if Inv(d', l') {
      InvIsGrowing(d, l, e);
      InvIsGrowing(d', l', e);
      ChainFacts(d', l', e);
      var c' := l'.chains[e];
      assert c'[0] == l.chains[e][0];
      assert ChainLink(d'.blocks, c', 0);
      SlotArithmetic(c'[1]);
      assert c'[1] == 0;
      if 2 < |c'| {
        assert ChainLink(d'.blocks, c', 1);
        SlotArithmetic(c'[2]);
      }
    }
  }

  lemma DeleteStart(d: Disk, l: Layout, e: nat)
    requires Inv(d, l) && e < |d.entries| && Live(d.entries[e])
    ensures DeleteState(d, l, e, d.blocks, d.head, d.entries[e].start, false, 0)
    ensures d.entries[e].start / 32 < SLOTS && |l.owner| == SLOTS
  {
    DeleteFacts(d, l, e);
    assert BlockOk(d.blocks[l.chains[e][0]]);
  }

  lemma DeleteStep(d: Disk, l: Layout, e: nat, bs: seq<Block>, head: nat, curr: nat, turn: nat)
    requires DeleteState(d, l, e, bs, head, curr, false, turn) && |bs| == SLOTS
    requires curr / 32 < SLOTS && bs[curr / 32].index != BLOCK_INDEX_END
    ensures turn < 2 && BlockOk(bs[curr / 32])
    ensures var s := curr / 32; var b := WriteNext(bs[s], head);
      DeleteState(d, l, e, bs[s := b], SlotAddr(s), b.index, !IsSlot(b.index), turn + 1)
      && (IsSlot(b.index) ==> b.index / 32 < SLOTS)
  {
    var s, c := curr / 32, l.chains[e];
    DeleteFacts(d, l, e);
    assert BlockOk(bs[s]);
    HeadIsPointer(d.head, l.free, d.blocks);
    if turn == 0 {
      NextRoundTrip(bs[s], head);
      if l.free != [] {
        LinkedIndexIsWild(bs[s], Top(l));
      } else {
        LinkedIndexAtEnd(bs[s]);
      }
    } else {
      SlotArithmetic(c[0]);
      NextRoundTrip(bs[s], head);
      LinkedIndexIsWild(bs[s], c[0]);
      LinkedIndexAtEnd(d.blocks[c[0]]);
    }
  }

  function AfterDelete(l: Layout, e: nat): Layout
    requires e < |l.chains| && |l.owner| == SLOTS
  {
    if |l.chains[e]| <= 1 then l else FirstFreed(l, e)
  }

  lemma DeleteStop(d: Disk, l: Layout, e: nat, bs: seq<Block>, head: nat, curr: nat, wild: bool, turn: nat)
    requires DeleteState(d, l, e, bs, head, curr, wild, turn) && |l.owner| == SLOTS == |bs|
    requires !wild ==> curr / 32 < SLOTS && bs[curr / 32].index == BLOCK_INDEX_END
    ensures Inv(d, l) && e < |d.entries| && e < |l.chains| && (wild <==> !StaysInside(d, l, e))
    ensures wild ==> Live(d.entries[e]) && 1 < |l.chains[e]| && l.chains[e][0] < SLOTS && WildChain(bs, l.chains[e][0])
    ensures !wild ==>
      var d', l' := Disk(bs, head, d.entries[e := FileEntry("", 0, 0)]), AfterDelete(l, e);
      Inv(d', l') && FilesOf(d', l') == FilesOf(d, l)[e := Model.File("", [])]
      && |l'.free| == if d.entries[e].size <= BLOCK_DATA_SIZE then |l.free| else 1
  {
    InvIsGrowing(d, l, e);
    DeleteFacts(d, l, e);
    hide LayoutOk, FreeListOk, FileOk, FilesOf, BaseOk, BlocksOk;
    if !wild {
      if turn == 0 {
        DeletedFile(d, l, e);
      } else {
        LinkedIndexAtEnd(d.blocks[l.chains[e][0]]);
        FirstFreedFile(d, l, e);
      }
    }
  }
}
