/**
 The failures whose exact conditions the other modules state do happen: each is reached here from the state
 that fs_init or freelist_init leaves.
 */
module FailureExamples {
  import opened Common
  import opened Blocks
  import opened Disk
  import opened DiskSteps
  import opened DiskFiles
  import opened FreeList
  import Model = FileModel
  import Heap
  import opened FileSystem
  import FdTable
  import FileRuns
  import opened KernelMemory
  import opened Boot

  function FirstSlots(n: int): seq<nat> {
    if n <= 0 then [] else seq(n, k requires 0 <= k => k)
  }

  /** A new file system with an empty file "a" in it. */
  method EmptyFile(memory: seq<Block>) returns (fs: FileSys, fd: int)
    requires BlocksOk(memory)
    ensures fresh(FileRuns.Footprint(fs)) && fs.Valid() && fd == 0 && fs.fds.View() == map[0 := 0]
    ensures fs.Abs() == Model.Fs([Model.File("a", [])], map[0 := 0], 1, 128)
    ensures fs.layout.chains == [[128]] && fs.layout.free == FirstSlots(128)
  {
    hide Inv, Model.FdsOk;
    fs := new FileSys(memory);
    fd := fs.FsOpen("a");
  }

  function OnlyA(content: seq<byte>): Model.Fs {
    Model.Fs([Model.File("a", content)], map[0 := 0], 1, if content == [] then 128 else Room(|content|))
  }

  function Room(size: nat): nat {
    if Need(size) <= 129 then 129 - Need(size) else 0
  }

  lemma FirstWrite(buf: seq<byte>)
    ensures Model.RunsOut(OnlyA([]), 0, 0, buf) <==> 124 * 129 < |buf|
    ensures |buf| <= 124 * 129 ==> Model.WriteAt(OnlyA([]), 0, 0, buf) == (OnlyA(buf), true)
  {
    assert Model.Patch([], 0, buf) == buf;
    assert [Model.File("a", [])][0 := Model.File("a", buf)] == [Model.File("a", buf)];
  }

  /** The blocks are handed out from slot 128 down. */
  ghost predicate FromTheTop(c: seq<nat>) {
    c != [] && forall k | 0 <= k < |c| :: c[k] == 128 - k
  }

  lemma FirstLayout(l: Layout, l': Layout)
    requires l.chains == [[128]] && l.free == FirstSlots(128) && Lengthened(l, l', 0)
    ensures |l'.chains| == 1 && FromTheTop(l'.chains[0])
    ensures l'.free == FirstSlots(|l'.free|) && |l'.chains[0]| + |l'.free| == 129
  {
  }

  /** A new file system with a file "a" that holds buf; the write fails exactly when the disk is too small. */
  method OneFile(memory: seq<Block>, buf: seq<byte>) returns (fs: FileSys, ok: bool)
    requires BlocksOk(memory) && |buf| <= Model.MAX_WRITE
    ensures fresh(FileRuns.Footprint(fs)) && fs.nextEntry <= fs.entries.Length
    ensures ok <==> |buf| <= 124 * 129
    ensures !ok ==> forall l: Layout :: !Inv(fs.State(), l)
    ensures ok ==>
      && fs.Valid() && fs.Abs() == OnlyA(buf)
      && |fs.layout.chains| == 1 && FromTheTop(fs.layout.chains[0])
      && fs.layout.free == FirstSlots(Room(|buf|))
  {
    hide Inv, Model.FdsOk, Model.RunsOut, Model.WriteAt, Lengthened, FirstSlots, FromTheTop;
    var fd;
    fs, fd := EmptyFile(memory);
    FirstWrite(buf);
    ghost var l := fs.layout;
    ok := fs.FsWriteAt(fd, 0, buf);
    if ok {
      FirstLayout(l, fs.layout);
    }
  }

  /** fs_write_at of more bytes than the disk holds takes all blocks and leaves no well-formed disk behind. */
  method WriteRunsOut(memory: seq<Block>, buf: seq<byte>) returns (fs: FileSys, ok: bool)
    requires BlocksOk(memory) && 124 * 129 < |buf| <= Model.MAX_WRITE
    ensures !ok && fs.nextEntry <= fs.entries.Length && forall l: Layout :: !Inv(fs.State(), l)
  {
    fs, ok := OneFile(memory, buf);
  }

  lemma OnlyChain(d: Disk, l: Layout, buf: seq<byte>)
    requires Inv(d, l) && FilesOf(d, l) == [Model.File("a", buf)] && |buf| <= 124 * 129
    requires FromTheTop(l.chains[0]) && |l.free| == OnlyA(buf).room
    ensures StaysInside(d, l, 0) <==> !(124 < |buf| <= 124 * (128))
  {
    assert FilesOf(d, l)[0] == FileOf(d, l, 0);
    InvIsGrowing(d, l, 0);
    if |l.chains[0]| == 129 {
      assert l.chains[0][128] == 0;
    }
  }

  /**
   Deleting the only file leads outside the blocks exactly when it takes 2 to 128 of them. One block is lost;
   of all 129, the first is freed and the others are lost.
   */
  method DeleteOnlyFile(memory: seq<Block>, buf: seq<byte>) returns (fs: FileSys, wild: bool)
    requires BlocksOk(memory) && |buf| <= 124 * 129
    ensures wild <==> 124 < |buf| <= 124 * (128)
    ensures !wild ==> fs.Valid() && fs.Abs().files == [Model.File("", [])] && fs.Abs().fds == map[]
    ensures !wild ==> fs.Abs().room == if |buf| <= 124 then 128 else 1
  {
    var ok;
    fs, ok := OneFile(memory, buf);
    OnlyChain(fs.State(), fs.layout, buf);
    hide Inv, Model.FdsOk, StaysInside;
    wild := Delete(fs, 0);
  }

  /**
   On a full disk, with the last block in another file: deleting a file of 128 blocks ends, frees one of
   them and keeps the other file.
   */
  method DeleteOnFullDisk(memory: seq<Block>, buf: seq<byte>) returns (fs: FileSys, wild: bool)
    requires BlocksOk(memory) && Need(|buf|) == 128
    ensures !wild && fs.Valid()
    ensures fs.Abs() == Model.Fs([Model.File("", []), Model.File("b", [])], map[1 := 1], 2, 1)
  {
    hide Inv, Model.FdsOk, StaysInside, FdTable.NodesLinked, FdTable.Holds, FdTable.Decreasing, FdTable.ViewOf;
    fs := FullDisk(memory, buf);
    wild := Delete(fs, 0);
  }

  method FullDisk(memory: seq<Block>, buf: seq<byte>) returns (fs: FileSys)
    requires BlocksOk(memory) && Need(|buf|) == 128
    ensures fresh(FileRuns.Footprint(fs)) && fs.Valid()
    ensures fs.Abs() == Model.Fs([Model.File("a", buf), Model.File("b", [])], map[0 := 0, 1 := 1], 2, 0)
    ensures StaysInside(fs.State(), fs.layout, 0)
  {
    hide Inv, Model.FdsOk, FromTheTop, StaysInside;
    var ok;
    fs, ok := OneFile(memory, buf);
    var fd := fs.FsOpen("b");
    LastBlockInB(fs.State(), fs.layout);
  }

  lemma LastBlockInB(d: Disk, l: Layout)
    requires Inv(d, l) && |d.entries| == 2 && FilesOf(d, l)[1] == Model.File("b", [])
    requires FromTheTop(l.chains[0]) && l.chains[1] == [0] && l.free == []
    ensures StaysInside(d, l, 0)
  {
    assert FilesOf(d, l)[1] == FileOf(d, l, 1);
    InvIsGrowing(d, l, 1);
  }

  /** Renaming one of two files to the name of the other gives two files of one name. */
  method RenameOntoTakenName(memory: seq<Block>) returns (fs: FileSys, ok: bool)
    requires BlocksOk(memory)
    ensures ok && fs.Valid() && fs.Abs().files == [Model.File("b", []), Model.File("b", [])]
    ensures !Model.NamesDistinct(fs.Abs().files)
  {
    hide Inv, Model.FdsOk;
    var fd;
    fs, fd := EmptyFile(memory);
    fd := fs.FsOpen("b");
    ok := fs.FsRename("a", "b");
    assert fs.Abs().files[0].name == fs.Abs().files[1].name;
  }

  /** Two descriptors of one file: deleting it through one leaves the other stale. */
  method DeleteLeavesStale(memory: seq<Block>) returns (fs: FileSys, other: int)
    requires BlocksOk(memory)
    ensures fs.Valid() && Model.Stale(fs.Abs(), other)
  {
    hide Inv, Model.FdsOk;
    var fd, wild;
    fs, fd := EmptyFile(memory);
    other := fs.FsOpen("a");
    EmptyIsShort(fs.State(), fs.layout);
    wild := Delete(fs, 0);
  }

  lemma EmptyIsShort(d: Disk, l: Layout)
    requires Inv(d, l) && |d.entries| == 1 && d.entries[0].size == 0 && Live(d.entries[0])
    ensures StaysInside(d, l, 0)
  {
    InvIsGrowing(d, l, 0);
  }

  method Delete(fs: FileSys, fd: int) returns (wild: bool)
    requires fs.Valid() && !Model.Stale(fs.Abs(), fd)
    modifies FileRuns.Footprint(fs)
    ensures wild <==> fd in old(fs.fds.View()) && !StaysInside(old(fs.State()), old(fs.layout), old(fs.fds.View())[fd])
    ensures !wild ==> fs.Valid() && fs.Abs() == Model.Delete(old(fs.Abs()), fd)
  {
    hide Inv, Model.FdsOk, StaysInside;
    wild := fs.FsDelete(fd);
  }

  /** A usable range of one page and 16 bytes: the page handed out is unaligned and overlaps the node left over. */
  method PageOverNode() returns (pm: PhysicalMemory, page: nat)
    ensures page == 0x1010 && page % PAGESIZE != 0
    ensures pm.Valid() && pm.free == [Chunk(0x1000, 16)] && NodeIn(pm.free[0], page)
  {
    var memmap := [MemmapEntry(0x1000, 0x1010, USABLE)];
    pm := new PhysicalMemory(map[]);
    pm.FreelistInit(memmap);
    OneUsable(memmap[0]);
    page := pm.PmemAlloc();
  }

  lemma OneUsable(e: MemmapEntry)
    requires e.kind == USABLE
    ensures Usable([e]) == [Chunk(e.base, e.length)]
  {
    assert [e][..0] == [];
    assert Usable([]) == [];
  }

  /** Two requests of 4 GiB: mem_start does not move in between, and both get the same block. */
  method SameBlockTwice() returns (h: Heap.Heap, a: nat, b: nat)
    ensures a == b == 0x800_0000_0000
    ensures h.blocks == [Heap.Block(a, TWO32), Heap.Block(a, TWO32)] && !h.Valid()
  {
    h := new Heap.Heap();
    Heap.FourGiB(h.memStart);
    hide Heap.RoundUp, Heap.NextStart, Heap.Fits, Heap.BlocksOk, Heap.RegionsMapped;
    a := h.Malloc(TWO32);
    b := h.Malloc(TWO32);
  }
}
