/** Whole runs of file-system calls: the code follows the model step by step, and the model's laws over runs. */
module FileRuns {
  import opened Blocks
  import opened Disk
  import opened DiskFiles
  import Model = FileModel
  import opened FileSystem

  datatype Call =
    | Open(name: string)
    | WriteAt(fd: int, index: nat, buf: seq<byte>)
    | Append(fd: int, buf: seq<byte>)
    | Rename(oldName: string, newName: string)
    | Delete(fd: int)

  /**
   The calls that keep the file system whole: names and buffers fit, no stale descriptor, no
   run-out. Whether a delete
   stays inside the blocks depends on where they lie, and is reported when it runs.
   */
  predicate Safe(s: Model.Fs, c: Call)
    requires Model.FdsOk(s)
  {
    match c
    case Open(name) => 0 < |name| < 32
    case WriteAt(fd, index, buf) =>
      |buf| <= Model.MAX_WRITE && !Model.Stale(s, fd) && !Model.RunsOut(s, fd, index, buf)
    case Append(fd, buf) =>
      |buf| <= Model.MAX_WRITE && !Model.Stale(s, fd) && !Model.RunsOut(s, fd, Model.SizeOf(s, fd), buf)
    case Rename(o, n) => o != "" && 0 < |n| < 32
    case Delete(fd) => !Model.Stale(s, fd)
  }

  function Step(s: Model.Fs, c: Call): Model.Fs
    requires Model.FdsOk(s)
  {
    match c
    case Open(name) => Model.Open(s, name).0
    case WriteAt(fd, index, buf) => Model.WriteAt(s, fd, index, buf).0
    case Append(fd, buf) => Model.Append(s, fd, buf).0
    case Rename(o, n) => Model.Rename(s, o, n).0
    case Delete(fd) => Model.Delete(s, fd)
  }

  lemma StepKeepsFds(s: Model.Fs, c: Call)
    requires Model.FdsOk(s)
    ensures Model.FdsOk(Step(s, c))
    ensures s.nextFd <= Step(s, c).nextFd && |s.files| <= |Step(s, c).files|
  {
  }

  function Run(s: Model.Fs, cs: seq<Call>): (r: Model.Fs)
    requires Model.FdsOk(s)
    ensures Model.FdsOk(r)
  {
    if cs == [] then s
    else
      var s1 := Run(s, cs[..|cs| - 1]);
      StepKeepsFds(s1, cs[|cs| - 1]);
      Step(s1, cs[|cs| - 1])
  }

  ghost predicate AllSafe(s: Model.Fs, cs: seq<Call>)
    requires Model.FdsOk(s)
  {
    forall i | 0 <= i < |cs| :: Safe(Run(s, cs[..i]), cs[i])
  }

  /** No rename of the run takes a name that another file has at that moment. */
  ghost predicate RenamesToFreeNames(s: Model.Fs, cs: seq<Call>)
    requires Model.FdsOk(s)
  {
    forall i | 0 <= i < |cs| && cs[i].Rename? ::
      cs[i].oldName == cs[i].newName || Model.Find(Run(s, cs[..i]).files, cs[i].newName) == |Run(s, cs[..i]).files|
  }

  lemma StepKeepsNames(s: Model.Fs, c: Call)
    requires Model.FdsOk(s) && Safe(s, c) && Model.NamesDistinct(s.files)
    requires c.Rename? ==> c.oldName == c.newName || Model.Find(s.files, c.newName) == |s.files|
    ensures Model.NamesDistinct(Step(s, c).files)
  {
    match c
    case Open(name) => Model.OpenKeepsNamesDistinct(s, name);
    case Rename(o, n) => Model.RenameKeepsNamesDistinct(s, o, n);
    case WriteAt(_, _, _) =>
    case Append(_, _) =>
    case Delete(_) =>
  }

  /** Over every safe run in which renames go to free names, a name stands for one file at most. */
  lemma {:induction false} RunKeepsNames(s: Model.Fs, cs: seq<Call>)
    requires Model.FdsOk(s) && Model.NamesDistinct(s.files)
    requires AllSafe(s, cs) && RenamesToFreeNames(s, cs)
    ensures Model.NamesDistinct(Run(s, cs).files)
    decreases |cs|
  {
    if cs != [] {
      var init := cs[..|cs| - 1];
      forall i | 0 <= i < |init|
        ensures init[..i] == cs[..i]
      {
      }
      RunKeepsNames(s, init);
      StepKeepsNames(Run(s, init), cs[|cs| - 1]);
    }
  }

  /** The objects a file system is made of. */
  ghost function Footprint(fs: FileSys): set<object>
    reads fs, fs.fds
  {
    {fs, fs.blocks, fs.entries, fs.fds} + set n | n in fs.fds.nodes
  }

  method Do(fs: FileSys, c: Call) returns (wild: bool)
    requires fs.Valid() && Safe(fs.Abs(), c)
    modifies Footprint(fs)
    ensures !wild ==> fs.Valid() && fs.Abs() == Step(old(fs.Abs()), c)
    ensures wild ==> c.Delete? && IsLong(old(fs.Abs()), c.fd)
    ensures fresh(Footprint(fs) - old(Footprint(fs)))
  {
    hide Inv, Model.FdsOk, StaysInside;
    wild := false;
    match c
    case Open(name) =>
      var fd := fs.FsOpen(name);
    case WriteAt(fd, index, buf) =>
      var ok := fs.FsWriteAt(fd, index, buf);
    case Append(fd, buf) =>
      var ok := fs.FsAppend(fd, buf);
    case Rename(o, n) =>
      var ok := fs.FsRename(o, n);
    case Delete(fd) =>
      if fd in fs.fds.View() {
        OneBlockStays(fs, fd);
      }
      wild := fs.FsDelete(fd);
  }

  lemma OneBlockStays(fs: FileSys, fd: int)
    requires fs.Valid() && !Model.Stale(fs.Abs(), fd) && fd in fs.fds.View()
    ensures Model.SizeOf(fs.Abs(), fd) <= BLOCK_DATA_SIZE ==>
              StaysInside(fs.State(), fs.layout, fs.fds.View()[fd])
  {
    InvIsGrowing(fs.State(), fs.layout, fs.fds.View()[fd]);
  }

  /**
   Every run of safe calls keeps the disk well formed and ends in the state the model computes; the files
   never hold more bytes than the blocks that are not free, and the file table is never full. The one thing
   that can stop a run, after n calls, is the delete of a file of several blocks that leaves the 129 blocks.
   */
  method Execute(fs: FileSys, cs: seq<Call>) returns (n: nat, wild: bool)
    requires fs.Valid() && AllSafe(fs.Abs(), cs)
    modifies Footprint(fs)
    ensures !wild ==> n == |cs| && fs.Valid() && fs.Abs() == Run(old(fs.Abs()), cs)
    ensures !wild ==> TotalSize(fs.Abs().files) <= 124 * (129 - fs.Abs().room)
    ensures !wild ==> |fs.Abs().files| + fs.Abs().room <= 129
    ensures wild ==> n < |cs| && cs[n].Delete? && IsLong(Run(old(fs.Abs()), cs[..n]), cs[n].fd)
  {
    hide Inv, Model.FdsOk, Step, Safe, Run, TotalSize;
    ghost var s := fs.Abs();
    RunStart(s);
    n := 0;
    while n < |cs|
      invariant n <= |cs| && fs.Valid() && fs.Abs() == Run(s, cs[..n])
      invariant fresh(Footprint(fs) - old(Footprint(fs)))
    {
      RunStep(s, cs, n);
      wild := Do(fs, cs[n]);
      if wild {
        return;
      }
      n := n + 1;
    }
    assert cs[..n] == cs;
    wild := false;
    FsCapacity(fs);
  }

  /** Does the file take more than one block? */
  predicate IsLong(s: Model.Fs, fd: int)
    requires Model.FdsOk(s)
  {
    BLOCK_DATA_SIZE < Model.SizeOf(s, fd)
  }

  lemma RunStart(s: Model.Fs)
    requires Model.FdsOk(s)
    ensures forall cs: seq<Call> :: Run(s, cs[..0]) == s
  {
  }

  lemma RunStep(s: Model.Fs, cs: seq<Call>, i: nat)
    requires Model.FdsOk(s) && i < |cs|
    ensures Run(s, cs[..i + 1]) == Step(Run(s, cs[..i]), cs[i])
  {
    assert cs[..i + 1][..i] == cs[..i];
  }

  lemma FsCapacity(fs: FileSys)
    requires fs.Valid()
    ensures TotalSize(fs.Abs().files) <= 124 * (129 - fs.Abs().room)
    ensures |fs.Abs().files| + fs.Abs().room <= 129
  {
    Capacity(fs.State(), fs.layout);
  }
}
