/** What kernel/fs.c and kernel/fd.c mean to their callers: named byte sequences reached through descriptors. */
module FileModel {
  import opened Common
  import opened Blocks
  import opened Disk

  const MAX_FILES: nat := 256     // MAX_FILE_SIZE: the length of the file table

  /** The longest buffer for which the block counts of fs_write_at, which are ints, are sure to be right. */
  const MAX_WRITE: nat := BLOCK_DATA_SIZE * (TWO31 - 1 - SLOTS)

  datatype File = File(name: string, content: seq<byte>)

  /**
   The files in table order (a deleted one keeps its place, without name and content), the entry each open
   descriptor stands for, the next descriptor, and the number of free blocks.
   */
  datatype Fs = Fs(files: seq<File>, fds: map<int, nat>, nextFd: int, room: nat)

  ghost predicate FdsOk(s: Fs) {
    && (forall fd | fd in s.fds :: 0 <= fd < s.nextFd && s.fds[fd] < |s.files|)
    && 0 <= s.nextFd
  }

  /** The first entry with this name, or the number of entries. */
  function Find(files: seq<File>, name: string): (i: nat)
    ensures i <= |files|
    ensures i < |files| ==> files[i].name == name
    ensures forall j | 0 <= j < i :: files[j].name != name
  {
    if files == [] || files[0].name == name then 0 else 1 + Find(files[1..], name)
  }

  function OpenEntry(s: Fs, i: nat): (Fs, int) {
    (s.(fds := s.fds[s.nextFd := i], nextFd := s.nextFd + 1), s.nextFd)
  }

  function Open(s: Fs, name: string): (Fs, int) {
    var i := Find(s.files, name);
    if |s.files| >= MAX_FILES then (s, -1)
    else if i < |s.files| then OpenEntry(s, i)
    else if s.room == 0 then (s, -1)
    else OpenEntry(s.(files := s.files + [File(name, [])], room := s.room - 1), |s.files|)
  }

  /** c with buf written over it from index on. */
  function Patch(c: seq<byte>, index: nat, buf: seq<byte>): seq<byte>
    requires index <= |c|
  {
    c[..index] + buf + if index + |buf| <= |c| then c[index + |buf|..] else []
  }

  /** The blocks a file of n bytes must gain before bytes up to end fit into it. */
  function Lacking(n: nat, end: nat): nat {
    var needed := (end + BLOCK_DATA_SIZE - 1) / BLOCK_DATA_SIZE;
    if needed > Need(n) then needed - Need(n) else 0
  }

  function WriteAt(s: Fs, fd: int, index: nat, buf: seq<byte>): (Fs, bool)
    requires FdsOk(s)
  {
    if fd !in s.fds then (s, false)
    else
      var f := s.files[s.fds[fd]];
      if index > |f.content| then (s, false)
      else
        var lacking := Lacking(|f.content|, index + |buf|);
        if lacking > s.room then (s, false)
        else (s.(files := s.files[s.fds[fd] := File(f.name, Patch(f.content, index, buf))],
                 room := s.room - lacking), true)
  }

  /** Some blocks are free, but not enough: the one case in which fs_write_at damages the file system. */
  predicate RunsOut(s: Fs, fd: int, index: nat, buf: seq<byte>)
    requires FdsOk(s)
  {
    && fd in s.fds
    && index <= |s.files[s.fds[fd]].content|
    && 0 < s.room < Lacking(|s.files[s.fds[fd]].content|, index + |buf|)
  }

  function SizeOf(s: Fs, fd: int): nat
    requires FdsOk(s)
  {
    if fd in s.fds then |s.files[s.fds[fd]].content| else 0
  }

  function Append(s: Fs, fd: int, buf: seq<byte>): (Fs, bool)
    requires FdsOk(s)
  {
    WriteAt(s, fd, SizeOf(s, fd), buf)
  }

  function Read(s: Fs, fd: int): Option<seq<byte>>
    requires FdsOk(s)
  {
    if fd in s.fds then Some(s.files[s.fds[fd]].content) else None
  }

  /**
   Where fs_delete stays inside the blocks: the entry is emptied, its descriptor closed, and its blocks are
   lost, all of them for a file of one block, all but the first for a longer one (which then is the only
   free block).
   */
  function Delete(s: Fs, fd: int): Fs
    requires FdsOk(s)
  {
    if fd !in s.fds then s
    else
      s.(files := s.files[s.fds[fd] := File("", [])], fds := s.fds - {fd},
         room := if SizeOf(s, fd) <= BLOCK_DATA_SIZE then s.room else 1)
  }

  function Rename(s: Fs, oldName: string, newName: string): (Fs, bool) {
    var i := Find(s.files, oldName);
    if i < |s.files| then (s.(files := s.files[i := s.files[i].(name := newName)]), true) else (s, false)
  }

  /** A descriptor whose file has been deleted through another one. */
  predicate Stale(s: Fs, fd: int)
    requires FdsOk(s)
  {
    fd in s.fds && s.files[s.fds[fd]].name == ""
  }

  // ----- laws

  /** Deleting a file makes exactly its other descriptors stale. */
  lemma StaleAfterDelete(s: Fs, fd: int, other: int)
    requires FdsOk(s) && fd in s.fds && other in s.fds && !Stale(s, other)
    ensures FdsOk(Delete(s, fd))
    ensures Stale(Delete(s, fd), other) <==> other != fd && s.fds[other] == s.fds[fd]
  {
  }

  /** What a successful write makes of the file, whoever reads it. */
  lemma ReadAfterWriteAt(s: Fs, fd: int, index: nat, buf: seq<byte>, other: int)
    requires FdsOk(s) && WriteAt(s, fd, index, buf).1 && other in s.fds
    ensures FdsOk(WriteAt(s, fd, index, buf).0)
    ensures var before := s.files[s.fds[other]].content;
      Read(WriteAt(s, fd, index, buf).0, other) ==
      Some(if s.fds[other] == s.fds[fd] then Patch(before, index, buf) else before)
  {
  }

  /** Opening a name twice gives two descriptors of one file: what is written through one is read through the other. */
  lemma TwoDescriptorsShareBytes(s: Fs, name: string, index: nat, buf: seq<byte>)
    requires FdsOk(s)
    requires Open(s, name).1 >= 0 && Open(Open(s, name).0, name).1 >= 0
    ensures var (s1, a) := Open(s, name); var (s2, b) := Open(s1, name);
      && FdsOk(s2) && a != b && a in s2.fds && b in s2.fds && s2.files == s1.files
      && Read(s2, a) == Read(s2, b)
      && (WriteAt(s2, a, index, buf).1 ==>
            Read(WriteAt(s2, a, index, buf).0, b) == Some(Patch(Read(s2, b).value, index, buf)))
  {
    var (s1, a) := Open(s, name);
    var (s2, b) := Open(s1, name);
    FindAfterOpen(s, name);
    assert s2.fds[a] == s2.fds[b];
    if WriteAt(s2, a, index, buf).1 {
      ReadAfterWriteAt(s2, a, index, buf, b);
    }
  }

  lemma FindUnique(files: seq<File>, name: string, i: nat)
    requires i <= |files| && (i < |files| ==> files[i].name == name)
    requires forall j | 0 <= j < i :: files[j].name != name
    ensures Find(files, name) == i
  {
  }

  lemma FindAfterOpen(s: Fs, name: string)
    requires FdsOk(s) && Open(s, name).1 >= 0
    ensures var s1 := Open(s, name).0; FdsOk(s1) && Find(s1.files, name) == Find(s.files, name) < |s1.files|
  {
    FindUnique(Open(s, name).0.files, name, Find(s.files, name));
  }

  /** Writing the same range twice keeps the second bytes only; writing a range back undoes a write inside the file. */
  lemma PatchOverwrites(c: seq<byte>, index: nat, x: seq<byte>, y: seq<byte>)
    requires index <= |c| && |x| == |y|
    ensures Patch(Patch(c, index, x), index, y) == Patch(c, index, y)
    ensures index + |x| <= |c| ==> Patch(Patch(c, index, x), index, c[index..index + |x|]) == c
  {
    var p := Patch(c, index, x);
    assert p[..index] == c[..index];
    if index + |x| <= |c| {
      assert p[index + |x|..] == c[index + |x|..];
      assert c == c[..index] + c[index..index + |x|] + c[index + |x|..];
    }
  }

  /** Appends add up: writing two pieces at the end is writing them joined. */
  lemma AppendsJoin(s: Fs, fd: int, x: seq<byte>, y: seq<byte>)
    requires FdsOk(s) && Append(s, fd, x).1
    requires FdsOk(Append(s, fd, x).0) && Append(Append(s, fd, x).0, fd, y).1
    ensures Append(s, fd, x + y) == Append(Append(s, fd, x).0, fd, y)
  {
    var e := s.fds[fd];
    var c := s.files[e].content;
    PatchAtEnd(c, x);
    PatchAtEnd(c + x, y);
    PatchAtEnd(c, x + y);
    assert c + x + y == c + (x + y);
    LackingAdds(|c|, |c| + |x|, |c| + |x| + |y|);
    hide Patch, Lacking;
    var f1, f2 := File(s.files[e].name, c + x), File(s.files[e].name, c + x + y);
    assert s.files[e := f1][e := f2] == s.files[e := f2];
  }

  lemma PatchAtEnd(c: seq<byte>, x: seq<byte>)
    ensures Patch(c, |c|, x) == c + x
  {
  }

  lemma LackingAdds(a: nat, b: nat, c: nat)
    requires a <= b <= c
    ensures Lacking(a, c) == Lacking(a, b) + Lacking(b, c)
  {
  }

  // ----- names

  /** No two live files have the same name. */
  ghost predicate NamesDistinct(files: seq<File>) {
    forall i, j | 0 <= i < j < |files| && files[i].name != "" :: files[i].name != files[j].name
  }

  /**
   fs_rename keeps names distinct exactly when it renames nothing, renames a file to itself, or the new name
   is free; the code does not look whether the new name is taken.
   */
  lemma RenameKeepsNamesDistinct(s: Fs, oldName: string, newName: string)
    requires NamesDistinct(s.files) && oldName != "" && newName != ""
    ensures NamesDistinct(Rename(s, oldName, newName).0.files) <==>
            (Find(s.files, oldName) == |s.files| || oldName == newName || Find(s.files, newName) == |s.files|)
  {
    var i, k := Find(s.files, oldName), Find(s.files, newName);
    var files := Rename(s, oldName, newName).0.files;
    if i < |s.files| {
      if oldName == newName {
        assert files == s.files;
      } else if k < |s.files| {
        assert files[i].name == files[k].name;
      }
    }
  }

  /** Such a rename moves one file in the directory and touches no other name. */
  lemma RenameMoves(s: Fs, oldName: string, newName: string)
    requires NamesDistinct(s.files) && oldName != "" && newName != ""
    requires Find(s.files, oldName) < |s.files| && Find(s.files, newName) == |s.files|
    ensures var files := Rename(s, oldName, newName).0.files;
      && Find(files, oldName) == |files|
      && Find(files, newName) == Find(s.files, oldName)
      && files[Find(files, newName)].content == s.files[Find(s.files, oldName)].content
      && (forall name | name != oldName && name != newName :: Find(files, name) == Find(s.files, name))
  {
    var i := Find(s.files, oldName);
    var files := Rename(s, oldName, newName).0.files;
    FindUnique(files, oldName, |files|);
    FindUnique(files, newName, i);
    forall name | name != oldName && name != newName
      ensures Find(files, name) == Find(s.files, name)
    {
      FindUnique(files, name, Find(s.files, name));
    }
  }

  /** Opening keeps names distinct: a file is created only under a name that is not in use. */
  lemma OpenKeepsNamesDistinct(s: Fs, name: string)
    requires NamesDistinct(s.files) && name != ""
    ensures NamesDistinct(Open(s, name).0.files)
  {
  }
}
