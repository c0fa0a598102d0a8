/**
 The operations of the abstract file system, said without their own definitions: when each succeeds, what
 every byte, name and descriptor is afterwards, and that a failure changes nothing.
 */
module FileLaws {
  import opened Common
  import opened Blocks
  import opened Disk
  import opened FileModel

  /** The least number of 124-byte blocks that hold the bytes, and one block for no bytes. */
  lemma NeedIsLeast(size: nat)
    ensures 1 <= Need(size) && size <= 124 * Need(size)
    ensures forall k: nat | 1 <= k && size <= 124 * k :: Need(size) <= k
  {
    forall k: nat | 1 <= k && size <= 124 * k
      ensures Need(size) <= k
    {
      if size > 0 {
        assert size + 123 < 124 * (k + 1);
      }
    }
  }

  function Exists(files: seq<File>, name: string): bool {
    exists i :: 0 <= i < |files| && files[i].name == name
  }

  lemma FindExists(files: seq<File>, name: string)
    ensures Exists(files, name) <==> Find(files, name) < |files|
  {
  }

  lemma LackingIsDifference(n: nat, end: nat)
    ensures Lacking(n, end) == Need(Max(n, end)) - Need(n)
  {
  }

  lemma PatchBytes(c: seq<byte>, index: nat, buf: seq<byte>)
    requires index <= |c|
    ensures |Patch(c, index, buf)| == Max(|c|, index + |buf|)
    ensures forall i | 0 <= i < |Patch(c, index, buf)| ::
              Patch(c, index, buf)[i] == if index <= i < index + |buf| then buf[i - index] else c[i]
  {
  }

  // ----- fs_write_at and fs_append

  /** An open descriptor, an index not past the end, and the blocks for n bytes from there on. */
  ghost predicate CanWrite(s: Fs, fd: int, index: nat, n: nat) {
    && FdsOk(s) && fd in s.fds && index <= |s.files[s.fds[fd]].content|
    && Need(Max(|s.files[s.fds[fd]].content|, index + n)) - Need(|s.files[s.fds[fd]].content|) <= s.room
  }

  /**
   fs_write_at succeeds if and only if the descriptor is open, the index is not past the end, and the blocks
   that the longer of the old file and the write needs more than the old file are free.
   */
  lemma WriteSucceeds(s: Fs, fd: int, index: nat, buf: seq<byte>)
    requires FdsOk(s)
    ensures WriteAt(s, fd, index, buf).1 <==>
              && fd in s.fds && index <= |s.files[s.fds[fd]].content|
              && Need(Max(|s.files[s.fds[fd]].content|, index + |buf|)) - Need(|s.files[s.fds[fd]].content|) <= s.room
    ensures CanWrite(s, fd, index, |buf|) <==> WriteAt(s, fd, index, buf).1
    ensures RunsOut(s, fd, index, buf) ==> !WriteAt(s, fd, index, buf).1
    ensures !WriteAt(s, fd, index, buf).1 ==> WriteAt(s, fd, index, buf).0 == s
  {
    if fd in s.fds {
      LackingIsDifference(|s.files[s.fds[fd]].content|, index + |buf|);
    }
  }

  /** Byte by byte: the written range holds the buffer, and nothing else of any file has changed. */
  lemma WrittenBytes(s: Fs, fd: int, index: nat, buf: seq<byte>)
    requires FdsOk(s) && WriteAt(s, fd, index, buf).1
    ensures fd in s.fds
    ensures var s' := WriteAt(s, fd, index, buf).0; var e := s.fds[fd]; var c := s.files[e].content;
      && s'.fds == s.fds && s'.nextFd == s.nextFd && |s'.files| == |s.files|
      && s'.room == s.room - (Need(Max(|c|, index + |buf|)) - Need(|c|))
      && s'.files[e].name == s.files[e].name
      && |s'.files[e].content| == Max(|c|, index + |buf|)
      && (forall i | 0 <= i < |s'.files[e].content| ::
            s'.files[e].content[i] == if index <= i < index + |buf| then buf[i - index] else c[i])
      && forall f | 0 <= f < |s.files| && f != e :: s'.files[f] == s.files[f]
  {
    LackingIsDifference(|s.files[s.fds[fd]].content|, index + |buf|);
    PatchBytes(s.files[s.fds[fd]].content, index, buf);
  }

  /** fs_append adds the buffer at the end, if and only if the blocks for it are free. */
  lemma AppendSucceeds(s: Fs, fd: int, buf: seq<byte>)
    requires FdsOk(s)
    ensures Append(s, fd, buf).1 <==>
              && fd in s.fds
              && Need(|s.files[s.fds[fd]].content| + |buf|) - Need(|s.files[s.fds[fd]].content|) <= s.room
    ensures Append(s, fd, buf).1 ==>
              && FdsOk(Append(s, fd, buf).0)
              && Read(Append(s, fd, buf).0, fd) == Some(s.files[s.fds[fd]].content + buf)
    ensures !Append(s, fd, buf).1 ==> Append(s, fd, buf).0 == s
  {
    WriteSucceeds(s, fd, SizeOf(s, fd), buf);
    if Append(s, fd, buf).1 {
      PatchAtEnd(s.files[s.fds[fd]].content, buf);
    }
  }

  // ----- fs_open

  /**
   fs_open succeeds if and only if the name exists or a block is free. The descriptor is new; an existing file
   is left as it is, and a new one is empty and comes last.
   */
  lemma OpenSucceeds(s: Fs, name: string)
    requires FdsOk(s) && |s.files| < 256
    ensures Open(s, name).1 >= 0 <==> Exists(s.files, name) || s.room > 0
    ensures Open(s, name).1 < 0 ==> Open(s, name) == (s, -1)
    ensures Open(s, name).1 >= 0 ==>
      var (s', fd) := Open(s, name);
      && fd !in s.fds && fd in s'.fds && s'.fds == s.fds[fd := s'.fds[fd]]
      && s'.fds[fd] < |s'.files| && s'.files[s'.fds[fd]].name == name
      && (forall i | 0 <= i < s'.fds[fd] :: s'.files[i].name != name)
      && if Exists(s.files, name) then s'.files == s.files && s'.room == s.room
         else s'.files == s.files + [File(name, [])] && s'.room == s.room - 1
  {
    FindExists(s.files, name);
  }

  // ----- fs_delete and fs_rename

  /** A deleted file cannot be read through its descriptor, nor found by its name unless another file has it. */
  lemma DeleteForgets(s: Fs, fd: int, name: string)
    requires FdsOk(s)
    ensures FdsOk(Delete(s, fd)) && Read(Delete(s, fd), fd) == None
    ensures forall other | other in s.fds && other != fd ::
              Read(Delete(s, fd), other) ==
              Some(if fd in s.fds && s.fds[other] == s.fds[fd] then [] else s.files[s.fds[other]].content)
    ensures name != "" ==>
              (Exists(Delete(s, fd).files, name) <==>
                exists i :: 0 <= i < |s.files| && s.files[i].name == name && !(fd in s.fds && i == s.fds[fd]))
    ensures Delete(s, fd).room == if fd in s.fds && 124 < |s.files[s.fds[fd]].content| then 1 else s.room
    ensures |Delete(s, fd).files| == |s.files| && Delete(s, fd).nextFd == s.nextFd
  {
    var files := Delete(s, fd).files;
    assert forall i | 0 <= i < |files| && name != "" ::
        files[i].name == name <==> s.files[i].name == name && !(fd in s.fds && i == s.fds[fd]);
  }

  /** fs_rename succeeds if and only if some entry has the old name; it changes the name of the first one only. */
  lemma RenameSucceeds(s: Fs, oldName: string, newName: string)
    ensures Rename(s, oldName, newName).1 <==> Exists(s.files, oldName)
    ensures !Rename(s, oldName, newName).1 ==> Rename(s, oldName, newName).0 == s
    ensures Rename(s, oldName, newName).1 ==>
      var s' := Rename(s, oldName, newName).0;
      && s'.fds == s.fds && s'.nextFd == s.nextFd && s'.room == s.room && |s'.files| == |s.files|
      && (forall i | 0 <= i < |s.files| :: s'.files[i].content == s.files[i].content)
      && exists e :: 0 <= e < |s.files| && s.files[e].name == oldName && s'.files[e].name == newName
                     && (forall j | 0 <= j < e :: s.files[j].name != oldName)
                     && forall i | 0 <= i < |s.files| && i != e :: s'.files[i].name == s.files[i].name
  {
    FindExists(s.files, oldName);
  }
}
