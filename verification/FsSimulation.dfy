/** The operations of TecnicoFS simulate the abstract file system, one by one and over whole runs. */
module FsSimulation {
  import opened FsBytes
  import opened FsModel
  import opened FsInv
  import opened AbsFs
  import opened FsRefine

  // ---------------------------------------------------------------------------------------------
  // tfs_write
  // ---------------------------------------------------------------------------------------------

  predicate MayWrite(s: Fs, h: int, buffer: seq<byte>) {
    FileOpen(s, h) ==> WriteFits(|buffer|, s.files[h].offset)
  }

  /** Only the contents of blocks, the sizes of files and the offset of handle h differ. */
  ghost predicate Advanced(s: Fs, s': Fs, h: int, n: int)
    requires Inv(s) && FileOpen(s, h)
  {
    && Inv(s') && RootDir(s') == RootDir(s) && s'.fileMap == s.fileMap
    && n >= 0 && s'.files == s.files[h := s.files[h].(offset := s.files[h].offset + n)]
  }

  /** A write leaves the root directory alone. */
  lemma WriteRoot(s: Fs, h: int, buffer: seq<byte>)
    requires Inv(s) && FileOpen(s, h) && MayWrite(s, h, buffer)
    requires Write(s, h, buffer).1 > 0 && Inv(Write(s, h, buffer).0)
    ensures Advanced(s, Write(s, h, buffer).0, h, Write(s, h, buffer).1)
  {
    WriteBlock(s, h);
  }

  lemma WriteContentsRel(s: Fs, a: Abs, h: int, buffer: seq<byte>, k: int, name: CString)
    requires Inv(s) && ContentsRel(s, a) && FileOpen(s, h) && MayWrite(s, h, buffer)
    requires Write(s, h, buffer).1 > 0 && Inv(Write(s, h, buffer).0)
    requires Names(RootDir(s), k, name) && RootDir(s)[k].inum == s.files[h].inum
    requires name in a.contents && s.files[h].offset <= |a.contents[name]|
    requires a.contents[name] == Content(s, s.files[h].inum)
    ensures var (s', n) := Write(s, h, buffer);
            && n <= |buffer| && RootDir(s') == RootDir(s)
            && ContentsRel(s', a.(contents := a.contents[name :=
                 Overwrite(a.contents[name], s.files[h].offset, buffer[..n])]))
  {
    var (s', n) := Write(s, h, buffer);
    var dir := RootDir(s);
    WriteRoot(s, h, buffer);
    WriteContents(s, h, buffer, s.files[h].inum);
    var content := Overwrite(a.contents[name], s.files[h].offset, buffer[..n]);
    forall j, m | Names(dir, j, m)
      ensures Content(s', dir[j].inum) == if j == k then content else Content(s, dir[j].inum)
    {
      assert Live(dir, j) && Live(dir, k);
      WriteContents(s, h, buffer, dir[j].inum);
    }
    ContentChanged(dir, s, s', a.contents, k, name, content);
  }

  /** How much is written, and when there is no block for it. */
  lemma WriteResult(s: Fs, a: Abs, h: int, buffer: seq<byte>)
    requires Inv(s) && Rel(s, a) && WellFormed(a) && MayWrite(s, h, buffer)
    ensures Write(s, h, buffer).1 == AbsWrite(a, LimitsOf(s), h, buffer).1
    ensures Write(s, h, buffer).1 <= 0 ==>
              Write(s, h, buffer).0 == s && AbsWrite(a, LimitsOf(s), h, buffer).0 == a
  {
    assert h in a.handles <==> FileOpen(s, h);
    if FileOpen(s, h) {
      var k, name := OpenedFile(s, a, h);
      WriteLengthExact(|buffer|, s.files[h].offset, s.blockSize);
      BlocksFull(s, a);
    }
  }

  lemma AbsWriteEffect(a: Abs, limits: Limits, h: int, buffer: seq<byte>)
    requires WellFormed(a) && AbsWrite(a, limits, h, buffer).1 > 0
    ensures var (a', n) := AbsWrite(a, limits, h, buffer);
            && h in a.handles && n <= |buffer|
            && var f := a.handles[h];
            && a'.contents == a.contents[f.name := Overwrite(a.contents[f.name], f.offset, buffer[..n])]
            && a'.handles == a.handles[h := Handle(f.name, f.offset + n)]
  {
  }

  lemma AdvancedRel(s: Fs, s': Fs, a: Abs, a': Abs, h: int, n: nat, k: int, name: CString)
    requires Inv(s) && Rel(s, a) && FileOpen(s, h) && Advanced(s, s', h, n)
    requires Names(RootDir(s), k, name) && RootDir(s)[k].inum == s.files[h].inum
    requires a'.handles == a.handles[h := Handle(name, s.files[h].offset + n)]
    ensures HandlesRel(s', a')
  {
    MoveRel(s, s', a, a', h, k, name, s.files[h].offset + n);
  }

  lemma WriteRel(s: Fs, a: Abs, h: int, buffer: seq<byte>)
    requires Inv(s) && Rel(s, a) && WellFormed(a) && MayWrite(s, h, buffer)
    requires Write(s, h, buffer).1 > 0 && Inv(Write(s, h, buffer).0)
    requires Write(s, h, buffer).1 == AbsWrite(a, LimitsOf(s), h, buffer).1
    ensures Rel(Write(s, h, buffer).0, AbsWrite(a, LimitsOf(s), h, buffer).0)
  {
    var s', n := Write(s, h, buffer).0, Write(s, h, buffer).1;
    var a' := AbsWrite(a, LimitsOf(s), h, buffer).0;
    AbsWriteEffect(a, LimitsOf(s), h, buffer);
    assert FileOpen(s, h);
    var k, name := OpenedFile(s, a, h);
    WriteContentsRel(s, a, h, buffer, k, name);
    WriteRoot(s, h, buffer);
    AdvancedRel(s, s', a, a', h, n, k, name);
  }

  lemma WriteRefines(s: Fs, a: Abs, h: int, buffer: seq<byte>)
    requires Inv(s) && Rel(s, a) && MayWrite(s, h, buffer)
    ensures WellFormed(a)
    ensures Inv(Write(s, h, buffer).0)
    ensures Rel(Write(s, h, buffer).0, AbsWrite(a, LimitsOf(s), h, buffer).0)
    ensures Write(s, h, buffer).1 == AbsWrite(a, LimitsOf(s), h, buffer).1
  {
    RelWellFormed(s, a);
    WriteInv(s, h, buffer);
    WriteResult(s, a, h, buffer);
    if Write(s, h, buffer).1 > 0 {
      WriteRel(s, a, h, buffer);
    }
  }

  // ---------------------------------------------------------------------------------------------
  // tfs_unlink
  // ---------------------------------------------------------------------------------------------

  /** Slot k is cleared and its inode freed; nothing else changes but the allocation of its block. */
  ghost predicate Unlinked(s: Fs, s': Fs, k: int)
    requires Inv(s) && Live(RootDir(s), k)
  {
    && Inv(s')
    && RootDir(s') == RootDir(s)[k := Entry(Zeros(MAX_FILE_NAME), -1)]
    && s'.inodes == s.inodes && s'.files == s.files && s'.fileMap == s.fileMap
    && |s'.blocks| == |s.blocks|
    && forall b :: 0 <= b < |s.blocks| && b != s.inodes[ROOT].block ==> s'.blocks[b] == s.blocks[b]
  }

  /** An entry disappears, and its file with it. */
  lemma ContentRemoved(
    dir: seq<Entry>, s: Fs, s': Fs, contents: map<CString, seq<byte>>, k: int, name: CString)
    requires NamesInv(dir) && ContentsAre(dir, s, contents) && Names(dir, k, name)
    requires forall j, m :: Names(dir, j, m) ==> Content(s', dir[j].inum) == Content(s, dir[j].inum)
    ensures ContentsAre(dir[k := Entry(Zeros(MAX_FILE_NAME), -1)], s', contents - {name})
  {
    var dir' := dir[k := Entry(Zeros(MAX_FILE_NAME), -1)];
    forall j, m | Names(dir', j, m)
      ensures m in contents - {name} && (contents - {name})[m] == Content(s', dir'[j].inum)
    {
      assert Names(dir, j, m);
      if m == name {
        NameSlotUnique(dir, j, k, name);
      }
    }
    forall m | m in contents - {name} ensures IsName(dir', m) {
      assert IsName(dir, m);
      var j :| Names(dir, j, m);
      if j == k {
        SlotNameUnique(dir, k, m, name);
      }
      assert Names(dir', j, m);
    }
  }

  lemma UnlinkRel(s: Fs, s': Fs, a: Abs, k: int, name: CString)
    requires Inv(s) && Rel(s, a) && Names(RootDir(s), k, name) && Unlinked(s, s', k)
    ensures Rel(s', a.(contents := a.contents - {name}))
  {
    var dir := RootDir(s);
    forall j, m | Names(dir, j, m) ensures Content(s', dir[j].inum) == Content(s, dir[j].inum) {
      assert Live(dir, j);
      SameContent(s, s', dir[j].inum);
    }
    ContentRemoved(dir, s, s', a.contents, k, name);
    HandlesKept(dir, s, s', a.handles, k, Entry(Zeros(MAX_FILE_NAME), -1));
  }

  /** The lookup of a name in the directory finds its inode. */
  lemma NamedInum(s: Fs, k: int, name: CString)
    requires TablesInv(s) && Names(RootDir(s), k, name)
    ensures FindInDir(s, name) == RootDir(s)[k].inum > 0 && InodeTaken(s, RootDir(s)[k].inum)
  {
    var dir := RootDir(s);
    FindSlotExact(dir, name);
    var j := FindSlot(dir, name);
    assert j >= 0;
    NameSlotUnique(dir, j, k, name);
    assert Live(dir, k);
  }

  /** What the two halves of a successful tfs_unlink change. */
  lemma UnlinkState(s: Fs, k: nat, path: Path)
    requires TablesInv(s) && ValidPathname(path) && Names(RootDir(s), k, FileName(path))
    ensures var (s', r) := Unlink(s, path);
            && r == 0 && TablesInv(s')
            && RootDir(s') == RootDir(s)[k := Entry(Zeros(MAX_FILE_NAME), -1)]
            && s'.inodes == s.inodes && s'.files == s.files && s'.fileMap == s.fileMap
            && InodeTaken(s, RootDir(s)[k].inum)
            && s'.inodeMap == s.inodeMap[RootDir(s)[k].inum := FREE]
            && |s'.blocks| == |s.blocks|
            && forall b :: 0 <= b < |s.blocks| && b != s.inodes[ROOT].block ==> s'.blocks[b] == s.blocks[b]
  {
    NamedInum(s, k, FileName(path));
    var i := RootDir(s)[k].inum;
    DeleteBlocks(s, i);
    UnlinkTablesInv(s, k, FileName(path));
    MatchSlotExact(RootDir(s), k, FileName(path));
    RootEntrySet(InodeDelete(s, i), k, Entry(Zeros(MAX_FILE_NAME), -1));
  }

  lemma NobodyHasItOpen(s: Fs, a: Abs, k: int, path: Path)
    requires Inv(s) && HandlesRel(s, a) && MayUnlink(a, path) && ValidPathname(path)
    requires Names(RootDir(s), k, FileName(path))
    ensures forall h :: FileOpen(s, h) ==> s.files[h].inum != RootDir(s)[k].inum
  {
    forall h | FileOpen(s, h) ensures s.files[h].inum != RootDir(s)[k].inum {
      assert h in a.handles;
    }
  }

  lemma UnlinkDoes(s: Fs, k: nat, path: Path)
    requires Inv(s) && ValidPathname(path) && Names(RootDir(s), k, FileName(path))
    requires forall h :: FileOpen(s, h) ==> s.files[h].inum != RootDir(s)[k].inum
    ensures Unlinked(s, Unlink(s, path).0, k) && Unlink(s, path).1 == 0
  {
    UnlinkState(s, k, path);
    var s' := Unlink(s, path).0;
    forall h | FileOpen(s', h) ensures FileOpen(s, h) {}
  }

  lemma UnlinkRefines(s: Fs, a: Abs, path: Path)
    requires Inv(s) && Rel(s, a) && MayUnlink(a, path)
    ensures Inv(Unlink(s, path).0)
    ensures Rel(Unlink(s, path).0, AbsUnlink(a, path).0)
    ensures Unlink(s, path).1 == AbsUnlink(a, path).1
  {
    if ValidPathname(path) {
      var k := LookupRefines(s, a, FileName(path));
      if FileName(path) in a.contents {
        NobodyHasItOpen(s, a, k, path);
        UnlinkDoes(s, k, path);
        UnlinkRel(s, Unlink(s, path).0, a, k, FileName(path));
      }
    }
  }

  // ---------------------------------------------------------------------------------------------
  // tfs_open
  // ---------------------------------------------------------------------------------------------

  lemma TruncateRefines(s: Fs, a: Abs, path: Path, k: nat)
    requires Inv(s) && Rel(s, a) && ValidPathname(path) && MayTruncate(a, path)
    requires Names(RootDir(s), k, FileName(path))
    requires RootDir(s)[k].inum > 0 && InodeTaken(s, RootDir(s)[k].inum)
    ensures var s' := Truncate(s, RootDir(s)[k].inum);
            && Inv(s') && Rel(s', a.(contents := a.contents[FileName(path) := []]))
            && RootDir(s') == RootDir(s) && LimitsOf(s') == LimitsOf(s)
            && InodeTaken(s', RootDir(s)[k].inum) && s'.inodes[RootDir(s)[k].inum].size == 0
  {
    var i := RootDir(s)[k].inum;
    forall h | FileOpen(s, h) && s.files[h].inum == i ensures s.files[h].offset == 0 {
      assert h in a.handles;
    }
    TruncateInv(s, i);
    TruncateRel(s, a, k, FileName(path));
  }

  lemma OpenTruncatedRefines(s: Fs, a: Abs, path: Path, mode: Mode)
    requires Inv(s) && Rel(s, a) && ValidPathname(path) && FileName(path) in a.contents
    requires mode.trunc && MayTruncate(a, path)
    ensures Inv(Open(s, path, mode).0)
    ensures Rel(Open(s, path, mode).0, AbsOpen(a, LimitsOf(s), path, mode).0)
    ensures Open(s, path, mode).1 == AbsOpen(a, LimitsOf(s), path, mode).1
  {
    var name := FileName(path);
    var k := LookupRefines(s, a, name);
    TruncateRefines(s, a, path, k);
    OpenFileRel(Truncate(s, RootDir(s)[k].inum), a.(contents := a.contents[name := []]), k, name, 0);
  }

  lemma OpenUntouchedRefines(s: Fs, a: Abs, path: Path, mode: Mode)
    requires Inv(s) && Rel(s, a) && ValidPathname(path) && FileName(path) in a.contents && !mode.trunc
    ensures Inv(Open(s, path, mode).0)
    ensures Rel(Open(s, path, mode).0, AbsOpen(a, LimitsOf(s), path, mode).0)
    ensures Open(s, path, mode).1 == AbsOpen(a, LimitsOf(s), path, mode).1
  {
    var name := FileName(path);
    var k := LookupRefines(s, a, name);
    var i := RootDir(s)[k].inum;
    ContentLength(s, i);
    assert a.(contents := a.contents[name := a.contents[name]]) == a;
    OpenFileRel(s, a, k, name, if mode.append then s.inodes[i].size else 0);
  }

  /** Opening a file that exists. */
  lemma OpenExistingRefines(s: Fs, a: Abs, path: Path, mode: Mode)
    requires Inv(s) && Rel(s, a) && ValidPathname(path) && FileName(path) in a.contents
    requires mode.trunc ==> MayTruncate(a, path)
    ensures Inv(Open(s, path, mode).0)
    ensures Rel(Open(s, path, mode).0, AbsOpen(a, LimitsOf(s), path, mode).0)
    ensures Open(s, path, mode).1 == AbsOpen(a, LimitsOf(s), path, mode).1
  {
    if mode.trunc {
      OpenTruncatedRefines(s, a, path, mode);
    } else {
      OpenUntouchedRefines(s, a, path, mode);
    }
  }

  /** The inode table is full, or the name is too long, or the directory is full. */
  lemma CreateFails(s: Fs, a: Abs, path: Path, mode: Mode)
    requires Inv(s) && Rel(s, a) && ValidPathname(path) && FileName(path) !in a.contents && mode.creat
    requires || |a.contents| + 1 == |s.inodes|
             || |FileName(path)| >= MAX_FILE_NAME
             || |a.contents| == s.blockSize / ENTRY_SIZE
    ensures Open(s, path, mode).1 == -1
    ensures Inv(Open(s, path, mode).0) && Rel(Open(s, path, mode).0, a)
  {
    var name := FileName(path);
    var k := LookupRefines(s, a, name);
    InodesFull(s, a);
    DirectoryFull(s, a);
    if FirstFree(s.inodeMap) != -1 {
      CreatedRoot(s);
      CreateUndone(s);
      UndoneRel(s, Open(s, path, mode).0, a, FirstFree(s.inodeMap));
    }
  }

  /** The file is there, empty, before a handle is sought for it. */
  lemma CreatedRefines(s: Fs, a: Abs, name: CString)
    requires Inv(s) && Rel(s, a) && name != [] && name !in a.contents && |name| < MAX_FILE_NAME
    requires |a.contents| + 1 != |s.inodes| && |a.contents| != s.blockSize / ENTRY_SIZE
    ensures var (s1, i) := InodeCreate(s);
            && FindInDir(s, name) == -1 && i > 0 && Shape(s1) && RootInv(s1)
            && var (s2, ok) := AddDirEntry(s1, name, i);
            && ok && Inv(s2) && Rel(s2, a.(contents := a.contents[name := []]))
            && LimitsOf(s2) == LimitsOf(s)
            && Names(RootDir(s2), FreeSlot(RootDir(s)), name)
            && RootDir(s2)[FreeSlot(RootDir(s))].inum == i
            && InodeTaken(s2, i) && s2.inodes[i].size == 0
  {
    var found := LookupRefines(s, a, name);
    InodesFull(s, a);
    DirectoryFull(s, a);
    CreateInv(s, name);
    var k := FreeSlot(RootDir(s));
    var (s1, i) := InodeCreate(s);
    var s2 := AddDirEntry(s1, name, i).0;
    CreatedRoot(s);
    RootEntrySet(s1, k, Entry(Pad(name, MAX_FILE_NAME), i));
    CreateRel(s, s2, a, k, i, name);
  }

  lemma CreateSucceeds(s: Fs, a: Abs, path: Path, mode: Mode)
    requires Inv(s) && Rel(s, a) && ValidPathname(path) && FileName(path) !in a.contents && mode.creat
    requires |a.contents| + 1 != |s.inodes|
    requires |FileName(path)| < MAX_FILE_NAME
    requires |a.contents| != s.blockSize / ENTRY_SIZE
    ensures Inv(Open(s, path, mode).0)
    ensures Rel(Open(s, path, mode).0, AbsOpen(a, LimitsOf(s), path, mode).0)
    ensures Open(s, path, mode).1 == AbsOpen(a, LimitsOf(s), path, mode).1
  {
    var name := FileName(path);
    CreatedRefines(s, a, name);
    var (s1, i) := InodeCreate(s);
    var s2 := AddDirEntry(s1, name, i).0;
    OpenFileRel(s2, a.(contents := a.contents[name := []]), FreeSlot(RootDir(s)), name, 0);
  }

  lemma OpenRefines(s: Fs, a: Abs, path: Path, mode: Mode)
    requires Inv(s) && Rel(s, a)
    requires mode.trunc ==> MayTruncate(a, path)
    ensures Inv(Open(s, path, mode).0)
    ensures Rel(Open(s, path, mode).0, AbsOpen(a, LimitsOf(s), path, mode).0)
    ensures Open(s, path, mode).1 == AbsOpen(a, LimitsOf(s), path, mode).1
  {
    if ValidPathname(path) {
      var name := FileName(path);
      if name in a.contents {
        OpenExistingRefines(s, a, path, mode);
      } else if mode.creat {
        if || |a.contents| + 1 == |s.inodes| || |name| >= MAX_FILE_NAME
           || |a.contents| == s.blockSize / ENTRY_SIZE {
          CreateFails(s, a, path, mode);
        } else {
          CreateSucceeds(s, a, path, mode);
        }
      } else {
        var k := LookupRefines(s, a, name);
      }
    }
  }

  // ---------------------------------------------------------------------------------------------
  // Exactly when operations fail
  // ---------------------------------------------------------------------------------------------

  /** Opening a new file fails exactly when there is no inode, no directory slot or no handle left, or
      the name is too long; and even then the file may have been created. */
  lemma CreateFailsIff(s: Fs, a: Abs, path: Path, mode: Mode)
    requires Inv(s) && Rel(s, a) && ValidPathname(path) && FileName(path) !in a.contents && mode.creat
    ensures Open(s, path, mode).1 == -1 <==>
            || |a.contents| + 1 == |s.inodes|
            || |FileName(path)| >= MAX_FILE_NAME
            || |a.contents| == s.blockSize / ENTRY_SIZE
            || |a.handles| == |s.files|
    ensures Open(s, path, mode).1 >= -1
  {
    if |a.contents| + 1 == |s.inodes| || |FileName(path)| >= MAX_FILE_NAME
       || |a.contents| == s.blockSize / ENTRY_SIZE {
      CreateFails(s, a, path, mode);
    } else {
      CreateSucceeds(s, a, path, mode);
    }
  }

  /** A write to an open file fails exactly when it has something to write, the file is empty and the
      other files with data and the root use all blocks; it then changes nothing. */
  lemma WriteFailsIff(s: Fs, a: Abs, h: int, buffer: seq<byte>)
    requires Inv(s) && Rel(s, a) && FileOpen(s, h) && MayWrite(s, h, buffer)
    ensures Write(s, h, buffer).1 == -1 <==>
            && buffer != [] && Content(s, s.files[h].inum) == []
            && |NonEmpty(a)| + 1 == |s.blocks|
    ensures Write(s, h, buffer).1 == -1 ==> Write(s, h, buffer).0 == s
  {
    var k, name := OpenedFile(s, a, h);
    BlocksFull(s, a);
    WriteLengthExact(|buffer|, s.files[h].offset, s.blockSize);
  }

  // ---------------------------------------------------------------------------------------------
  // Exactly what callers must not do
  // ---------------------------------------------------------------------------------------------

  /** Truncating keeps the invariant exactly when no handle is past the file's first byte. */
  lemma TruncateExact(s: Fs, i: nat)
    requires Inv(s) && 0 < i && InodeTaken(s, i)
    ensures Inv(Truncate(s, i)) <==>
            forall h :: FileOpen(s, h) && s.files[h].inum == i ==> s.files[h].offset == 0
  {
    var s' := Truncate(s, i);
    if forall h :: FileOpen(s, h) && s.files[h].inum == i ==> s.files[h].offset == 0 {
      TruncateInv(s, i);
    } else {
      var h :| FileOpen(s, h) && s.files[h].inum == i && s.files[h].offset != 0;
      assert FileOpen(s', h) && s'.files[h] == s.files[h] && s'.inodes[i].size == 0;
    }
  }

  /** What a handle on a file reads once the file has been truncated.  There is nothing to read, and
      nothing is read exactly when the handle is at the start.  Any other handle reads as much as it
      asks for: up to the end of the block it gets what the file held before, from a block that may
      belong to another file by then, and beyond it the read leaves the block. */
  lemma ReadTruncated(s: Fs, i: nat, h: int, length: nat)
    requires Inv(s) && 0 < i && InodeTaken(s, i) && FileOpen(s, h) && s.files[h].inum == i && 0 < length
    ensures var s', offset := Truncate(s, i), s.files[h].offset;
            && Content(s', i) == []
            && (Readable(s', h, length) <==> offset == 0 || offset + length <= s.blockSize)
            && (Readable(s', h, length) ==> (Read(s', h, length).1 == 0 <==> offset == 0))
            && (Readable(s', h, length) && offset > 0 ==>
                  && Read(s', h, length).1 == length
                  && s'.blockMap[s.inodes[i].block] == FREE
                  && Read(s', h, length).2 == s.blocks[s.inodes[i].block][offset..offset + length])
  {
    if s.files[h].offset + length <= SIZE_MODULUS {
      ReadLengthExact(0, s.files[h].offset, length);
    }
  }

  /** Unlinking keeps the invariant exactly when no handle is open on the file.  Any such handle stays
      open, on an inode that is free to become another file's. */
  lemma UnlinkExact(s: Fs, k: nat, path: Path)
    requires Inv(s) && ValidPathname(path) && Names(RootDir(s), k, FileName(path))
    ensures Inv(Unlink(s, path).0) <==>
            forall h :: FileOpen(s, h) ==> s.files[h].inum != RootDir(s)[k].inum
    ensures forall h :: FileOpen(s, h) && s.files[h].inum == RootDir(s)[k].inum ==>
              var s' := Unlink(s, path).0;
              FileOpen(s', h) && s'.files[h] == s.files[h] && s'.inodeMap[s'.files[h].inum] == FREE
  {
    var s' := Unlink(s, path).0;
    UnlinkState(s, k, path);
    if forall h :: FileOpen(s, h) ==> s.files[h].inum != RootDir(s)[k].inum {
      UnlinkDoes(s, k, path);
    } else {
      var h :| FileOpen(s, h) && s.files[h].inum == RootDir(s)[k].inum;
      assert FileOpen(s', h) && s'.files[h] == s.files[h];
    }
  }

  /** Truncating a file when it is opened, under a handle that is not at its start. */
  lemma OpenBreaks(s: Fs, path: Path, mode: Mode, k: int, h: int)
    requires Inv(s) && ValidPathname(path) && Names(RootDir(s), k, FileName(path)) && mode.trunc
    requires FileOpen(s, h) && s.files[h].inum == RootDir(s)[k].inum && s.files[h].offset != 0
    ensures !Inv(Open(s, path, mode).0)
  {
    NamedInum(s, k, FileName(path));
    var i := RootDir(s)[k].inum;
    var s1 := Truncate(s, i);
    var s' := Open(s, path, mode).0;
    assert s'.inodes == s1.inodes && s1.inodes[i].size == 0;
    assert FileOpen(s', h) && s'.files[h] == s.files[h];
  }

  /** In terms of files and handles: opening keeps the invariant exactly when it does not truncate a
      file under a handle that is not at its start. */
  lemma OpenExact(s: Fs, a: Abs, path: Path, mode: Mode)
    requires Inv(s) && Rel(s, a)
    ensures Inv(Open(s, path, mode).0) <==> (mode.trunc ==> MayTruncate(a, path))
  {
    if mode.trunc ==> MayTruncate(a, path) {
      OpenRefines(s, a, path, mode);
    } else {
      var h :| h in a.handles && a.handles[h].name == FileName(path) && a.handles[h].offset != 0;
      var k, name := OpenedFile(s, a, h);
      OpenBreaks(s, path, mode, k, h);
    }
  }

  /** And unlinking exactly when the file is not open. */
  lemma UnlinkKeepsIff(s: Fs, a: Abs, path: Path)
    requires Inv(s) && Rel(s, a)
    ensures Inv(Unlink(s, path).0) <==> MayUnlink(a, path)
  {
    if MayUnlink(a, path) {
      UnlinkRefines(s, a, path);
    } else {
      var h :| h in a.handles && a.handles[h].name == FileName(path);
      var k, name := OpenedFile(s, a, h);
      UnlinkExact(s, k, path);
    }
  }
}
