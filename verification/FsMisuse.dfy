/** What the preconditions are for: on a newly formatted file system, a truncation under a handle in use
    and an unlink of an open file, with what the handle does afterwards, and a write whose length wraps. */
module FsMisuse {
  import opened FsBytes
  import opened FsModel
  import opened FsInv
  import opened AbsFs
  import opened FsRefine
  import opened FsSimulation
  import opened FsRuns

  const FIRST: Path := Str([47, 97])
  const SECOND: Path := Str([47, 98])
  const CREATE: Mode := Mode(true, false, false)
  const TRUNCATE: Mode := Mode(false, true, false)

  /** Room for one file and one handle. */
  ghost predicate Roomy(s: Fs) {
    Formatted(s) && |s.inodes| > 1 && |s.blocks| > 1 && |s.files| > 0 && s.blockSize >= ENTRY_SIZE
  }

  /** The first file is created and opened. */
  lemma FirstOpened(s: Fs) returns (a: Abs)
    requires Roomy(s)
    ensures Inv(s)
    ensures var (s1, h) := Open(s, FIRST, CREATE);
            && h >= 0 && Inv(s1) && Rel(s1, a) && WellFormed(a) && LimitsOf(s1) == LimitsOf(s) && FileOpen(s1, h)
            && a == Abs(map[FileName(FIRST) := []], map[h := Handle(FileName(FIRST), 0)])
  {
    FormattedIsEmpty(s);
    OpenRefines(s, EMPTY, FIRST, CREATE);
    OpenLimits(s, FIRST, CREATE);
    a := AbsOpen(EMPTY, LimitsOf(s), FIRST, CREATE).0;
    RelWellFormed(Open(s, FIRST, CREATE).0, a);
  }

  // ---------------------------------------------------------------------------------------------
  // Truncating under a handle
  // ---------------------------------------------------------------------------------------------

  lemma OneByteWritten(s: Fs, a: Abs, h: int, x: byte) returns (k: int)
    requires Inv(s) && Rel(s, a) && FileOpen(s, h) && |s.blocks| > 1 && s.blockSize >= ENTRY_SIZE
    requires a == Abs(map[FileName(FIRST) := []], map[h := Handle(FileName(FIRST), 0)])
    ensures MayWrite(s, h, [x])
    ensures var (s', n) := Write(s, h, [x]);
            && n == 1 && Inv(s') && FileOpen(s', h) && s'.files[h].offset == 1 && s'.blockSize == s.blockSize
            && Names(RootDir(s'), k, FileName(FIRST)) && RootDir(s')[k].inum == s'.files[h].inum
  {
    var p, name := OpenedFile(s, a, h);
    WriteRefines(s, a, h, [x]);
    var s', a' := Write(s, h, [x]).0, AbsWrite(a, LimitsOf(s), h, [x]).0;
    assert a'.handles[h] == Handle(FileName(FIRST), 1);
    assert h in a'.handles;
    k, name := OpenedFile(s', a', h);
  }

  /** Opening the file to truncate it, whether or not a handle is left. */
  lemma TruncatedOpen(s: Fs, k: int, h: int)
    requires Inv(s) && Names(RootDir(s), k, FileName(FIRST)) && FileOpen(s, h)
    requires RootDir(s)[k].inum == s.files[h].inum && s.files[h].offset == 1 < s.blockSize
    ensures var s' := Open(s, FIRST, TRUNCATE).0;
            && FileOpen(s', h) && s'.files[h] == s.files[h] && s'.inodes[s'.files[h].inum].size == 0
            && Readable(s', h, 1) && Read(s', h, 1).1 == 1 && !Inv(s')
  {
    NamedInum(s, k, FileName(FIRST));
    var i := s.files[h].inum;
    ReadTruncated(s, i, h, 1);
    var s1 := Truncate(s, i);
    var s' := Open(s, FIRST, TRUNCATE).0;
    assert s' == AddOpenFile(s1, i, 0).0;
    assert s'.inodes == s1.inodes && s'.blocks == s1.blocks;
  }

  /** Create a file, write one byte through the handle, and open the file again to truncate it.  The
      file is now empty, and the first handle still reads one byte from it. */
  lemma TruncateUnderHandle(s: Fs, x: byte)
    requires Roomy(s)
    ensures Inv(s)
    ensures var (s1, h) := Open(s, FIRST, CREATE);
            && Inv(s1) && MayWrite(s1, h, [x])
            && var (s2, n) := Write(s1, h, [x]);
            && n == 1 && Inv(s2)
            && var s3 := Open(s2, FIRST, TRUNCATE).0;
            && FileOpen(s3, h) && Content(s3, s3.files[h].inum) == []
            && Readable(s3, h, 1) && Read(s3, h, 1).1 == 1 && !Inv(s3)
  {
    var a := FirstOpened(s);
    var (s1, h) := Open(s, FIRST, CREATE);
    var k := OneByteWritten(s1, a, h, x);
    TruncatedOpen(Write(s1, h, [x]).0, k, h);
  }

  // ---------------------------------------------------------------------------------------------
  // Unlinking an open file
  // ---------------------------------------------------------------------------------------------

  /** The tables with the first file in them. */
  ghost predicate FirstTables(s: Fs, s1: Fs, h: int) {
    var i := FirstFree(s.inodeMap);
    && Inv(s1) && FileOpen(s1, h) && s1.files[h] == OpenFile(i, 0) && (forall g :: FileOpen(s1, g) ==> g == h)
    && 0 < i < |s.inodeMap| && s1.inodeMap == s.inodeMap[i := TAKEN] && s1.inodes[i].size == 0
    && s1.blockMap == s.blockMap && LimitsOf(s1) == LimitsOf(s)
  }

  lemma FirstTablesHold(s: Fs)
    requires Roomy(s)
    ensures Inv(s)
    ensures FirstTables(s, Open(s, FIRST, CREATE).0, Open(s, FIRST, CREATE).1)
  {
    var a := FirstOpened(s);
    var name := FileName(FIRST);
    var found := LookupRefines(s, EMPTY, name) by { FormattedIsEmpty(s); }
    CreatedRoot(s);
  }

  /** The only live entry is that of the only file. */
  lemma OnlyLive(s: Fs, s1: Fs, h: int, j: int, k: int)
    requires Formatted(s) && FirstTables(s, s1, h)
    requires Live(RootDir(s1), j) && Live(RootDir(s1), k)
    ensures j == k && RootDir(s1)[k].inum == FirstFree(s.inodeMap)
  {
    assert s1.inodeMap[RootDir(s1)[j].inum] == s1.inodeMap[RootDir(s1)[k].inum] == TAKEN;
  }

  /** The tables once the first file has been unlinked: as they were, but for the handle. */
  ghost predicate StaleTables(s: Fs, s2: Fs, h: int) {
    && 0 < FirstFree(s.inodeMap)
    && TablesInv(s2) && !Inv(s2) && FileOpen(s2, h) && s2.files[h] == OpenFile(FirstFree(s.inodeMap), 0)
    && (forall g :: FileOpen(s2, g) ==> g == h)
    && s2.inodeMap == s.inodeMap && s2.blockMap == s.blockMap && LimitsOf(s2) == LimitsOf(s)
    && forall j :: !Live(RootDir(s2), j)
  }

  lemma UnlinkedFirst(s: Fs, s1: Fs, h: int, k: nat)
    requires Formatted(s) && FirstTables(s, s1, h) && Names(RootDir(s1), k, FileName(FIRST))
    ensures Unlink(s1, FIRST).1 == 0 && StaleTables(s, Unlink(s1, FIRST).0, h)
  {
    OnlyLive(s, s1, h, k, k);
    UnlinkExact(s1, k, FIRST);
    UnlinkState(s1, k, FIRST);
    var s2 := Unlink(s1, FIRST).0;
    forall j ensures !Live(RootDir(s2), j) {
      if Live(RootDir(s1), j) {
        OnlyLive(s, s1, h, j, k);
      }
    }
    assert s.inodeMap[FirstFree(s.inodeMap)] == FREE;
    assert s2.inodeMap == s.inodeMap;
  }

  lemma NothingFound(s: Fs, s2: Fs, h: int, name: CString)
    requires StaleTables(s, s2, h) && name != []
    ensures forall j :: !Names(RootDir(s2), j, name)
    ensures FindInDir(s2, name) == -1
    ensures RootDir(s2) != [] ==> FreeSlot(RootDir(s2)) == 0
  {
  }

  /** The second file gets the inode of the first. */
  lemma SecondEntered(s: Fs, s2: Fs, h: int)
    requires StaleTables(s, s2, h) && RootDir(s2) != []
    ensures var (s3, i) := InodeCreate(s2);
            && i == FirstFree(s.inodeMap) && Shape(s3) && RootInv(s3)
            && var (s4, ok) := AddDirEntry(s3, FileName(SECOND), i);
            && ok && Inv(s4) && InodeTaken(s4, i) && s4.inodes[i].size == 0
            && Names(RootDir(s4), 0, FileName(SECOND)) && RootDir(s4)[0].inum == i
            && s4.files == s2.files && s4.fileMap == s2.fileMap && s4.blockMap == s.blockMap
            && s4.blockSize == s.blockSize
  {
    NothingFound(s, s2, h, FileName(SECOND));
    CreateTablesInv(s2, FileName(SECOND));
  }

  /** A new file gets the inode the stale handle is on, and with it the handle. */
  lemma SecondCreated(s: Fs, s2: Fs, h: int)
    requires StaleTables(s, s2, h) && RootDir(s2) != []
    ensures var s5 := Open(s2, SECOND, CREATE).0;
            && Inv(s5) && FileOpen(s5, h) && s5.files[h] == s2.files[h]
            && s5.blockMap == s.blockMap && s5.blockSize == s.blockSize && s5.inodes[s5.files[h].inum].size == 0
            && Names(RootDir(s5), 0, FileName(SECOND)) && RootDir(s5)[0].inum == s5.files[h].inum
  {
    NothingFound(s, s2, h, FileName(SECOND));
    SecondEntered(s, s2, h);
    var (s3, i) := InodeCreate(s2);
    AddOpenFileInv(AddDirEntry(s3, FileName(SECOND), i).0, i, 0);
  }

  /** What is written through the handle on the first file ends up in the second. */
  lemma StaleWrite(s5: Fs, h: int, x: byte)
    requires Inv(s5) && FileOpen(s5, h) && s5.files[h].offset == 0 && s5.blockSize >= ENTRY_SIZE
    requires Names(RootDir(s5), 0, FileName(SECOND)) && RootDir(s5)[0].inum == s5.files[h].inum
    requires s5.inodes[s5.files[h].inum].size == 0 && FirstFree(s5.blockMap) != -1
    ensures MayWrite(s5, h, [x])
    ensures var (s6, n) := Write(s5, h, [x]);
            && n == 1 && Inv(s6) && FindInDir(s6, FileName(SECOND)) > 0
            && Content(s6, FindInDir(s6, FileName(SECOND))) == [x]
  {
    WriteInv(s5, h, [x]);
    WriteRoot(s5, h, [x]);
    var s6 := Write(s5, h, [x]).0;
    NamedInum(s6, 0, FileName(SECOND));
    WriteContents(s5, h, [x], s5.files[h].inum);
  }

  lemma SecondWritten(s: Fs, s2: Fs, h: int, x: byte)
    requires StaleTables(s, s2, h) && FirstFree(s.blockMap) != -1 && s.blockSize >= ENTRY_SIZE
    ensures var s3 := Open(s2, SECOND, CREATE).0;
            && Inv(s3) && FileOpen(s3, h) && MayWrite(s3, h, [x])
            && var (s4, n) := Write(s3, h, [x]);
            && n == 1 && Inv(s4) && FindInDir(s4, FileName(SECOND)) > 0
            && Content(s4, FindInDir(s4, FileName(SECOND))) == [x]
  {
    SecondCreated(s, s2, h);
    StaleWrite(Open(s2, SECOND, CREATE).0, h, x);
  }

  lemma FirstUnlinked(s: Fs)
    requires Roomy(s)
    ensures Inv(s)
    ensures var (s1, h) := Open(s, FIRST, CREATE);
            && Inv(s1) && Unlink(s1, FIRST).1 == 0 && StaleTables(s, Unlink(s1, FIRST).0, h)
  {
    var a := FirstOpened(s);
    FirstTablesHold(s);
    var (s1, h) := Open(s, FIRST, CREATE);
    var k, name := OpenedFile(s1, a, h);
    UnlinkedFirst(s, s1, h, k);
  }

  /** Create a file, unlink it under its handle, and create another: the second file gets the inode of
      the first, and a write through the handle on the first file goes to the second. */
  lemma UnlinkUnderHandle(s: Fs, x: byte)
    requires Roomy(s)
    ensures Inv(s)
    ensures var (s1, h) := Open(s, FIRST, CREATE);
            && Inv(s1)
            && var (s2, r) := Unlink(s1, FIRST);
            && r == 0 && TablesInv(s2) && !Inv(s2)
            && var s3 := Open(s2, SECOND, CREATE).0;
            && Inv(s3) && FileOpen(s3, h) && MayWrite(s3, h, [x])
            && var (s4, n) := Write(s3, h, [x]);
            && n == 1 && Inv(s4) && FindInDir(s4, FileName(SECOND)) > 0
            && Content(s4, FindInDir(s4, FileName(SECOND))) == [x]
  {
    FirstUnlinked(s);
    var (s1, h) := Open(s, FIRST, CREATE);
    assert s.blockMap[1] == FREE;
    SecondWritten(s, Unlink(s1, FIRST).0, h, x);
  }

  // ---------------------------------------------------------------------------------------------
  // Writing more than a size_t can count
  // ---------------------------------------------------------------------------------------------

  /** Create a file and write one byte, and then SIZE_MODULUS - 1 more: the sum with the offset wraps to
      zero, nothing is clipped, and the write would leave the block. */
  lemma WrappedWrite(s: Fs, x: byte, buffer: seq<byte>)
    requires Roomy(s) && |buffer| == SIZE_MODULUS - 1
    ensures Inv(s)
    ensures var (s1, h) := Open(s, FIRST, CREATE);
            && Inv(s1) && MayWrite(s1, h, [x])
            && var (s2, n) := Write(s1, h, [x]);
            && n == 1 && Inv(s2) && FileOpen(s2, h) && !MayWrite(s2, h, buffer)
            && var offset := s2.files[h].offset;
            && offset == 1 < s2.blockSize
            && WriteLength(|buffer|, offset, s2.blockSize) == |buffer| > s2.blockSize - offset
  {
    var a := FirstOpened(s);
    var (s1, h) := Open(s, FIRST, CREATE);
    var k := OneByteWritten(s1, a, h, x);
  }
}
