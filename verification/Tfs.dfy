/** TecnicoFS on its arrays (fs/state.c, fs/operations.c).  `data` is the flat fs_data; the root
    directory is read and written inside it, entry by entry.  The methods follow the C functions line
    by line and are proved to compute the functions of FsModel; the operations keep the ghost field
    `files`, the abstract file system, in step with the tables.

    Each operation is one critical section of g_library_mutex, hence one method call here.  PANIC is
    never reached: every ALWAYS_ASSERT is a precondition or an assertion proved below. */
module Tfs {
  import opened FsBytes
  import opened FsModel
  import opened FsInv
  import opened AbsFs
  import opened FsLaws
  import opened FsRefine
  import opened FsSimulation
  import opened FsRuns

  /** Entry i of the directory in block b, in the flat array. */
  lemma FlatEntry(data: seq<byte>, size: nat, n: nat, b: nat, i: nat, start: nat)
    requires size > 0 && |data| == n * size && b < n && i < size / ENTRY_SIZE && start == b * size
    ensures b < |Blocks(data, size)| && i < |Dir(Blocks(data, size)[b])|
    ensures var at := start + ENTRY_SIZE * i;
            && at + ENTRY_SIZE <= |data|
            && Dir(Blocks(data, size)[b])[i] ==
               Entry(data[at..at + MAX_FILE_NAME], DecodeInt(data[at + MAX_FILE_NAME..at + ENTRY_SIZE]))
  {
    BlockAt(data, size, n, b);
    SliceOfSlice(data, start, size, ENTRY_SIZE * i, MAX_FILE_NAME);
    SliceOfSlice(data, start, size, ENTRY_SIZE * i + MAX_FILE_NAME, 4);
  }

  /** What storing bytes at an offset of block b of the flat array does to the blocks. */
  lemma FlatWrite(
    data: seq<byte>, data': seq<byte>, size: nat, n: nat, b: nat, start: nat, at: nat, bytes: seq<byte>)
    requires size > 0 && |data| == n * size && b < n && at + |bytes| <= size && start == b * size
    requires start + at + |bytes| <= |data| && data' == Splice(data, start + at, bytes)
    ensures |Blocks(data, size)| == n && |Blocks(data, size)[b]| == size
    ensures Blocks(data', size) == Blocks(data, size)[b := Splice(Blocks(data, size)[b], at, bytes)]
  {
    SpliceBlocks(data, size, n, b, start, at, bytes);
  }

  class TecnicoFs {
    // tfs_params
    const blockSize: nat
    const maxBlocks: nat

    const inodeTable: array<Inode>
    const freeInodes: array<Alloc>
    const data: array<byte>
    const freeBlocks: array<Alloc>
    const openTable: array<OpenFile>
    const freeFiles: array<Alloc>

    /** What the tables stand for. */
    ghost var files: Abs

    /** The tables have the sizes state_init gives them. */
    ghost predicate Tables() {
      && 0 < blockSize < SIZE_MODULUS
      && inodeTable.Length == freeInodes.Length <= INT_LIMIT
      && maxBlocks == freeBlocks.Length <= INT_LIMIT
      && data.Length == maxBlocks * blockSize
      && openTable.Length == freeFiles.Length <= INT_LIMIT
      && freeInodes != freeBlocks && freeInodes != freeFiles && freeBlocks != freeFiles
    }

    ghost function View(): Fs
      reads inodeTable, freeInodes, data, freeBlocks, openTable, freeFiles
      requires Tables()
    {
      Fs(blockSize, inodeTable[..], freeInodes[..], Blocks(data[..], blockSize), freeBlocks[..],
         openTable[..], freeFiles[..])
    }

    ghost predicate Valid()
      reads this, inodeTable, freeInodes, data, freeBlocks, openTable, freeFiles
    {
      Tables() && Inv(View()) && Rel(View(), files)
    }

    ghost function Params(): Limits {
      Limits(inodeTable.Length, maxBlocks, openTable.Length, blockSize)
    }

    lemma ViewBlocks()
      requires Tables()
      ensures |View().blocks| == maxBlocks
    {
      BlockCount(data[..], blockSize, maxBlocks);
    }

    // -------------------------------------------------------------------------------------------
    // Allocation tables
    // -------------------------------------------------------------------------------------------

    // inode_alloc, state.c:162
    method InodeAlloc() returns (inumber: int)
      requires Tables()
      modifies freeInodes
      ensures inumber == FirstFree(old(freeInodes[..]))
      ensures freeInodes[..] == if inumber == -1 then old(freeInodes[..]) else old(freeInodes[..])[inumber := TAKEN]
    {
      var i := 0;
      while i < freeInodes.Length
        invariant 0 <= i <= freeInodes.Length
        invariant freeInodes[..] == old(freeInodes[..])
        invariant forall j :: 0 <= j < i ==> freeInodes[j] == TAKEN
      {
        if freeInodes[i] == FREE {
          freeInodes[i] := TAKEN;
          return i;
        }
        i := i + 1;
      }
      return -1;
    }

    // data_block_alloc, state.c:410
    method DataBlockAlloc() returns (b: int)
      requires Tables()
      modifies freeBlocks
      ensures b == FirstFree(old(freeBlocks[..]))
      ensures freeBlocks[..] == if b == -1 then old(freeBlocks[..]) else old(freeBlocks[..])[b := TAKEN]
    {
      var i := 0;
      while i < freeBlocks.Length
        invariant 0 <= i <= freeBlocks.Length
        invariant freeBlocks[..] == old(freeBlocks[..])
        invariant forall j :: 0 <= j < i ==> freeBlocks[j] == TAKEN
      {
        if freeBlocks[i] == FREE {
          freeBlocks[i] := TAKEN;
          return i;
        }
        i := i + 1;
      }
      return -1;
    }

    // data_block_free, state.c:431
    method DataBlockFree(b: int)
      requires Tables() && 0 <= b < maxBlocks
      modifies freeBlocks
      ensures View() == BlockFree(old(View()), b)
    {
      freeBlocks[b] := FREE;
    }

    // add_to_open_file_table, state.c:468
    method AddToOpenFileTable(inum: int, offset: nat) returns (h: int)
      requires Tables()
      modifies openTable, freeFiles
      ensures (View(), h) == AddOpenFile(old(View()), inum, offset)
    {
      var i := 0;
      while i < freeFiles.Length
        invariant 0 <= i <= freeFiles.Length
        invariant openTable[..] == old(openTable[..]) && freeFiles[..] == old(freeFiles[..])
        invariant forall j :: 0 <= j < i ==> freeFiles[j] == TAKEN
      {
        if freeFiles[i] == FREE {
          freeFiles[i] := TAKEN;
          openTable[i] := OpenFile(inum, offset);
          return i;
        }
        i := i + 1;
      }
      return -1;
    }

    // remove_from_open_file_table, state.c:488
    method RemoveFromOpenFileTable(h: int)
      requires Tables() && FileOpen(View(), h)
      modifies freeFiles
      ensures View() == old(View()).(fileMap := old(freeFiles[..])[h := FREE])
    {
      freeFiles[h] := FREE;
    }

    // get_open_file_entry, state.c:507
    predicate IsOpen(h: int)
      requires Tables()
      reads freeFiles
    {
      0 <= h < freeFiles.Length && freeFiles[h] == TAKEN
    }

    // -------------------------------------------------------------------------------------------
    // Bytes
    // -------------------------------------------------------------------------------------------

    /** Every byte outside [block * blockSize + at, block * blockSize + at + n) is as it was. */
    ghost predicate OnlyWithin(before: seq<byte>, block: int, at: nat, n: nat)
      reads data
    {
      && |before| == data.Length
      && forall i :: 0 <= i < data.Length && !(block * blockSize + at <= i < block * blockSize + at + n) ==>
           data[i] == before[i]
    }

    // memcpy
    method StoreBytes(at: nat, bytes: seq<byte>)
      requires at + |bytes| <= data.Length
      modifies data
      ensures data[..] == Splice(old(data[..]), at, bytes)
      ensures forall i :: 0 <= i < data.Length && !(at <= i < at + |bytes|) ==> data[i] == old(data[i])
    {
      ghost var target := Splice(data[..], at, bytes);
      forall i | 0 <= i < |bytes| {
        data[at + i] := bytes[i];
      }
      assert data[..] == target;
    }

    // memcpy to an offset of a block (data_block_get, state.c:448)
    method WriteBytes(b: int, at: nat, bytes: seq<byte>)
      requires Tables() && 0 <= b < maxBlocks && at + |bytes| <= blockSize
      modifies data
      ensures |old(View()).blocks| == maxBlocks
      ensures |old(View()).blocks[b]| == blockSize
      ensures View() == old(View()).(blocks :=
                old(View()).blocks[b := Splice(old(View()).blocks[b], at, bytes)])
      ensures OnlyWithin(old(data[..]), b, at, |bytes|)
    {
      ghost var before := data[..];
      BlockAt(before, blockSize, maxBlocks, b);
      var start := b * blockSize;
      StoreBytes(start + at, bytes);
      FlatWrite(before, data[..], blockSize, maxBlocks, b, start, at, bytes);
    }

    // memcpy from an offset of a block
    method ReadBytes(b: int, at: nat, n: nat) returns (bytes: seq<byte>)
      requires Tables() && 0 <= b < maxBlocks && at + n <= blockSize
      ensures |View().blocks| == maxBlocks && |View().blocks[b]| == blockSize
      ensures bytes == View().blocks[b][at..at + n]
    {
      BlockAt(data[..], blockSize, maxBlocks, b);
      var start := b * blockSize;
      SliceOfSlice(data[..], start, blockSize, at, n);
      bytes := data[start + at..start + at + n];
    }

    // -------------------------------------------------------------------------------------------
    // The root directory
    // -------------------------------------------------------------------------------------------

    // the entry of slot i, as the directory functions read it
    method ReadEntry(i: nat) returns (name: seq<byte>, inum: int)
      requires Tables() && Shape(View()) && RootInv(View()) && i < blockSize / ENTRY_SIZE
      ensures i < |RootDir(View())|
      ensures name == RootDir(View())[i].name && inum == RootDir(View())[i].inum
    {
      var b := inodeTable[ROOT].block;
      ViewBlocks();
      FlatEntry(data[..], blockSize, maxBlocks, b, i, b * blockSize);
      var at := b * blockSize + ENTRY_SIZE * i;
      name := data[at..at + MAX_FILE_NAME];
      inum := DecodeInt(data[at + MAX_FILE_NAME..at + ENTRY_SIZE]);
    }

    // find_in_dir, state.c:375
    method FindInDir(name: CString) returns (inum: int)
      requires Tables() && Shape(View()) && RootInv(View())
      ensures inum == FsModel.FindInDir(View(), name)
    {
      ghost var dir := RootDir(View());
      var i := 0;
      while i < blockSize / ENTRY_SIZE
        invariant 0 <= i <= blockSize / ENTRY_SIZE
        invariant forall j :: 0 <= j < i ==> !(Live(dir, j) && StrnEq(dir[j].name, name, MAX_FILE_NAME))
      {
        var d_name, d_inumber := ReadEntry(i);
        if d_inumber != -1 && StrnEq(d_name, name, MAX_FILE_NAME) {
          return d_inumber;
        }
        i := i + 1;
      }
      return -1;
    }

    // d_inumber and d_name of slot i, state.c:351-353
    method FillEntry(i: nat, name: CString, inum: int32)
      requires Tables() && Shape(View()) && RootInv(View()) && i < |RootDir(View())|
      requires |name| < MAX_FILE_NAME
      modifies data
      ensures View() == SetRootEntry(old(View()), i, Entry(Pad(name, MAX_FILE_NAME), inum))
    {
      var b := inodeTable[ROOT].block;
      ViewBlocks();
      ghost var block := View().blocks[b];
      WriteBytes(b, ENTRY_SIZE * i + MAX_FILE_NAME, EncodeInt(inum));
      WriteBytes(b, ENTRY_SIZE * i, Pad(name, MAX_FILE_NAME - 1));
      WriteBytes(b, ENTRY_SIZE * i + MAX_FILE_NAME - 1, [0]);
      StrncpyPads(WriteInum(block, i, inum), ENTRY_SIZE * i, name);
    }

    // add_dir_entry, state.c:333
    method AddDirEntry(name: CString, inum: int32) returns (ok: bool)
      requires Tables() && Shape(View()) && RootInv(View())
      modifies data
      ensures (View(), ok) == FsModel.AddDirEntry(old(View()), name, inum)
    {
      if |name| == 0 || |name| > MAX_FILE_NAME - 1 {
        return false;
      }
      var i := 0;
      var found := false;
      while i < blockSize / ENTRY_SIZE && !found
        modifies {}
        invariant 0 <= i <= |RootDir(View())|
        invariant forall j :: 0 <= j < i ==> Live(RootDir(View()), j)
        invariant found ==> i < |RootDir(View())| && !Live(RootDir(View()), i)
        decreases blockSize / ENTRY_SIZE - i, !found
      {
        var d_name, d_inumber := ReadEntry(i);
        if d_inumber == -1 {
          found := true;
        } else {
          i := i + 1;
        }
      }
      assert found ==> FreeSlot(RootDir(View())) == i;
      if found {
        FillEntry(i, name, inum);
      }
      return found;
    }

    // d_inumber and d_name of slot i, state.c:310-311
    method EraseEntry(i: nat)
      requires Tables() && Shape(View()) && RootInv(View()) && i < |RootDir(View())|
      modifies data
      ensures View() == SetRootEntry(old(View()), i, Entry(Zeros(MAX_FILE_NAME), -1))
    {
      var b := inodeTable[ROOT].block;
      ViewBlocks();
      WriteBytes(b, ENTRY_SIZE * i + MAX_FILE_NAME, EncodeInt(-1));
      WriteBytes(b, ENTRY_SIZE * i, Zeros(MAX_FILE_NAME));
    }

    // the search of clear_dir_entry, state.c:308-309: strcmp must find the end of every name it compares
    method MatchEntry(name: CString) returns (k: int)
      requires Tables() && Shape(View()) && RootInv(View())
      requires forall j ::
                 (0 <= j < |RootDir(View())|
                  && (MatchSlot(RootDir(View()), name) == -1 || j <= MatchSlot(RootDir(View()), name)))
                 ==> 0 in RootDir(View())[j].name
      ensures k == MatchSlot(RootDir(View()), name)
    {
      ghost var dir := RootDir(View());
      var i := 0;
      while i < blockSize / ENTRY_SIZE
        invariant 0 <= i <= |dir|
        invariant forall j :: 0 <= j < i ==> !StrEq(dir[j].name, name)
      {
        var d_name, d_inumber := ReadEntry(i);
        assert 0 in d_name;
        if StrEq(d_name, name) {
          return i;
        }
        i := i + 1;
      }
      return -1;
    }

    // clear_dir_entry, state.c:297
    method ClearDirEntry(name: CString) returns (ok: bool)
      requires Tables() && Shape(View()) && RootInv(View())
      requires forall j ::
                 (0 <= j < |RootDir(View())|
                  && (MatchSlot(RootDir(View()), name) == -1 || j <= MatchSlot(RootDir(View()), name)))
                 ==> 0 in RootDir(View())[j].name
      modifies data
      ensures (View(), ok) == FsModel.ClearDirEntry(old(View()), name)
    {
      var i := MatchEntry(name);
      if i != -1 {
        EraseEntry(i);
      }
      return i != -1;
    }

    // -------------------------------------------------------------------------------------------
    // Inodes
    // -------------------------------------------------------------------------------------------

    // inode_create(T_FILE), state.c:198
    method CreateFileInode() returns (inumber: int)
      requires Tables()
      modifies inodeTable, freeInodes
      ensures (View(), inumber) == InodeCreate(old(View()))
    {
      inumber := InodeAlloc();
      if inumber == -1 {
        return -1;
      }
      inodeTable[inumber] := Inode(T_FILE, 0, -1);
    }

    // inode_delete, state.c:252
    method DeleteInode(inumber: int)
      requires Tables() && InodeTaken(View(), inumber)
      requires inodeTable[inumber].size > 0 ==> 0 <= inodeTable[inumber].block < maxBlocks
      modifies freeInodes, freeBlocks
      ensures View() == InodeDelete(old(View()), inumber)
    {
      if inodeTable[inumber].size > 0 {
        DataBlockFree(inodeTable[inumber].block);
      }
      freeInodes[inumber] := FREE;
    }

    // dir_entry[i].d_inumber = -1, state.c:231
    method MarkEntryEmpty(b: int, i: nat)
      requires Tables() && 0 <= b < maxBlocks && i < blockSize / ENTRY_SIZE
      modifies data
      ensures |old(View()).blocks| == |View().blocks| == maxBlocks
      ensures |Dir(View().blocks[b])| == blockSize / ENTRY_SIZE
      ensures forall k :: 0 <= k < blockSize / ENTRY_SIZE ==>
                (Live(Dir(View().blocks[b]), k) <==> k != i && Live(Dir(old(View()).blocks[b]), k))
    {
      ViewBlocks();
      ghost var block := View().blocks[b];
      WriteBytes(b, ENTRY_SIZE * i + MAX_FILE_NAME, EncodeInt(-1));
      DirWriteInum(block, i, -1);
    }

    // state.c:226-232: only the inode numbers of the entries are initialised
    method MarkEntriesEmpty(b: int)
      requires Tables() && 0 <= b < maxBlocks
      modifies data
      ensures |View().blocks| == maxBlocks
      ensures forall k :: !Live(Dir(View().blocks[b]), k)
    {
      ViewBlocks();
      var i := 0;
      while i < blockSize / ENTRY_SIZE
        invariant 0 <= i <= blockSize / ENTRY_SIZE
        invariant |View().blocks| == maxBlocks
        invariant forall k :: 0 <= k < i ==> !Live(Dir(View().blocks[b]), k)
      {
        MarkEntryEmpty(b, i);
        i := i + 1;
      }
    }

    // inode_create(T_DIRECTORY), state.c:198
    method CreateDirectoryInode() returns (inumber: int)
      requires Tables()
      modifies inodeTable, freeInodes, data, freeBlocks
      ensures inumber == if FirstFree(old(freeBlocks[..])) == -1 then -1 else FirstFree(old(freeInodes[..]))
      ensures inumber == -1 ==>
                && freeInodes[..] == old(freeInodes[..]) && freeBlocks[..] == old(freeBlocks[..])
                && data[..] == old(data[..])
      ensures |View().blocks| == maxBlocks
      ensures inumber != -1 ==>
                var b := FirstFree(old(freeBlocks[..]));
                && 0 <= b < maxBlocks
                && freeInodes[..] == old(freeInodes[..])[inumber := TAKEN]
                && freeBlocks[..] == old(freeBlocks[..])[b := TAKEN]
                && inodeTable[inumber] == Inode(T_DIRECTORY, blockSize, b)
                && forall k :: !Live(Dir(View().blocks[b]), k)
    {
      ViewBlocks();
      inumber := InodeAlloc();
      if inumber == -1 {
        return -1;
      }
      inodeTable[inumber] := inodeTable[inumber].(kind := T_DIRECTORY);
      var b := DataBlockAlloc();
      if b == -1 {
        inodeTable[inumber] := inodeTable[inumber].(size := 0, block := -1);
        DeleteInode(inumber);
        assert freeInodes[..] == old(freeInodes[..]);
        return -1;
      }
      inodeTable[inumber] := inodeTable[inumber].(size := blockSize, block := b);
      MarkEntriesEmpty(b);
    }

    // -------------------------------------------------------------------------------------------
    // tfs_init
    // -------------------------------------------------------------------------------------------

    // state_init, state.c:95: only the allocation tables are initialised
    constructor (maxInodes: nat, maxBlocks: nat, maxFiles: nat, blockSize: nat)
      requires 0 < blockSize < SIZE_MODULUS
      requires maxInodes <= INT_LIMIT && maxBlocks <= INT_LIMIT && maxFiles <= INT_LIMIT
      ensures Tables()
      ensures this.maxBlocks == maxBlocks && this.blockSize == blockSize
      ensures inodeTable.Length == maxInodes && openTable.Length == maxFiles
      ensures forall i :: 0 <= i < freeInodes.Length ==> freeInodes[i] == FREE
      ensures forall b :: 0 <= b < freeBlocks.Length ==> freeBlocks[b] == FREE
      ensures forall h :: 0 <= h < freeFiles.Length ==> freeFiles[h] == FREE
      ensures fresh(inodeTable) && fresh(freeInodes) && fresh(data)
      ensures fresh(freeBlocks) && fresh(openTable) && fresh(freeFiles)
    {
      this.blockSize, this.maxBlocks := blockSize, maxBlocks;
      inodeTable := new Inode[maxInodes];
      freeInodes := new Alloc[maxInodes](_ => FREE);
      data := new byte[maxBlocks * blockSize];
      freeBlocks := new Alloc[maxBlocks](_ => FREE);
      openTable := new OpenFile[maxFiles];
      freeFiles := new Alloc[maxFiles](_ => FREE);
      files := EMPTY;
    }

    // tfs_init, operations.c:33-43
    method Init() returns (r: int)
      requires Tables()
      requires forall i :: 0 <= i < freeInodes.Length ==> freeInodes[i] == FREE
      requires forall b :: 0 <= b < freeBlocks.Length ==> freeBlocks[b] == FREE
      requires forall h :: 0 <= h < freeFiles.Length ==> freeFiles[h] == FREE
      modifies this`files, inodeTable, freeInodes, data, freeBlocks
      ensures r == if inodeTable.Length > 0 && maxBlocks > 0 then 0 else -1
      ensures r == 0 ==> Formatted(View()) && Valid() && files == EMPTY
      ensures r == -1 ==>
                && freeInodes[..] == old(freeInodes[..]) && freeBlocks[..] == old(freeBlocks[..])
                && data[..] == old(data[..]) && files == old(files)
    {
      assert freeInodes.Length > 0 ==> freeInodes[..][0] == FREE;
      assert freeBlocks.Length > 0 ==> freeBlocks[..][0] == FREE;
      assert FirstFree(freeInodes[..]) == if freeInodes.Length > 0 then 0 else -1;
      assert FirstFree(freeBlocks[..]) == if freeBlocks.Length > 0 then 0 else -1;
      var root := CreateDirectoryInode();
      if root != ROOT {
        return -1;
      }
      assert Formatted(View());
      FormattedIsEmpty(View());
      files := EMPTY;
      return 0;
    }

    // -------------------------------------------------------------------------------------------
    // The operations on the tables
    // -------------------------------------------------------------------------------------------

    // lines 99-117 of tfs_open: the file exists
    method OpenExisting(inum: int, mode: Mode) returns (ret: int)
      requires Tables() && Inv(View()) && 0 < inum && InodeTaken(View(), inum)
      modifies inodeTable, freeBlocks, openTable, freeFiles
      ensures var s := if mode.trunc then Truncate(old(View()), inum) else old(View());
              (View(), ret) == AddOpenFile(s, inum, if mode.append then s.inodes[inum].size else 0)
    {
      ViewBlocks();
      ghost var s := View();
      if mode.trunc {
        if inodeTable[inum].size > 0 {
          DataBlockFree(inodeTable[inum].block);
          inodeTable[inum] := inodeTable[inum].(size := 0);
        }
      }
      assert View() == if mode.trunc then Truncate(s, inum) else s;
      var offset := 0;
      if mode.append {
        offset := inodeTable[inum].size;
      }
      ret := AddToOpenFileTable(inum, offset);
    }

    // lines 118-140 of tfs_open: the file is created
    method OpenNew(name: CString) returns (ret: int)
      requires Tables() && Inv(View())
      modifies inodeTable, freeInodes, data, freeBlocks, openTable, freeFiles
      ensures var (s1, i) := InodeCreate(old(View()));
              if i == -1 then View() == old(View()) && ret == -1
              else
                && Shape(s1) && RootInv(s1)
                && var (s2, ok) := FsModel.AddDirEntry(s1, name, i);
                   (View(), ret) == if !ok then (InodeDelete(s2, i), -1) else AddOpenFile(s2, i, 0)
    {
      ghost var s := View();
      var inum := CreateFileInode();
      if inum == -1 {
        return -1;
      }
      CreatedRoot(s);
      var ok := AddDirEntry(name, inum);
      if !ok {
        DeleteInode(inum);
        return -1;
      }
      ret := AddToOpenFileTable(inum, 0);
    }

    // tfs_open, operations.c:79
    method OpenTables(path: Path, mode: Mode) returns (ret: int)
      requires Tables() && Inv(View())
      modifies inodeTable, freeInodes, data, freeBlocks, openTable, freeFiles
      ensures (View(), ret) == FsModel.Open(old(View()), path, mode)
    {
      if !ValidPathname(path) {
        return -1;
      }
      var name := FileName(path);
      var inum := FindInDir(name);
      if inum >= 0 {
        ret := OpenExisting(inum, mode);
      } else if mode.creat {
        ret := OpenNew(name);
      } else {
        return -1;
      }
    }

    // tfs_close, operations.c:163
    method CloseTables(h: int) returns (ret: int)
      requires Tables()
      modifies freeFiles
      ensures (View(), ret) == FsModel.Close(old(View()), h)
    {
      if !IsOpen(h) {
        return -1;
      }
      RemoveFromOpenFileTable(h);
      return 0;
    }

    // lines 211-223 of tfs_write: an empty file gets a block
    method EnsureBlock(inum: int) returns (b: int)
      requires Tables() && 0 <= inum < inodeTable.Length
      modifies inodeTable, freeBlocks
      ensures var node := old(inodeTable[inum]);
              && b == (if node.size == 0 then FirstFree(old(freeBlocks[..])) else node.block)
              && (b == -1 ==> View() == old(View()))
              && (b != -1 ==>
                    View() == old(View()).(
                      blockMap := if node.size == 0 then old(freeBlocks[..])[b := TAKEN] else old(freeBlocks[..]),
                      inodes := old(inodeTable[..])[inum := node.(block := b)]))
    {
      b := inodeTable[inum].block;
      if inodeTable[inum].size == 0 {
        b := DataBlockAlloc();
        if b == -1 {
          return -1;
        }
        inodeTable[inum] := inodeTable[inum].(block := b);
      }
    }

    // lines 225-235 of tfs_write
    method Store(h: int, inum: int, bytes: seq<byte>)
      requires Tables() && 0 <= h < openTable.Length && 0 <= inum < inodeTable.Length
      requires 0 <= inodeTable[inum].block < maxBlocks && openTable[h].offset + |bytes| <= blockSize
      modifies inodeTable, data, openTable
      ensures var s, node, f := old(View()), old(inodeTable[inum]), old(openTable[h]);
              var end := f.offset + |bytes|;
              && |s.blocks| == maxBlocks && |s.blocks[node.block]| == blockSize
              && View() == s.(
                   blocks := s.blocks[node.block := Splice(s.blocks[node.block], f.offset, bytes)],
                   inodes := s.inodes[inum := node.(size := if end > node.size then end else node.size)],
                   files := s.files[h := f.(offset := end)])
      ensures OnlyWithin(old(data[..]), inodeTable[inum].block, old(openTable[h]).offset, |bytes|)
    {
      WriteBytes(inodeTable[inum].block, openTable[h].offset, bytes);
      openTable[h] := openTable[h].(offset := openTable[h].offset + |bytes|);
      if openTable[h].offset > inodeTable[inum].size {
        inodeTable[inum] := inodeTable[inum].(size := openTable[h].offset);
      } else {
        assert inodeTable[..] == inodeTable[..][inum := inodeTable[inum]];
      }
    }

    // tfs_write, operations.c:186
    method WriteTables(h: int, buffer: seq<byte>) returns (ret: int)
      requires Tables() && Inv(View()) && MayWrite(View(), h, buffer)
      modifies inodeTable, data, freeBlocks, openTable
      ensures (View(), ret) == FsModel.Write(old(View()), h, buffer)
      ensures ret <= 0 ==> data[..] == old(data[..])
      ensures ret > 0 ==> 0 <= h < openTable.Length && 0 <= openTable[h].inum < inodeTable.Length
      ensures ret > 0 ==> OnlyWithin(old(data[..]), inodeTable[openTable[h].inum].block, old(openTable[h].offset), ret)
    {
      ViewBlocks();
      ghost var s := View();
      if !IsOpen(h) {
        return -1;
      }
      var inum := openTable[h].inum;
      var offset := openTable[h].offset;
      WriteLengthExact(|buffer|, offset, blockSize);
      var to_write := |buffer|;
      if AddSize(to_write, offset) > blockSize {
        to_write := SubSize(blockSize, offset);
      }
      if to_write > 0 {
        var bnum := EnsureBlock(inum);
        if bnum == -1 {
          return -1;
        }
        Store(h, inum, buffer[..to_write]);
        ghost var node, end := s.inodes[inum], offset + to_write;
        assert View().inodes ==
               s.inodes[inum := node.(block := bnum, size := if end > node.size then end else node.size)];
        assert to_write == WriteLength(|buffer|, offset, blockSize);
      }
      return to_write;
    }

    // tfs_read, operations.c:247
    method ReadTables(h: int, length: nat) returns (ret: int, buffer: seq<byte>)
      requires Tables() && Inv(View())
      modifies openTable
      ensures (View(), ret, buffer) == FsModel.Read(old(View()), h, length)
    {
      if !IsOpen(h) {
        return -1, [];
      }
      var inum := openTable[h].inum;
      var offset := openTable[h].offset;
      var to_read := SubSize(inodeTable[inum].size, offset);
      if to_read > length {
        to_read := length;
      }
      buffer := [];
      ViewBlocks();
      if to_read > 0 {
        buffer := ReadBytes(inodeTable[inum].block, offset, to_read);
        openTable[h] := openTable[h].(offset := offset + to_read);
      }
      return to_read, buffer;
    }

    // tfs_unlink, operations.c:288
    method UnlinkTables(path: Path) returns (ret: int)
      requires Tables() && Inv(View())
      modifies freeInodes, data, freeBlocks
      ensures (View(), ret) == FsModel.Unlink(old(View()), path)
    {
      if !ValidPathname(path) {
        return -1;
      }
      ghost var s := View();
      ViewBlocks();
      var inum := FindInDir(FileName(path));
      if inum == -1 {
        return -1;
      }
      ghost var k := FindSlot(RootDir(s), FileName(path));
      FindSlotExact(RootDir(s), FileName(path));
      MatchSlotExact(RootDir(s), k, FileName(path));
      DeleteBlocks(s, inum);
      DeleteInode(inum);
      var ok := ClearDirEntry(FileName(path));
      if !ok {
        return -1;
      }
      return 0;
    }

    // -------------------------------------------------------------------------------------------
    // The operations
    // -------------------------------------------------------------------------------------------

    method Open(path: Path, mode: Mode) returns (ret: int)
      requires Valid()
      requires mode.trunc ==> MayTruncate(files, path)
      modifies this`files, inodeTable, freeInodes, data, freeBlocks, openTable, freeFiles
      ensures Valid()
      ensures (files, ret) == AbsOpen(old(files), Params(), path, mode)
      ensures OpenSpec(old(files), Params(), path, mode, files, ret)
    {
      ghost var s := View();
      ViewBlocks();
      OpenRefines(s, files, path, mode);
      ret := OpenTables(path, mode);
      OpenLaw(files, Params(), path, mode);
      files := AbsOpen(files, Params(), path, mode).0;
    }

    method Close(h: int) returns (ret: int)
      requires Valid()
      modifies this`files, freeFiles
      ensures Valid()
      ensures (files, ret) == AbsClose(old(files), h)
      ensures CloseSpec(old(files), h, files, ret)
    {
      CloseRefines(View(), files, h);
      ret := CloseTables(h);
      CloseLaw(files, h);
      files := AbsClose(files, h).0;
    }

    method Write(h: int, buffer: seq<byte>) returns (ret: int)
      requires Valid()
      requires h in files.handles ==> WriteFits(|buffer|, files.handles[h].offset)
      modifies this`files, inodeTable, data, freeBlocks, openTable
      ensures Valid()
      ensures WellFormed(old(files)) && (files, ret) == AbsWrite(old(files), Params(), h, buffer)
      ensures Bounded(old(files), Params()) && WriteSpec(old(files), Params(), h, buffer, files, ret)
      ensures ret <= 0 ==> data[..] == old(data[..])
      ensures ret > 0 ==> 0 <= h < openTable.Length && 0 <= openTable[h].inum < inodeTable.Length
      ensures ret > 0 ==> OnlyWithin(old(data[..]), inodeTable[openTable[h].inum].block, old(openTable[h].offset), ret)
    {
      ghost var s := View();
      ViewBlocks();
      RelWellFormed(s, files);
      RelBounded(s, files);
      WriteLaw(files, Params(), h, buffer);
      MayStepAllowed(s, files, OpWrite(h, buffer));
      WriteRefines(s, files, h, buffer);
      ret := WriteTables(h, buffer);
      files := AbsWrite(files, Params(), h, buffer).0;
    }

    method Read(h: int, length: nat) returns (ret: int, buffer: seq<byte>)
      requires Valid()
      modifies this`files, openTable
      ensures Valid()
      ensures WellFormed(old(files)) && (files, ret, buffer) == AbsRead(old(files), h, length)
      ensures ReadSpec(old(files), h, length, files, ret, buffer)
    {
      ReadRefines(View(), files, h, length);
      ReadLaw(files, h, length);
      ret, buffer := ReadTables(h, length);
      files := AbsRead(files, h, length).0;
    }

    method Unlink(path: Path) returns (ret: int)
      requires Valid() && MayUnlink(files, path)
      modifies this`files, freeInodes, data, freeBlocks
      ensures Valid()
      ensures (files, ret) == AbsUnlink(old(files), path)
      ensures UnlinkSpec(old(files), path, files, ret)
    {
      UnlinkRefines(View(), files, path);
      UnlinkLaw(files, path);
      ret := UnlinkTables(path);
      files := AbsUnlink(files, path).0;
    }
  }
}
