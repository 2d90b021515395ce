/** The state of TecnicoFS and what its operations compute (fs/state.c, fs/operations.c).  The class
    in Tfs runs them on arrays; here they are functions on the values of those arrays, with `fs_data`
    already cut into blocks. */
module FsModel {
  import opened FsBytes

  datatype Alloc = FREE | TAKEN

  datatype Kind = T_FILE | T_DIRECTORY

  datatype Inode = Inode(kind: Kind, size: nat, block: int)

  datatype OpenFile = OpenFile(inum: int, offset: nat)

  datatype Mode = Mode(creat: bool, trunc: bool, append: bool)

  /** A `char const *` argument. */
  datatype Path = Null | Str(name: CString)

  datatype Fs = Fs(
    blockSize: nat,
    inodes: seq<Inode>,
    inodeMap: seq<Alloc>,
    blocks: seq<seq<byte>>,
    blockMap: seq<Alloc>,
    files: seq<OpenFile>,
    fileMap: seq<Alloc>)

  const ROOT: nat := 0

  /** The number of values of a size_t. */
  const SIZE_MODULUS: nat := 0x1_0000_0000_0000_0000

  /** The number of non-negative values of an int: inode, block and handle numbers are cast to it. */
  const INT_LIMIT: nat := 0x8000_0000

  // ---------------------------------------------------------------------------------------------
  // The invariant
  // ---------------------------------------------------------------------------------------------

  ghost predicate Shape(s: Fs) {
    && 0 < s.blockSize < SIZE_MODULUS
    && 0 < |s.inodes| == |s.inodeMap| <= INT_LIMIT
    && |s.blocks| == |s.blockMap| <= INT_LIMIT
    && |s.files| == |s.fileMap| <= INT_LIMIT
    && forall b :: 0 <= b < |s.blocks| ==> |s.blocks[b]| == s.blockSize
  }

  predicate InodeTaken(s: Fs, i: int) {
    0 <= i < |s.inodes| && i < |s.inodeMap| && s.inodeMap[i] == TAKEN
  }

  predicate FileOpen(s: Fs, h: int) {
    0 <= h < |s.files| && h < |s.fileMap| && s.fileMap[h] == TAKEN
  }

  /** Inode i has data, in block b. */
  predicate Owns(s: Fs, i: int, b: int) {
    InodeTaken(s, i) && s.inodes[i].size > 0 && s.inodes[i].block == b
  }

  ghost predicate HasOwner(s: Fs, b: int) {
    exists i :: Owns(s, i, b)
  }

  ghost predicate RootInv(s: Fs)
    requires Shape(s)
  {
    && InodeTaken(s, ROOT)
    && s.inodes[ROOT].kind == T_DIRECTORY
    && s.inodes[ROOT].size == s.blockSize
    && 0 <= s.inodes[ROOT].block < |s.blocks|
  }

  /** All other inodes are regular files of at most one block. */
  ghost predicate InodesInv(s: Fs)
    requires Shape(s)
  {
    forall i :: 0 < i < |s.inodes| && InodeTaken(s, i) ==>
      && s.inodes[i].kind == T_FILE
      && s.inodes[i].size <= s.blockSize
      && (s.inodes[i].size > 0 ==> 0 <= s.inodes[i].block < |s.blocks|)
  }

  /** The taken blocks are exactly the blocks of the inodes with data, one each. */
  ghost predicate BlocksInv(s: Fs)
    requires Shape(s)
  {
    && (forall i, b :: 0 <= b < |s.blocks| && Owns(s, i, b) ==> s.blockMap[b] == TAKEN)
    && (forall i, j, b :: Owns(s, i, b) && Owns(s, j, b) ==> i == j)
    && (forall b {:trigger HasOwner(s, b)} :: 0 <= b < |s.blocks| && s.blockMap[b] == TAKEN ==> HasOwner(s, b))
  }

  function RootDir(s: Fs): (dir: seq<Entry>)
    requires Shape(s) && RootInv(s)
    ensures |dir| == s.blockSize / ENTRY_SIZE
    ensures forall i :: 0 <= i < |dir| ==> |dir[i].name| == MAX_FILE_NAME
  {
    Dir(s.blocks[s.inodes[ROOT].block])
  }

  predicate Live(dir: seq<Entry>, k: int) {
    0 <= k < |dir| && dir[k].inum != -1
  }

  /** Slot k is a live entry called `name`. */
  predicate Names(dir: seq<Entry>, k: int, name: CString) {
    Live(dir, k) && 0 < |name| < MAX_FILE_NAME && dir[k].name == Pad(name, MAX_FILE_NAME)
  }

  ghost predicate HasName(dir: seq<Entry>, k: int) {
    exists name :: Names(dir, k, name)
  }

  /** Live slots have proper names, and a free slot before a live one has been zeroed. */
  ghost predicate NamesInv(dir: seq<Entry>) {
    && (forall k {:trigger HasName(dir, k)} :: Live(dir, k) ==> HasName(dir, k))
    && (forall j, k :: Live(dir, j) && Live(dir, k) && dir[j].name == dir[k].name ==> j == k)
    && (forall j, k :: 0 <= j < k && Live(dir, k) && !Live(dir, j) ==> dir[j].name == Zeros(MAX_FILE_NAME))
  }

  ghost predicate HasSlot(dir: seq<Entry>, i: int) {
    exists k :: Live(dir, k) && dir[k].inum == i
  }

  /** Live slots and regular files are in one-to-one correspondence. */
  ghost predicate LinksInv(dir: seq<Entry>, inodeMap: seq<Alloc>) {
    && (forall k :: Live(dir, k) ==> 0 < dir[k].inum < |inodeMap| && inodeMap[dir[k].inum] == TAKEN)
    && (forall j, k :: Live(dir, j) && Live(dir, k) && dir[j].inum == dir[k].inum ==> j == k)
    && (forall i {:trigger HasSlot(dir, i)} :: 0 < i < |inodeMap| && inodeMap[i] == TAKEN ==> HasSlot(dir, i))
  }

  /** Open handles refer to regular files and are not past their end. */
  ghost predicate FilesInv(s: Fs)
    requires Shape(s)
  {
    forall h :: FileOpen(s, h) ==>
      && s.files[h].inum > 0
      && InodeTaken(s, s.files[h].inum)
      && s.files[h].offset <= s.inodes[s.files[h].inum].size
  }

  /** The invariant, apart from the open-file table. */
  ghost predicate TablesInv(s: Fs) {
    && Shape(s) && RootInv(s) && InodesInv(s) && BlocksInv(s)
    && NamesInv(RootDir(s)) && LinksInv(RootDir(s), s.inodeMap)
  }

  ghost predicate Inv(s: Fs) {
    TablesInv(s) && FilesInv(s)
  }

  // ---------------------------------------------------------------------------------------------
  // fs/state.c
  // ---------------------------------------------------------------------------------------------

  function FirstFreeFrom(table: seq<Alloc>, from: nat): (i: int)
    requires from <= |table|
    ensures i == -1 || from <= i < |table|
    ensures i >= 0 ==> table[i] == FREE && forall j :: from <= j < i ==> table[j] == TAKEN
    ensures i == -1 ==> forall j :: from <= j < |table| ==> table[j] == TAKEN
    decreases |table| - from
  {
    if from == |table| then -1
    else if table[from] == FREE then from
    else
      assert table[from] == TAKEN;
      FirstFreeFrom(table, from + 1)
  }

  /** The lowest free index of an allocation table, or -1 when all are taken. */
  function FirstFree(table: seq<Alloc>): (i: int)
    ensures -1 <= i < |table|
    ensures i >= 0 ==> table[i] == FREE && forall j :: 0 <= j < i ==> table[j] == TAKEN
    ensures i == -1 ==> forall j :: 0 <= j < |table| ==> table[j] == TAKEN
  {
    FirstFreeFrom(table, 0)
  }

  // data_block_free
  function BlockFree(s: Fs, b: nat): Fs
    requires b < |s.blockMap|
  {
    s.(blockMap := s.blockMap[b := FREE])
  }

  // inode_create(T_FILE)
  function InodeCreate(s: Fs): (Fs, int)
    requires |s.inodes| == |s.inodeMap|
  {
    var i := FirstFree(s.inodeMap);
    if i == -1 then (s, -1)
    else (s.(inodeMap := s.inodeMap[i := TAKEN], inodes := s.inodes[i := Inode(T_FILE, 0, -1)]), i)
  }

  // inode_delete
  function InodeDelete(s: Fs, i: nat): Fs
    requires i < |s.inodes| == |s.inodeMap| && s.inodeMap[i] == TAKEN
    requires s.inodes[i].size > 0 ==> 0 <= s.inodes[i].block < |s.blockMap|
  {
    var s' := if s.inodes[i].size > 0 then BlockFree(s, s.inodes[i].block) else s;
    s'.(inodeMap := s'.inodeMap[i := FREE])
  }

  function FindSlotFrom(dir: seq<Entry>, name: CString, from: nat): (k: int)
    requires from <= |dir|
    ensures k == -1 || from <= k < |dir|
    ensures k >= 0 ==> Live(dir, k) && StrnEq(dir[k].name, name, MAX_FILE_NAME)
    ensures forall j :: from <= j < |dir| && (k == -1 || j < k) ==>
              !(Live(dir, j) && StrnEq(dir[j].name, name, MAX_FILE_NAME))
    decreases |dir| - from
  {
    if from == |dir| then -1
    else if dir[from].inum != -1 && StrnEq(dir[from].name, name, MAX_FILE_NAME) then from
    else FindSlotFrom(dir, name, from + 1)
  }

  /** The lowest slot find_in_dir stops at, or -1. */
  function FindSlot(dir: seq<Entry>, name: CString): (k: int)
    ensures -1 <= k < |dir|
    ensures k >= 0 ==> Live(dir, k) && StrnEq(dir[k].name, name, MAX_FILE_NAME)
    ensures forall j :: 0 <= j < |dir| && (k == -1 || j < k) ==>
              !(Live(dir, j) && StrnEq(dir[j].name, name, MAX_FILE_NAME))
  {
    FindSlotFrom(dir, name, 0)
  }

  function MatchSlotFrom(dir: seq<Entry>, name: CString, from: nat): (k: int)
    requires from <= |dir|
    ensures k == -1 || from <= k < |dir|
    ensures k >= 0 ==> StrEq(dir[k].name, name)
    ensures forall j :: from <= j < |dir| && (k == -1 || j < k) ==> !StrEq(dir[j].name, name)
    decreases |dir| - from
  {
    if from == |dir| then -1
    else if StrEq(dir[from].name, name) then from
    else MatchSlotFrom(dir, name, from + 1)
  }

  /** The lowest slot clear_dir_entry stops at, or -1: it does not look at the inode number. */
  function MatchSlot(dir: seq<Entry>, name: CString): (k: int)
    ensures -1 <= k < |dir|
    ensures k >= 0 ==> StrEq(dir[k].name, name)
    ensures forall j :: 0 <= j < |dir| && (k == -1 || j < k) ==> !StrEq(dir[j].name, name)
  {
    MatchSlotFrom(dir, name, 0)
  }

  function FreeSlotFrom(dir: seq<Entry>, from: nat): (k: int)
    requires from <= |dir|
    ensures k == -1 || from <= k < |dir|
    ensures k >= 0 ==> !Live(dir, k) && forall j :: from <= j < k ==> Live(dir, j)
    ensures k == -1 ==> forall j :: from <= j < |dir| ==> Live(dir, j)
    decreases |dir| - from
  {
    if from == |dir| then -1
    else if dir[from].inum == -1 then from
    else FreeSlotFrom(dir, from + 1)
  }

  /** The lowest slot add_dir_entry can use, or -1. */
  function FreeSlot(dir: seq<Entry>): (k: int)
    ensures -1 <= k < |dir|
    ensures k >= 0 ==> !Live(dir, k) && forall j :: 0 <= j < k ==> Live(dir, j)
    ensures k == -1 ==> forall j :: 0 <= j < |dir| ==> Live(dir, j)
  {
    FreeSlotFrom(dir, 0)
  }

  function SetEntry(block: seq<byte>, k: nat, e: Entry): (r: seq<byte>)
    requires k < |block| / ENTRY_SIZE && |e.name| == MAX_FILE_NAME
    ensures |r| == |block|
  {
    WriteName(WriteInum(block, k, e.inum), k, e.name)
  }

  lemma DirSetEntry(block: seq<byte>, k: nat, e: Entry)
    requires k < |block| / ENTRY_SIZE && |e.name| == MAX_FILE_NAME
    ensures Dir(SetEntry(block, k, e)) == Dir(block)[k := e]
  {
    DirWriteInum(block, k, e.inum);
    DirWriteName(WriteInum(block, k, e.inum), k, e.name);
  }

  function SetRootEntry(s: Fs, k: nat, e: Entry): Fs
    requires Shape(s) && RootInv(s) && k < |RootDir(s)| && |e.name| == MAX_FILE_NAME
  {
    var b := s.inodes[ROOT].block;
    s.(blocks := s.blocks[b := SetEntry(s.blocks[b], k, e)])
  }

  // add_dir_entry on the root: the new state and whether it succeeded
  function AddDirEntry(s: Fs, name: CString, inum: int32): (Fs, bool)
    requires Shape(s) && RootInv(s)
  {
    if |name| == 0 || |name| > MAX_FILE_NAME - 1 then (s, false)
    else
      var k := FreeSlot(RootDir(s));
      if k == -1 then (s, false)
      else (SetRootEntry(s, k, Entry(Pad(name, MAX_FILE_NAME), inum)), true)
  }

  // clear_dir_entry on the root
  function ClearDirEntry(s: Fs, name: CString): (Fs, bool)
    requires Shape(s) && RootInv(s)
  {
    var k := MatchSlot(RootDir(s), name);
    if k == -1 then (s, false)
    else (SetRootEntry(s, k, Entry(Zeros(MAX_FILE_NAME), -1)), true)
  }

  // find_in_dir on the root
  function FindInDir(s: Fs, name: CString): int
    requires Shape(s) && RootInv(s)
  {
    var k := FindSlot(RootDir(s), name);
    if k == -1 then -1 else RootDir(s)[k].inum
  }

  // add_to_open_file_table
  function AddOpenFile(s: Fs, inum: int, offset: nat): (Fs, int)
    requires |s.files| == |s.fileMap|
  {
    var h := FirstFree(s.fileMap);
    if h == -1 then (s, -1)
    else (s.(fileMap := s.fileMap[h := TAKEN], files := s.files[h := OpenFile(inum, offset)]), h)
  }

  // ---------------------------------------------------------------------------------------------
  // fs/operations.c
  // ---------------------------------------------------------------------------------------------

  predicate ValidPathname(path: Path) {
    path.Str? && |path.name| > 1 && path.name[0] == '/' as byte
  }

  /** The path without its first character. */
  function FileName(path: Path): CString
    requires ValidPathname(path)
  {
    path.name[1..]
  }

  // lines 101-111 of tfs_open
  function Truncate(s: Fs, i: nat): Fs
    requires i < |s.inodes|
    requires s.inodes[i].size > 0 ==> 0 <= s.inodes[i].block < |s.blockMap|
  {
    if s.inodes[i].size > 0 then
      BlockFree(s, s.inodes[i].block).(inodes := s.inodes[i := s.inodes[i].(size := 0)])
    else s
  }

  // tfs_open
  function Open(s: Fs, path: Path, mode: Mode): (Fs, int)
    requires TablesInv(s)
  {
    if !ValidPathname(path) then (s, -1)
    else
      var name := FileName(path);
      var inum := FindInDir(s, name);
      if inum >= 0 then
        var s1 := if mode.trunc then Truncate(s, inum) else s;
        AddOpenFile(s1, inum, if mode.append then s1.inodes[inum].size else 0)
      else if mode.creat then
        var (s1, i) := InodeCreate(s);
        if i == -1 then (s, -1)
        else
          var (s2, ok) := AddDirEntry(s1, name, i);
          if !ok then (InodeDelete(s2, i), -1) else AddOpenFile(s2, i, 0)
      else (s, -1)
  }

  // tfs_close
  function Close(s: Fs, h: int): (Fs, int) {
    if !FileOpen(s, h) then (s, -1) else (s.(fileMap := s.fileMap[h := FREE]), 0)
  }

  /** size_t addition and subtraction. */
  function AddSize(a: nat, b: nat): nat
    requires a < SIZE_MODULUS && b < SIZE_MODULUS
  {
    if a + b < SIZE_MODULUS then a + b else a + b - SIZE_MODULUS
  }

  function SubSize(a: nat, b: nat): nat
    requires a < SIZE_MODULUS && b < SIZE_MODULUS
  {
    if b <= a then a - b else a + SIZE_MODULUS - b
  }

  // lines 205-208 of tfs_write
  function WriteLength(length: nat, offset: nat, blockSize: nat): nat
    requires length < SIZE_MODULUS && offset < SIZE_MODULUS && blockSize < SIZE_MODULUS
  {
    if AddSize(length, offset) > blockSize then SubSize(blockSize, offset) else length
  }

  /** The sum of length and offset is a size_t. */
  predicate WriteFits(length: nat, offset: nat) {
    length + offset < SIZE_MODULUS
  }

  /** A write stays inside its block, and is clipped only at the end of it, exactly when the sum does
      not wrap. */
  lemma WriteLengthExact(length: nat, offset: nat, blockSize: nat)
    requires length < SIZE_MODULUS && offset <= blockSize < SIZE_MODULUS
    ensures WriteFits(length, offset) <==> offset + WriteLength(length, offset, blockSize) <= blockSize
    ensures WriteFits(length, offset) ==>
              WriteLength(length, offset, blockSize) ==
              if length <= blockSize - offset then length else blockSize - offset
  {
  }

  // tfs_write
  function Write(s: Fs, h: int, buffer: seq<byte>): (Fs, int)
    requires Inv(s)
    requires FileOpen(s, h) ==> WriteFits(|buffer|, s.files[h].offset)
  {
    if !FileOpen(s, h) then (s, -1)
    else
      var f := s.files[h];
      var node := s.inodes[f.inum];
      var n := WriteLength(|buffer|, f.offset, s.blockSize);
      if n == 0 then (s, 0)
      else
        var b := if node.size == 0 then FirstFree(s.blockMap) else node.block;
        if b == -1 then (s, -1)
        else
          assert n <= |buffer| && f.offset + n <= s.blockSize by {
            WriteLengthExact(|buffer|, f.offset, s.blockSize);
          }
          var end := f.offset + n;
          (s.(blockMap := if node.size == 0 then s.blockMap[b := TAKEN] else s.blockMap,
              blocks := s.blocks[b := Splice(s.blocks[b], f.offset, buffer[..n])],
              inodes := s.inodes[f.inum := node.(block := b, size := if end > node.size then end else node.size)],
              files := s.files[h := f.(offset := end)]), n as int)
  }

  // lines 265-269 of tfs_read
  function ReadLength(size: nat, offset: nat, length: nat): nat
    requires size < SIZE_MODULUS && offset < SIZE_MODULUS
  {
    var n := SubSize(size, offset);
    if n > length then length else n
  }

  /** A read is clipped at the end of the file as long as the offset is not past it.  Past it the
      difference wraps around, and all that was asked for is read. */
  lemma ReadLengthExact(size: nat, offset: nat, length: nat)
    requires size < SIZE_MODULUS && offset < SIZE_MODULUS
    ensures offset <= size ==>
              ReadLength(size, offset, length) == if length <= size - offset then length else size - offset
    ensures offset > size && length <= SIZE_MODULUS - (offset - size) ==>
              ReadLength(size, offset, length) == length
  {
  }

  /** What a read copies lies within one block.  The invariant guarantees it, see InvReadable. */
  predicate Readable(s: Fs, h: int, length: nat) {
    FileOpen(s, h) ==>
      && h < |s.files|
      && var f := s.files[h];
      && 0 <= f.inum < |s.inodes| && s.inodes[f.inum].size < SIZE_MODULUS && f.offset < SIZE_MODULUS
      && var n := ReadLength(s.inodes[f.inum].size, f.offset, length);
      (n > 0 ==> 0 <= s.inodes[f.inum].block < |s.blocks| && f.offset + n <= |s.blocks[s.inodes[f.inum].block]|)
  }

  lemma InvReadable(s: Fs, h: int, length: nat)
    requires Inv(s)
    ensures Readable(s, h, length)
  {
  }

  // tfs_read: the new state, the result and the bytes copied to the buffer
  function Read(s: Fs, h: int, length: nat): (Fs, int, seq<byte>)
    requires Readable(s, h, length)
  {
    if !FileOpen(s, h) then (s, -1, [])
    else
      var f := s.files[h];
      var node := s.inodes[f.inum];
      var n := ReadLength(node.size, f.offset, length);
      if n == 0 then (s, 0, [])
      else
        (s.(files := s.files[h := f.(offset := f.offset + n)]), n as int,
         s.blocks[node.block][f.offset..f.offset + n])
  }

  // tfs_unlink
  function Unlink(s: Fs, path: Path): (Fs, int)
    requires TablesInv(s)
  {
    if !ValidPathname(path) then (s, -1)
    else
      var inum := FindInDir(s, FileName(path));
      if inum == -1 then (s, -1)
      else
        var (s', ok) := ClearDirEntry(InodeDelete(s, inum), FileName(path));
        (s', if ok then 0 else -1)
  }
}
