/** Every operation keeps the invariant of the file system. */
module FsInv {
  import opened FsBytes
  import opened FsModel

  // ---------------------------------------------------------------------------------------------
  // Names
  // ---------------------------------------------------------------------------------------------

  lemma SlotNameUnique(dir: seq<Entry>, k: int, a: CString, b: CString)
    requires Names(dir, k, a) && Names(dir, k, b)
    ensures a == b
  {
    PadInjective(a, b, MAX_FILE_NAME);
  }

  lemma NameSlotUnique(dir: seq<Entry>, j: int, k: int, name: CString)
    requires NamesInv(dir) && Names(dir, j, name) && Names(dir, k, name)
    ensures j == k
  {
  }

  /** strncmp over the name field finds exactly the live entry of that name, even for names too long
      to be in the directory. */
  lemma FindSlotExact(dir: seq<Entry>, name: CString)
    requires NamesInv(dir) && name != []
    ensures var k := FindSlot(dir, name);
            && (k >= 0 ==> Names(dir, k, name))
            && (k == -1 ==> forall j :: !Names(dir, j, name))
  {
    var k := FindSlot(dir, name);
    if k >= 0 {
      assert HasName(dir, k);
      var m :| Names(dir, k, m);
      StrnEqPad(m, name, MAX_FILE_NAME, MAX_FILE_NAME);
    } else {
      forall j ensures !Names(dir, j, name) {
        if Names(dir, j, name) {
          StrnEqPad(name, name, MAX_FILE_NAME, MAX_FILE_NAME);
        }
      }
    }
  }

  /** clear_dir_entry, which does not look at inode numbers, stops at the live entry of that name, and
      every name field it compares on the way contains a NUL. */
  lemma MatchSlotExact(dir: seq<Entry>, k: int, name: CString)
    requires NamesInv(dir) && Names(dir, k, name)
    ensures MatchSlot(dir, name) == k
    ensures forall j :: 0 <= j <= k ==> 0 in dir[j].name
  {
    forall j | 0 <= j < k ensures !StrEq(dir[j].name, name) && 0 in dir[j].name {
      if Live(dir, j) {
        assert HasName(dir, j);
        var m :| Names(dir, j, m);
        StrnEqPad(m, name, MAX_FILE_NAME, |name| + 1);
        assert dir[j].name[MAX_FILE_NAME - 1] == 0;
      } else {
        ZeroedNameNeverMatches(name, MAX_FILE_NAME);
        assert dir[j].name[MAX_FILE_NAME - 1] == 0;
      }
    }
    StrnEqPad(name, name, MAX_FILE_NAME, |name| + 1);
    assert dir[k].name[MAX_FILE_NAME - 1] == 0;
  }

  lemma NamesInvAdd(dir: seq<Entry>, k: nat, name: CString, inum: int32)
    requires NamesInv(dir) && FreeSlot(dir) == k && 0 < |name| < MAX_FILE_NAME && inum != -1
    requires forall j :: !Names(dir, j, name)
    ensures NamesInv(dir[k := Entry(Pad(name, MAX_FILE_NAME), inum)])
  {
    var dir' := dir[k := Entry(Pad(name, MAX_FILE_NAME), inum)];
    forall j | Live(dir', j) ensures HasName(dir', j) {
      if j == k {
        assert Names(dir', j, name);
      } else {
        assert Live(dir, j);
        assert HasName(dir, j);
        var m :| Names(dir, j, m);
        assert Names(dir', j, m);
      }
    }
    forall i | Live(dir, i) ensures dir[i].name != Pad(name, MAX_FILE_NAME) {
      assert !Names(dir, i, name);
    }
    forall i, j | Live(dir', i) && Live(dir', j) && dir'[i].name == dir'[j].name ensures i == j {
      assert i != k ==> Live(dir, i);
      assert j != k ==> Live(dir, j);
    }
    forall i, j | 0 <= i < j && Live(dir', j) && !Live(dir', i)
      ensures dir'[i].name == Zeros(MAX_FILE_NAME)
    {
      assert !Live(dir, i);
      assert j != k ==> Live(dir, j);
    }
  }

  lemma NamesInvClear(dir: seq<Entry>, k: nat)
    requires NamesInv(dir) && k < |dir|
    ensures NamesInv(dir[k := Entry(Zeros(MAX_FILE_NAME), -1)])
  {
    var dir' := dir[k := Entry(Zeros(MAX_FILE_NAME), -1)];
    forall j | Live(dir', j) ensures HasName(dir', j) {
      assert Live(dir, j);
      assert HasName(dir, j);
      var m :| Names(dir, j, m);
      assert Names(dir', j, m);
    }
    forall i, j | Live(dir', i) && Live(dir', j) && dir'[i].name == dir'[j].name ensures i == j {
      assert Live(dir, i) && Live(dir, j);
    }
    forall i, j | 0 <= i < j && Live(dir', j) && !Live(dir', i)
      ensures dir'[i].name == Zeros(MAX_FILE_NAME)
    {
      assert Live(dir, j);
      assert i != k ==> !Live(dir, i);
    }
  }

  // ---------------------------------------------------------------------------------------------
  // Links
  // ---------------------------------------------------------------------------------------------

  lemma LinksInvAdd(dir: seq<Entry>, map0: seq<Alloc>, k: nat, e: Entry)
    requires LinksInv(dir, map0) && k < |dir| && !Live(dir, k)
    requires 0 < e.inum < |map0| && map0[e.inum] == FREE
    ensures LinksInv(dir[k := e], map0[e.inum := TAKEN])
  {
    var dir', map1 := dir[k := e], map0[e.inum := TAKEN];
    forall j | Live(dir', j) ensures 0 < dir'[j].inum < |map1| && map1[dir'[j].inum] == TAKEN {
      assert j != k ==> Live(dir, j);
    }
    forall i, j | Live(dir', i) && Live(dir', j) && dir'[i].inum == dir'[j].inum ensures i == j {
      assert i != k ==> Live(dir, i);
      assert j != k ==> Live(dir, j);
    }
    forall i | 0 < i < |map1| && map1[i] == TAKEN ensures HasSlot(dir', i) {
      if i == e.inum {
        assert Live(dir', k);
      } else {
        assert HasSlot(dir, i);
        var j :| Live(dir, j) && dir[j].inum == i;
        assert Live(dir', j);
      }
    }
  }

  lemma LinksInvClear(dir: seq<Entry>, map0: seq<Alloc>, k: nat)
    requires LinksInv(dir, map0) && Live(dir, k)
    ensures LinksInv(dir[k := Entry(Zeros(MAX_FILE_NAME), -1)], map0[dir[k].inum := FREE])
  {
    var gone := dir[k].inum;
    var dir', map1 := dir[k := Entry(Zeros(MAX_FILE_NAME), -1)], map0[gone := FREE];
    forall j | Live(dir', j) ensures 0 < dir'[j].inum < |map1| && map1[dir'[j].inum] == TAKEN {
      assert Live(dir, j);
    }
    forall i, j | Live(dir', i) && Live(dir', j) && dir'[i].inum == dir'[j].inum ensures i == j {
      assert Live(dir, i) && Live(dir, j);
    }
    forall i | 0 < i < |map1| && map1[i] == TAKEN ensures HasSlot(dir', i) {
      assert HasSlot(dir, i);
      var j :| Live(dir, j) && dir[j].inum == i;
      assert Live(dir', j);
    }
  }

  // ---------------------------------------------------------------------------------------------
  // Blocks
  // ---------------------------------------------------------------------------------------------

  /** Only the root owns the root's block. */
  lemma RootBlock(s: Fs, i: int)
    requires Inv(s) && Owns(s, i, s.inodes[ROOT].block)
    ensures i == ROOT
  {
    assert Owns(s, ROOT, s.inodes[ROOT].block);
  }

  /** Giving up the block of inode i, by truncating or deleting it. */
  lemma BlocksInvRelease(s: Fs, s': Fs, i: nat)
    requires Shape(s) && Shape(s') && BlocksInv(s)
    requires |s'.inodes| == |s.inodes| && |s'.blocks| == |s.blocks|
    requires InodeTaken(s, i) && s.inodes[i].size > 0 && 0 <= s.inodes[i].block < |s.blocks|
    requires s'.blockMap == s.blockMap[s.inodes[i].block := FREE]
    requires forall b :: !Owns(s', i, b)
    requires forall j, b :: j != i ==> (Owns(s', j, b) <==> Owns(s, j, b))
    ensures BlocksInv(s')
  {
    var gone := s.inodes[i].block;
    assert Owns(s, i, gone);
    forall j, b | 0 <= b < |s'.blocks| && Owns(s', j, b) ensures s'.blockMap[b] == TAKEN {
      assert Owns(s, j, b);
    }
    forall j, k, b | Owns(s', j, b) && Owns(s', k, b) ensures j == k {
      assert Owns(s, j, b) && Owns(s, k, b);
    }
    forall b | 0 <= b < |s'.blocks| && s'.blockMap[b] == TAKEN ensures HasOwner(s', b) {
      assert HasOwner(s, b);
      var j :| Owns(s, j, b);
      assert Owns(s', j, b);
    }
  }

  /** Giving inode i, which had none, the free block b. */
  lemma BlocksInvAcquire(s: Fs, s': Fs, i: nat, b: nat)
    requires Shape(s) && Shape(s') && BlocksInv(s)
    requires |s'.inodes| == |s.inodes| && |s'.blocks| == |s.blocks|
    requires b < |s.blocks| && s.blockMap[b] == FREE && s'.blockMap == s.blockMap[b := TAKEN]
    requires forall c :: !Owns(s, i, c)
    requires forall c :: Owns(s', i, c) <==> c == b
    requires forall j, c :: j != i ==> (Owns(s', j, c) <==> Owns(s, j, c))
    ensures BlocksInv(s')
  {
    forall j, c | 0 <= c < |s'.blocks| && Owns(s', j, c) ensures s'.blockMap[c] == TAKEN {
      assert j != i ==> Owns(s, j, c);
    }
    forall j, k, c | Owns(s', j, c) && Owns(s', k, c) ensures j == k {
      assert j != i ==> Owns(s, j, c);
      assert k != i ==> Owns(s, k, c);
    }
    forall c | 0 <= c < |s'.blocks| && s'.blockMap[c] == TAKEN ensures HasOwner(s', c) {
      if c == b {
        assert Owns(s', i, c);
      } else {
        assert HasOwner(s, c);
        var j :| Owns(s, j, c);
        assert Owns(s', j, c);
      }
    }
  }

  /** Nobody's block changes. */
  lemma BlocksInvSame(s: Fs, s': Fs)
    requires Shape(s) && Shape(s') && BlocksInv(s)
    requires |s'.blocks| == |s.blocks| && s'.blockMap == s.blockMap
    requires forall j, c :: Owns(s', j, c) <==> Owns(s, j, c)
    ensures BlocksInv(s')
  {
    forall c | 0 <= c < |s'.blocks| && s'.blockMap[c] == TAKEN ensures HasOwner(s', c) {
      assert HasOwner(s, c);
      var j :| Owns(s, j, c);
      assert Owns(s', j, c);
    }
  }

  // ---------------------------------------------------------------------------------------------
  // Operations
  // ---------------------------------------------------------------------------------------------

  lemma CloseInv(s: Fs, h: int)
    requires Inv(s)
    ensures Inv(Close(s, h).0)
  {
    var s' := Close(s, h).0;
    BlocksInvSame(s, s');
    forall g | FileOpen(s', g) ensures FileOpen(s, g) {}
  }

  lemma AddOpenFileInv(s: Fs, i: int, offset: nat)
    requires Inv(s) && 0 < i && InodeTaken(s, i) && offset <= s.inodes[i].size
    ensures Inv(AddOpenFile(s, i, offset).0)
  {
    var (s', h) := AddOpenFile(s, i, offset);
    BlocksInvSame(s, s');
    forall g | FileOpen(s', g)
      ensures s'.files[g].inum > 0 && InodeTaken(s', s'.files[g].inum)
      ensures s'.files[g].offset <= s'.inodes[s'.files[g].inum].size
    {
      assert g != h ==> FileOpen(s, g);
    }
  }

  lemma TruncateInv(s: Fs, i: nat)
    requires Inv(s) && 0 < i && InodeTaken(s, i)
    requires forall h :: FileOpen(s, h) && s.files[h].inum == i ==> s.files[h].offset == 0
    ensures Inv(Truncate(s, i))
  {
    var s' := Truncate(s, i);
    if s.inodes[i].size > 0 {
      assert forall b :: !Owns(s', i, b);
      assert forall j, b :: j != i ==> (Owns(s', j, b) <==> Owns(s, j, b));
      BlocksInvRelease(s, s', i);
      forall h | FileOpen(s', h)
        ensures s'.files[h].inum > 0 && InodeTaken(s', s'.files[h].inum)
        ensures s'.files[h].offset <= s'.inodes[s'.files[h].inum].size
      {
        assert FileOpen(s, h);
      }
    }
  }

  /** Deleting an inode that was just created restores the tables it was taken from. */
  lemma CreateUndone(s: Fs)
    requires Inv(s) && InodeCreate(s).1 != -1
    ensures var (s1, i) := InodeCreate(s);
            var s2 := InodeDelete(s1, i);
            && Inv(s2)
            && s2.inodeMap == s.inodeMap && s2.blocks == s.blocks && s2.blockMap == s.blockMap
            && s2.files == s.files && s2.fileMap == s.fileMap
            && s2.inodes == s.inodes[i := Inode(T_FILE, 0, -1)] && s.inodeMap[i] == FREE
  {
    var (s1, i) := InodeCreate(s);
    var s2 := InodeDelete(s1, i);
    assert s2.inodeMap == s.inodeMap;
    assert forall j, c :: Owns(s2, j, c) <==> Owns(s, j, c);
    BlocksInvSame(s, s2);
    forall h | FileOpen(s2, h) ensures FileOpen(s, h) {}
  }

  /** A new inode leaves the root directory as it is. */
  lemma CreatedRoot(s: Fs)
    requires TablesInv(s) && InodeCreate(s).1 != -1
    ensures var (s1, i) := InodeCreate(s);
            && 0 < i < |s.inodes| && s.inodeMap[i] == FREE
            && Shape(s1) && RootInv(s1) && RootDir(s1) == RootDir(s)
  {
  }

  /** What the root directory and everything else are after an entry is set. */
  lemma RootEntrySet(s: Fs, k: nat, e: Entry)
    requires Shape(s) && RootInv(s) && k < |RootDir(s)| && |e.name| == MAX_FILE_NAME
    ensures var s' := SetRootEntry(s, k, e);
            && Shape(s') && RootInv(s')
            && RootDir(s') == RootDir(s)[k := e]
            && s' == s.(blocks := s'.blocks) && |s'.blocks| == |s.blocks|
            && forall b :: 0 <= b < |s.blocks| && b != s.inodes[ROOT].block ==> s'.blocks[b] == s.blocks[b]
  {
    DirSetEntry(s.blocks[s.inodes[ROOT].block], k, e);
  }

  lemma CreateTablesInv(s: Fs, name: CString)
    requires TablesInv(s) && InodeCreate(s).1 != -1 && name != []
    requires forall j :: !Names(RootDir(s), j, name)
    requires |name| < MAX_FILE_NAME && FreeSlot(RootDir(s)) != -1
    ensures var (s1, i) := InodeCreate(s);
            && Shape(s1) && RootInv(s1) && RootDir(s1) == RootDir(s)
            && var (s2, ok) := AddDirEntry(s1, name, i);
            && ok && TablesInv(s2)
            && RootDir(s2) == RootDir(s)[FreeSlot(RootDir(s)) := Entry(Pad(name, MAX_FILE_NAME), i)]
            && s2 == s1.(blocks := s2.blocks)
  {
    var (s1, i) := InodeCreate(s);
    var k := FreeSlot(RootDir(s));
    var e := Entry(Pad(name, MAX_FILE_NAME), i);
    CreatedRoot(s);
    RootEntrySet(s1, k, e);
    var s2 := SetRootEntry(s1, k, e);
    NamesInvAdd(RootDir(s), k, name, i);
    LinksInvAdd(RootDir(s), s.inodeMap, k, e);
    assert forall j, c :: Owns(s2, j, c) <==> Owns(s, j, c);
    BlocksInvSame(s, s2);
  }

  lemma CreateInv(s: Fs, name: CString)
    requires Inv(s) && InodeCreate(s).1 != -1 && name != []
    requires forall j :: !Names(RootDir(s), j, name)
    requires |name| < MAX_FILE_NAME && FreeSlot(RootDir(s)) != -1
    ensures var (s1, i) := InodeCreate(s);
            && Shape(s1) && RootInv(s1) && RootDir(s1) == RootDir(s)
            && var (s2, ok) := AddDirEntry(s1, name, i);
            && ok && Inv(s2)
            && RootDir(s2) == RootDir(s)[FreeSlot(RootDir(s)) := Entry(Pad(name, MAX_FILE_NAME), i)]
  {
    CreateTablesInv(s, name);
    var (s1, i) := InodeCreate(s);
    var s2 := AddDirEntry(s1, name, i).0;
    forall h | FileOpen(s2, h) ensures FileOpen(s, h) {}
  }

  /** Deleting the inode of a live entry, the first half of tfs_unlink. */
  lemma DeleteBlocks(s: Fs, i: nat)
    requires TablesInv(s) && 0 < i && InodeTaken(s, i)
    ensures var s1 := InodeDelete(s, i);
            && Shape(s1) && RootInv(s1) && InodesInv(s1) && BlocksInv(s1)
            && RootDir(s1) == RootDir(s)
            && s1.inodeMap == s.inodeMap[i := FREE] && s1.inodes == s.inodes && s1.blocks == s.blocks
            && s1.files == s.files && s1.fileMap == s.fileMap
  {
    var s1 := InodeDelete(s, i);
    assert forall b :: !Owns(s1, i, b);
    assert forall j, b :: j != i ==> (Owns(s1, j, b) <==> Owns(s, j, b));
    if s.inodes[i].size > 0 {
      BlocksInvRelease(s, s1, i);
    } else {
      BlocksInvSame(s, s1);
    }
  }

  /** Unlinking keeps everything but possibly the open-file table in order. */
  lemma UnlinkTablesInv(s: Fs, k: nat, name: CString)
    requires TablesInv(s) && Names(RootDir(s), k, name)
    ensures InodeTaken(s, RootDir(s)[k].inum) && RootDir(s)[k].inum > 0
    ensures var s1 := InodeDelete(s, RootDir(s)[k].inum);
            && Shape(s1) && RootInv(s1)
            && var (s2, ok) := ClearDirEntry(s1, name);
            && ok && TablesInv(s2)
            && RootDir(s2) == RootDir(s)[k := Entry(Zeros(MAX_FILE_NAME), -1)]
            && s2 == s1.(blocks := s2.blocks)
  {
    var dir := RootDir(s);
    var i := dir[k].inum;
    assert Live(dir, k);
    DeleteBlocks(s, i);
    var s1 := InodeDelete(s, i);
    MatchSlotExact(dir, k, name);
    var e := Entry(Zeros(MAX_FILE_NAME), -1);
    RootEntrySet(s1, k, e);
    var s2 := SetRootEntry(s1, k, e);
    NamesInvClear(dir, k);
    LinksInvClear(dir, s.inodeMap, k);
    assert forall j, c :: Owns(s2, j, c) <==> Owns(s1, j, c);
    BlocksInvSame(s1, s2);
  }

  lemma UnlinkInv(s: Fs, k: nat, name: CString)
    requires Inv(s) && Names(RootDir(s), k, name)
    requires forall h :: FileOpen(s, h) ==> s.files[h].inum != RootDir(s)[k].inum
    ensures InodeTaken(s, RootDir(s)[k].inum) && RootDir(s)[k].inum > 0
    ensures var s1 := InodeDelete(s, RootDir(s)[k].inum);
            && Shape(s1) && RootInv(s1)
            && var (s2, ok) := ClearDirEntry(s1, name);
            && ok && Inv(s2)
            && RootDir(s2) == RootDir(s)[k := Entry(Zeros(MAX_FILE_NAME), -1)]
  {
    UnlinkTablesInv(s, k, name);
    var i := RootDir(s)[k].inum;
    DeleteBlocks(s, i);
    var s2 := ClearDirEntry(InodeDelete(s, i), name).0;
    forall h | FileOpen(s2, h) ensures FileOpen(s, h) {}
  }

  /** A write that needs a block gets one that belongs to nobody; otherwise it uses its own. */
  lemma WriteBlock(s: Fs, h: int)
    requires Inv(s) && FileOpen(s, h)
    ensures var node := s.inodes[s.files[h].inum];
            var b := if node.size == 0 then FirstFree(s.blockMap) else node.block;
            b != -1 ==>
              && 0 <= b < |s.blocks| && b != s.inodes[ROOT].block
              && forall j :: j != s.files[h].inum ==> !Owns(s, j, b)
  {
    var i := s.files[h].inum;
    var node := s.inodes[i];
    assert Owns(s, ROOT, s.inodes[ROOT].block);
    if node.size > 0 {
      assert Owns(s, i, node.block);
    }
  }

  lemma WriteBlocksInv(s: Fs, h: int, buffer: seq<byte>)
    requires Inv(s) && FileOpen(s, h) && WriteFits(|buffer|, s.files[h].offset)
    requires Write(s, h, buffer).1 > 0 && Shape(Write(s, h, buffer).0)
    ensures BlocksInv(Write(s, h, buffer).0)
  {
    var (s', r) := Write(s, h, buffer);
    var i := s.files[h].inum;
    var b := s'.inodes[i].block;
    assert forall j, c :: j != i ==> (Owns(s', j, c) <==> Owns(s, j, c));
    assert forall c :: Owns(s', i, c) <==> c == b;
    if s.inodes[i].size == 0 {
      BlocksInvAcquire(s, s', i, b);
    } else {
      BlocksInvSame(s, s');
    }
  }

  lemma WriteInv(s: Fs, h: int, buffer: seq<byte>)
    requires Inv(s)
    requires FileOpen(s, h) ==> WriteFits(|buffer|, s.files[h].offset)
    ensures Inv(Write(s, h, buffer).0)
  {
    var (s', r) := Write(s, h, buffer);
    if FileOpen(s, h) && r > 0 {
      var f := s.files[h];
      var i := f.inum;
      WriteLengthExact(|buffer|, f.offset, s.blockSize);
      WriteBlock(s, h);
      assert RootDir(s') == RootDir(s);
      WriteBlocksInv(s, h, buffer);
      forall g | FileOpen(s', g)
        ensures s'.files[g].inum > 0 && InodeTaken(s', s'.files[g].inum)
        ensures s'.files[g].offset <= s'.inodes[s'.files[g].inum].size
      {
        assert FileOpen(s, g);
      }
    }
  }

  lemma ReadInv(s: Fs, h: int, length: nat)
    requires Inv(s)
    ensures Inv(Read(s, h, length).0)
  {
    var s' := Read(s, h, length).0;
    BlocksInvSame(s, s');
    forall g | FileOpen(s', g)
      ensures s'.files[g].inum > 0 && InodeTaken(s', s'.files[g].inum)
      ensures s'.files[g].offset <= s'.inodes[s'.files[g].inum].size
    {
      assert FileOpen(s, g);
    }
  }
}
