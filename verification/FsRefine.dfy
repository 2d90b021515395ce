/** TecnicoFS refines the abstract file system: every operation, with every way it can fail, does to
    the tables what AbsFs says it does to files and handles. */
module FsRefine {
  import opened FsBytes
  import opened FsModel
  import opened FsInv
  import opened FsCount
  import opened AbsFs

  function LimitsOf(s: Fs): Limits {
    Limits(|s.inodes|, |s.blocks|, |s.files|, s.blockSize)
  }

  /** The bytes of inode i: the rest of its block, left over from earlier owners, is not part of it. */
  function Content(s: Fs, i: int): seq<byte> {
    if 0 <= i < |s.inodes| && s.inodes[i].size > 0
       && 0 <= s.inodes[i].block < |s.blocks| && s.inodes[i].size <= |s.blocks[s.inodes[i].block]|
    then s.blocks[s.inodes[i].block][..s.inodes[i].size]
    else []
  }

  ghost predicate IsName(dir: seq<Entry>, name: CString) {
    exists k :: Names(dir, k, name)
  }

  /** The live entries of `dir` are the files, with the contents their inodes have in `s`. */
  ghost predicate ContentsAre(dir: seq<Entry>, s: Fs, contents: map<CString, seq<byte>>) {
    && (forall k, name :: Names(dir, k, name) ==>
          name in contents && contents[name] == Content(s, dir[k].inum))
    && (forall name {:trigger IsName(dir, name)} :: name in contents ==> IsName(dir, name))
  }

  /** The open handles are those of `s`, on the file their inode is called in `dir`. */
  ghost predicate HandlesAre(dir: seq<Entry>, s: Fs, handles: map<int, Handle>) {
    && (forall h :: h in handles <==> FileOpen(s, h))
    && (forall h, k, name :: FileOpen(s, h) && Names(dir, k, name) && dir[k].inum == s.files[h].inum ==>
          handles[h] == Handle(name, s.files[h].offset))
  }

  ghost predicate ContentsRel(s: Fs, a: Abs)
    requires Inv(s)
  {
    ContentsAre(RootDir(s), s, a.contents)
  }

  ghost predicate HandlesRel(s: Fs, a: Abs)
    requires Inv(s)
  {
    HandlesAre(RootDir(s), s, a.handles)
  }

  /** `a` is what the tables `s` stand for. */
  ghost predicate Rel(s: Fs, a: Abs)
    requires Inv(s)
  {
    ContentsRel(s, a) && HandlesRel(s, a)
  }

  // ---------------------------------------------------------------------------------------------
  // Facts about related states
  // ---------------------------------------------------------------------------------------------

  /** The slot of an inode and its name. */
  lemma SlotOfInode(s: Fs, i: int) returns (k: int, name: CString)
    requires Inv(s) && 0 < i && InodeTaken(s, i)
    ensures Names(RootDir(s), k, name) && RootDir(s)[k].inum == i
  {
    assert HasSlot(RootDir(s), i);
    k :| Live(RootDir(s), k) && RootDir(s)[k].inum == i;
    assert HasName(RootDir(s), k);
    name :| Names(RootDir(s), k, name);
  }

  lemma ContentLength(s: Fs, i: int)
    requires Inv(s) && 0 < i && InodeTaken(s, i)
    ensures |Content(s, i)| == s.inodes[i].size
  {
  }

  lemma RelWellFormed(s: Fs, a: Abs)
    requires Inv(s) && Rel(s, a)
    ensures WellFormed(a)
  {
    forall h | h in a.handles
      ensures a.handles[h].name in a.contents
      ensures a.handles[h].offset <= |a.contents[a.handles[h].name]|
    {
      assert FileOpen(s, h);
      var k, name := SlotOfInode(s, s.files[h].inum);
      ContentLength(s, s.files[h].inum);
    }
  }

  /** The tables determine what they stand for. */
  lemma RelUnique(s: Fs, a: Abs, b: Abs)
    requires Inv(s) && Rel(s, a) && Rel(s, b)
    ensures a == b
  {
    forall name | name in a.contents || name in b.contents
      ensures name in a.contents && name in b.contents && a.contents[name] == b.contents[name]
    {
      assert IsName(RootDir(s), name);
      var k :| Names(RootDir(s), k, name);
    }
    assert a.contents == b.contents;
    forall h | h in a.handles || h in b.handles
      ensures h in a.handles && h in b.handles && a.handles[h] == b.handles[h]
    {
      assert FileOpen(s, h);
      var k, name := SlotOfInode(s, s.files[h].inum);
    }
    assert a.handles == b.handles;
  }

  // ---------------------------------------------------------------------------------------------
  // Counting
  // ---------------------------------------------------------------------------------------------

  ghost function SlotOf(dir: seq<Entry>, name: CString): int
    requires IsName(dir, name)
    ensures Names(dir, SlotOf(dir, name), name)
  {
    var k :| Names(dir, k, name); k
  }

  lemma RelBounded(s: Fs, a: Abs)
    requires Inv(s) && ContentsRel(s, a)
    ensures Bounded(a, LimitsOf(s))
  {
    forall name | name in a.contents ensures |a.contents[name]| <= s.blockSize {
      assert IsName(RootDir(s), name);
      var k := SlotOf(RootDir(s), name);
      assert Live(RootDir(s), k);
      ContentLength(s, RootDir(s)[k].inum);
    }
  }

  /** As many names as live slots. */
  lemma NamesSize(dir: seq<Entry>, names: set<CString>)
    requires NamesInv(dir)
    requires forall k, name :: Names(dir, k, name) ==> name in names
    requires forall name {:trigger IsName(dir, name)} :: name in names ==> IsName(dir, name)
    ensures |names| == |LiveSet(dir)|
  {
    forall name | name in names ensures IsName(dir, name) {}
    var f := map name | name in names :: SlotOf(dir, name);
    forall n, m | n in names && m in names && f[n] == f[m] ensures n == m {
      SlotNameUnique(dir, f[n], n, m);
    }
    forall k | k in LiveSet(dir) ensures Hit(names, f, k) {
      assert HasName(dir, k);
      var name: CString :| Names(dir, k, name);
      NameSlotUnique(dir, k, f[name], name);
      assert name in names && f[name] == k;
    }
    SameSize(names, LiveSet(dir), f);
  }

  lemma ContentsSize(s: Fs, a: Abs)
    requires Inv(s) && ContentsRel(s, a)
    ensures |a.contents| == |LiveSet(RootDir(s))|
  {
    NamesSize(RootDir(s), a.contents.Keys);
  }

  /** The inode table is full exactly when there is one file less than inodes. */
  lemma InodesFull(s: Fs, a: Abs)
    requires Inv(s) && ContentsRel(s, a)
    ensures FirstFree(s.inodeMap) == -1 <==> |a.contents| + 1 == |s.inodes|
  {
    ContentsSize(s, a);
    LiveSize(s);
    TableFullIff(s.inodeMap);
  }

  /** The directory is full exactly when there are as many files as slots. */
  lemma DirectoryFull(s: Fs, a: Abs)
    requires Inv(s) && ContentsRel(s, a)
    ensures FreeSlot(RootDir(s)) == -1 <==> |a.contents| == s.blockSize / ENTRY_SIZE
  {
    ContentsSize(s, a);
    DirFullIff(RootDir(s));
  }

  /** The inode of a file. */
  ghost function InumOf(dir: seq<Entry>, name: CString): int
    requires IsName(dir, name)
  {
    dir[SlotOf(dir, name)].inum
  }

  lemma NonEmptyOwns(s: Fs, a: Abs, name: CString)
    requires Inv(s) && ContentsRel(s, a) && name in NonEmpty(a)
    ensures IsName(RootDir(s), name)
    ensures InumOf(RootDir(s), name) in Owners(s) - {ROOT as int}
  {
    var dir := RootDir(s);
    assert IsName(dir, name);
    assert Live(dir, SlotOf(dir, name));
    ContentLength(s, InumOf(dir, name));
  }

  lemma OwnerIsNonEmpty(s: Fs, a: Abs, i: int) returns (name: CString)
    requires Inv(s) && ContentsRel(s, a) && i in Owners(s) - {ROOT as int}
    ensures name in NonEmpty(a) && IsName(RootDir(s), name) && InumOf(RootDir(s), name) == i
  {
    var k, n := SlotOfInode(s, i);
    name := n;
    ContentLength(s, i);
    assert IsName(RootDir(s), name);
    NameSlotUnique(RootDir(s), k, SlotOf(RootDir(s), name), name);
  }

  lemma InumInjective(dir: seq<Entry>, inodeMap: seq<Alloc>, n: CString, m: CString)
    requires LinksInv(dir, inodeMap) && IsName(dir, n) && IsName(dir, m) && InumOf(dir, n) == InumOf(dir, m)
    ensures n == m
  {
    assert Live(dir, SlotOf(dir, n)) && Live(dir, SlotOf(dir, m));
    SlotNameUnique(dir, SlotOf(dir, n), n, m);
  }

  ghost predicate NameOf(dir: seq<Entry>, names: set<CString>, i: int) {
    exists name :: name in names && IsName(dir, name) && InumOf(dir, name) == i
  }

  lemma NamesMatch(dir: seq<Entry>, inodeMap: seq<Alloc>, names: set<CString>, inums: set<int>)
    requires LinksInv(dir, inodeMap)
    requires forall name :: name in names ==> IsName(dir, name) && InumOf(dir, name) in inums
    requires forall i {:trigger NameOf(dir, names, i)} :: i in inums ==> NameOf(dir, names, i)
    ensures |names| == |inums|
  {
    var f: map<CString, int> := map name | name in names :: InumOf(dir, name);
    forall n, m | n in names && m in names && f[n] == f[m] ensures n == m {
      InumInjective(dir, inodeMap, n, m);
    }
    forall i | i in inums ensures Hit(names, f, i) {
      assert NameOf(dir, names, i);
      var name :| name in names && IsName(dir, name) && InumOf(dir, name) == i;
      assert f[name] == i;
    }
    SameSize(names, inums, f);
  }

  /** As many files with data as inodes with data, besides the root. */
  lemma NonEmptySize(s: Fs, a: Abs)
    requires Inv(s) && ContentsRel(s, a)
    ensures |NonEmpty(a)| + 1 == |Owners(s)|
  {
    var dir, names, owners := RootDir(s), NonEmpty(a), Owners(s) - {ROOT as int};
    forall name | name in names ensures IsName(dir, name) && InumOf(dir, name) in owners {
      NonEmptyOwns(s, a, name);
    }
    forall i | i in owners ensures NameOf(dir, names, i) {
      var name := OwnerIsNonEmpty(s, a, i);
    }
    NamesMatch(dir, s.inodeMap, names, owners);
    assert (ROOT as int) in Owners(s);
  }

  /** All blocks are taken exactly when the files with data and the root need all of them. */
  lemma BlocksFull(s: Fs, a: Abs)
    requires Inv(s) && ContentsRel(s, a)
    ensures FirstFree(s.blockMap) == -1 <==> |NonEmpty(a)| + 1 == |s.blocks|
  {
    NonEmptySize(s, a);
    OwnersSize(s);
    TableFullIff(s.blockMap);
  }

  lemma {:induction false} LowestUnusedIsFirstFree(table: seq<Alloc>, from: nat)
    requires FirstFree(table) >= from
    ensures LowestUnused(TakenSet(table), from) == FirstFree(table)
    decreases |table| - from
  {
    if from in TakenSet(table) {
      LowestUnusedIsFirstFree(table, from + 1);
    }
  }

  /** The handle table is full exactly when there are as many handles, and handles are handed out
      lowest first. */
  lemma HandlesFull(s: Fs, a: Abs)
    requires Inv(s) && HandlesRel(s, a)
    ensures |a.handles| <= |s.files|
    ensures FirstFree(s.fileMap) == -1 <==> |a.handles| == |s.files|
    ensures FirstFree(s.fileMap) >= 0 ==> LowestUnused(a.handles.Keys, 0) == FirstFree(s.fileMap)
  {
    assert a.handles.Keys == TakenSet(s.fileMap) by {
      forall h ensures h in a.handles.Keys <==> h in TakenSet(s.fileMap) {
        assert h in a.handles <==> FileOpen(s, h);
      }
    }
    TableFullIff(s.fileMap);
    if FirstFree(s.fileMap) >= 0 {
      LowestUnusedIsFirstFree(s.fileMap, 0);
    }
  }

  // ---------------------------------------------------------------------------------------------
  // The parts of the operations
  // ---------------------------------------------------------------------------------------------

  /** What find_in_dir finds is the file of that name. */
  lemma LookupRefines(s: Fs, a: Abs, name: CString) returns (k: int)
    requires Inv(s) && ContentsRel(s, a) && name != []
    ensures FindInDir(s, name) >= 0 <==> name in a.contents
    ensures FindInDir(s, name) >= -1
    ensures name in a.contents ==>
              && Names(RootDir(s), k, name) && RootDir(s)[k].inum == FindInDir(s, name) > 0
              && InodeTaken(s, FindInDir(s, name))
    ensures name !in a.contents ==> forall j :: !Names(RootDir(s), j, name)
  {
    k := FindSlot(RootDir(s), name);
    FindSlotExact(RootDir(s), name);
    if name in a.contents {
      assert IsName(RootDir(s), name);
    }
  }

  lemma HandleAdded(
    dir: seq<Entry>, s: Fs, s': Fs, handles: map<int, Handle>, h: nat, k: int, name: CString, offset: nat)
    requires HandlesAre(dir, s, handles) && LinksInv(dir, s.inodeMap) && Names(dir, k, name)
    requires h < |s.fileMap| == |s.files|
    requires s'.fileMap == s.fileMap[h := TAKEN]
    requires s'.files == s.files[h := OpenFile(dir[k].inum, offset)]
    ensures HandlesAre(dir, s', handles[h := Handle(name, offset)])
  {
    var handles' := handles[h := Handle(name, offset)];
    forall g ensures g in handles' <==> FileOpen(s', g) {
      assert g in handles <==> FileOpen(s, g);
    }
    forall g, j, m | FileOpen(s', g) && Names(dir, j, m) && dir[j].inum == s'.files[g].inum
      ensures handles'[g] == Handle(m, s'.files[g].offset)
    {
      if g == h {
        assert Live(dir, j) && Live(dir, k);
        SlotNameUnique(dir, k, m, name);
      } else {
        assert FileOpen(s, g);
      }
    }
  }

  lemma OpenFileRel(s: Fs, a: Abs, k: int, name: CString, offset: nat)
    requires Inv(s) && Rel(s, a) && Names(RootDir(s), k, name)
    requires 0 < RootDir(s)[k].inum && InodeTaken(s, RootDir(s)[k].inum)
    requires offset <= s.inodes[RootDir(s)[k].inum].size
    ensures var (s', h) := AddOpenFile(s, RootDir(s)[k].inum, offset);
            var (a', h') := OpenHandle(a, LimitsOf(s), name, offset);
            Inv(s') && Rel(s', a') && h == h'
  {
    var i := RootDir(s)[k].inum;
    AddOpenFileInv(s, i, offset);
    HandlesFull(s, a);
    var (s', h) := AddOpenFile(s, i, offset);
    if h != -1 {
      HandleAdded(RootDir(s), s, s', a.handles, h, k, name, offset);
      assert forall j: int {:trigger Content(s', j)} :: Content(s', j) == Content(s, j);
    }
  }

  /** Truncating one file empties it and leaves the others alone. */
  lemma TruncateContent(s: Fs, i: int, j: int)
    requires Inv(s) && 0 < i && InodeTaken(s, i)
    ensures Content(Truncate(s, i), j) == if j == i then [] else Content(s, j)
  {
  }

  /** One file's content changes, the directory does not. */
  lemma ContentChanged(
    dir: seq<Entry>, s: Fs, s': Fs, contents: map<CString, seq<byte>>,
    k: int, name: CString, content: seq<byte>)
    requires NamesInv(dir) && ContentsAre(dir, s, contents) && Names(dir, k, name)
    requires forall j, m :: Names(dir, j, m) ==>
               Content(s', dir[j].inum) == if j == k then content else Content(s, dir[j].inum)
    ensures ContentsAre(dir, s', contents[name := content])
  {
    forall j, m | Names(dir, j, m)
      ensures m in contents[name := content] && contents[name := content][m] == Content(s', dir[j].inum)
    {
      if j == k {
        SlotNameUnique(dir, k, m, name);
      } else if m == name {
        NameSlotUnique(dir, j, k, name);
      }
    }
    forall m | m in contents[name := content] ensures IsName(dir, m) {
      assert m == name || IsName(dir, m);
    }
  }

  lemma TruncateRel(s: Fs, a: Abs, k: int, name: CString)
    requires Inv(s) && Rel(s, a) && Names(RootDir(s), k, name)
    requires 0 < RootDir(s)[k].inum && InodeTaken(s, RootDir(s)[k].inum)
    requires Inv(Truncate(s, RootDir(s)[k].inum))
    ensures Rel(Truncate(s, RootDir(s)[k].inum), a.(contents := a.contents[name := []]))
  {
    var i := RootDir(s)[k].inum;
    var s' := Truncate(s, i);
    assert RootDir(s') == RootDir(s);
    forall j, m | Names(RootDir(s), j, m)
      ensures Content(s', RootDir(s)[j].inum) == if j == k then [] else Content(s, RootDir(s)[j].inum)
    {
      assert Live(RootDir(s), j) && Live(RootDir(s), k);
      TruncateContent(s, i, RootDir(s)[j].inum);
    }
    ContentChanged(RootDir(s), s, s', a.contents, k, name, []);
    forall h ensures h in a.handles <==> FileOpen(s', h) {
      assert h in a.handles <==> FileOpen(s, h);
    }
    forall h, j, m | FileOpen(s', h) && Names(RootDir(s'), j, m) && RootDir(s')[j].inum == s'.files[h].inum
      ensures a.handles[h] == Handle(m, s'.files[h].offset)
    {
      assert FileOpen(s, h);
    }
  }

  /** A new entry for an empty file. */
  lemma ContentAdded(
    dir: seq<Entry>, s: Fs, s': Fs, contents: map<CString, seq<byte>>, k: int, i: int32, name: CString)
    requires ContentsAre(dir, s, contents) && 0 <= k < |dir| && !Live(dir, k)
    requires 0 < |name| < MAX_FILE_NAME && i != -1 && Content(s', i) == []
    requires forall j, m :: Names(dir, j, m) ==>
               m != name && Content(s', dir[j].inum) == Content(s, dir[j].inum)
    ensures ContentsAre(dir[k := Entry(Pad(name, MAX_FILE_NAME), i)], s', contents[name := []])
  {
    var dir' := dir[k := Entry(Pad(name, MAX_FILE_NAME), i)];
    assert Names(dir', k, name);
    forall j, m | Names(dir', j, m)
      ensures m in contents[name := []] && contents[name := []][m] == Content(s', dir'[j].inum)
    {
      if j == k {
        SlotNameUnique(dir', k, m, name);
      } else {
        assert Names(dir, j, m);
      }
    }
    forall m | m in contents[name := []] ensures IsName(dir', m) {
      if m != name {
        assert IsName(dir, m);
        var j :| Names(dir, j, m);
        assert Names(dir', j, m);
      }
    }
  }

  /** No handle is open on the inode of a new entry. */
  lemma HandlesKept(
    dir: seq<Entry>, s: Fs, s': Fs, handles: map<int, Handle>, k: int, e: Entry)
    requires HandlesAre(dir, s, handles) && 0 <= k < |dir|
    requires forall h :: FileOpen(s, h) && Live([e], 0) ==> s.files[h].inum != e.inum
    requires s'.files == s.files && s'.fileMap == s.fileMap
    ensures HandlesAre(dir[k := e], s', handles)
  {
    var dir' := dir[k := e];
    forall h ensures h in handles <==> FileOpen(s', h) {
      assert h in handles <==> FileOpen(s, h);
    }
    forall h, j, m | FileOpen(s', h) && Names(dir', j, m) && dir'[j].inum == s'.files[h].inum
      ensures handles[h] == Handle(m, s'.files[h].offset)
    {
      assert FileOpen(s, h);
      assert j == k ==> Live([e], 0);
      assert j != k ==> Names(dir, j, m);
    }
  }

  /** A file keeps its content while its inode stays and only the root's block changes. */
  lemma SameContent(s: Fs, s': Fs, i: int)
    requires Inv(s) && 0 < i && InodeTaken(s, i)
    requires i < |s'.inodes| && s'.inodes[i] == s.inodes[i] && |s'.blocks| == |s.blocks|
    requires forall b :: 0 <= b < |s.blocks| && b != s.inodes[ROOT].block ==> s'.blocks[b] == s.blocks[b]
    ensures Content(s', i) == Content(s, i)
  {
    if s.inodes[i].size > 0 {
      assert Owns(s, i, s.inodes[i].block);
      if s.inodes[i].block == s.inodes[ROOT].block {
        RootBlock(s, i);
      }
    }
  }

  lemma CreateRel(s: Fs, s': Fs, a: Abs, k: int, i: int32, name: CString)
    requires Inv(s) && Rel(s, a) && Inv(s')
    requires forall j :: !Names(RootDir(s), j, name)
    requires 0 <= k < |RootDir(s)| && !Live(RootDir(s), k)
    requires 0 < |name| < MAX_FILE_NAME && 0 < i < |s.inodes| && s.inodeMap[i] == FREE
    requires RootDir(s') == RootDir(s)[k := Entry(Pad(name, MAX_FILE_NAME), i)]
    requires s'.inodes == s.inodes[i := Inode(T_FILE, 0, -1)]
    requires s'.files == s.files && s'.fileMap == s.fileMap && |s'.blocks| == |s.blocks|
    requires forall b :: 0 <= b < |s.blocks| && b != s.inodes[ROOT].block ==> s'.blocks[b] == s.blocks[b]
    ensures Rel(s', a.(contents := a.contents[name := []]))
  {
    var dir := RootDir(s);
    forall j, m | Names(dir, j, m)
      ensures m != name && Content(s', dir[j].inum) == Content(s, dir[j].inum)
    {
      assert Live(dir, j);
      SameContent(s, s', dir[j].inum);
    }
    ContentAdded(dir, s, s', a.contents, k, i, name);
    HandlesKept(dir, s, s', a.handles, k, Entry(Pad(name, MAX_FILE_NAME), i));
  }

  /** An inode nobody refers to does not matter. */
  lemma UndoneRel(s: Fs, s': Fs, a: Abs, i: int)
    requires Inv(s) && Rel(s, a) && Inv(s')
    requires 0 < i < |s.inodes| && s.inodeMap[i] == FREE && s'.inodeMap == s.inodeMap
    requires s'.inodes == s.inodes[i := Inode(T_FILE, 0, -1)]
    requires s'.blocks == s.blocks && s'.files == s.files && s'.fileMap == s.fileMap
    ensures Rel(s', a)
  {
    var dir := RootDir(s);
    assert RootDir(s') == dir;
    forall j, m | Names(dir, j, m) ensures m in a.contents && a.contents[m] == Content(s', dir[j].inum) {
      assert Live(dir, j);
      SameContent(s, s', dir[j].inum);
    }
    forall h ensures h in a.handles <==> FileOpen(s', h) {
      assert h in a.handles <==> FileOpen(s, h);
    }
    forall h, j, m | FileOpen(s', h) && Names(dir, j, m) && dir[j].inum == s'.files[h].inum
      ensures a.handles[h] == Handle(m, s'.files[h].offset)
    {
      assert FileOpen(s, h);
    }
  }

  // ---------------------------------------------------------------------------------------------
  // Reading, writing, closing, unlinking
  // ---------------------------------------------------------------------------------------------

  lemma CloseRefines(s: Fs, a: Abs, h: int)
    requires Inv(s) && Rel(s, a)
    ensures var (s', r), (a', r') := Close(s, h), AbsClose(a, h);
            Inv(s') && Rel(s', a') && r == r'
  {
    CloseInv(s, h);
    var (s', r) := Close(s, h);
    var (a', r') := AbsClose(a, h);
    assert h in a.handles <==> FileOpen(s, h);
    forall g ensures g in a'.handles <==> FileOpen(s', g) {
      assert g in a.handles <==> FileOpen(s, g);
    }
    forall g, j, m | FileOpen(s', g) && Names(RootDir(s'), j, m) && RootDir(s')[j].inum == s'.files[g].inum
      ensures a'.handles[g] == Handle(m, s'.files[g].offset)
    {
      assert FileOpen(s, g);
    }
  }

  /** The file behind an open handle. */
  lemma OpenedFile(s: Fs, a: Abs, h: int) returns (k: int, name: CString)
    requires Inv(s) && Rel(s, a) && FileOpen(s, h)
    ensures Names(RootDir(s), k, name) && RootDir(s)[k].inum == s.files[h].inum
    ensures h in a.handles && a.handles[h] == Handle(name, s.files[h].offset)
    ensures name in a.contents && a.contents[name] == Content(s, s.files[h].inum)
    ensures s.files[h].offset <= |a.contents[name]| == s.inodes[s.files[h].inum].size <= s.blockSize
  {
    k, name := SlotOfInode(s, s.files[h].inum);
    ContentLength(s, s.files[h].inum);
  }

  /** Moving one handle's offset. */
  lemma MoveRel(s: Fs, s': Fs, a: Abs, a': Abs, h: int, k: int, name: CString, offset: nat)
    requires Inv(s) && Rel(s, a) && FileOpen(s, h)
    requires Inv(s') && s'.fileMap == s.fileMap && RootDir(s') == RootDir(s)
    requires Names(RootDir(s), k, name) && RootDir(s)[k].inum == s.files[h].inum
    requires s'.files == s.files[h := s.files[h].(offset := offset)]
    requires a'.handles == a.handles[h := Handle(name, offset)]
    ensures HandlesRel(s', a')
  {
    var dir := RootDir(s);
    assert h in a.handles;
    forall g ensures g in a'.handles <==> FileOpen(s', g) {
      assert g in a.handles <==> FileOpen(s, g);
    }
    forall g, j, m | FileOpen(s', g) && Names(dir, j, m) && dir[j].inum == s'.files[g].inum
      ensures a'.handles[g] == Handle(m, s'.files[g].offset)
    {
      assert FileOpen(s, g);
      if g == h {
        assert Live(dir, j) && Live(dir, k);
        SlotNameUnique(dir, k, m, name);
      }
    }
  }

  /** What is read is the file's content between the old and the new offset. */
  lemma ReadBytes(s: Fs, h: int, length: nat)
    requires Inv(s) && FileOpen(s, h)
    ensures var f := s.files[h];
            var content := Content(s, f.inum);
            var (_, r, bytes) := Read(s, h, length);
            && f.offset <= |content|
            && r == (if |content| - f.offset > length then length else |content| - f.offset)
            && bytes == content[f.offset..f.offset + r]
  {
    ContentLength(s, s.files[h].inum);
  }

  lemma ReadValues(s: Fs, a: Abs, h: int, length: nat, name: CString)
    requires Inv(s) && WellFormed(a) && FileOpen(s, h)
    requires h in a.handles && a.handles[h] == Handle(name, s.files[h].offset)
    requires name in a.contents && a.contents[name] == Content(s, s.files[h].inum)
    ensures var (s', r, bytes), (a', r', bytes') := Read(s, h, length), AbsRead(a, h, length);
            && r == r' && bytes == bytes'
            && a' == a.(handles := a.handles[h := Handle(name, s.files[h].offset + r)])
            && s' == s.(files := s.files[h := s.files[h].(offset := s.files[h].offset + r)])
  {
    ReadBytes(s, h, length);
    var (s', r, bytes) := Read(s, h, length);
    assert s'.files == s.files[h := s.files[h].(offset := s.files[h].offset + r)];
  }

  lemma ReadOpenRefines(s: Fs, a: Abs, h: int, length: nat)
    requires Inv(s) && Rel(s, a) && WellFormed(a) && FileOpen(s, h) && Inv(Read(s, h, length).0)
    ensures var (s', r, bytes), (a', r', bytes') := Read(s, h, length), AbsRead(a, h, length);
            Rel(s', a') && r == r' && bytes == bytes'
  {
    var k, name := OpenedFile(s, a, h);
    ReadValues(s, a, h, length, name);
    var s', r := Read(s, h, length).0, Read(s, h, length).1;
    var a' := AbsRead(a, h, length).0;
    MoveRel(s, s', a, a', h, k, name, s.files[h].offset + r);
    assert ContentsAre(RootDir(s), s', a'.contents) by {
      assert forall j: int {:trigger Content(s', j)} :: Content(s', j) == Content(s, j);
    }
  }

  lemma ReadRefines(s: Fs, a: Abs, h: int, length: nat)
    requires Inv(s) && Rel(s, a)
    ensures WellFormed(a)
    ensures var (s', r, bytes), (a', r', bytes') := Read(s, h, length), AbsRead(a, h, length);
            Inv(s') && Rel(s', a') && r == r' && bytes == bytes'
  {
    RelWellFormed(s, a);
    ReadInv(s, h, length);
    assert h in a.handles <==> FileOpen(s, h);
    if FileOpen(s, h) {
      ReadOpenRefines(s, a, h, length);
    }
  }

  /** Splicing into the block is overwriting the part of it that is the file. */
  lemma OverwriteIsSplice(block: seq<byte>, size: nat, offset: nat, bytes: seq<byte>)
    requires offset <= size <= |block| && offset + |bytes| <= |block|
    ensures var end := offset + |bytes|;
            Splice(block, offset, bytes)[..if end > size then end else size]
            == Overwrite(block[..size], offset, bytes)
  {
  }

  lemma WriteContents(s: Fs, h: int, buffer: seq<byte>, j: int)
    requires Inv(s) && FileOpen(s, h) && WriteFits(|buffer|, s.files[h].offset)
    requires Write(s, h, buffer).1 > 0
    requires 0 < j && InodeTaken(s, j)
    ensures var (s', n) := Write(s, h, buffer);
            var f := s.files[h];
            && n <= |buffer| && f.offset <= |Content(s, f.inum)|
            && Content(s', j) ==
               if j == f.inum then Overwrite(Content(s, j), f.offset, buffer[..n]) else Content(s, j)
  {
    var (s', n) := Write(s, h, buffer);
    var f := s.files[h];
    WriteLengthExact(|buffer|, f.offset, s.blockSize);
    WriteBlock(s, h);
    ContentLength(s, f.inum);
    if j == f.inum {
      var b := s'.inodes[j].block;
      assert Content(s, j) == s.blocks[b][..s.inodes[j].size];
      OverwriteIsSplice(s.blocks[b], s.inodes[j].size, f.offset, buffer[..n]);
    } else if s.inodes[j].size > 0 {
      assert Owns(s, j, s.inodes[j].block);
    }
  }
}
