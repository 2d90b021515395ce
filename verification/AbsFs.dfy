/** What TecnicoFS is for: files with names and contents, and handles with independent offsets.
    There are no inodes, blocks or directory slots here, only limits on how many there can be. */
module AbsFs {
  import opened FsBytes
  import opened FsModel

  datatype Handle = Handle(name: CString, offset: nat)

  datatype Abs = Abs(contents: map<CString, seq<byte>>, handles: map<int, Handle>)

  /** The tfs_params. */
  datatype Limits = Limits(inodes: nat, blocks: nat, handles: nat, blockSize: nat)

  /** The files that need a block. */
  function NonEmpty(a: Abs): set<CString> {
    set name | name in a.contents && a.contents[name] != []
  }

  /** The lowest number from `from` on that is not in use. */
  function LowestUnused(used: set<int>, from: nat): (h: nat)
    ensures h >= from && h !in used
    ensures forall k: nat :: from <= k < h ==> k in used
    decreases |set h | h in used && h >= from|
  {
    if from !in used then from
    else
      assert (set h | h in used && h >= from) == (set h | h in used && h >= from + 1) + {from};
      LowestUnused(used, from + 1)
  }

  function OpenHandle(a: Abs, limits: Limits, name: CString, offset: nat): (Abs, int) {
    if |a.handles| == limits.handles then (a, -1)
    else
      var h := LowestUnused(a.handles.Keys, 0);
      (a.(handles := a.handles[h := Handle(name, offset)]), h as int)
  }

  function AbsOpen(a: Abs, limits: Limits, path: Path, mode: Mode): (Abs, int) {
    if !ValidPathname(path) then (a, -1)
    else
      var name := FileName(path);
      if name in a.contents then
        var content := if mode.trunc then [] else a.contents[name];
        OpenHandle(a.(contents := a.contents[name := content]), limits, name,
                   if mode.append then |content| else 0)
      else if !mode.creat then (a, -1)
      else if |a.contents| + 1 == limits.inodes then (a, -1)                   // no inode left
      else if |name| >= MAX_FILE_NAME then (a, -1)                             // name too long
      else if |a.contents| == limits.blockSize / ENTRY_SIZE then (a, -1)       // directory full
      else OpenHandle(a.(contents := a.contents[name := []]), limits, name, 0) // created even if this fails
  }

  function AbsClose(a: Abs, h: int): (Abs, int) {
    if h !in a.handles then (a, -1) else (a.(handles := a.handles - {h}), 0)
  }

  /** Overwriting from `offset` on, extending the content if needed. */
  function Overwrite(content: seq<byte>, offset: nat, bytes: seq<byte>): seq<byte>
    requires offset <= |content|
  {
    content[..offset] + bytes +
    if offset + |bytes| < |content| then content[offset + |bytes|..] else []
  }

  /** Every handle is on an existing file and not past its end. */
  ghost predicate WellFormed(a: Abs) {
    forall h :: h in a.handles ==>
      && a.handles[h].name in a.contents
      && a.handles[h].offset <= |a.contents[a.handles[h].name]|
  }

  /** No file is larger than a block. */
  ghost predicate Bounded(a: Abs, limits: Limits) {
    forall name :: name in a.contents ==> |a.contents[name]| <= limits.blockSize
  }

  function AbsWrite(a: Abs, limits: Limits, h: int, buffer: seq<byte>): (Abs, int)
    requires WellFormed(a)
  {
    if h !in a.handles then (a, -1)
    else
      var f := a.handles[h];
      var content := a.contents[f.name];
      var n := if f.offset + |buffer| <= limits.blockSize then |buffer|
               else if f.offset <= limits.blockSize then limits.blockSize - f.offset else 0;
      if n == 0 then (a, 0)
      else if content == [] && |NonEmpty(a)| + 1 == limits.blocks then (a, -1) // no block left
      else
        (Abs(a.contents[f.name := Overwrite(content, f.offset, buffer[..n])],
             a.handles[h := f.(offset := f.offset + n)]), n as int)
  }

  function AbsRead(a: Abs, h: int, length: nat): (Abs, int, seq<byte>)
    requires WellFormed(a)
  {
    if h !in a.handles then (a, -1, [])
    else
      var f := a.handles[h];
      var content := a.contents[f.name];
      var n := if |content| - f.offset > length then length else |content| - f.offset;
      (a.(handles := a.handles[h := f.(offset := f.offset + n)]), n as int,
       content[f.offset..f.offset + n])
  }

  function AbsUnlink(a: Abs, path: Path): (Abs, int) {
    if !ValidPathname(path) then (a, -1)
    else if FileName(path) !in a.contents then (a, -1)
    else (a.(contents := a.contents - {FileName(path)}), 0)
  }

  // ---------------------------------------------------------------------------------------------
  // What callers must not do
  // ---------------------------------------------------------------------------------------------

  /** No handle is open on the file beyond its first byte: it may be truncated. */
  ghost predicate MayTruncate(a: Abs, path: Path) {
    ValidPathname(path) ==>
      forall h :: h in a.handles && a.handles[h].name == FileName(path) ==> a.handles[h].offset == 0
  }

  /** No handle is open on the file: it may be unlinked. */
  ghost predicate MayUnlink(a: Abs, path: Path) {
    ValidPathname(path) ==> forall h :: h in a.handles ==> a.handles[h].name != FileName(path)
  }
}
