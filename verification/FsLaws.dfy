/** What each call of TecnicoFS does, said of paths, bytes and handles alone.  Every law has a partner
    that it leaves nothing open: only one new state and one result satisfy it. */
module FsLaws {
  import opened FsBytes
  import opened FsModel
  import opened AbsFs

  const SLASH: byte := 47

  // ---------------------------------------------------------------------------------------------
  // Paths
  // ---------------------------------------------------------------------------------------------

  /** The path is a slash and a name. */
  predicate IsPath(path: Path, name: CString) {
    path.Str? && name != [] && path.name == [SLASH] + name
  }

  ghost predicate HasPath(path: Path) {
    exists name: CString {:trigger IsPath(path, name)} :: IsPath(path, name)
  }

  /** valid_pathname accepts a slash followed by a name that is not empty, and the name is what follows. */
  lemma PathLaw(path: Path)
    ensures ValidPathname(path) <==> HasPath(path)
    ensures ValidPathname(path) ==> IsPath(path, FileName(path))
    ensures forall name: CString {:trigger IsPath(path, name)} :: IsPath(path, name) ==> FileName(path) == name
  {
    if ValidPathname(path) {
      assert path.name == [SLASH] + path.name[1..];
      assert IsPath(path, FileName(path));
    }
  }

  /** Two paths with one name are one path. */
  lemma PathInjective(p: Path, q: Path)
    requires ValidPathname(p) && ValidPathname(q) && FileName(p) == FileName(q)
    ensures p == q
  {
    PathLaw(p);
    PathLaw(q);
  }

  // ---------------------------------------------------------------------------------------------
  // tfs_open
  // ---------------------------------------------------------------------------------------------

  /** An inode, a directory record, and a name that fits its field are all there for a new file. */
  predicate HasRoom(a: Abs, limits: Limits, name: CString) {
    |a.contents| + 1 != limits.inodes && |a.contents| != limits.blockSize / 44 && |name| <= 39
  }

  /** The other files are as they were. */
  ghost predicate OthersKept(a: Abs, a': Abs, name: CString) {
    forall m: CString :: m != name ==>
      && (m in a'.contents <==> m in a.contents)
      && (m in a.contents ==> a'.contents[m] == a.contents[m])
  }

  /** Opening the file of a name.  A missing file is created if that was asked for and there is room, and an
      existing one truncated if that was asked for, even if there is no handle left in the end. */
  ghost predicate OpenedNamed(a: Abs, limits: Limits, name: CString, mode: Mode, a': Abs, r: int) {
    var there := name in a.contents || (mode.creat && HasRoom(a, limits, name));
    && OthersKept(a, a', name)
    && (name in a'.contents <==> there)
    && (there ==> a'.contents[name] == if name in a.contents && !mode.trunc then a.contents[name] else [])
    && (r == -1 <==> !there || |a.handles| == limits.handles)
    && (r == -1 ==> a'.handles == a.handles)
    && (r != -1 ==>
          && r >= 0 && r !in a.handles && (forall k :: 0 <= k < r ==> k in a.handles)
          && a'.handles == a.handles[r := Handle(name, if mode.append then |a'.contents[name]| else 0)])
  }

  ghost predicate OpenSpec(a: Abs, limits: Limits, path: Path, mode: Mode, a': Abs, r: int) {
    && (forall name: CString {:trigger IsPath(path, name)} ::
          IsPath(path, name) ==> OpenedNamed(a, limits, name, mode, a', r))
    && (!HasPath(path) ==> a' == a && r == -1)
  }

  lemma OpenLaw(a: Abs, limits: Limits, path: Path, mode: Mode)
    ensures var (a', r) := AbsOpen(a, limits, path, mode); OpenSpec(a, limits, path, mode, a', r)
  {
    PathLaw(path);
  }

  lemma SameContents(a: Abs, b: Abs, c: Abs, name: CString)
    requires OthersKept(a, b, name) && OthersKept(a, c, name)
    requires (name in b.contents <==> name in c.contents)
    requires name in b.contents ==> b.contents[name] == c.contents[name]
    ensures b.contents == c.contents
  {
    forall m: CString ensures m in b.contents <==> m in c.contents {
    }
    assert b.contents.Keys == c.contents.Keys;
  }

  lemma OpenSpecUnique(a: Abs, limits: Limits, path: Path, mode: Mode, b: Abs, r: int, c: Abs, q: int)
    requires OpenSpec(a, limits, path, mode, b, r) && OpenSpec(a, limits, path, mode, c, q)
    ensures b == c && r == q
  {
    if HasPath(path) {
      var name: CString :| IsPath(path, name);
      SameContents(a, b, c, name);
    }
  }

  // ---------------------------------------------------------------------------------------------
  // tfs_close
  // ---------------------------------------------------------------------------------------------

  ghost predicate CloseSpec(a: Abs, h: int, a': Abs, r: int) {
    && (h in a.handles ==>
          && r == 0 && a'.contents == a.contents && h !in a'.handles
          && (forall g :: g != h ==>
                && (g in a'.handles <==> g in a.handles)
                && (g in a.handles ==> a'.handles[g] == a.handles[g])))
    && (h !in a.handles ==> r == -1 && a' == a)
  }

  lemma CloseLaw(a: Abs, h: int)
    ensures var (a', r) := AbsClose(a, h); CloseSpec(a, h, a', r)
  {
  }

  lemma CloseSpecUnique(a: Abs, h: int, b: Abs, r: int, c: Abs, q: int)
    requires CloseSpec(a, h, b, r) && CloseSpec(a, h, c, q)
    ensures b == c && r == q
  {
    if h in a.handles {
      forall g: int ensures g in b.handles <==> g in c.handles {
        assert g != h ==> (g in b.handles <==> g in a.handles) && (g in c.handles <==> g in a.handles);
      }
      forall g | g in b.handles ensures b.handles[g] == c.handles[g] {
        assert g in a.handles && b.handles[g] == a.handles[g] && c.handles[g] == a.handles[g];
      }
      assert b.handles == c.handles;
    }
  }

  // ---------------------------------------------------------------------------------------------
  // tfs_write
  // ---------------------------------------------------------------------------------------------

  function Min(m: nat, n: nat): nat { if m < n then m else n }

  function Max(m: nat, n: nat): nat { if m < n then n else m }

  /** The bytes of `buffer` replace those from `offset` on, n of them; the rest stays. */
  ghost predicate Replaced(before: seq<byte>, offset: nat, buffer: seq<byte>, n: nat, after: seq<byte>) {
    && n <= |buffer| && |after| == Max(|before|, offset + n)
    && (forall i {:trigger after[i]} :: 0 <= i < |after| ==>
          if offset <= i < offset + n then after[i] == buffer[i - offset]
          else i < |before| && after[i] == before[i])
  }

  function FilesWithData(a: Abs): nat {
    |set name | name in a.contents && |a.contents[name]| > 0|
  }

  /** A write is clipped at the end of the block only, wherever the handle is, and fails only for lack of a
      block. */
  ghost predicate WriteSpec(a: Abs, limits: Limits, h: int, buffer: seq<byte>, a': Abs, r: int)
    requires WellFormed(a) && Bounded(a, limits)
  {
    && (h !in a.handles ==> r == -1 && a' == a)
    && (h in a.handles ==>
          var f := a.handles[h];
          var before, n := a.contents[f.name], Min(|buffer|, limits.blockSize - f.offset);
          && (r == -1 <==> n > 0 && before == [] && FilesWithData(a) + 1 == limits.blocks)
          && (r == -1 ==> a' == a)
          && (r != -1 ==>
                && r == n && OthersKept(a, a', f.name)
                && f.name in a'.contents && Replaced(before, f.offset, buffer, n, a'.contents[f.name])
                && a'.handles == a.handles[h := Handle(f.name, f.offset + n)]))
  }

  lemma WriteLaw(a: Abs, limits: Limits, h: int, buffer: seq<byte>)
    requires WellFormed(a) && Bounded(a, limits)
    ensures var (a', r) := AbsWrite(a, limits, h, buffer); WriteSpec(a, limits, h, buffer, a', r)
  {
    if h in a.handles {
      assert a.handles[h].name in a.contents;
      assert |a.contents[a.handles[h].name]| <= limits.blockSize;
      assert NonEmpty(a) == set name | name in a.contents && |a.contents[name]| > 0;
    }
  }

  lemma WriteSpecUnique(a: Abs, limits: Limits, h: int, buffer: seq<byte>, b: Abs, r: int, c: Abs, q: int)
    requires WellFormed(a) && Bounded(a, limits)
    requires WriteSpec(a, limits, h, buffer, b, r) && WriteSpec(a, limits, h, buffer, c, q)
    ensures b == c && r == q
  {
    if h in a.handles && r != -1 {
      var name := a.handles[h].name;
      assert b.contents[name] == c.contents[name];
      SameContents(a, b, c, name);
    }
  }

  // ---------------------------------------------------------------------------------------------
  // tfs_read
  // ---------------------------------------------------------------------------------------------

  ghost predicate ReadSpec(a: Abs, h: int, length: nat, a': Abs, r: int, bytes: seq<byte>)
    requires WellFormed(a)
  {
    && (h !in a.handles ==> r == -1 && bytes == [] && a' == a)
    && (h in a.handles ==>
          var f := a.handles[h];
          var content := a.contents[f.name];
          && r == Min(length, |content| - f.offset) && |bytes| == r
          && (forall i :: 0 <= i < r ==> bytes[i] == content[f.offset + i])
          && a'.contents == a.contents && a'.handles == a.handles[h := Handle(f.name, f.offset + r)])
  }

  lemma ReadLaw(a: Abs, h: int, length: nat)
    requires WellFormed(a)
    ensures var (a', r, bytes) := AbsRead(a, h, length); ReadSpec(a, h, length, a', r, bytes)
  {
  }

  lemma ReadSpecUnique(
    a: Abs, h: int, length: nat, b: Abs, r: int, bytes: seq<byte>, c: Abs, q: int, bytes': seq<byte>)
    requires WellFormed(a) && ReadSpec(a, h, length, b, r, bytes) && ReadSpec(a, h, length, c, q, bytes')
    ensures b == c && r == q && bytes == bytes'
  {
  }

  // ---------------------------------------------------------------------------------------------
  // tfs_unlink
  // ---------------------------------------------------------------------------------------------

  ghost predicate UnlinkSpec(a: Abs, path: Path, a': Abs, r: int) {
    && (forall name: CString {:trigger IsPath(path, name)} :: IsPath(path, name) && name in a.contents ==>
          r == 0 && name !in a'.contents && OthersKept(a, a', name) && a'.handles == a.handles)
    && ((forall name: CString {:trigger IsPath(path, name)} :: IsPath(path, name) ==> name !in a.contents) ==>
          r == -1 && a' == a)
  }

  lemma UnlinkLaw(a: Abs, path: Path)
    ensures var (a', r) := AbsUnlink(a, path); UnlinkSpec(a, path, a', r)
  {
    PathLaw(path);
  }

  lemma UnlinkSpecUnique(a: Abs, path: Path, b: Abs, r: int, c: Abs, q: int)
    requires UnlinkSpec(a, path, b, r) && UnlinkSpec(a, path, c, q)
    ensures b == c && r == q
  {
    if name: CString :| IsPath(path, name) && name in a.contents {
      SameContents(a, b, c, name);
    }
  }

  // ---------------------------------------------------------------------------------------------
  // Calls one after the other
  // ---------------------------------------------------------------------------------------------

  ghost predicate HasContent(a: Abs, path: Path, content: seq<byte>) {
    exists name: CString {:trigger IsPath(path, name)} ::
      IsPath(path, name) && name in a.contents && a.contents[name] == content
  }

  /** The path is a valid one, of no file. */
  ghost predicate Missing(a: Abs, path: Path) {
    HasPath(path)
    && forall name: CString {:trigger IsPath(path, name)} :: IsPath(path, name) ==> name !in a.contents
  }

  ghost predicate NotOpen(a: Abs, path: Path) {
    forall h :: h in a.handles ==> !IsPath(path, a.handles[h].name)
  }

  /** Opening one path does not make another exist. */
  lemma CreatedApart(a: Abs, limits: Limits, p: Path, q: Path, mode: Mode, mode': Mode)
    requires p != q && Missing(a, q) && !mode'.creat
    ensures var a' := AbsOpen(a, limits, p, mode).0;
            Missing(a', q) && AbsOpen(a', limits, q, mode') == (a', -1)
  {
    PathLaw(p);
    PathLaw(q);
    if ValidPathname(p) && FileName(p) == FileName(q) {
      PathInjective(p, q);
    }
    OpenLaw(a, limits, p, mode);
  }

  /** Nor does unlinking it make another disappear or change: it can be opened and read as before. */
  lemma UnlinkedApart(a: Abs, limits: Limits, p: Path, q: Path, content: seq<byte>, length: nat)
    requires WellFormed(a) && p != q && HasContent(a, q, content) && NotOpen(a, p)
    ensures var a' := AbsUnlink(a, p).0;
            && HasContent(a', q, content)
            && (|a.handles| != limits.handles ==>
                  var (a2, g) := AbsOpen(a', limits, q, Mode(false, false, false));
                  g >= 0 && WellFormed(a2) && AbsRead(a2, g, length).2 == content[..Min(length, |content|)])
  {
    PathLaw(p);
    PathLaw(q);
    if ValidPathname(p) && FileName(p) == FileName(q) {
      PathInjective(p, q);
    }
    UnlinkLaw(a, p);
  }

  /** The unlinked path is gone: unlinking it again, and opening it without creating it, fail. */
  lemma UnlinkedGone(a: Abs, limits: Limits, path: Path, mode: Mode)
    requires !mode.creat && HasPath(path)
    ensures var a' := AbsUnlink(a, path).0;
            Missing(a', path) && AbsUnlink(a', path) == (a', -1) && AbsOpen(a', limits, path, mode) == (a', -1)
  {
    PathLaw(path);
  }

  /** With room for everything else, creating a file fails exactly for paths longer than 40 characters. */
  lemma TooLong(a: Abs, limits: Limits, path: Path, mode: Mode)
    requires Missing(a, path) && mode.creat
    requires |a.contents| + 1 != limits.inodes && |a.contents| != limits.blockSize / 44
    requires |a.handles| != limits.handles
    ensures AbsOpen(a, limits, path, mode).1 == -1 <==> |path.name| > 40
  {
    PathLaw(path);
  }

  /** A file that exists, opened to append: a write leaves the old contents and then the bytes, clipped at
      the block size. */
  lemma AppendLaw(a: Abs, limits: Limits, path: Path, creat: bool, before: seq<byte>, buffer: seq<byte>)
    requires WellFormed(a) && Bounded(a, limits) && HasContent(a, path, before)
    requires AbsOpen(a, limits, path, Mode(creat, false, true)).1 >= 0
    ensures var (a1, h) := AbsOpen(a, limits, path, Mode(creat, false, true));
            && WellFormed(a1)
            && var (a2, r) := AbsWrite(a1, limits, h, buffer);
            r >= 0 ==>
              && r == Min(|buffer|, limits.blockSize - |before|)
              && HasContent(a2, path, before + buffer[..r])
  {
    PathLaw(path);
    var name := FileName(path);
    assert IsPath(path, name);
    var (a1, h) := AbsOpen(a, limits, path, Mode(creat, false, true));
    assert a1.contents == a.contents;
    WriteLaw(a1, limits, h, buffer);
    var (a2, r) := AbsWrite(a1, limits, h, buffer);
    if r >= 0 {
      assert a2.contents[name] == before + buffer[..r];
    }
  }

  /** Opened otherwise, it is read from its first byte on. */
  lemma FromStartLaw(a: Abs, limits: Limits, path: Path, creat: bool, content: seq<byte>, length: nat)
    requires WellFormed(a) && HasContent(a, path, content)
    requires AbsOpen(a, limits, path, Mode(creat, false, false)).1 >= 0
    ensures var (a1, h) := AbsOpen(a, limits, path, Mode(creat, false, false));
            WellFormed(a1) && AbsRead(a1, h, length).2 == content[..Min(length, |content|)]
  {
    PathLaw(path);
    assert a.(contents := a.contents[FileName(path) := content]) == a;
  }

  /** After a close the handle is good for nothing until it is handed out again. */
  lemma ClosedIsClosed(a: Abs, limits: Limits, h: int, buffer: seq<byte>, length: nat)
    requires WellFormed(a)
    ensures var a' := AbsClose(a, h).0;
            && WellFormed(a')
            && AbsClose(a', h) == (a', -1)
            && AbsWrite(a', limits, h, buffer) == (a', -1)
            && AbsRead(a', h, length) == (a', -1, [])
  {
  }
}
