/** How full the tables are, counted in files and handles. */
module FsCount {
  import opened FsBytes
  import opened FsModel

  ghost predicate Hit<A, B>(xs: set<A>, f: map<A, B>, y: B)
    requires f.Keys == xs
  {
    exists x :: x in xs && f[x] == y
  }

  /** Two sets in one-to-one correspondence are equally large. */
  lemma {:induction false} SameSize<A, B>(xs: set<A>, ys: set<B>, f: map<A, B>)
    requires f.Keys == xs
    requires forall x :: x in xs ==> f[x] in ys
    requires forall x, x' :: x in xs && x' in xs && f[x] == f[x'] ==> x == x'
    requires forall y {:trigger Hit(xs, f, y)} :: y in ys ==> Hit(xs, f, y)
    ensures |xs| == |ys|
  {
    if xs == {} {
      assert forall y :: y in ys ==> !Hit(xs, f, y);
      assert ys == {};
    } else {
      var x :| x in xs;
      var xs', ys', f' := xs - {x}, ys - {f[x]}, f - {x};
      forall y | y in ys' ensures Hit(xs', f', y) {
        assert Hit(xs, f, y);
        var z :| z in xs && f[z] == y;
        assert z in xs' && f'[z] == y;
      }
      SameSize(xs', ys', f');
    }
  }

  /** The numbers below n. */
  function Below(n: nat): (r: set<int>)
    ensures |r| == n
    ensures forall i :: i in r <==> 0 <= i < n
  {
    if n == 0 then {} else Below(n - 1) + {n - 1}
  }

  lemma {:induction false} SubsetSize<A>(s: set<A>, t: set<A>)
    requires s <= t
    ensures |s| <= |t|
    ensures |s| == |t| ==> s == t
  {
    if |s| > 0 {
      var x :| x in s;
      SubsetSize(s - {x}, t - {x});
    }
  }

  /** A subset of 0..n is as large as n only if it is all of it. */
  lemma FullIff(s: set<int>, n: nat)
    requires forall i :: i in s ==> 0 <= i < n
    ensures |s| <= n
    ensures |s| == n <==> forall i :: 0 <= i < n ==> i in s
  {
    SubsetSize(s, Below(n));
    if forall i :: 0 <= i < n ==> i in s {
      assert s == Below(n);
    }
  }

  /** The taken indices of an allocation table. */
  function TakenSet(table: seq<Alloc>): set<int> {
    set i: int | 0 <= i < |table| && table[i] == TAKEN
  }

  lemma TableFullIff(table: seq<Alloc>)
    ensures |TakenSet(table)| <= |table|
    ensures FirstFree(table) == -1 <==> |TakenSet(table)| == |table|
  {
    FullIff(TakenSet(table), |table|);
    if FirstFree(table) >= 0 {
      assert FirstFree(table) !in TakenSet(table);
    }
  }

  function LiveSet(dir: seq<Entry>): set<int> {
    set k: int | 0 <= k < |dir| && Live(dir, k)
  }

  lemma DirFullIff(dir: seq<Entry>)
    ensures |LiveSet(dir)| <= |dir|
    ensures FreeSlot(dir) == -1 <==> |LiveSet(dir)| == |dir|
  {
    FullIff(LiveSet(dir), |dir|);
    if FreeSlot(dir) >= 0 {
      assert FreeSlot(dir) !in LiveSet(dir);
    }
  }

  /** The inodes with data. */
  function Owners(s: Fs): set<int> {
    set i: int | 0 <= i < |s.inodes| && InodeTaken(s, i) && s.inodes[i].size > 0
  }

  /** As many inodes have data as blocks are taken. */
  lemma OwnersSize(s: Fs)
    requires Inv(s)
    ensures |Owners(s)| == |TakenSet(s.blockMap)|
  {
    var f := map i | i in Owners(s) :: s.inodes[i].block;
    forall i | i in Owners(s) ensures f[i] in TakenSet(s.blockMap) {
      assert Owns(s, i, f[i]);
      assert i != ROOT ==> 0 <= s.inodes[i].block < |s.blocks|;
    }
    forall i, j | i in Owners(s) && j in Owners(s) && f[i] == f[j] ensures i == j {
      assert Owns(s, i, f[i]) && Owns(s, j, f[i]);
    }
    forall b | b in TakenSet(s.blockMap) ensures Hit(Owners(s), f, b) {
      assert HasOwner(s, b);
      var i :| Owns(s, i, b);
      assert i in Owners(s) && f[i] == b;
    }
    SameSize(Owners(s), TakenSet(s.blockMap), f);
  }

  /** The inode numbers of the live slots. */
  function InumMap(dir: seq<Entry>): (f: map<int, int>)
    ensures f.Keys == LiveSet(dir)
  {
    map k | k in LiveSet(dir) :: dir[k].inum as int
  }

  lemma SlotHit(dir: seq<Entry>, inodeMap: seq<Alloc>, i: int)
    requires LinksInv(dir, inodeMap) && 0 < i < |inodeMap| && inodeMap[i] == TAKEN
    ensures Hit(LiveSet(dir), InumMap(dir), i)
  {
    assert HasSlot(dir, i);
    var k :| Live(dir, k) && dir[k].inum == i;
    assert k in LiveSet(dir) && InumMap(dir)[k] == i;
  }

  /** As many slots are live as regular files exist. */
  lemma LinksSize(dir: seq<Entry>, inodeMap: seq<Alloc>)
    requires LinksInv(dir, inodeMap) && |inodeMap| > 0 && inodeMap[ROOT] == TAKEN
    ensures |LiveSet(dir)| + 1 == |TakenSet(inodeMap)|
  {
    var files := TakenSet(inodeMap) - {ROOT as int};
    forall i | i in files ensures Hit(LiveSet(dir), InumMap(dir), i) {
      SlotHit(dir, inodeMap, i);
    }
    SameSize(LiveSet(dir), files, InumMap(dir));
    assert (ROOT as int) in TakenSet(inodeMap);
  }

  lemma LiveSize(s: Fs)
    requires Inv(s)
    ensures |LiveSet(RootDir(s))| + 1 == |TakenSet(s.inodeMap)|
  {
    LinksSize(RootDir(s), s.inodeMap);
  }
}
