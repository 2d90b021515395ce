/** Bytes, C strings and the layout of directory entries (fs/state.h:15-18, fs/config.h:7). */
module FsBytes {

  type byte = x: int | 0 <= x < 256

  /** The characters of a C string, without its terminating NUL. */
  type CString = s: seq<byte> | 0 !in s

  const MAX_FILE_NAME: nat := 40

  /** sizeof(dir_entry_t): the name field and a 32-bit int. */
  const ENTRY_SIZE: nat := 44

  function Zeros(n: nat): (z: seq<byte>)
    ensures |z| == n && forall i :: 0 <= i < n ==> z[i] == 0
  {
    seq(n, _ => 0)
  }

  /** memcpy of `bytes` to offset `at`. */
  function Splice(mem: seq<byte>, at: nat, bytes: seq<byte>): (r: seq<byte>)
    requires at + |bytes| <= |mem|
    ensures |r| == |mem|
    ensures forall i :: 0 <= i < |mem| ==>
              r[i] == if at <= i < at + |bytes| then bytes[i - at] else mem[i]
  {
    mem[..at] + bytes + mem[at + |bytes|..]
  }

  // ---------------------------------------------------------------------------------------------
  // The bytes of an int
  // ---------------------------------------------------------------------------------------------

  type int32 = x: int | -0x8000_0000 <= x < 0x8000_0000

  function EncodeInt(v: int32): (b: seq<byte>)
    ensures |b| == 4
  {
    var u: int := if v < 0 then v + 0x1_0000_0000 else v;
    [u % 256, u / 256 % 256, u / 65536 % 256, u / 16777216 % 256]
  }

  function DecodeInt(b: seq<byte>): int32
    requires |b| == 4
  {
    var u: int := b[0] as int + 256 * (b[1] as int) + 65536 * (b[2] as int) + 16777216 * (b[3] as int);
    if u >= 0x8000_0000 then u - 0x1_0000_0000 else u
  }

  lemma Quotients(u: nat)
    ensures u / 256 / 256 == u / 65536 && u / 65536 / 256 == u / 16777216
  {
  }

  /** The low byte and the rest. */
  lemma LowByte(u: nat)
    ensures u == 256 * (u / 256) + u % 256
  {
  }

  lemma BytesOf(u: nat)
    requires u < 0x1_0000_0000
    ensures u == u % 256 + 256 * (u / 256 % 256) + 65536 * (u / 65536 % 256) + 16777216 * (u / 16777216 % 256)
  {
    var q1, q2, q3 := u / 256, u / 65536, u / 16777216;
    Quotients(u);
    LowByte(u);
    LowByte(q1);
    LowByte(q2);
    assert q3 % 256 == q3;
  }

  lemma IntRoundTrip(v: int32)
    ensures DecodeInt(EncodeInt(v)) == v
  {
    BytesOf(if v < 0 then v + 0x1_0000_0000 else v);
  }

  /** Two's complement, the low byte first. */
  lemma IntLittleEndian(v: int32)
    ensures var b := EncodeInt(v);
            (if v < 0 then v + 0x1_0000_0000 else v) ==
            b[0] as int + 0x100 * b[1] as int + 0x1_0000 * b[2] as int + 0x100_0000 * b[3] as int
  {
    BytesOf(if v < 0 then v + 0x1_0000_0000 else v);
  }

  // ---------------------------------------------------------------------------------------------
  // Comparing and storing names
  // ---------------------------------------------------------------------------------------------

  /** strncmp(mem, name, n) == 0, where `name` ends in a NUL.  With n larger than the length of `name`
      this is strcmp(mem, name) == 0. */
  predicate StrnEq(mem: seq<byte>, name: CString, n: nat)
    decreases n
  {
    if n == 0 then true
    else if mem == [] then false
    else if name == [] then mem[0] == 0
    else mem[0] == name[0] && StrnEq(mem[1..], name[1..], n - 1)
  }

  predicate StrEq(mem: seq<byte>, name: CString) {
    StrnEq(mem, name, |name| + 1)
  }

  /** A name as strncpy leaves it in the field: padded with NULs. */
  function Pad(name: CString, n: nat): seq<byte>
    requires |name| <= n
  {
    name + Zeros(n - |name|)
  }

  /** Comparing with a padded name is comparing names, however long the other one is, and whether by
      strncmp over the whole field or by strcmp. */
  lemma {:induction false} StrnEqPad(m: CString, name: CString, size: nat, n: nat)
    requires |m| < size && (n == size || n == |name| + 1)
    ensures StrnEq(Pad(m, size), name, n) <==> m == name
    decreases size
  {
    var mem := Pad(m, size);
    if m == [] {
      assert mem[0] == 0;
      if name != [] {
        assert name[0] in name;
      }
    } else {
      assert mem[0] == m[0] && m[0] in m;
      assert mem[1..] == Pad(m[1..], size - 1);
      if name != [] {
        StrnEqPad(m[1..], name[1..], size - 1, n - 1);
        assert m == [m[0]] + m[1..];
        assert name == [name[0]] + name[1..];
      }
    }
  }

  lemma PadInjective(a: CString, b: CString, n: nat)
    requires |a| < n && |b| < n && Pad(a, n) == Pad(b, n)
    ensures a == b
  {
    StrnEqPad(a, a, n, n);
    StrnEqPad(b, a, n, n);
  }

  /** The empty string matches only itself: a zeroed name field is never found. */
  lemma ZeroedNameNeverMatches(name: CString, n: nat)
    requires name != [] && n > 0
    ensures !StrEq(Zeros(n), name)
  {
    assert name[0] in name;
  }

  // ---------------------------------------------------------------------------------------------
  // Directory entries
  // ---------------------------------------------------------------------------------------------

  datatype Entry = Entry(name: seq<byte>, inum: int32)

  function EntryAt(block: seq<byte>, i: nat): Entry
    requires ENTRY_SIZE * i + ENTRY_SIZE <= |block|
  {
    var at := ENTRY_SIZE * i;
    Entry(block[at..at + MAX_FILE_NAME], DecodeInt(block[at + MAX_FILE_NAME..at + ENTRY_SIZE]))
  }

  /** A block read as an array of directory entries. */
  function Dir(block: seq<byte>): (dir: seq<Entry>)
    ensures |dir| == |block| / ENTRY_SIZE
    ensures forall i :: 0 <= i < |dir| ==> |dir[i].name| == MAX_FILE_NAME
  {
    seq(|block| / ENTRY_SIZE, i requires 0 <= i < |block| / ENTRY_SIZE => EntryAt(block, i))
  }

  function WriteInum(block: seq<byte>, i: nat, inum: int32): (r: seq<byte>)
    requires i < |block| / ENTRY_SIZE
    ensures |r| == |block|
  {
    Splice(block, ENTRY_SIZE * i + MAX_FILE_NAME, EncodeInt(inum))
  }

  function WriteName(block: seq<byte>, i: nat, name: seq<byte>): (r: seq<byte>)
    requires i < |block| / ENTRY_SIZE && |name| == MAX_FILE_NAME
    ensures |r| == |block|
  {
    Splice(block, ENTRY_SIZE * i, name)
  }

  /** Writing one number changes that number of that entry and nothing else. */
  lemma DirWriteInum(block: seq<byte>, i: nat, inum: int32)
    requires i < |block| / ENTRY_SIZE
    ensures Dir(WriteInum(block, i, inum)) == Dir(block)[i := Dir(block)[i].(inum := inum)]
  {
    var r := WriteInum(block, i, inum);
    IntRoundTrip(inum);
    forall k | 0 <= k < |Dir(block)|
      ensures Dir(r)[k] == Dir(block)[i := Dir(block)[i].(inum := inum)][k]
    {
      var at := ENTRY_SIZE * k;
      assert r[at..at + MAX_FILE_NAME] == block[at..at + MAX_FILE_NAME];
      if k == i {
        assert r[at + MAX_FILE_NAME..at + ENTRY_SIZE] == EncodeInt(inum);
      } else {
        assert r[at + MAX_FILE_NAME..at + ENTRY_SIZE] == block[at + MAX_FILE_NAME..at + ENTRY_SIZE];
      }
    }
  }

  lemma DirWriteName(block: seq<byte>, i: nat, name: seq<byte>)
    requires i < |block| / ENTRY_SIZE && |name| == MAX_FILE_NAME
    ensures Dir(WriteName(block, i, name)) == Dir(block)[i := Dir(block)[i].(name := name)]
  {
    var r := WriteName(block, i, name);
    forall k | 0 <= k < |Dir(block)|
      ensures Dir(r)[k] == Dir(block)[i := Dir(block)[i].(name := name)][k]
    {
      var at := ENTRY_SIZE * k;
      assert r[at + MAX_FILE_NAME..at + ENTRY_SIZE] == block[at + MAX_FILE_NAME..at + ENTRY_SIZE];
      if k == i {
        assert r[at..at + MAX_FILE_NAME] == name;
      } else {
        assert r[at..at + MAX_FILE_NAME] == block[at..at + MAX_FILE_NAME];
      }
    }
  }

  /** strncpy of at most 39 characters followed by the explicit terminator fills the whole field. */
  lemma StrncpyPads(block: seq<byte>, at: nat, name: CString)
    requires |name| < MAX_FILE_NAME && at + MAX_FILE_NAME <= |block|
    ensures Splice(Splice(block, at, Pad(name, MAX_FILE_NAME - 1)), at + MAX_FILE_NAME - 1, [0])
            == Splice(block, at, Pad(name, MAX_FILE_NAME))
  {
  }

  lemma AppendAfter<T>(a: seq<T>, b: seq<T>, c: seq<T>)
    ensures a + b + c == a + (b + c)
  {
  }

  lemma SliceOfSlice(mem: seq<byte>, start: nat, size: nat, at: nat, n: nat)
    requires start + size <= |mem| && at + n <= size
    ensures mem[start..start + size][at..at + n] == mem[start + at..start + at + n]
  {
    var inner, outer := mem[start..start + size][at..at + n], mem[start + at..start + at + n];
    assert forall i :: 0 <= i < n ==> inner[i] == outer[i];
  }

  // ---------------------------------------------------------------------------------------------
  // The blocks of the flat data array
  // ---------------------------------------------------------------------------------------------

  /** `fs_data` cut into blocks. */
  function Blocks(data: seq<byte>, size: nat): (blocks: seq<seq<byte>>)
    requires size > 0
    ensures forall b :: 0 <= b < |blocks| ==> |blocks[b]| == size
  {
    if |data| < size then [] else [data[..size]] + Blocks(data[size..], size)
  }

  lemma {:induction false} BlockCount(data: seq<byte>, size: nat, n: nat)
    requires size > 0 && |data| == n * size
    ensures |Blocks(data, size)| == n
  {
    if n > 0 {
      assert n * size == (n - 1) * size + size;
      assert (n - 1) * size >= 0;
      BlockCount(data[size..], size, n - 1);
    }
  }

  /** Where block b starts. */
  function Start(b: nat, size: nat): nat {
    if b == 0 then 0 else Start(b - 1, size) + size
  }

  lemma {:induction false} StartIs(b: nat, size: nat)
    ensures Start(b, size) == b * size
  {
    if b > 0 {
      StartIs(b - 1, size);
    }
  }

  lemma {:induction false} StartBefore(b: nat, n: nat, size: nat)
    requires b < n
    ensures Start(b, size) + size <= Start(n, size)
  {
    if b < n - 1 {
      StartBefore(b, n - 1, size);
    }
  }

  lemma {:induction false} BlockFrom(data: seq<byte>, size: nat, b: nat, start: nat)
    requires size > 0 && start == Start(b, size) && start + size <= |data|
    ensures b < |Blocks(data, size)| && Blocks(data, size)[b] == data[start..start + size]
  {
    if b > 0 {
      BlockFrom(data[size..], size, b - 1, start - size);
      assert data[size..][start - size..start] == data[start..start + size];
    }
  }

  /** Block b starts at byte b * size. */
  lemma BlockAt(data: seq<byte>, size: nat, n: nat, b: nat)
    requires size > 0 && |data| == n * size && b < n
    ensures |Blocks(data, size)| == n
    ensures 0 <= b * size && b * size + size <= |data|
    ensures Blocks(data, size)[b] == data[b * size..b * size + size]
  {
    StartIs(b, size);
    StartIs(n, size);
    StartBefore(b, n, size);
    BlockCount(data, size, n);
    BlockFrom(data, size, b, b * size);
  }

  /** Two flat arrays that differ inside one block only. */
  ghost predicate DifferAt(data: seq<byte>, data': seq<byte>, size: nat, start: nat) {
    && |data'| == |data| && start + size <= |data|
    && (forall i {:trigger data'[i]} :: 0 <= i < |data| && !(start <= i < start + size) ==> data'[i] == data[i])
  }

  lemma UpdateLater<T>(first: T, rest: seq<T>, b: nat, x: T)
    requires 0 < b <= |rest|
    ensures ([first] + rest)[b := x] == [first] + rest[b - 1 := x]
  {
  }

  lemma {:induction false} BlocksDiffer(data: seq<byte>, data': seq<byte>, size: nat, b: nat, start: nat)
    requires size > 0 && start == Start(b, size) && DifferAt(data, data', size, start)
    ensures b < |Blocks(data, size)|
    ensures Blocks(data', size) == Blocks(data, size)[b := data'[start..start + size]]
  {
    var later := data[size..];
    if b == 0 {
      forall i | 0 <= i < |later| ensures data'[size..][i] == later[i] {
        assert data'[size + i] == data[size + i];
      }
      assert data'[size..] == later;
      assert Blocks(data', size) == [data'[..size]] + Blocks(later, size);
    } else {
      forall i | 0 <= i < size ensures data'[..size][i] == data[..size][i] {
        assert data'[i] == data[i];
      }
      assert data'[..size] == data[..size];
      assert Blocks(data', size) == [data[..size]] + Blocks(data'[size..], size);
      BlocksDiffer(later, data'[size..], size, b - 1, start - size);
      assert data'[size..][start - size..start] == data'[start..start + size];
      UpdateLater(data[..size], Blocks(later, size), b, data'[start..start + size]);
    }
  }

  lemma SpliceDiffers(data: seq<byte>, size: nat, start: nat, at: nat, bytes: seq<byte>)
    requires start + size <= |data| && at + |bytes| <= size
    ensures DifferAt(data, Splice(data, start + at, bytes), size, start)
    ensures Splice(data, start + at, bytes)[start..start + size] == Splice(data[start..start + size], at, bytes)
  {
  }

  /** A write inside one block changes that block at those offsets and no other block. */
  lemma SpliceBlocks(data: seq<byte>, size: nat, n: nat, b: nat, start: nat, at: nat, bytes: seq<byte>)
    requires size > 0 && |data| == n * size && b < n && at + |bytes| <= size
    requires start == b * size
    ensures |Blocks(data, size)| == n && start + at + |bytes| <= |data|
    ensures Blocks(Splice(data, start + at, bytes), size) ==
            Blocks(data, size)[b := Splice(Blocks(data, size)[b], at, bytes)]
  {
    BlockAt(data, size, n, b);
    StartIs(b, size);
    SpliceDiffers(data, size, start, at, bytes);
    BlocksDiffer(data, Splice(data, start + at, bytes), size, b, start);
  }
}
