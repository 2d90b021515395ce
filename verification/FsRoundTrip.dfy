/** Writing a file and reading it back, in chunks and among other uses of the file system. */
module FsRoundTrip {
  import opened FsBytes
  import opened FsModel
  import opened AbsFs
  import opened FsRefine
  import opened FsRuns

  function Clip(bytes: seq<byte>, n: nat): seq<byte> {
    if |bytes| <= n then bytes else bytes[..n]
  }

  /** Handle h is at the end of file `name`, whose content is `content`. */
  predicate AtEnd(a: Abs, h: int, name: CString, content: seq<byte>) {
    && h in a.handles && a.handles[h] == Handle(name, |content|)
    && name in a.contents && a.contents[name] == content
  }

  /** An operation that leaves the contents of file `name` and handle h alone. */
  predicate Elsewhere(a: Abs, op: Op, h: int, name: CString) {
    match op
    case OpOpen(path, mode) => mode.trunc && ValidPathname(path) ==> FileName(path) != name
    case OpClose(g) => g != h
    case OpWrite(g, _) => g in a.handles ==> a.handles[g].name != name
    case OpRead(g, _) => g != h
    case OpUnlink(path) => ValidPathname(path) ==> FileName(path) != name
  }

  lemma ElsewhereKeeps(a: Abs, limits: Limits, op: Op, h: int, name: CString)
    requires WellFormed(a) && Elsewhere(a, op, h, name)
    requires h in a.handles && a.handles[h].name == name
    ensures var a' := StepAbs(a, limits, op).0;
            && h in a'.handles && a'.handles[h] == a.handles[h]
            && name in a'.contents && a'.contents[name] == a.contents[name]
  {
  }

  /** Of the operations, those on file `name` are writes through h. */
  ghost predicate Writing(a: Abs, limits: Limits, h: int, name: CString, ops: seq<Op>)
    requires WellFormed(a) && AllowedRun(a, limits, ops)
    decreases |ops|
  {
    if ops == [] then true
    else
      var (a1, r) := StepAbs(a, limits, ops[0]);
      RunAbsFirst(a, limits, ops, a1, r);
      ((ops[0].OpWrite? && ops[0].h == h) || Elsewhere(a, ops[0], h, name))
      && Writing(a1, limits, h, name, ops[1..])
  }

  /** Of the operations, those on file `name` are reads, and h is used for nothing else. */
  ghost predicate Reading(a: Abs, limits: Limits, h: int, name: CString, ops: seq<Op>)
    requires WellFormed(a) && AllowedRun(a, limits, ops)
    decreases |ops|
  {
    if ops == [] then true
    else
      var (a1, r) := StepAbs(a, limits, ops[0]);
      RunAbsFirst(a, limits, ops, a1, r);
      ((ops[0].OpRead? && ops[0].h == h) || Elsewhere(a, ops[0], h, name))
      && Reading(a1, limits, h, name, ops[1..])
  }

  /** What was passed to the writes through h that did not fail. */
  function Sent(h: int, ops: seq<Op>, results: seq<Result>): seq<byte>
    requires |ops| == |results|
  {
    if ops == [] then []
    else
      (if ops[0].OpWrite? && ops[0].h == h && results[0].code >= 0 then ops[0].buffer else [])
      + Sent(h, ops[1..], results[1..])
  }

  /** What the reads through h returned. */
  function Received(h: int, ops: seq<Op>, results: seq<Result>): seq<byte>
    requires |ops| == |results|
  {
    if ops == [] then []
    else
      (if ops[0].OpRead? && ops[0].h == h then results[0].bytes else []) + Received(h, ops[1..], results[1..])
  }

  /** How much the reads through h asked for. */
  function Asked(h: int, ops: seq<Op>): nat {
    if ops == [] then 0
    else (if ops[0].OpRead? && ops[0].h == h then ops[0].length else 0) + Asked(h, ops[1..])
  }

  lemma {:induction false} ResultsCount(a: Abs, limits: Limits, ops: seq<Op>)
    requires WellFormed(a) && AllowedRun(a, limits, ops)
    ensures |RunAbs(a, limits, ops).1| == |ops|
    decreases |ops|
  {
    if ops != [] {
      var (a1, r) := StepAbs(a, limits, ops[0]);
      RunAbsFirst(a, limits, ops, a1, r);
      ResultsCount(a1, limits, ops[1..]);
    }
  }

  lemma WriteAppends(a: Abs, limits: Limits, h: int, name: CString, written: seq<byte>, chunk: seq<byte>)
    requires WellFormed(a) && AtEnd(a, h, name, Clip(written, limits.blockSize))
    ensures var (a', r) := AbsWrite(a, limits, h, chunk);
            AtEnd(a', h, name, Clip(written + (if r >= 0 then chunk else []), limits.blockSize))
  {
    var content := Clip(written, limits.blockSize);
    var r := AbsWrite(a, limits, h, chunk).1;
    if r >= 0 {
      assert content + chunk[..r] == Clip(written + chunk, limits.blockSize);
      assert Overwrite(content, |content|, chunk[..r]) == content + chunk[..r];
    } else {
      assert written + [] == written;
    }
  }

  /** One operation among those that write to the file. */
  lemma WritingStep(a: Abs, limits: Limits, h: int, name: CString, written: seq<byte>, ops: seq<Op>)
    requires WellFormed(a) && AtEnd(a, h, name, Clip(written, limits.blockSize)) && ops != []
    requires AllowedRun(a, limits, ops) && Writing(a, limits, h, name, ops)
    ensures var (a1, r) := StepAbs(a, limits, ops[0]);
            && WellFormed(a1) && AllowedRun(a1, limits, ops[1..]) && Writing(a1, limits, h, name, ops[1..])
            && AtEnd(a1, h, name, Clip(written + Sent(h, [ops[0]], [r]), limits.blockSize))
  {
    var (a1, r) := StepAbs(a, limits, ops[0]);
    RunAbsFirst(a, limits, ops, a1, r);
    assert Sent(h, [], []) == [];
    if ops[0].OpWrite? && ops[0].h == h {
      WriteAppends(a, limits, h, name, written, ops[0].buffer);
      assert r.code >= 0 ==> Sent(h, [ops[0]], [r]) == ops[0].buffer;
      assert r.code < 0 ==> Sent(h, [ops[0]], [r]) == [];
    } else {
      ElsewhereKeeps(a, limits, ops[0], h, name);
      assert Sent(h, [ops[0]], [r]) == [];
      assert written + [] == written;
    }
  }

  lemma SentFirst(h: int, ops: seq<Op>, results: seq<Result>, rest: seq<Result>, written: seq<byte>)
    requires |ops| == |results| > 0 && results == [results[0]] + rest
    ensures written + Sent(h, ops, results) == written + Sent(h, [ops[0]], [results[0]]) + Sent(h, ops[1..], rest)
  {
    assert Sent(h, [], []) == [];
    assert results[1..] == rest;
    AppendAfter(written, Sent(h, [ops[0]], [results[0]]), Sent(h, ops[1..], rest));
  }

  /** Writes in chunks leave the concatenation in the file, clipped at the block size, whatever is done
      to other files and through other handles in between. */
  lemma {:induction false} WritesAppend(
    a: Abs, limits: Limits, h: int, name: CString, written: seq<byte>, ops: seq<Op>)
    requires WellFormed(a) && AtEnd(a, h, name, Clip(written, limits.blockSize))
    requires AllowedRun(a, limits, ops) && Writing(a, limits, h, name, ops)
    ensures var (a', results) := RunAbs(a, limits, ops);
            && WellFormed(a') && |results| == |ops|
            && AtEnd(a', h, name, Clip(written + Sent(h, ops, results), limits.blockSize))
    decreases |ops|
  {
    ResultsCount(a, limits, ops);
    if ops == [] {
      assert written + [] == written;
    } else {
      var (a1, r) := StepAbs(a, limits, ops[0]);
      RunAbsFirst(a, limits, ops, a1, r);
      WritingStep(a, limits, h, name, written, ops);
      WritesAppend(a1, limits, h, name, written + Sent(h, [ops[0]], [r]), ops[1..]);
      SentFirst(h, ops, RunAbs(a, limits, ops).1, RunAbs(a1, limits, ops[1..]).1, written);
    }
  }

  /** A single write to a file, seen from what there is room for. */
  lemma WriteSucceedsIff(a: Abs, limits: Limits, h: int, name: CString, buffer: seq<byte>)
    requires WellFormed(a) && h in a.handles && a.handles[h].name == name && limits.blockSize > 0
    ensures var (a', r) := AbsWrite(a, limits, h, buffer);
            && (r >= 0 <==> buffer == [] || a.contents[name] != [] || |NonEmpty(a)| + 1 != limits.blocks)
            && WellFormed(a') && h in a'.handles && a'.handles[h].name == name
            && (r < 0 || buffer == [] ==> a' == a)
            && (r >= 0 && buffer != [] ==> a'.contents[name] != [])
  {
  }

  /** Writes through one handle all succeed exactly when the file has a block, or there is one for it,
      or there is nothing to write. */
  lemma {:induction false} WritesSucceedIff(a: Abs, limits: Limits, h: int, name: CString, ops: seq<Op>)
    requires WellFormed(a) && AllowedRun(a, limits, ops) && limits.blockSize > 0
    requires h in a.handles && a.handles[h].name == name
    requires forall op :: op in ops ==> op.OpWrite? && op.h == h
    ensures (forall r :: r in RunAbs(a, limits, ops).1 ==> r.code >= 0) <==>
            || a.contents[name] != [] || |NonEmpty(a)| + 1 != limits.blocks
            || (forall op :: op in ops ==> op.buffer == [])
    decreases |ops|
  {
    if ops != [] {
      var op := ops[0];
      assert op in ops;
      var (a1, r) := StepAbs(a, limits, op);
      RunAbsFirst(a, limits, ops, a1, r);
      WriteSucceedsIff(a, limits, h, name, op.buffer);
      WritesSucceedIff(a1, limits, h, name, ops[1..]);
      var rest := RunAbs(a1, limits, ops[1..]).1;
      assert forall x :: x in RunAbs(a, limits, ops).1 <==> x == r || x in rest;
      assert ops == [op] + ops[1..];
      assert forall x :: x in ops <==> x == op || x in ops[1..];
    }
  }

  /** Taking n bytes and then m of the rest is taking n + m. */
  lemma ClipSplit(bytes: seq<byte>, n: nat, m: nat)
    ensures |Clip(bytes, n)| <= |bytes|
    ensures Clip(bytes, n) + Clip(bytes[|Clip(bytes, n)|..], m) == Clip(bytes, n + m)
  {
  }

  /** One operation among those that read the file. */
  lemma ReadingStep(a: Abs, limits: Limits, h: int, name: CString, offset: nat, ops: seq<Op>)
    requires WellFormed(a) && h in a.handles && a.handles[h] == Handle(name, offset) && ops != []
    requires AllowedRun(a, limits, ops) && Reading(a, limits, h, name, ops)
    ensures offset <= |a.contents[name]|
    ensures var (a1, r) := StepAbs(a, limits, ops[0]);
            var bytes := if ops[0].OpRead? && ops[0].h == h then r.bytes else [];
            && WellFormed(a1) && AllowedRun(a1, limits, ops[1..]) && Reading(a1, limits, h, name, ops[1..])
            && h in a1.handles && a1.handles[h] == Handle(name, offset + |bytes|)
            && a1.contents[name] == a.contents[name]
            && bytes == Clip(a.contents[name][offset..], if ops[0].OpRead? && ops[0].h == h then ops[0].length else 0)
  {
    var (a1, r) := StepAbs(a, limits, ops[0]);
    RunAbsFirst(a, limits, ops, a1, r);
    if !(ops[0].OpRead? && ops[0].h == h) {
      ElsewhereKeeps(a, limits, ops[0], h, name);
    }
  }

  lemma ClipNext(content: seq<byte>, offset: nat, bytes: seq<byte>, n: nat, m: nat)
    requires offset <= |content| && bytes == Clip(content[offset..], n)
    ensures offset + |bytes| <= |content|
    ensures bytes + Clip(content[offset + |bytes|..], m) == Clip(content[offset..], n + m)
  {
    ClipSplit(content[offset..], n, m);
    assert content[offset..][|bytes|..] == content[offset + |bytes|..];
  }

  lemma ReceivedFirst(
    h: int, ops: seq<Op>, results: seq<Result>, rest: seq<Result>, content: seq<byte>, offset: nat,
    bytes: seq<byte>, length: nat)
    requires |ops| == |results| > 0 && results == [results[0]] + rest && offset <= |content|
    requires bytes == if ops[0].OpRead? && ops[0].h == h then results[0].bytes else []
    requires length == if ops[0].OpRead? && ops[0].h == h then ops[0].length else 0
    requires bytes == Clip(content[offset..], length)
    requires offset + |bytes| <= |content|
    requires Received(h, ops[1..], rest) == Clip(content[offset + |bytes|..], Asked(h, ops[1..]))
    ensures Received(h, ops, results) == Clip(content[offset..], Asked(h, ops))
  {
    assert results[1..] == rest;
    ClipNext(content, offset, bytes, length, Asked(h, ops[1..]));
  }

  /** Reads in chunks return the contents from the offset on, as far as the lengths reach, whatever is
      done to other files and through other handles in between. */
  lemma {:induction false} ReadsAdvance(
    a: Abs, limits: Limits, h: int, name: CString, offset: nat, ops: seq<Op>)
    requires WellFormed(a) && h in a.handles && a.handles[h] == Handle(name, offset)
    requires AllowedRun(a, limits, ops) && Reading(a, limits, h, name, ops)
    ensures offset <= |a.contents[name]| && |RunAbs(a, limits, ops).1| == |ops|
    ensures Received(h, ops, RunAbs(a, limits, ops).1) == Clip(a.contents[name][offset..], Asked(h, ops))
    decreases |ops|
  {
    ResultsCount(a, limits, ops);
    if ops != [] {
      var content := a.contents[name];
      var (a1, r) := StepAbs(a, limits, ops[0]);
      RunAbsFirst(a, limits, ops, a1, r);
      ReadingStep(a, limits, h, name, offset, ops);
      var bytes := if ops[0].OpRead? && ops[0].h == h then r.bytes else [];
      ReadsAdvance(a1, limits, h, name, offset + |bytes|, ops[1..]);
      ReceivedFirst(h, ops, RunAbs(a, limits, ops).1, RunAbs(a1, limits, ops[1..]).1, content, offset, bytes,
                    if ops[0].OpRead? && ops[0].h == h then ops[0].length else 0);
    }
  }

  lemma SizeWithout<A, B>(m: map<A, B>, x: A)
    requires x in m
    ensures |m - {x}| == |m| - 1
  {
    assert (m - {x}).Keys == m.Keys - {x};
  }

  lemma SizeWith<A, B>(m: map<A, B>, x: A)
    requires x !in m
    ensures forall y {:trigger m[x := y]} :: |m[x := y]| == |m| + 1
  {
    forall y {:trigger m[x := y]} ensures |m[x := y]| == |m| + 1 {
      assert m[x := y].Keys == m.Keys + {x};
    }
  }

  /** There are never more handles than the open-file table holds. */
  lemma HandlesBounded(a: Abs, limits: Limits, op: Op)
    requires WellFormed(a) && |a.handles| <= limits.handles
    ensures |StepAbs(a, limits, op).0.handles| <= limits.handles
  {
    match op
    case OpOpen(path, mode) =>
      SizeWith(a.handles, LowestUnused(a.handles.Keys, 0));
    case OpClose(h) =>
      if h in a.handles {
        SizeWithout(a.handles, h);
      }
    case OpWrite(h, buffer) => assert StepAbs(a, limits, op).0.handles.Keys == a.handles.Keys;
    case OpRead(h, length) => assert StepAbs(a, limits, op).0.handles.Keys == a.handles.Keys;
    case OpUnlink(path) =>
  }

  lemma {:induction false} RunHandlesBounded(a: Abs, limits: Limits, ops: seq<Op>)
    requires WellFormed(a) && AllowedRun(a, limits, ops) && |a.handles| <= limits.handles
    ensures |RunAbs(a, limits, ops).0.handles| <= limits.handles
    decreases |ops|
  {
    if ops != [] {
      var (a1, r) := StepAbs(a, limits, ops[0]);
      RunAbsFirst(a, limits, ops, a1, r);
      HandlesBounded(a, limits, ops[0]);
      RunHandlesBounded(a1, limits, ops[1..]);
    }
  }

  /** Closing the handle and opening the file again gives a handle at its start. */
  lemma Reopen(a: Abs, limits: Limits, h: int, path: Path, content: seq<byte>)
    requires WellFormed(a) && ValidPathname(path) && AtEnd(a, h, FileName(path), content)
    requires |a.handles| <= limits.handles
    ensures var (a', g) := AbsOpen(AbsClose(a, h).0, limits, path, Mode(false, false, false));
            && WellFormed(a') && g >= 0
            && g in a'.handles && a'.handles[g] == Handle(FileName(path), 0)
            && a'.contents[FileName(path)] == content
  {
    SizeWithout(a.handles, h);
  }

  /** What a file holds once it has been opened. */
  function Initial(a: Abs, path: Path, mode: Mode): seq<byte>
    requires ValidPathname(path)
  {
    if mode.trunc || FileName(path) !in a.contents then [] else a.contents[FileName(path)]
  }

  /** Opening a file to append, or one that is new or truncated, gives a handle at its end. */
  lemma OpenedAtEnd(a: Abs, limits: Limits, path: Path, mode: Mode)
    requires WellFormed(a) && (mode.trunc ==> MayTruncate(a, path)) && |a.handles| <= limits.handles
    requires AbsOpen(a, limits, path, mode).1 >= 0
    ensures var (a1, h) := AbsOpen(a, limits, path, mode);
            && ValidPathname(path) && WellFormed(a1) && |a1.handles| <= limits.handles
            && (mode.append || Initial(a, path, mode) == [] ==> AtEnd(a1, h, FileName(path), Initial(a, path, mode)))
  {
    HandlesBounded(a, limits, OpOpen(path, mode));
  }

  /** Writing on at the end of a file, closing it and opening it again. */
  lemma Rewritten(a: Abs, limits: Limits, h: int, path: Path, before: seq<byte>, puts: seq<Op>)
    requires WellFormed(a) && ValidPathname(path) && AtEnd(a, h, FileName(path), before)
    requires |before| <= limits.blockSize && |a.handles| <= limits.handles
    requires AllowedRun(a, limits, puts) && Writing(a, limits, h, FileName(path), puts)
    ensures var (a2, results) := RunAbs(a, limits, puts);
            var (a3, g) := AbsOpen(AbsClose(a2, h).0, limits, path, Mode(false, false, false));
            && |results| == |puts| && AbsClose(a2, h).1 == 0 && WellFormed(a3) && g >= 0
            && g in a3.handles && a3.handles[g] == Handle(FileName(path), 0)
            && a3.contents[FileName(path)] == Clip(before + Sent(h, puts, results), limits.blockSize)
  {
    assert Clip(before, limits.blockSize) == before;
    WritesAppend(a, limits, h, FileName(path), before, puts);
    RunHandlesBounded(a, limits, puts);
    var (a2, results) := RunAbs(a, limits, puts);
    Reopen(a2, limits, h, path, Clip(before + Sent(h, puts, results), limits.blockSize));
  }

  /** The calls of a round trip: open a file to append, or a new or truncated one, `puts`, close, open, and
      `gets`, where of `puts` and `gets` those on the file are writes and reads through the handle. */
  ghost predicate RoundTripCalls(a: Abs, limits: Limits, path: Path, mode: Mode, puts: seq<Op>, gets: seq<Op>)
    requires WellFormed(a)
  {
    var (a1, h) := AbsOpen(a, limits, path, mode);
    && (mode.trunc ==> MayTruncate(a, path)) && h >= 0 && ValidPathname(path) && WellFormed(a1)
    && (mode.append || Initial(a, path, mode) == [])
    && AllowedRun(a1, limits, puts) && Writing(a1, limits, h, FileName(path), puts)
    && var a2 := RunAbs(a1, limits, puts).0;
    var (a3, g) := AbsOpen(AbsClose(a2, h).0, limits, path, Mode(false, false, false));
    && WellFormed(a2) && WellFormed(a3)
    && AllowedRun(a3, limits, gets) && Reading(a3, limits, g, FileName(path), gets)
  }

  /** Whatever is written in chunks at the end of a file is read back in other chunks from a new handle,
      which can always be had once the first one is closed: the old contents and the concatenation,
      clipped at the block size, as far as the reads reach.  In between, other files and handles may be
      used in any way. */
  lemma RoundTrip(a: Abs, limits: Limits, path: Path, mode: Mode, puts: seq<Op>, gets: seq<Op>)
    requires WellFormed(a) && Bounded(a, limits) && |a.handles| <= limits.handles
    requires RoundTripCalls(a, limits, path, mode, puts, gets)
    ensures var (a1, h) := AbsOpen(a, limits, path, mode);
            var (a2, results) := RunAbs(a1, limits, puts);
            var (a3, g) := AbsOpen(AbsClose(a2, h).0, limits, path, Mode(false, false, false));
            var (_, answers) := RunAbs(a3, limits, gets);
            && |results| == |puts| && AbsClose(a2, h).1 == 0 && g >= 0 && |answers| == |gets|
            && Received(g, gets, answers) ==
               Clip(Clip(Initial(a, path, mode) + Sent(h, puts, results), limits.blockSize), Asked(g, gets))
  {
    var name := FileName(path);
    var (a1, h) := AbsOpen(a, limits, path, mode);
    OpenedAtEnd(a, limits, path, mode);
    Rewritten(a1, limits, h, path, Initial(a, path, mode), puts);
    var a2 := RunAbs(a1, limits, puts).0;
    var (a3, g) := AbsOpen(AbsClose(a2, h).0, limits, path, Mode(false, false, false));
    ReadsAdvance(a3, limits, g, name, 0, gets);
    assert a3.contents[name][0..] == a3.contents[name];
  }

  // ---------------------------------------------------------------------------------------------
  // The same on the tables
  // ---------------------------------------------------------------------------------------------

  ghost predicate RoundTripOps(
    a: Abs, limits: Limits, path: Path, mode: Mode, puts: seq<Op>, gets: seq<Op>, ops: seq<Op>)
    requires WellFormed(a)
  {
    && RoundTripCalls(a, limits, path, mode, puts, gets)
    && ops == [OpOpen(path, mode)] + puts
              + [OpClose(AbsOpen(a, limits, path, mode).1), OpOpen(path, Mode(false, false, false))] + gets
  }

  lemma OneOp(a: Abs, limits: Limits, op: Op)
    requires WellFormed(a) && Allowed(a, limits, op)
    ensures WellFormed(StepAbs(a, limits, op).0) && AllowedRun(a, limits, [op])
    ensures var (a1, r) := StepAbs(a, limits, op); RunAbs(a, limits, [op]) == (a1, [r])
  {
    StepAbsWellFormed(a, limits, op);
    var (a1, r) := StepAbs(a, limits, op);
    assert AllowedRun(a1, limits, [op][1..]);
    RunAbsFirst(a, limits, [op], a1, r);
    assert [r] + [] == [r];
  }

  lemma TwoOps(a: Abs, limits: Limits, op: Op, op': Op)
    requires WellFormed(a) && Allowed(a, limits, op) && WellFormed(StepAbs(a, limits, op).0)
    requires Allowed(StepAbs(a, limits, op).0, limits, op')
    ensures AllowedRun(a, limits, [op, op'])
    ensures var (a1, r) := StepAbs(a, limits, op);
            var (a2, q) := StepAbs(a1, limits, op');
            RunAbs(a, limits, [op, op']) == (a2, [r, q])
  {
    OneOp(a, limits, op);
    OneOp(StepAbs(a, limits, op).0, limits, op');
    RunAbsConcat(a, limits, [op], [op']);
    assert [op] + [op'] == [op, op'];
    var (a1, r) := StepAbs(a, limits, op);
    assert [r] + [StepAbs(a1, limits, op').1] == [r, StepAbs(a1, limits, op').1];
  }

  /** What such operations return, one part after the other. */
  lemma RoundTripParts(
    a: Abs, limits: Limits, path: Path, mode: Mode, puts: seq<Op>, gets: seq<Op>, ops: seq<Op>)
    requires WellFormed(a) && RoundTripOps(a, limits, path, mode, puts, gets, ops)
    ensures AllowedRun(a, limits, ops)
    ensures var (a1, h) := AbsOpen(a, limits, path, mode);
            var (a2, rs) := RunAbs(a1, limits, puts);
            var (a3, g) := AbsOpen(AbsClose(a2, h).0, limits, path, Mode(false, false, false));
            RunAbs(a, limits, ops).1 ==
            [Result(h, [])] + rs + [Result(AbsClose(a2, h).1, []), Result(g, [])] + RunAbs(a3, limits, gets).1
  {
    var (a1, h) := AbsOpen(a, limits, path, mode);
    var first, close, again := OpOpen(path, mode), OpClose(h), OpOpen(path, Mode(false, false, false));
    var a2 := RunAbs(a1, limits, puts).0;
    OneOp(a, limits, first);
    RunAbsConcat(a, limits, [first], puts);
    StepAbsWellFormed(a2, limits, close);
    TwoOps(a2, limits, close, again);
    RunAbsConcat(a, limits, [first] + puts, [close, again]);
    RunAbsConcat(a, limits, [first] + puts + [close, again], gets);
  }

  lemma FourParts<T>(x: T, rs: seq<T>, y: T, z: T, qs: seq<T>, n: nat)
    requires n == |rs| + 1
    ensures var all := [x] + rs + [y, z] + qs;
            && |all| == n + 2 + |qs|
            && all[0] == x && all[1..n] == rs && all[n] == y && all[n + 1] == z && all[n + 2..] == qs
  {
  }

  lemma OpsRoundTrip(
    a: Abs, limits: Limits, path: Path, mode: Mode, puts: seq<Op>, gets: seq<Op>, ops: seq<Op>)
    requires WellFormed(a) && Bounded(a, limits) && |a.handles| <= limits.handles
    requires RoundTripOps(a, limits, path, mode, puts, gets, ops)
    ensures AllowedRun(a, limits, ops)
    ensures var results, n := RunAbs(a, limits, ops).1, |puts| + 1;
            && |results| == n + 2 + |gets|
            && var h, g := results[0].code, results[n + 1].code;
            && h >= 0 && results[n].code == 0 && g >= 0
            && Received(g, gets, results[n + 2..]) ==
               Clip(Clip(Initial(a, path, mode) + Sent(h, puts, results[1..n]), limits.blockSize), Asked(g, gets))
  {
    RoundTripParts(a, limits, path, mode, puts, gets, ops);
    RoundTrip(a, limits, path, mode, puts, gets);
    var (a1, h) := AbsOpen(a, limits, path, mode);
    var (a2, rs) := RunAbs(a1, limits, puts);
    var (a3, g) := AbsOpen(AbsClose(a2, h).0, limits, path, Mode(false, false, false));
    FourParts(Result(h, []), rs, Result(AbsClose(a2, h).1, []), Result(g, []), RunAbs(a3, limits, gets).1,
              |puts| + 1);
  }

  /** On the tables: in any run of the program that consists of such operations, the close succeeds, and
      the bytes the reads return are those the file held and those that were written, clipped at the
      block size, as far as the reads reach. */
  lemma TablesRoundTrip(
    states: seq<Fs>, ops: seq<Op>, results: seq<Result>, a: Abs,
    path: Path, mode: Mode, puts: seq<Op>, gets: seq<Op>)
    requires IsFsRun(states, ops, results) && Inv(states[0]) && Rel(states[0], a) && WellFormed(a)
    requires RoundTripOps(a, LimitsOf(states[0]), path, mode, puts, gets, ops)
    ensures forall i :: 0 <= i < |states| ==> Inv(states[i])
    ensures var n := |puts| + 1;
            && |results| == n + 2 + |gets|
            && var h, g := results[0].code, results[n + 1].code;
            && h >= 0 && results[n].code == 0 && g >= 0
            && Received(g, gets, results[n + 2..]) ==
               Clip(Clip(Initial(a, path, mode) + Sent(h, puts, results[1..n]), states[0].blockSize),
                    Asked(g, gets))
  {
    HandlesFull(states[0], a);
    RelBounded(states[0], a);
    OpsRoundTrip(a, LimitsOf(states[0]), path, mode, puts, gets, ops);
    RunRefines(states, ops, results, a);
  }

  lemma ReadsOnly(a: Abs, limits: Limits, g: int, name: CString, h: int, length: nat)
    requires WellFormed(a)
    ensures AllowedRun(a, limits, [OpRead(h, length)]) && Reading(a, limits, g, name, [OpRead(h, length)])
  {
    OneOp(a, limits, OpRead(h, length));
    var a1 := StepAbs(a, limits, OpRead(h, length)).0;
    assert Reading(a1, limits, g, name, [OpRead(h, length)][1..]);
  }

  lemma WritesAmongOthers(a: Abs, limits: Limits, h: int, name: CString, other: Path, bytes: seq<byte>)
    requires WellFormed(a) && h in a.handles && a.handles[h] == Handle(name, 0) && |bytes| < SIZE_MODULUS
    ensures var puts := [OpOpen(other, Mode(true, false, false)), OpWrite(h, bytes)];
            AllowedRun(a, limits, puts) && Writing(a, limits, h, name, puts)
  {
    var opening, writing := OpOpen(other, Mode(true, false, false)), OpWrite(h, bytes);
    var puts := [opening, writing];
    ElsewhereKeeps(a, limits, opening, h, name);
    StepAbsWellFormed(a, limits, opening);
    TwoOps(a, limits, opening, writing);
    var a1 := StepAbs(a, limits, opening).0;
    OneOp(a1, limits, writing);
    assert puts[1..] == [writing] && puts[1..][1..] == [];
  }

  /** Such calls exist: on an empty file system, create a file, open another in between, write, close, open
      again and read. */
  lemma SimpleSession(limits: Limits, path: Path, other: Path, bytes: seq<byte>, length: nat)
    requires ValidPathname(path) && |FileName(path)| < MAX_FILE_NAME
    requires limits.inodes > 1 && limits.handles > 0 && limits.blockSize >= ENTRY_SIZE
    requires |bytes| < SIZE_MODULUS
    ensures RoundTripCalls(EMPTY, limits, path, Mode(true, true, false),
                           [OpOpen(other, Mode(true, false, false)), OpWrite(0, bytes)], [OpRead(0, length)])
  {
    var (a1, h) := AbsOpen(EMPTY, limits, path, Mode(true, true, false));
    assert h == 0 && a1 == Abs(map[FileName(path) := []], map[0 := Handle(FileName(path), 0)]);
    WritesAmongOthers(a1, limits, 0, FileName(path), other, bytes);
    var puts := [OpOpen(other, Mode(true, false, false)), OpWrite(0, bytes)];
    assert AtEnd(a1, 0, FileName(path), Clip([], limits.blockSize));
    WritesAppend(a1, limits, 0, FileName(path), [], puts);
    var a2 := RunAbs(a1, limits, puts).0;
    var (a3, g) := AbsOpen(AbsClose(a2, 0).0, limits, path, Mode(false, false, false));
    ReadsOnly(a3, limits, g, FileName(path), 0, length);
  }
}
