/** Whole runs of the file system, from formatting on. */
module FsRuns {
  import opened FsBytes
  import opened FsModel
  import opened AbsFs
  import opened FsRefine
  import opened FsSimulation

  // ---------------------------------------------------------------------------------------------
  // A new file system
  // ---------------------------------------------------------------------------------------------

  /** After tfs_init: the root directory in block 0, whose names are whatever the memory held. */
  ghost predicate Formatted(s: Fs) {
    && Shape(s) && |s.blocks| > 0
    && s.inodes[ROOT] == Inode(T_DIRECTORY, s.blockSize, 0)
    && (forall i :: 0 <= i < |s.inodeMap| ==> s.inodeMap[i] == if i == ROOT then TAKEN else FREE)
    && (forall b :: 0 <= b < |s.blockMap| ==> s.blockMap[b] == if b == 0 then TAKEN else FREE)
    && (forall h :: 0 <= h < |s.fileMap| ==> s.fileMap[h] == FREE)
    && (forall k :: 0 <= k < |Dir(s.blocks[0])| ==> !Live(Dir(s.blocks[0]), k))
  }

  const EMPTY: Abs := Abs(map[], map[])

  lemma FormattedIsEmpty(s: Fs)
    requires Formatted(s)
    ensures Inv(s) && Rel(s, EMPTY)
  {
    forall b | 0 <= b < |s.blocks| && s.blockMap[b] == TAKEN ensures HasOwner(s, b) {
      assert Owns(s, ROOT, 0);
    }
  }

  // ---------------------------------------------------------------------------------------------
  // Runs
  // ---------------------------------------------------------------------------------------------

  datatype Op =
    | OpOpen(path: Path, mode: Mode)
    | OpClose(h: int)
    | OpWrite(h: int, buffer: seq<byte>)
    | OpRead(h: int, length: nat)
    | OpUnlink(path: Path)

  /** The return value, and for a read the bytes in the buffer. */
  datatype Result = Result(code: int, bytes: seq<byte>)

  /** The length of a write does not wrap. */
  predicate MayStep(s: Fs, op: Op) {
    op.OpWrite? ==> MayWrite(s, op.h, op.buffer)
  }

  function StepFs(s: Fs, op: Op): (Fs, Result)
    requires Inv(s) && MayStep(s, op)
  {
    match op
    case OpOpen(path, mode) => var (s', r) := Open(s, path, mode); (s', Result(r, []))
    case OpClose(h) => var (s', r) := Close(s, h); (s', Result(r, []))
    case OpWrite(h, buffer) => var (s', r) := Write(s, h, buffer); (s', Result(r, []))
    case OpRead(h, length) => var (s', r, bytes) := Read(s, h, length); (s', Result(r, bytes))
    case OpUnlink(path) => var (s', r) := Unlink(s, path); (s', Result(r, []))
  }

  function StepAbs(a: Abs, limits: Limits, op: Op): (Abs, Result)
    requires WellFormed(a)
  {
    match op
    case OpOpen(path, mode) => var (a', r) := AbsOpen(a, limits, path, mode); (a', Result(r, []))
    case OpClose(h) => var (a', r) := AbsClose(a, h); (a', Result(r, []))
    case OpWrite(h, buffer) => var (a', r) := AbsWrite(a, limits, h, buffer); (a', Result(r, []))
    case OpRead(h, length) => var (a', r, bytes) := AbsRead(a, h, length); (a', Result(r, bytes))
    case OpUnlink(path) => var (a', r) := AbsUnlink(a, path); (a', Result(r, []))
  }

  /** What a caller must respect: no truncating under a handle in use, no unlinking of an open file,
      no length that wraps. */
  ghost predicate Allowed(a: Abs, limits: Limits, op: Op) {
    match op
    case OpOpen(path, mode) => mode.trunc ==> MayTruncate(a, path)
    case OpUnlink(path) => MayUnlink(a, path)
    case OpWrite(h, buffer) => h in a.handles ==> WriteFits(|buffer|, a.handles[h].offset)
    case _ => true
  }

  lemma StepAbsWellFormed(a: Abs, limits: Limits, op: Op)
    requires WellFormed(a) && Allowed(a, limits, op)
    ensures WellFormed(StepAbs(a, limits, op).0)
  {
  }

  lemma OpenLimits(s: Fs, path: Path, mode: Mode)
    requires Inv(s)
    ensures LimitsOf(Open(s, path, mode).0) == LimitsOf(s)
  {
  }

  /** The sizes of the tables never change. */
  lemma LimitsKept(s: Fs, op: Op)
    requires Inv(s) && MayStep(s, op)
    ensures LimitsOf(StepFs(s, op).0) == LimitsOf(s)
  {
    if op.OpOpen? {
      OpenLimits(s, op.path, op.mode);
    }
  }

  /** The length of an allowed write does not wrap. */
  lemma MayStepAllowed(s: Fs, a: Abs, op: Op)
    requires Inv(s) && Rel(s, a) && Allowed(a, LimitsOf(s), op)
    ensures MayStep(s, op)
  {
    if op.OpWrite? && FileOpen(s, op.h) {
      var k, name := OpenedFile(s, a, op.h);
    }
  }

  /** What it means for a step to be simulated. */
  ghost predicate Simulated(s: Fs, a: Abs, op: Op)
    requires Inv(s) && MayStep(s, op) && WellFormed(a)
  {
    var (s', r), (a', r') := StepFs(s, op), StepAbs(a, LimitsOf(s), op);
    Inv(s') && Rel(s', a') && r == r' && LimitsOf(s') == LimitsOf(s)
  }

  lemma OpenSimulated(s: Fs, a: Abs, path: Path, mode: Mode)
    requires Inv(s) && Rel(s, a) && WellFormed(a) && (mode.trunc ==> MayTruncate(a, path))
    ensures Simulated(s, a, OpOpen(path, mode))
  {
    LimitsKept(s, OpOpen(path, mode));
    OpenRefines(s, a, path, mode);
  }

  lemma CloseSimulated(s: Fs, a: Abs, h: int)
    requires Inv(s) && Rel(s, a) && WellFormed(a)
    ensures Simulated(s, a, OpClose(h))
  {
    LimitsKept(s, OpClose(h));
    CloseRefines(s, a, h);
  }

  lemma WriteSimulated(s: Fs, a: Abs, h: int, buffer: seq<byte>)
    requires Inv(s) && Rel(s, a) && WellFormed(a) && MayWrite(s, h, buffer)
    ensures Simulated(s, a, OpWrite(h, buffer))
  {
    LimitsKept(s, OpWrite(h, buffer));
    WriteRefines(s, a, h, buffer);
  }

  lemma ReadSimulated(s: Fs, a: Abs, h: int, length: nat)
    requires Inv(s) && Rel(s, a) && WellFormed(a)
    ensures Simulated(s, a, OpRead(h, length))
  {
    LimitsKept(s, OpRead(h, length));
    ReadRefines(s, a, h, length);
  }

  lemma UnlinkSimulated(s: Fs, a: Abs, path: Path)
    requires Inv(s) && Rel(s, a) && WellFormed(a) && MayUnlink(a, path)
    ensures Simulated(s, a, OpUnlink(path))
  {
    LimitsKept(s, OpUnlink(path));
    UnlinkRefines(s, a, path);
  }

  /** One operation. */
  lemma StepRefines(s: Fs, a: Abs, op: Op)
    requires Inv(s) && Rel(s, a) && Allowed(a, LimitsOf(s), op)
    ensures WellFormed(a) && MayStep(s, op)
    ensures Simulated(s, a, op)
  {
    RelWellFormed(s, a);
    MayStepAllowed(s, a, op);
    LimitsKept(s, op);
    match op
    case OpOpen(path, mode) => OpenSimulated(s, a, path, mode);
    case OpClose(h) => CloseSimulated(s, a, h);
    case OpWrite(h, buffer) => WriteSimulated(s, a, h, buffer);
    case OpRead(h, length) => ReadSimulated(s, a, h, length);
    case OpUnlink(path) => UnlinkSimulated(s, a, path);
  }

  /** The preconditions are exact: of the operations whose length does not wrap, just the allowed ones
      lead to a state with the invariant. */
  lemma StepExact(s: Fs, a: Abs, op: Op)
    requires Inv(s) && Rel(s, a) && MayStep(s, op)
    ensures Inv(StepFs(s, op).0) <==> Allowed(a, LimitsOf(s), op)
  {
    match op
    case OpOpen(path, mode) => OpenExact(s, a, path, mode);
    case OpUnlink(path) => UnlinkKeepsIff(s, a, path);
    case OpClose(h) => CloseRefines(s, a, h);
    case OpRead(h, length) => ReadRefines(s, a, h, length);
    case OpWrite(h, buffer) =>
      WriteRefines(s, a, h, buffer);
      if h in a.handles {
        assert FileOpen(s, h);
        var k, name := OpenedFile(s, a, h);
      }
  }

  ghost predicate AllowedRun(a: Abs, limits: Limits, ops: seq<Op>)
    requires WellFormed(a)
    decreases |ops|
  {
    if ops == [] then true
    else
      && Allowed(a, limits, ops[0])
      && (StepAbsWellFormed(a, limits, ops[0]);
          AllowedRun(StepAbs(a, limits, ops[0]).0, limits, ops[1..]))
  }

  /** The abstract file system's final state and results. */
  ghost function RunAbs(a: Abs, limits: Limits, ops: seq<Op>): (Abs, seq<Result>)
    requires WellFormed(a) && AllowedRun(a, limits, ops)
    decreases |ops|
  {
    if ops == [] then (a, [])
    else
      StepAbsWellFormed(a, limits, ops[0]);
      var (a1, r) := StepAbs(a, limits, ops[0]);
      var (a2, rs) := RunAbs(a1, limits, ops[1..]);
      (a2, [r] + rs)
  }

  /** Operation i starts in the state the one before it left. */
  ghost predicate StepAt(states: seq<Fs>, ops: seq<Op>, results: seq<Result>, i: nat)
    requires i < |ops| == |results| < |states|
  {
    Inv(states[i]) && MayStep(states[i], ops[i]) ==> (states[i + 1], results[i]) == StepFs(states[i], ops[i])
  }

  /** `states` and `results` are those of the operations `ops`, done in order. */
  ghost predicate IsFsRun(states: seq<Fs>, ops: seq<Op>, results: seq<Result>) {
    && |states| == |ops| + 1 && |results| == |ops|
    && forall i: nat {:trigger StepAt(states, ops, results, i)} :: i < |ops| ==> StepAt(states, ops, results, i)
  }

  lemma FirstStep(states: seq<Fs>, ops: seq<Op>, results: seq<Result>, a: Abs)
    requires IsFsRun(states, ops, results) && ops != []
    requires Inv(states[0]) && Rel(states[0], a) && WellFormed(a) && Allowed(a, LimitsOf(states[0]), ops[0])
    ensures var (a1, r) := StepAbs(a, LimitsOf(states[0]), ops[0]);
            && WellFormed(a1) && r == results[0]
            && Inv(states[1]) && Rel(states[1], a1) && LimitsOf(states[1]) == LimitsOf(states[0])
  {
    StepRefines(states[0], a, ops[0]);
    StepAbsWellFormed(a, LimitsOf(states[0]), ops[0]);
    assert StepAt(states, ops, results, 0);
  }

  /** The abstract run is its first step and the run of the rest. */
  lemma RunAbsFirst(a: Abs, limits: Limits, ops: seq<Op>, a1: Abs, r: Result)
    requires WellFormed(a) && AllowedRun(a, limits, ops) && ops != []
    requires (a1, r) == StepAbs(a, limits, ops[0])
    ensures Allowed(a, limits, ops[0]) && WellFormed(a1) && AllowedRun(a1, limits, ops[1..])
    ensures RunAbs(a, limits, ops).0 == RunAbs(a1, limits, ops[1..]).0
    ensures RunAbs(a, limits, ops).1 == [r] + RunAbs(a1, limits, ops[1..]).1
  {
    StepAbsWellFormed(a, limits, ops[0]);
  }

  lemma AllStates(states: seq<Fs>)
    requires states != [] && Inv(states[0])
    requires forall i :: 0 <= i < |states[1..]| ==> Inv(states[1..][i])
    ensures forall i :: 0 <= i < |states| ==> Inv(states[i])
  {
    forall i | 0 < i < |states| ensures Inv(states[i]) {
      assert states[1..][i - 1] == states[i];
    }
  }

  lemma TailRun(states: seq<Fs>, ops: seq<Op>, results: seq<Result>)
    requires IsFsRun(states, ops, results) && ops != []
    ensures IsFsRun(states[1..], ops[1..], results[1..])
  {
    forall i: nat | i < |ops| - 1 ensures StepAt(states[1..], ops[1..], results[1..], i) {
      assert StepAt(states, ops, results, i + 1);
    }
  }

  /** Every run returns what the abstract file system returns, and every state in it satisfies the
      invariant. */
  lemma {:induction false} RunRefines(states: seq<Fs>, ops: seq<Op>, results: seq<Result>, a: Abs)
    requires IsFsRun(states, ops, results)
    requires Inv(states[0]) && Rel(states[0], a) && WellFormed(a)
    requires AllowedRun(a, LimitsOf(states[0]), ops)
    ensures forall i :: 0 <= i < |states| ==> Inv(states[i])
    ensures results == RunAbs(a, LimitsOf(states[0]), ops).1
    ensures Rel(states[|ops|], RunAbs(a, LimitsOf(states[0]), ops).0)
    decreases |ops|
  {
    if ops != [] {
      var (a1, r) := StepAbs(a, LimitsOf(states[0]), ops[0]);
      RunAbsFirst(a, LimitsOf(states[0]), ops, a1, r);
      FirstStep(states, ops, results, a);
      TailRun(states, ops, results);
      RunRefines(states[1..], ops[1..], results[1..], a1);
      assert states[1..][|ops| - 1] == states[|ops|];
      assert results == [results[0]] + results[1..];
      AllStates(states);
    }
  }

  /** Operation i does not wrap and leaves a state with the invariant. */
  ghost predicate Kept(states: seq<Fs>, ops: seq<Op>, i: nat)
    requires i < |ops| < |states|
  {
    MayStep(states[i], ops[i]) && Inv(states[i + 1])
  }

  lemma FirstKept(states: seq<Fs>, ops: seq<Op>, results: seq<Result>, a: Abs)
    requires IsFsRun(states, ops, results) && ops != []
    requires Inv(states[0]) && Rel(states[0], a)
    ensures Kept(states, ops, 0) <==> Allowed(a, LimitsOf(states[0]), ops[0])
  {
    if Allowed(a, LimitsOf(states[0]), ops[0]) {
      MayStepAllowed(states[0], a, ops[0]);
    }
    if MayStep(states[0], ops[0]) {
      StepExact(states[0], a, ops[0]);
      assert StepAt(states, ops, results, 0);
    }
  }

  lemma KeptShift(states: seq<Fs>, ops: seq<Op>)
    requires |states| == |ops| + 1 && ops != []
    ensures (forall i: nat {:trigger Kept(states, ops, i)} :: i < |ops| ==> Kept(states, ops, i)) <==>
            && Kept(states, ops, 0)
            && forall i: nat {:trigger Kept(states[1..], ops[1..], i)} ::
                 i < |ops[1..]| ==> Kept(states[1..], ops[1..], i)
  {
    forall i: nat | i < |ops[1..]| ensures Kept(states[1..], ops[1..], i) <==> Kept(states, ops, i + 1) {
    }
    if forall i: nat {:trigger Kept(states[1..], ops[1..], i)} ::
      i < |ops[1..]| ==> Kept(states[1..], ops[1..], i)
    {
      forall i: nat | 0 < i < |ops| ensures Kept(states, ops, i) {
        assert Kept(states[1..], ops[1..], i - 1);
      }
    }
  }

  /** The runs that respect the preconditions are exactly those that keep the invariant throughout. */
  lemma {:induction false} RunExact(states: seq<Fs>, ops: seq<Op>, results: seq<Result>, a: Abs)
    requires IsFsRun(states, ops, results)
    requires Inv(states[0]) && Rel(states[0], a) && WellFormed(a)
    ensures AllowedRun(a, LimitsOf(states[0]), ops) <==>
            forall i: nat {:trigger Kept(states, ops, i)} :: i < |ops| ==> Kept(states, ops, i)
    decreases |ops|
  {
    if ops != [] {
      FirstKept(states, ops, results, a);
      if Allowed(a, LimitsOf(states[0]), ops[0]) {
        FirstStep(states, ops, results, a);
        TailRun(states, ops, results);
        RunExact(states[1..], ops[1..], results[1..], StepAbs(a, LimitsOf(states[0]), ops[0]).0);
        KeptShift(states, ops);
      }
    }
  }

  /** In particular every run of a newly formatted file system behaves like one of an empty abstract
      one. */
  lemma RunFromFormatted(states: seq<Fs>, ops: seq<Op>, results: seq<Result>)
    requires IsFsRun(states, ops, results) && Formatted(states[0])
    requires AllowedRun(EMPTY, LimitsOf(states[0]), ops)
    ensures forall i :: 0 <= i < |states| ==> Inv(states[i])
    ensures results == RunAbs(EMPTY, LimitsOf(states[0]), ops).1
  {
    FormattedIsEmpty(states[0]);
    RunRefines(states, ops, results, EMPTY);
  }

  /** A run is a run and then another. */
  lemma {:induction false} RunAbsConcat(a: Abs, limits: Limits, xs: seq<Op>, ys: seq<Op>)
    requires WellFormed(a) && AllowedRun(a, limits, xs)
    requires WellFormed(RunAbs(a, limits, xs).0) && AllowedRun(RunAbs(a, limits, xs).0, limits, ys)
    ensures AllowedRun(a, limits, xs + ys)
    ensures var (a1, rs) := RunAbs(a, limits, xs);
            var (a2, qs) := RunAbs(a1, limits, ys);
            RunAbs(a, limits, xs + ys) == (a2, rs + qs)
    decreases |xs|
  {
    if xs == [] {
      assert xs + ys == ys;
      assert [] + RunAbs(a, limits, ys).1 == RunAbs(a, limits, ys).1;
    } else {
      var (a1, r) := StepAbs(a, limits, xs[0]);
      RunAbsFirst(a, limits, xs, a1, r);
      assert (xs + ys)[0] == xs[0] && (xs + ys)[1..] == xs[1..] + ys;
      RunAbsConcat(a1, limits, xs[1..], ys);
      RunAbsFirst(a, limits, xs + ys, a1, r);
      AppendAfter([r], RunAbs(a1, limits, xs[1..]).1, RunAbs(RunAbs(a1, limits, xs[1..]).0, limits, ys).1);
    }
  }
}
