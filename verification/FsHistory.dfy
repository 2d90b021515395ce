/** Which handles are open in a run, told from the calls made so far and what they returned. */
module FsHistory {
  import opened FsModel
  import opened AbsFs
  import opened FsRefine
  import opened FsRuns

  /** Whether handle h is open after the calls, if it was or was not before them: an open that returned it
      opens it, and a close closes it. */
  function OpenAfter(before: bool, h: int, ops: seq<Op>, results: seq<Result>): bool
    requires |ops| == |results|
    decreases |ops|
  {
    if ops == [] then before
    else
      var after := (ops[0].OpOpen? && results[0].code == h) || (before && ops[0] != OpClose(h));
      OpenAfter(after, h, ops[1..], results[1..])
  }

  lemma HandleStep(a: Abs, limits: Limits, op: Op, h: int)
    requires WellFormed(a) && h >= 0
    ensures var (a', r) := StepAbs(a, limits, op);
            h in a'.handles <==> (op.OpOpen? && r.code == h) || (h in a.handles && op != OpClose(h))
  {
  }

  lemma {:induction false} HandleHistory(a: Abs, limits: Limits, ops: seq<Op>, h: int)
    requires WellFormed(a) && AllowedRun(a, limits, ops) && h >= 0
    ensures var (a', results) := RunAbs(a, limits, ops);
            |results| == |ops| && (h in a'.handles <==> OpenAfter(h in a.handles, h, ops, results))
    decreases |ops|
  {
    if ops != [] {
      var (a1, r) := StepAbs(a, limits, ops[0]);
      RunAbsFirst(a, limits, ops, a1, r);
      HandleStep(a, limits, ops[0], h);
      HandleHistory(a1, limits, ops[1..], h);
      assert RunAbs(a, limits, ops).1[1..] == RunAbs(a1, limits, ops[1..]).1;
    }
  }

  /** The i-th call of a run, and the calls before it. */
  lemma {:induction false} RunAbsAt(a: Abs, limits: Limits, ops: seq<Op>, i: nat)
    requires WellFormed(a) && AllowedRun(a, limits, ops) && i < |ops|
    ensures AllowedRun(a, limits, ops[..i]) && |RunAbs(a, limits, ops).1| == |ops|
    ensures var (ai, before) := RunAbs(a, limits, ops[..i]);
            && before == RunAbs(a, limits, ops).1[..i]
            && WellFormed(ai) && Allowed(ai, limits, ops[i])
            && StepAbs(ai, limits, ops[i]).1 == RunAbs(a, limits, ops).1[i]
    decreases |ops|
  {
    var (a1, r) := StepAbs(a, limits, ops[0]);
    RunAbsFirst(a, limits, ops, a1, r);
    HandleHistory(a, limits, ops, 0);
    if i > 0 {
      RunAbsAt(a1, limits, ops[1..], i - 1);
      assert ops[..i][1..] == ops[1..][..i - 1];
      assert AllowedRun(a1, limits, ops[..i][1..]);
      RunAbsFirst(a, limits, ops[..i], a1, r);
      assert ([r] + RunAbs(a1, limits, ops[1..]).1)[..i] == [r] + RunAbs(a1, limits, ops[1..]).1[..i - 1];
    }
  }

  /** In every run of the tables, a close returns 0 exactly when the handle was returned by an open and not
      closed since, and otherwise -1; and so do reads and writes through a handle that is not open. */
  lemma CallsOnHandles(
    states: seq<Fs>, ops: seq<Op>, results: seq<Result>, a: Abs, i: nat, h: int)
    requires IsFsRun(states, ops, results) && Inv(states[0]) && Rel(states[0], a) && WellFormed(a)
    requires AllowedRun(a, LimitsOf(states[0]), ops) && i < |ops| && h >= 0
    ensures var isOpen := OpenAfter(h in a.handles, h, ops[..i], results[..i]);
            && (ops[i] == OpClose(h) ==> results[i].code == if isOpen then 0 else -1)
            && (ops[i].OpRead? && ops[i].h == h ==> (results[i].code == -1 <==> !isOpen))
            && (ops[i].OpWrite? && ops[i].h == h && !isOpen ==> results[i].code == -1)
  {
    var limits := LimitsOf(states[0]);
    RunRefines(states, ops, results, a);
    RunAbsAt(a, limits, ops, i);
    HandleHistory(a, limits, ops[..i], h);
  }
}
