/**
  Blocks on top of asynchronous saves: after any number of them, whatever is on
  disk, every sequence of updates of the working tree leads to a tree and an
  orphan list with which the next asynchronous save can be taken.
 */
module AsyncBlocks {
  import opened Options
  import opened Lifetimes
  import VS = VersionStore
  import AC = AsyncCommit

  /** setNewWorkingTree: the tree saved last is the working tree. */
  function Fresh(h: History): VS.State
  {
    var last := if h == [] then None else h[|h| - 1];
    VS.State(last, last, |h|, [], multiset{}, EMPTY)
  }

  predicate IsEdit(op: VS.Op) { op.OpSet? || op.OpRemove? }

  ghost predicate AreEdits(ops: seq<VS.Op>) { forall i :: 0 <= i < |ops| ==> IsEdit(ops[i]) }

  /** The updates since the tree of version |h| was saved. */
  ghost predicate Editing(s: VS.State, h: History)
  {
    VS.Working(s) && s.version == |h| && s.lastSaved == (if h == [] then None else h[|h| - 1])
  }

  lemma FreshIsEditing(h: History)
    requires ValidHistory(h)
    ensures Editing(Fresh(h), h)
  {
    hide ValidHistory, VS.Working, VS.VersionsIn;
    if h != [] && h[|h| - 1].Some? { VS.SavedTree(h, |h|); }
    VS.CleanWorking(Fresh(h));
  }

  lemma EditKeeps(s: VS.State, h: History, op: VS.Op)
    requires Editing(s, h) && IsEdit(op)
    ensures Editing(VS.Step(s, op), h)
  {
    match op
    case OpSet(key, value) => VS.SetKeyWorking(s, key, value); hide VS.Working;
    case OpRemove(key) => VS.RemoveKeyWorking(s, key); hide VS.Working;
  }

  lemma {:induction false} EditsKeep(s: VS.State, h: History, ops: seq<VS.Op>, r: VS.State)
    requires Editing(s, h) && AreEdits(ops) && VS.Reaches(s, ops, r)
    ensures Editing(r, h)
    decreases |ops|
  {
    hide Editing, VS.Step;
    if ops != [] {
      assert IsEdit(ops[0]);
      EditKeeps(s, h, ops[0]);
      EditsKeep(VS.Step(s, ops[0]), h, ops[1..], r);
    }
  }

  /** Every sequence of updates can be made. */
  lemma {:induction false} EditsExist(s: VS.State, h: History, ops: seq<VS.Op>) returns (r: VS.State)
    requires Editing(s, h) && AreEdits(ops)
    ensures VS.Reaches(s, ops, r)
    decreases |ops|
  {
    hide VS.Step;
    if ops == [] { r := s; }
    else {
      assert IsEdit(ops[0]);
      EditKeeps(s, h, ops[0]);
      r := EditsExist(VS.Step(s, ops[0]), h, ops[1..]);
    }
  }

  /**
    In every interleaving of the pipeline: when the block thread is at rest, any updates of the tree it
    saved last lead to a block that can be saved, with the orphans that were collected on the way.
   */
  lemma EveryBlockCanBeSaved(c: AC.Config, steps: seq<AC.Step>, a: AC.State, ops: seq<VS.Op>, r: VS.State, persist: bool)
    requires AC.Reaches(c, AC.INIT, steps, a) && c.historyStateNum >= AC.MIN_HISTORY_STATE_NUM
    requires a.pc.Idle? && a.task.None? && AreEdits(ops) && VS.Reaches(Fresh(a.h), ops, r)
    ensures AC.Enabled(a, AC.UpdateBranch(r.root, VS.OrphanHashes(r), persist))
  {
    hide AC.Reaches, VS.Reaches;
    SavedTreesAreValid(c, steps, a);
    FreshIsEditing(a.h);
    EditsKeep(Fresh(a.h), a.h, ops, r);
    hide ValidHistory;
    VS.WorkingOkFromWorking(r, a.h);
    hide VS.Working, WorkingOk;
  }

  lemma SavedTreesAreValid(c: AC.Config, steps: seq<AC.Step>, a: AC.State)
    requires AC.Reaches(c, AC.INIT, steps, a) && c.historyStateNum >= AC.MIN_HISTORY_STATE_NUM
    ensures ValidHistory(a.h)
  {
    AC.InitInv(c);
    AC.RunInv(c, AC.INIT, steps, a);
    hide AC.Reaches;
  }
}
