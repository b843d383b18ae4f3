/**
  The change sets in flight come to the disk: from every reachable state a save under way can be
  finished and all change sets in flight be written, and with no layer above it the disk holds
  exactly the tree that was merged last.
 */
module FastProgress {
  import opened Options
  import opened ByteStrings
  import opened FastChanges
  import opened FastOverlay

  function KeysOf(c: Changes): set<Bytes> { c.additions.Keys + c.removals }

  /** Steps that finish what was begun. */
  predicate Finishes(step: Step)
  {
    step.Raise? || step.Finish? || step.CacheKey? || step.WriteBatch? || step.DropFlight?
  }

  ghost predicate OnlyFinishes(steps: seq<Step>) { forall i :: 0 <= i < |steps| ==> Finishes(steps[i]) }

  function PcLeft(pc: Pc): nat { match pc case Rest => 0 case Merged => 2 case _ => 1 }

  /** Keys of the oldest change set that are not yet in or out of the cache. */
  function Undone(s: State): set<Bytes> { if s.flight == [] then {} else KeysOf(s.flight[0]) - s.done }

  lemma PickKey(s: set<Bytes>) returns (k: Bytes)
    requires s != {}
    ensures k in s
  {
    assert exists k :: k in s by { if forall k :: k !in s { assert false; } }
    k :| k in s;
  }

  ghost predicate Busy(s: State) { !s.pc.Rest? || s.flight != [] }

  ghost predicate Closer(s: State, t: State)
  {
    || (|t.flight| < |s.flight| && t.pc == s.pc)
    || (t.flight == s.flight && t.written == s.written && t.done == s.done && PcLeft(t.pc) < PcLeft(s.pc))
    || (t.flight == s.flight && t.pc == s.pc && !s.written && t.written)
    || (t.flight == s.flight && t.pc == s.pc && t.written == s.written && |Undone(t)| < |Undone(s)|)
  }

  /** A step that brings a busy state closer to rest. */
  lemma CanFinish(s: State) returns (step: Step)
    requires Busy(s)
    ensures Enabled(s, step) && Finishes(step) && Closer(s, Do(s, step)) && Do(s, step).saved == s.saved && Do(s, step).pre == s.pre
  {
    if s.pc.Merged? {
      step := Raise;
    } else if !s.pc.Rest? {
      step := Finish;
    } else if s.written {
      step := DropFlight;
    } else if Undone(s) == {} {
      step := WriteBatch;
      forall k | Touches(s.flight[0], k) ensures k in s.done { assert k !in Undone(s); }
    } else {
      var k := PickKey(Undone(s));
      step := CacheKey(k);
      assert Undone(Do(s, step)) == Undone(s) - {k};
    }
  }

  lemma {:induction false} ComesToRest(s: State) returns (steps: seq<Step>, t: State)
    ensures Reaches(s, steps, t) && OnlyFinishes(steps) && !Busy(t) && t.saved == s.saved && t.pre == s.pre
    decreases |s.flight|, PcLeft(s.pc), if s.written then 0 else 1, |Undone(s)|
  {
    if !Busy(s) {
      steps, t := [], s;
    } else {
      var step := CanFinish(s);
      var next := Do(s, step);
      hide Do, Enabled, Undone;
      var rest;
      rest, t := ComesToRest(next);
      steps := [step] + rest;
      assert steps[0] == step && steps[1..] == rest;
    }
  }

  /** The disk holds exactly the values of a tree. */
  ghost predicate Holds(disk: Fast, tree: Kv)
  {
    forall k :: (k in disk <==> k in tree) && (k in disk ==> disk[k].value == tree[k])
  }

  lemma BareDiskIsTree(s: State)
    requires Inv(s) && s.pre == NO_CHANGES && s.flight == []
    ensures Holds(s.disk, MergedTree(s.saved))
  {
    hide LastMerged;
    forall k ensures (k in s.disk <==> k in MergedTree(s.saved)) && (k in s.disk ==> s.disk[k].value == MergedTree(s.saved)[k]) {
      assert KeyOk(s, k);
      assert Stored(s.pre, s.flight, s.disk, k) == if k in s.disk then Some(s.disk[k]) else None;
    }
  }

  /** From every reachable state; if nothing waits for the next checkpoint, the disk then is the tree merged last. */
  lemma FastNodesReachDisk(before: seq<Step>, s: State) returns (steps: seq<Step>, t: State)
    requires Reaches(EMPTY, before, s) && Steady(EMPTY, before)
    ensures Reaches(s, steps, t) && OnlyFinishes(steps) && t.pc.Rest? && t.flight == [] && t.saved == s.saved && t.pre == s.pre
    ensures s.pre == NO_CHANGES ==> Holds(t.disk, MergedTree(s.saved))
  {
    hide Reaches, Steady, Inv, Holds, MergedTree, OnlyFinishes;
    ReachableOk(before, s);
    steps, t := ComesToRest(s);
    NoRollbacks(s, steps);
    RunKeeps(s, steps, t);
    if s.pre == NO_CHANGES { BareDiskIsTree(t); }
  }

  lemma NoRollbacks(s: State, steps: seq<Step>)
    requires OnlyFinishes(steps)
    ensures Steady(s, steps)
  {
    hide Steady;
    UsuallySteady(s, steps);
  }
}
