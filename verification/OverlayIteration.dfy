/** Iterating over the working tree, or over the latest saved tree, through the fast nodes. */
module OverlayIteration {
  import opened Options
  import opened ByteStrings
  import opened FastChanges
  import opened FastOverlay
  import MI = MergeIterator

  /** The change set that the mutable tree's iterator puts over the disk. */
  function WorkingOverlay(s: State): Changes { Expand(MergePrev(s.unsaved, s.pre), s.flight) }

  /** The change set that a saved tree's iterator puts over the disk. */
  function SavedOverlay(s: State): Changes { Expand(s.pre, s.flight) }

  method NewUnsavedFastIteratorWithCache(ascending: bool, start: Option<Bytes>, end: Option<Bytes>, unsaved: ChangeSet, pre: ChangeSet,
                                         tpfv: VersionedChanges, fromDisk: seq<MI.Pair>, ghost d: Fast)
    returns (it: MI.UnsavedFastIterator)
    requires tpfv.Valid() && Disjoint(unsaved.Now()) && MI.Lists(ascending, fromDisk, d, start, end)
    ensures fresh(it) && it.Consistent()
    ensures MI.Lists(ascending, it.Remaining(), Apply(Expand(MergePrev(unsaved.Now(), pre.Now()), tpfv.Layers()), d), start, end)
  {
    var fnc := unsaved.Clone();
    fnc.MergePrevInto(pre);
    var c := tpfv.ExpandFrom(fnc.Now());
    MergePrevFinds(unsaved.Now(), pre.Now(), []);
    ExpandFinds(fnc.Now(), tpfv.Layers(), []);
    it := MI.NewIterator(ascending, start, end, c, fromDisk, d);
  }

  function ValueIn(d: Fast, k: Bytes): Option<Bytes> { if k in d then Some(d[k].value) else None }

  /** The overlay on the disk holds the working tree, at every moment of every run. */
  lemma OverlayIsWorking(s: State, k: Bytes)
    requires Inv(s)
    ensures Disjoint(WorkingOverlay(s)) && ValueIn(Apply(WorkingOverlay(s), s.disk), k) == LookupIn(s.working, k)
  {
    assert KeyOk(s, k);
    hide FindIn, Expand, MergePrev;
    MergePrevFinds(s.unsaved, s.pre, k);
    ExpandFinds(MergePrev(s.unsaved, s.pre), s.flight, k);
    ApplyFinds(WorkingOverlay(s), s.disk, k);
  }

  /** Without the unsaved changes it holds the tree merged last, the last saved one that was not empty. */
  lemma OverlayIsSaved(s: State, k: Bytes)
    requires Inv(s)
    ensures Disjoint(SavedOverlay(s)) && ValueIn(Apply(SavedOverlay(s), s.disk), k) == LookupIn(MergedTree(s.saved), k)
  {
    assert KeyOk(s, k);
    hide FindIn, Expand;
    ExpandFinds(s.pre, s.flight, k);
    ApplyFinds(SavedOverlay(s), s.disk, k);
  }

  lemma ApplyFinds(c: Changes, d: Fast, k: Bytes)
    requires Disjoint(c)
    ensures ValueIn(Apply(c, d), k) ==
            match Find(c, k) { case None => ValueIn(d, k) case Some(None) => None case Some(Some(n)) => Some(n.value) }
  {
  }

  predicate IsCommitStep(step: Step)
  {
    step.CacheKey? || step.WriteBatch? || step.DropFlight? || step.FillCache? || step.Evict?
  }

  /** Everything in flight is covered by the overlay. */
  ghost predicate Covers(c: Changes, flight: seq<Changes>)
  {
    forall i, k :: 0 <= i < |flight| && Touches(flight[i], k) ==> Touches(c, k)
  }

  /** The overlay is taken first and the disk read later: batches committed in between make no difference. */
  lemma {:induction false} LateDiskIsTheSame(c: Changes, s: State, steps: seq<Step>, t: State)
    requires Disjoint(c) && Covers(c, s.flight) && Reaches(s, steps, t) && forall i :: 0 <= i < |steps| ==> IsCommitStep(steps[i])
    ensures Apply(c, t.disk) == Apply(c, s.disk)
    decreases |steps|
  {
    if steps != [] {
      assert IsCommitStep(steps[0]);
      var s' := Do(s, steps[0]);
      if steps[0].WriteBatch? { assert Apply(c, s'.disk) == Apply(c, s.disk) by { AppliedAnyway(c, s.flight[0], s.disk); } }
      LateDiskIsTheSame(c, s', steps[1..], t);
    }
  }

  lemma AppliedAnyway(c: Changes, below: Changes, d: Fast)
    requires forall k :: Touches(below, k) ==> Touches(c, k)
    ensures Apply(c, Apply(below, d)) == Apply(c, d)
  {
    var a, b := Apply(c, Apply(below, d)), Apply(c, d);
    forall k ensures (k in a <==> k in b) && (k in a ==> a[k] == b[k]) {
      assert Touches(below, k) ==> Touches(c, k);
    }
  }

  lemma {:induction false} LayersCovered(layers: seq<Changes>, i: nat, k: Bytes)
    requires i < |layers| && Touches(layers[i], k)
    ensures FindIn(layers, k).Some?
    decreases |layers|
  {
    if i < |layers| - 1 { LayersCovered(layers[..|layers| - 1], i, k); }
  }

  lemma ExpandCovers(c: Changes, flight: seq<Changes>)
    ensures Covers(Expand(c, flight), flight)
  {
    hide Expand, FindIn;
    forall i, k | 0 <= i < |flight| && Touches(flight[i], k) ensures Touches(Expand(c, flight), k) {
      LayersCovered(flight, i, k);
      ExpandFinds(c, flight, k);
    }
  }

  /** Whatever is committed meanwhile, iterating over the mutable tree lists exactly the working tree's pairs in the range. */
  lemma IterationIsWorking(steps: seq<Step>, s: State, later: seq<Step>, t: State,
                           listing: seq<MI.Pair>, ascending: bool, start: Option<Bytes>, end: Option<Bytes>, k: Bytes, v: Bytes)
    requires Reaches(EMPTY, steps, s) && Steady(EMPTY, steps) && Reaches(s, later, t) && forall i :: 0 <= i < |later| ==> IsCommitStep(later[i])
    requires MI.Lists(ascending, listing, Apply(WorkingOverlay(s), t.disk), start, end)
    ensures MI.InOrder(ascending, listing)
    ensures (exists p :: p in listing && p.key == k && p.node.value == v) <==> LookupIn(s.working, k) == Some(v) && InRange(start, end, k)
  {
    hide Reaches, InRange, MI.Before, WorkingOverlay, Apply, Inv, Covers;
    ReachableOk(steps, s);
    OverlayIsWorking(s, k);
    WorkingCovers(s);
    LateDiskIsTheSame(WorkingOverlay(s), s, later, t);
    var d := Apply(WorkingOverlay(s), t.disk);
    if LookupIn(s.working, k) == Some(v) && InRange(start, end, k) { assert MI.Pair(k, d[k]) in listing; }
  }

  /**
    Whatever is committed meanwhile, the iterator of the latest saved tree is right about a key exactly if that tree and
    the tree merged last agree on it. They differ while the next block is merged, and while the latest tree is empty.
   */
  lemma SavedIteration(steps: seq<Step>, s: State, later: seq<Step>, t: State,
                       listing: seq<MI.Pair>, ascending: bool, start: Option<Bytes>, end: Option<Bytes>, k: Bytes)
    requires Reaches(EMPTY, steps, s) && Steady(EMPTY, steps) && Reaches(s, later, t) && forall i :: 0 <= i < |later| ==> IsCommitStep(later[i])
    requires s.latest > 0 && InRange(start, end, k) && MI.Lists(ascending, listing, Apply(SavedOverlay(s), t.disk), start, end)
    ensures s.latest <= |s.saved|
    ensures (forall v :: (exists p :: p in listing && p.key == k && p.node.value == v) <==> LookupIn(s.saved[s.latest - 1], k) == Some(v)) <==>
            LookupIn(s.saved[s.latest - 1], k) == LookupIn(MergedTree(s.saved), k)
    ensures s.saved[s.latest - 1] != map[] && !s.pc.Merged? ==> MergedTree(s.saved) == s.saved[s.latest - 1]
    ensures s.pc.Merged? ==> s.latest < |s.saved| && MergedTree(s.saved) == s.saved[s.latest]
  {
    hide Reaches, Steady, InRange, MI.Before, SavedOverlay, Apply, KeyOk, Covers;
    ReachableOk(steps, s);
    OverlayIsSaved(s, k);
    assert Covers(SavedOverlay(s), s.flight) by { SavedCovers(s); }
    LateDiskIsTheSame(SavedOverlay(s), s, later, t);
    ListedIff(listing, ascending, Apply(SavedOverlay(s), s.disk), start, end, k, LookupIn(s.saved[s.latest - 1], k));
  }

  lemma WorkingCovers(s: State)
    ensures Covers(WorkingOverlay(s), s.flight)
  {
    ExpandCovers(MergePrev(s.unsaved, s.pre), s.flight);
  }

  lemma SavedCovers(s: State)
    ensures Covers(SavedOverlay(s), s.flight)
  {
    ExpandCovers(s.pre, s.flight);
  }

  /** A listing agrees with what is expected of a key exactly if the map does. */
  lemma ListedIff(listing: seq<MI.Pair>, ascending: bool, d: Fast, start: Option<Bytes>, end: Option<Bytes>, k: Bytes, expected: Option<Bytes>)
    requires MI.Lists(ascending, listing, d, start, end) && InRange(start, end, k)
    ensures (forall v :: (exists p :: p in listing && p.key == k && p.node.value == v) <==> expected == Some(v)) <==> expected == ValueIn(d, k)
  {
    hide InRange, MI.Before;
    var cur := ValueIn(d, k);
    forall v ensures (exists p :: p in listing && p.key == k && p.node.value == v) <==> cur == Some(v) {
      if cur == Some(v) { assert MI.Pair(k, d[k]) in listing; }
    }
    if cur != expected {
      var v := if cur.Some? then cur.value else expected.value;
      assert (cur == Some(v)) != (expected == Some(v));
    }
  }

  /** A run in which the iterator of the latest saved tree has lost key [1], which the next block removes. */
  lemma IterationMissesRemovedKey()
    ensures exists steps, s :: Reaches(EMPTY, steps, s) && Steady(EMPTY, steps) && s.pc.Merged? && 1 <= s.latest < |s.saved| &&
              [1] in s.saved[s.latest - 1] && [1] !in Apply(SavedOverlay(s), s.disk)
  {
    hide Reaches, Steady, Apply, SavedOverlay;
    RemovalIsReachable();
    var steps, s :| Reaches(EMPTY, steps, s) && Steady(EMPTY, steps) && s.pc.Rest? && s.working != map[] && [1] in Current(s.saved) && [1] !in s.working;
    ReachableOk(steps, s);
    OneMore(EMPTY, steps, s, Merge);
    SteadyMore(EMPTY, steps, s, Merge);
    var t := Do(s, Merge);
    ReachableOk(steps + [Merge], t);
    OverlayIsSaved(t, [1]);
    LastMergedMore(s.saved, s.working);
    hide KeyOk, MergeLater, LastMerged;
    assert MergedTree(t.saved) == s.working;
    assert Reaches(EMPTY, steps + [Merge], t);
  }

  lemma {:induction false} SteadyMore(s: State, steps: seq<Step>, t: State, step: Step)
    requires Reaches(s, steps, t) && Steady(s, steps) && !step.Rollback?
    ensures Steady(s, steps + [step])
    decreases |steps|
  {
    if steps == [] {
      assert (steps + [step])[1..] == [];
    } else {
      SteadyMore(Do(s, steps[0]), steps[1..], t, step);
      assert (steps + [step])[0] == steps[0] && (steps + [step])[1..] == steps[1..] + [step];
    }
  }

  /** A run in which the latest saved tree is empty and its iterator lists the key [1] of the tree before. */
  lemma IterationListsEmptiedTree()
    ensures exists steps, s :: Reaches(EMPTY, steps, s) && Steady(EMPTY, steps) && 1 <= s.latest <= |s.saved| &&
              s.saved[s.latest - 1] == map[] && [1] in Apply(SavedOverlay(s), s.disk)
  {
    hide Reaches, Steady, Apply, SavedOverlay, KeyOk, MergedTree, LastMerged;
    var steps, s := EmptiedRun();
    ReachableOk(steps, s);
    OverlayIsSaved(s, [1]);
  }
}
