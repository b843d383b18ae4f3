/**
  What stays: which checkpoints the asynchronous pipeline keeps on disk, and which
  orphans in memory, stated over the commits of a run in their order.
 */
module Retention {
  import opened Options
  import opened MerkleHash
  import opened Lifetimes
  import opened AsyncCommit

  // ---------- the commits of a run ----------

  /** The checkpoints whose commit has begun, in order. */
  ghost function Begun(c: Config, s: State, steps: seq<Step>): seq<int>
    decreases |steps|
  {
    if steps == [] || !Enabled(s, steps[0]) then []
    else CommitOf(s, steps[0]) + Begun(c, Do(c, s, steps[0]), steps[1..])
  }

  ghost function CommitOf(s: State, step: Step): seq<int>
    requires Enabled(s, step)
  {
    if step.CommitBegin? then [s.event.value.version] else []
  }

  function Older(s: seq<int>, n: nat): seq<int> { if |s| <= n then [] else s[..|s| - n] }

  /** The last n, or all if there are fewer. */
  function Newest(s: seq<int>, n: nat): seq<int> { if |s| <= n then s else s[|s| - n..] }

  ghost predicate Rising(s: seq<int>) { forall i, j :: 0 <= i < j < |s| ==> s[i] < s[j] }

  /** Pruning is not switched off at any commit of the run. */
  ghost predicate AlwaysPrunes(steps: seq<Step>) { forall i :: 0 <= i < |steps| && steps[i].CommitBegin? ==> steps[i].mayPrune }

  function DoomedIn(s: State): set<int> { Doomed(s.removed, s.prunable, s.prune) }

  // ---------- the invariant ----------

  ghost predicate Retains(c: Config, s: State, begun: seq<int>, all: bool)
  {
    && s.queue == Newest(begun, c.historyStateNum)
    && Rising(begun)
    && (forall v :: v in DoomedIn(s) ==> v in Older(begun, c.historyStateNum))
    && (forall v :: v in s.disk.roots ==> v in begun)
    && (all ==> forall v :: v in s.disk.roots ==> v in s.queue || v in DoomedIn(s))
  }

  lemma NewestMore(begun: seq<int>, v: int, n: nat)
    requires n > 0
    ensures var q := Newest(begun, n) + [v];
            Newest(begun + [v], n) == (if |q| > n then q[1..] else q) &&
            (|q| > n ==> Older(begun + [v], n) == Older(begun, n) + [q[0]]) && (|q| <= n ==> Older(begun + [v], n) == Older(begun, n))
  {
    var b := begun + [v];
    if |begun| < n {
      assert Newest(begun, n) == begun;
    } else if |begun| == n {
      assert Newest(begun, n) == begun && b[1..] == begun[1..] + [v] && b[..1] == [begun[0]];
    } else {
      var k := |begun| - n;
      assert begun[k..] + [v] == b[k..] && b[k..][1..] == b[k + 1..] && b[..k + 1] == begun[..k] + [begun[k]];
    }
  }

  /** The checkpoint that begins is newer than all before. */
  lemma BeginsLater(c: Config, s: State, begun: seq<int>, all: bool)
    requires Inv(c, s) && s.event.Some? && s.event.value.phase.Queued? && Retains(c, s, begun, all) && c.historyStateNum > 0
    ensures Rising(begun + [s.event.value.version])
  {
    hide MainOk, CacheOk, WindowOk, ValidHistory, NodesOk, OrphansOk;
    if begun != [] {
      var last := begun[|begun| - 1];
      assert s.queue != [] && s.queue[|s.queue| - 1] == last;
      assert last in s.disk.roots;
      assert last <= s.committed < s.event.value.version;
    }
  }

  lemma BeginRetains(c: Config, s: State, mayPrune: bool, begun: seq<int>, all: bool)
    requires Inv(c, s) && Enabled(s, CommitBegin(mayPrune)) && c.historyStateNum >= MIN_HISTORY_STATE_NUM
    requires Retains(c, s, begun, all) && (all ==> mayPrune)
    ensures Retains(c, DoCommitBegin(c, s, mayPrune), begun + [s.event.value.version], all)
  {
    hide Inv, Newest, Older, Rising, GetPreviousVersion;
    var v := s.event.value.version;
    BeginsLater(c, s, begun, all);
    NewestMore(begun, v, c.historyStateNum);
    var t := DoCommitBegin(c, s, mayPrune);
    assert t.disk == s.disk && t.prunable == s.prunable && t.prune == s.prune;
    if |s.queue + [v]| > c.historyStateNum { PopRetains(c, s, t, mayPrune, begun, v, all); }
    else { PushRetains(c, s, t, begun, v, all); }
  }

  lemma PushRetains(c: Config, s: State, t: State, begun: seq<int>, v: int, all: bool)
    requires Retains(c, s, begun, all) && Rising(begun + [v]) && Newest(begun + [v], c.historyStateNum) == s.queue + [v]
    requires Older(begun + [v], c.historyStateNum) == Older(begun, c.historyStateNum)
    requires t.queue == s.queue + [v] && t.disk == s.disk && DoomedIn(t) == DoomedIn(s)
    ensures Retains(c, t, begun + [v], all)
  {
    hide Newest, Older, Rising, DoomedIn;
  }

  lemma PopRetains(c: Config, s: State, t: State, mayPrune: bool, begun: seq<int>, v: int, all: bool)
    requires Retains(c, s, begun, all) && Rising(begun + [v]) && (all ==> mayPrune)
    requires var q := s.queue + [v];
             Newest(begun + [v], c.historyStateNum) == q[1..] && Older(begun + [v], c.historyStateNum) == Older(begun, c.historyStateNum) + [q[0]] &&
             t.queue == q[1..] && t.disk == s.disk && DoomedIn(t) == if mayPrune then DoomedIn(s) + {q[0]} else DoomedIn(s)
    ensures Retains(c, t, begun + [v], all)
  {
    hide Newest, Older, Rising, DoomedIn;
    var q := s.queue + [v];
    forall u | u in s.queue ensures u == q[0] || u in q[1..] {
      var i :| 0 <= i < |s.queue| && s.queue[i] == u;
      if i > 0 { assert q[1..][i - 1] == u; }
    }
  }

  lemma WriteRetains(c: Config, s: State, begun: seq<int>, all: bool)
    requires Inv(c, s) && Enabled(s, CommitWrite) && Retains(c, s, begun, all)
    ensures Retains(c, DoCommitWrite(s), begun, all)
  {
    hide MainOk, CacheOk, DiskOk, WindowOk, Rising;
    var v := s.event.value.version;
    assert v == s.queue[|s.queue| - 1] && v in s.queue;
    assert v in begun by { InNewest(begun, c.historyStateNum, v); }
    hide PoolOk, Newest, Older;
    assert DoCommitWrite(s).disk.roots.Keys == s.disk.roots.Keys + {v};
  }

  lemma InNewest(begun: seq<int>, n: nat, v: int)
    requires v in Newest(begun, n)
    ensures v in begun
  {
  }

  lemma PruneRetains(c: Config, s: State, step: Step, begun: seq<int>, all: bool)
    requires Inv(c, s) && Enabled(s, step) && (step.SendPrune? || step.PruneBegin? || step.PruneCollect? || step.PruneWrite?)
    requires Retains(c, s, begun, all)
    ensures Retains(c, Do(c, s, step), begun, all)
  {
    hide MainOk, CacheOk, DiskOk, WindowOk, Rising, Newest, Older;
    var t := Do(c, s, step);
    if step.PruneWrite? {
      var v := s.prune.value.version;
      assert DoomedIn(t) == DoomedIn(s) - {v} && t.disk.roots.Keys == s.disk.roots.Keys - {v};
    } else {
      assert DoomedIn(t) == DoomedIn(s);
    }
  }

  lemma OtherRetains(c: Config, s: State, step: Step, begun: seq<int>, all: bool)
    requires Enabled(s, step) && Retains(c, s, begun, all)
    requires step.UpdateBranch? || step.FeedOrphans? || step.StartPersist? || step.Enqueue? || step.RunTask? || step.CommitDone?
    ensures Retains(c, Do(c, s, step), begun, all)
  {
    hide WorkingOk;
    var t := Do(c, s, step);
    assert t.queue == s.queue && t.removed == s.removed && t.prunable == s.prunable && t.prune == s.prune && t.disk == s.disk;
    hide Do, Enabled;
  }

  lemma StepRetains(c: Config, s: State, step: Step, begun: seq<int>, all: bool)
    requires Inv(c, s) && Enabled(s, step) && c.historyStateNum >= MIN_HISTORY_STATE_NUM
    requires Retains(c, s, begun, all) && (all && step.CommitBegin? ==> step.mayPrune)
    ensures Retains(c, Do(c, s, step), begun + CommitOf(s, step), all)
  {
    hide Inv, Retains;
    assert !step.CommitBegin? ==> begun + CommitOf(s, step) == begun;
    match step
    case CommitBegin(mayPrune) => BeginRetains(c, s, mayPrune, begun, all);
    case CommitWrite => WriteRetains(c, s, begun, all);
    case SendPrune(_) => PruneRetains(c, s, step, begun, all);
    case PruneBegin(_) => PruneRetains(c, s, step, begun, all);
    case PruneCollect => PruneRetains(c, s, step, begun, all);
    case PruneWrite => PruneRetains(c, s, step, begun, all);
    case _ => OtherRetains(c, s, step, begun, all);
  }

  lemma {:induction false} RunRetains(c: Config, s: State, steps: seq<Step>, t: State, begun: seq<int>, all: bool)
    requires Inv(c, s) && Reaches(c, s, steps, t) && c.historyStateNum >= MIN_HISTORY_STATE_NUM
    requires Retains(c, s, begun, all) && (all ==> AlwaysPrunes(steps))
    ensures Retains(c, t, begun + Begun(c, s, steps), all)
    decreases |steps|
  {
    hide Inv, Retains, Enabled, Do;
    if steps == [] {
      assert begun + Begun(c, s, steps) == begun;
    } else {
      StepInv(c, s, steps[0]);
      StepRetains(c, s, steps[0], begun, all);
      var s', more := Do(c, s, steps[0]), CommitOf(s, steps[0]);
      RunRetains(c, s', steps[1..], t, begun + more, all);
      assert (begun + more) + Begun(c, s', steps[1..]) == begun + (more + Begun(c, s', steps[1..]));
    }
  }

  lemma InitRetains(c: Config, all: bool)
    ensures Retains(c, INIT, [], all)
  {
  }

  // ---------- main results ----------

  /**
    In every interleaving the newest historyStateNum checkpoints are on disk, but for one whose batch is just being
    written, and only older ones are ever on their way to be pruned.
   */
  lemma NewestAreKept(c: Config, steps: seq<Step>, s: State)
    requires Reaches(c, INIT, steps, s) && c.historyStateNum >= MIN_HISTORY_STATE_NUM
    ensures var begun := Begun(c, INIT, steps);
            && Rising(begun)
            && (forall v :: v in Newest(begun, c.historyStateNum) ==> v in s.disk.roots || (Building(s.event) && v == s.event.value.version))
            && (forall v :: v in s.disk.roots ==> v in begun)
            && (forall v :: v in DoomedIn(s) ==> v in Older(begun, c.historyStateNum))
  {
    hide Inv, Reaches, Begun, Retains, Rising, Newest, Older;
    InitInv(c);
    RunInv(c, INIT, steps, s);
    InitRetains(c, false);
    RunRetains(c, INIT, steps, s, [], false);
    assert [] + Begun(c, INIT, steps) == Begun(c, INIT, steps);
    QueueIsStored(c, s);
    RetainedParts(c, s, Begun(c, INIT, steps));
  }

  lemma QueueIsStored(c: Config, s: State)
    requires Inv(c, s)
    ensures forall v :: v in s.queue ==> v in s.disk.roots || (Building(s.event) && v == s.event.value.version)
  {
    hide MainOk, CacheOk, DiskOk, WindowOk;
    forall v | v in s.queue ensures v in s.disk.roots || (Building(s.event) && v == s.event.value.version) {
      var i :| 0 <= i < |s.queue| && s.queue[i] == v;
    }
  }

  lemma RetainedParts(c: Config, s: State, begun: seq<int>)
    requires Retains(c, s, begun, false)
    ensures s.queue == Newest(begun, c.historyStateNum) && Rising(begun) && (forall v :: v in s.disk.roots ==> v in begun)
    ensures forall v :: v in DoomedIn(s) ==> v in Older(begun, c.historyStateNum)
  {
    hide Newest, Older, Rising, DoomedIn;
  }

  /** When pruning is never switched off and all prunes are written, the disk holds exactly the newest checkpoints. */
  lemma OnlyTheNewestAreKept(c: Config, steps: seq<Step>, s: State)
    requires Reaches(c, INIT, steps, s) && c.historyStateNum >= MIN_HISTORY_STATE_NUM
    requires AlwaysPrunes(steps) && s.removed == {} && s.prunable == {} && s.prune.None? && !Building(s.event)
    ensures s.disk.roots.Keys == set v | v in Newest(Begun(c, INIT, steps), c.historyStateNum)
  {
    hide Inv, Reaches, Begun, Retains, Rising, Newest, Older, AlwaysPrunes;
    InitInv(c);
    InitRetains(c, true);
    RunRetains(c, INIT, steps, s, [], true);
    assert [] + Begun(c, INIT, steps) == Begun(c, INIT, steps);
    NewestAreKept(c, steps, s);
    assert DoomedIn(s) == {};
    NothingElse(c, s, Begun(c, INIT, steps));
  }

  lemma NothingElse(c: Config, s: State, begun: seq<int>)
    requires Retains(c, s, begun, true) && DoomedIn(s) == {}
    requires forall v :: v in Newest(begun, c.historyStateNum) ==> v in s.disk.roots
    ensures s.disk.roots.Keys == set v | v in Newest(begun, c.historyStateNum)
  {
    hide Newest, Older, Rising, DoomedIn;
    var kept := set v | v in Newest(begun, c.historyStateNum);
    forall v ensures v in s.disk.roots.Keys <==> v in kept { assert v in s.disk.roots.Keys <==> v in s.disk.roots; }
  }

  // ---------- the orphans in memory ----------

  /** Every cached orphan belongs to a block of the window. */
  ghost predicate CacheExact(s: State)
  {
    forall x :: x in s.orphanCache ==> exists v :: v in s.items && x in s.items[v].orphans
  }

  lemma FeedExact(c: Config, s: State, orphans: set<Hash>)
    requires Inv(c, s) && CacheExact(s) && c.itemSize >= 1 && s.h != []
    requires (!s.pc.Idle? && s.pc.orphans == orphans) || (s.task.Some? && s.task.value.orphans == orphans)
    requires |s.h| - 1 in s.items ==> s.items[|s.h| - 1].orphans <= orphans
    ensures CacheExact(SaveNewOrphans(s, |s.h|, orphans))
  {
    hide CacheOk, DiskOk, PoolOk, ValidHistory;
    var n, t := |s.h|, SaveNewOrphans(s, |s.h|, orphans);
    assert orphans == DroppedBy(s.h, n);
    AtZero(s.h);
    hide At;
    if n == 1 { assert orphans == {}; }
    else { assert n - 1 in s.items; }
    forall x | x in t.orphanCache ensures exists v :: v in t.items && x in t.items[v].orphans {
      if x in orphans { assert n - 1 in t.items && x in t.items[n - 1].orphans; }
      else {
        var v :| v in s.items && x in s.items[v].orphans;
        assert v in t.items && x in t.items[v].orphans;
      }
    }
  }

  lemma ExpireExact(c: Config, s: State, version: int)
    requires CacheExact(s)
    ensures CacheExact(RemoveOldOrphans(c, s, version))
  {
    var t, e := RemoveOldOrphans(c, s, version), version - c.itemSize;
    if e in s.items {
      forall x | x in t.orphanCache ensures exists v :: v in t.items && x in t.items[v].orphans {
        var v :| v in s.items && x in s.items[v].orphans;
        assert v != e && v in t.items;
      }
    }
  }

  lemma StepExact(c: Config, s: State, step: Step)
    requires Inv(c, s) && Enabled(s, step) && CacheExact(s) && c.itemSize >= 1
    ensures CacheExact(Do(c, s, step))
  {
    hide SaveNewOrphans, RemoveOldOrphans, WorkingOk;
    match step
    case FeedOrphans =>
      FedBefore(c, s);
      FeedExact(c, s, s.pc.orphans);
    case RunTask =>
      var t := s.task.value;
      FedBefore(c, s);
      if !t.persist { FeedExact(c, s, t.orphans); }
      ExpireExact(c, if t.persist then s else SaveNewOrphans(s, t.version, t.orphans), t.version);
    case Enqueue => EnqueueExact(c, s);
    case _ =>
      hide Inv;
      var t := Do(c, s, step);
      assert t.orphanCache == s.orphanCache && t.items == s.items;
  }

  lemma FedBefore(c: Config, s: State)
    requires Inv(c, s) && (!s.pc.Idle? || s.task.Some?)
    ensures s.h != [] && (|s.h| - 1 in s.items ==> s.items[|s.h| - 1].orphans <= DroppedBy(s.h, |s.h|))
    ensures !s.pc.Idle? ==> s.pc.orphans == DroppedBy(s.h, |s.h|)
    ensures s.task.Some? ==> s.task.value.orphans == DroppedBy(s.h, |s.h|) && s.task.value.version == |s.h|
  {
    hide CacheOk, DiskOk, PoolOk, ValidHistory, At;
  }

  lemma EnqueueExact(c: Config, s: State)
    requires Inv(c, s) && Enabled(s, Enqueue) && CacheExact(s)
    ensures CacheExact(DoEnqueue(s))
  {
    hide CacheOk, DiskOk, PoolOk, ValidHistory, At;
    var t := DoEnqueue(s);
    assert |s.h| !in s.items;
    forall x | x in t.orphanCache ensures exists v :: v in t.items && x in t.items[v].orphans {
      var v :| v in s.items && x in s.items[v].orphans;
      assert v in t.items && t.items[v] == s.items[v];
    }
  }

  lemma {:induction false} RunExact(c: Config, s: State, steps: seq<Step>, t: State)
    requires Inv(c, s) && Reaches(c, s, steps, t) && CacheExact(s) && c.itemSize >= 1 && c.historyStateNum >= MIN_HISTORY_STATE_NUM
    ensures CacheExact(t)
    decreases |steps|
  {
    hide Inv, Enabled, Do, CacheExact;
    if steps != [] {
      StepInv(c, s, steps[0]);
      StepExact(c, s, steps[0]);
      RunExact(c, Do(c, s, steps[0]), steps[1..], t);
    }
  }

  /**
    In every interleaving the newest itemSize blocks are readable from memory, no older block but one is kept for it, and
    the orphan cache holds nothing but what the newest itemSize blocks dropped.
   */
  lemma WindowIsKept(c: Config, steps: seq<Step>, s: State)
    requires Reaches(c, INIT, steps, s) && c.itemSize >= 1 && c.historyStateNum >= MIN_HISTORY_STATE_NUM
    ensures forall v :: 1 <= v <= |s.h| && v > |s.h| - c.itemSize ==> Readable(s, v)
    ensures forall v :: v in s.items ==> |s.h| - 1 - c.itemSize < v <= |s.h|
    ensures forall x :: x in s.orphanCache ==> exists b :: |s.h| - c.itemSize < b <= |s.h| && x in DroppedBy(s.h, b)
  {
    hide Inv, Reaches, CacheExact, Readable;
    InitInv(c);
    RunInv(c, INIT, steps, s);
    assert CacheExact(INIT) by { NothingCached(); }
    RunExact(c, INIT, steps, s);
    WindowParts(c, s);
    DroppedInWindow(c, s);
  }

  lemma NothingCached()
    ensures CacheExact(INIT)
  {
  }

  lemma WindowParts(c: Config, s: State)
    requires Inv(c, s)
    ensures forall v :: 1 <= v <= |s.h| && v > |s.h| - c.itemSize ==> Readable(s, v)
    ensures forall v :: v in s.items ==> |s.h| - 1 - c.itemSize < v <= |s.h|
  {
    hide CacheOk, DiskOk, PoolOk, ValidHistory, At;
  }

  lemma DroppedInWindow(c: Config, s: State)
    requires Inv(c, s) && CacheExact(s)
    ensures forall x :: x in s.orphanCache ==> exists b :: |s.h| - c.itemSize < b <= |s.h| && x in DroppedBy(s.h, b)
  {
    hide CacheOk, DiskOk, PoolOk, ValidHistory, At, DroppedBy;
    forall x | x in s.orphanCache ensures exists b :: |s.h| - c.itemSize < b <= |s.h| && x in DroppedBy(s.h, b) {
      var v :| v in s.items && x in s.items[v].orphans;
      assert v + 1 <= |s.h| && x in DroppedBy(s.h, v + 1);
    }
  }
}
