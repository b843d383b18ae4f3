/**
  Asynchronous commits never block for good: from every reachable state the orphan, commit and
  prune goroutines and the save under way come to an end, and then everything handed over is on disk.
 */
module CommitProgress {
  import opened Options
  import opened Lifetimes
  import opened AsyncCommit

  function PcWork(pc: Pc): nat
  {
    match pc case Idle => 0 case Hashed(persist, _) => if persist then 11 else 2 case Fed(_) => 10 case Started(_) => 2
  }

  function EventWork(event: Option<Event>): nat
  {
    if event.None? then 0 else match event.value.phase case Queued => 7 case Batched(_) => 2 case Written => 1
  }

  function PruneWork(prune: Option<Prune>): nat { if prune.None? then 0 else if prune.value.records.None? then 2 else 1 }

  /** The most steps that can be taken before the next block. */
  function Work(s: State): nat
  {
    PcWork(s.pc) + (if s.task.Some? then 1 else 0) + EventWork(s.event) + 4 * |s.removed| + 3 * |s.prunable| + PruneWork(s.prune)
  }

  lemma AddedSize(s: set<int>, v: int)
    ensures |s + {v}| <= |s| + 1
  {
    if v in s { assert s + {v} == s; }
  }

  lemma FeedEnds(c: Config, s: State)
    requires Enabled(s, FeedOrphans)
    ensures Work(Do(c, s, FeedOrphans)) < Work(s) && Do(c, s, FeedOrphans).h == s.h
  {
  }

  lemma StartEnds(c: Config, s: State)
    requires Enabled(s, StartPersist)
    ensures Work(Do(c, s, StartPersist)) < Work(s) && Do(c, s, StartPersist).h == s.h
  {
  }

  lemma EnqueueEnds(c: Config, s: State)
    requires Enabled(s, Enqueue)
    ensures Work(Do(c, s, Enqueue)) < Work(s) && Do(c, s, Enqueue).h == s.h
  {
  }

  lemma TaskEnds(c: Config, s: State)
    requires Enabled(s, RunTask)
    ensures Work(Do(c, s, RunTask)) < Work(s) && Do(c, s, RunTask).h == s.h
  {
  }

  lemma CommitEnds(c: Config, s: State, step: Step)
    requires Enabled(s, step) && (step.CommitBegin? || step.CommitWrite? || step.CommitDone?)
    ensures Work(Do(c, s, step)) < Work(s) && Do(c, s, step).h == s.h
  {
    hide CommitVersion;
    AddedSize(s.removed, (s.queue + [s.event.value.version])[0]);
  }

  lemma PruneEnds(c: Config, s: State, step: Step)
    requires Enabled(s, step) && (step.SendPrune? || step.PruneBegin? || step.PruneCollect? || step.PruneWrite?)
    ensures Work(Do(c, s, step)) < Work(s) && Do(c, s, step).h == s.h
  {
    if step.SendPrune? { AddedSize(s.prunable, step.v); }
  }

  /** Every step but a new block lowers the work that is left. */
  lemma StepsEnd(c: Config, s: State, step: Step)
    requires Enabled(s, step) && !step.UpdateBranch?
    ensures Work(Do(c, s, step)) < Work(s) && Do(c, s, step).h == s.h
  {
    hide Enabled, Do, Work;
    match step
    case FeedOrphans => FeedEnds(c, s);
    case StartPersist => StartEnds(c, s);
    case Enqueue => EnqueueEnds(c, s);
    case RunTask => TaskEnds(c, s);
    case CommitBegin(_) => CommitEnds(c, s, step);
    case CommitWrite => CommitEnds(c, s, step);
    case CommitDone => CommitEnds(c, s, step);
    case SendPrune(_) => PruneEnds(c, s, step);
    case PruneBegin(_) => PruneEnds(c, s, step);
    case PruneCollect => PruneEnds(c, s, step);
    case PruneWrite => PruneEnds(c, s, step);
  }

  lemma BusyHasBlock(c: Config, s: State)
    requires Inv(c, s)
    ensures s.pc.Idle? || s.h != []
  {
    hide ValidHistory, CacheOk, DiskOk, WindowOk, PoolOk;
  }

  lemma Pick(s: set<int>) returns (v: int)
    requires s != {}
    ensures v in s
  {
    assert exists v :: v in s by { if forall v :: v !in s { assert false; } }
    v :| v in s;
  }

  /** While work is left some such step can be taken. */
  lemma NeverBlocked(c: Config, s: State) returns (step: Step)
    requires Inv(c, s) && Work(s) > 0
    ensures Enabled(s, step) && !step.UpdateBranch?
  {
    hide Inv;
    BusyHasBlock(c, s);
    if s.event.Some? {
      match s.event.value.phase {
        case Queued => step := CommitBegin(true);
        case Batched(_) => step := CommitWrite;
        case Written => step := CommitDone;
      }
    } else if s.task.Some? {
      step := RunTask;
    } else if s.prune.Some? {
      step := if s.prune.value.records.None? then PruneCollect else PruneWrite;
    } else if s.removed != {} {
      var v := Pick(s.removed);
      step := SendPrune(v);
    } else if s.prunable != {} {
      var v := Pick(s.prunable);
      step := PruneBegin(v);
    } else {
      step := match s.pc case Hashed(persist, _) => if persist then FeedOrphans else Enqueue case Fed(_) => StartPersist case _ => Enqueue;
    }
  }

  ghost predicate NoNewBlock(steps: seq<Step>) { forall i :: 0 <= i < |steps| ==> !steps[i].UpdateBranch? }

  /** At rest: nothing under way, everything handed over written, everything doomed gone. */
  ghost predicate AtRest(s: State)
  {
    && s.pc.Idle? && s.task.None? && s.event.None? && s.removed == {} && s.prunable == {} && s.prune.None?
    && s.tpp == map[] && s.committed == s.lastPersist
  }

  lemma NoWorkIsRest(c: Config, s: State)
    requires Inv(c, s) && Work(s) == 0
    ensures AtRest(s)
  {
  }

  lemma {:induction false} Drains(c: Config, s: State) returns (steps: seq<Step>, r: State)
    requires Inv(c, s) && c.historyStateNum >= MIN_HISTORY_STATE_NUM
    ensures Reaches(c, s, steps, r) && NoNewBlock(steps) && AtRest(r) && r.h == s.h && Inv(c, r) && |steps| <= Work(s)
    decreases Work(s)
  {
    hide Inv, Enabled, Do, Work, AtRest;
    if Work(s) == 0 {
      NoWorkIsRest(c, s);
      steps, r := [], s;
    } else {
      var step := NeverBlocked(c, s);
      StepsEnd(c, s, step);
      StepInv(c, s, step);
      var rest;
      rest, r := Drains(c, Do(c, s, step));
      steps := [step] + rest;
      assert steps[0] == step && steps[1..] == rest;
    }
  }

  /** From every reachable state the run can be brought to rest without a new block, and then every checkpoint handed over is on disk. */
  lemma EveryRunComesToRest(c: Config, before: seq<Step>, s: State) returns (steps: seq<Step>, r: State)
    requires Reaches(c, INIT, before, s) && c.historyStateNum >= MIN_HISTORY_STATE_NUM
    ensures Reaches(c, s, steps, r) && NoNewBlock(steps) && |steps| <= Work(s) && AtRest(r) && r.h == s.h
    ensures 0 <= r.lastPersist <= |r.h| && Canonical(r.disk, r.h[..r.lastPersist])
  {
    hide Reaches, AtRest, NoNewBlock, Work, Canonical, At;
    InitInv(c);
    RunInv(c, INIT, before, s);
    steps, r := Drains(c, s);
    RestIsWritten(c, r);
  }

  lemma RestIsWritten(c: Config, r: State)
    requires Inv(c, r) && AtRest(r)
    ensures 0 <= r.lastPersist <= |r.h| && Canonical(r.disk, r.h[..r.lastPersist])
  {
    hide Canonical;
  }
}
