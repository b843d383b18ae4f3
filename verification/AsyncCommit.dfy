/**
  The asynchronous commit pipeline as a state machine over atomic steps. The
  main goroutine saves blocks in memory and, at a checkpoint, hands the nodes of
  its tree to the commit goroutine; another goroutine feeds and expires the
  orphan cache, and a third one prunes old checkpoints. A step is what happens
  under one lock, in one database batch, or between two channel operations.
 */
module AsyncCommit {
  import opened Options
  import opened AvlTree
  import opened MerkleHash
  import opened Lifetimes

  /** Sizes of the orphan window and of the pool of committed checkpoints (minHistoryStateNum is 30). */
  datatype Config = Config(itemSize: nat, historyStateNum: nat)

  const MIN_HISTORY_STATE_NUM := 30

  /** Where SaveVersionAsync stands; `orphans` are those of the block being saved. */
  datatype Pc =
    | Idle
    | Hashed(persist: bool, orphans: set<Hash>)  // new nodes are in the pre-persist cache
    | Fed(orphans: set<Hash>)                    // checkpoint: orphans moved to the orphan cache
    | Started(orphans: set<Hash>)                // checkpoint: nodes handed over

  datatype Phase = Queued | Batched(to: int) | Written

  /** A commit event with its progress in the commit goroutine. */
  datatype Event = Event(version: int, root: Option<Hash>, nodes: set<Hash>, dead: set<Hash>, phase: Phase)

  datatype Item = Item(root: Option<Hash>, orphans: set<Hash>)

  datatype Task = Task(version: int, orphans: set<Hash>, persist: bool)

  /** A prune that has read the previous version, and then the orphan records, but is not yet written. */
  datatype Prune = Prune(version: int, previous: int, records: Option<set<Orphan>>)

  datatype State = State(
    h: History,                  // the trees saved so far, one per block
    pc: Pc,
    ppnc: set<Hash>,             // prePersistNodeCache
    tpp: map<int, set<Hash>>,    // nodes in flight, by checkpoint
    persisted: set<Hash>,        // nodes with the persisted flag
    commitOrphans: set<Hash>,    // persisted nodes orphaned since the last checkpoint
    lastPersist: int,            // last checkpoint handed over
    event: Option<Event>,
    items: map<int, Item>,       // orphanItemMap
    orphanCache: set<Hash>,
    task: Option<Task>,
    queue: seq<int>,             // committedHeightQueue
    removed: set<int>,           // removedVersions
    prunable: set<int>,          // sent to the prune goroutine
    prune: Option<Prune>,
    disk: Db,
    committed: int)              // last checkpoint on disk

  const INIT := State([], Idle, {}, map[], {}, {}, 0, None, map[], {}, None, [], {}, {}, None, EMPTY, 0)

  datatype Step =
    | UpdateBranch(root: Option<Node>, orphans: set<Hash>, persist: bool)
    | FeedOrphans
    | StartPersist
    | Enqueue
    | RunTask
    | CommitBegin(mayPrune: bool)
    | CommitWrite
    | CommitDone
    | SendPrune(v: int)
    | PruneBegin(v: int)
    | PruneCollect
    | PruneWrite

  // ---------- steps of the main goroutine ----------

  /** saveNewOrphans: into the orphan cache and out of the pre-persist cache. */
  function SaveNewOrphans(s: State, version: int, orphans: set<Hash>): State
  {
    s.(items := if version - 1 in s.items then s.items[version - 1 := s.items[version - 1].(orphans := orphans)] else s.items,
       orphanCache := s.orphanCache + orphans,
       ppnc := s.ppnc - orphans)
  }

  /** Hashes the working tree and puts its new nodes in the pre-persist cache. */
  function DoUpdateBranch(s: State, root: Option<Node>, orphans: set<Hash>, persist: bool): State
  {
    var v := |s.h| + 1;
    s.(h := s.h + [root],
       pc := Hashed(persist, orphans),
       ppnc := s.ppnc + (set x | x in HashesOf(root) && x.version == v),
       commitOrphans := s.commitOrphans + orphans * s.persisted)
  }

  /** asyncPersistTppStart, unless the tree is empty, and the commit event. */
  function DoStartPersist(s: State): State
    requires s.pc.Fed? && s.h != []
  {
    var v := |s.h|;
    var root := RootHash(s.h[v - 1]);
    var nodes := if root.Some? then s.ppnc else {};
    s.(pc := Started(s.pc.orphans),
       ppnc := if root.Some? then {} else s.ppnc,
       tpp := if root.Some? then s.tpp[v := s.ppnc] else s.tpp,
       persisted := s.persisted + nodes,
       commitOrphans := {},
       lastPersist := v,
       event := Some(Event(v, root, nodes, s.commitOrphans, Queued)))
  }

  function DoEnqueue(s: State): State
    requires !s.pc.Idle? && s.h != []
  {
    var v := |s.h|;
    s.(pc := Idle,
       items := s.items[v := Item(RootHash(s.h[v - 1]), {})],
       task := Some(Task(v, s.pc.orphans, s.pc.Started?)))
  }

  // ---------- the orphan goroutine ----------

  function RemoveOldOrphans(c: Config, s: State, version: int): State
  {
    var e := version - c.itemSize;
    if e in s.items then s.(orphanCache := s.orphanCache - s.items[e].orphans, items := s.items - {e}) else s
  }

  function DoRunTask(c: Config, s: State): State
    requires s.task.Some?
  {
    var t := s.task.value;
    var s1 := if t.persist then s else SaveNewOrphans(s, t.version, t.orphans);
    RemoveOldOrphans(c, s1, t.version).(task := None)
  }

  // ---------- the commit goroutine ----------

  /** saveCommitOrphans into the batch, and updateCommittedStateHeightPool. */
  function DoCommitBegin(c: Config, s: State, mayPrune: bool): State
    requires s.event.Some?
  {
    var e := s.event.value;
    var q := s.queue + [e.version];
    var full := |q| > c.historyStateNum;
    s.(event := Some(e.(phase := Batched(GetPreviousVersion(s.disk, e.version)))),
       queue := if full then q[1..] else q,
       removed := if full && mayPrune then s.removed + {q[0]} else s.removed)
  }

  function DoCommitWrite(s: State): State
    requires s.event.Some? && s.event.value.phase.Batched?
  {
    var e := s.event.value;
    s.(event := Some(e.(phase := Written)),
       disk := CommitVersion(s.disk, e.version, e.root, e.nodes, e.dead, e.phase.to),
       committed := e.version)
  }

  function DoCommitDone(s: State): State
    requires s.event.Some?
  {
    s.(tpp := s.tpp - {s.event.value.version}, event := None)
  }

  // ---------- the prune goroutine ----------

  function DoPruneBegin(s: State, v: int): State
  {
    s.(prunable := s.prunable - {v},
       prune := Some(Prune(v, GetPreviousVersion(s.disk, v), None)))
  }

  /** The records that end at the version, read from the disk as it is by now. */
  function DoPruneCollect(s: State): State
    requires s.prune.Some?
  {
    var p := s.prune.value;
    s.(prune := Some(p.(records := Some(set r | r in s.disk.orphans && r.to == p.version))))
  }

  function DoPruneWrite(s: State): State
    requires s.prune.Some? && s.prune.value.records.Some?
  {
    var p := s.prune.value;
    var records := p.records.value;
    s.(prune := None,
       disk := Db(s.disk.roots - {p.version},
                  s.disk.nodes - (set r | r in records && Dies(p.previous, r) :: r.hash),
                  (s.disk.orphans - records) +
                  (set r | r in records && !Dies(p.previous, r) :: Orphan(p.previous, r.from, r.hash))))
  }

  // ---------- which steps can be taken, and runs ----------

  ghost predicate Enabled(s: State, step: Step)
  {
    match step
    case UpdateBranch(root, orphans, _) => s.pc.Idle? && s.task.None? && WorkingOk(s.h, root, orphans)
    case FeedOrphans => s.pc.Hashed? && s.pc.persist
    case StartPersist => s.pc.Fed? && s.h != [] && s.event.None?
    case Enqueue => ((s.pc.Hashed? && !s.pc.persist) || s.pc.Started?) && s.h != []
    case RunTask => s.task.Some?
    case CommitBegin(_) => s.event.Some? && s.event.value.phase.Queued?
    case CommitWrite => s.event.Some? && s.event.value.phase.Batched?
    case CommitDone => s.event.Some? && s.event.value.phase.Written?
    case SendPrune(v) => v in s.removed
    case PruneBegin(v) => v in s.prunable && s.prune.None?
    case PruneCollect => s.prune.Some? && s.prune.value.records.None?
    case PruneWrite => s.prune.Some? && s.prune.value.records.Some?
  }

  ghost function Do(c: Config, s: State, step: Step): State
    requires Enabled(s, step)
  {
    match step
    case UpdateBranch(root, orphans, persist) => DoUpdateBranch(s, root, orphans, persist)
    case FeedOrphans => SaveNewOrphans(s, |s.h|, s.pc.orphans).(pc := Fed(s.pc.orphans))
    case StartPersist => DoStartPersist(s)
    case Enqueue => DoEnqueue(s)
    case RunTask => DoRunTask(c, s)
    case CommitBegin(mayPrune) => DoCommitBegin(c, s, mayPrune)
    case CommitWrite => DoCommitWrite(s)
    case CommitDone => DoCommitDone(s)
    case SendPrune(v) => s.(removed := s.removed - {v}, prunable := s.prunable + {v})
    case PruneBegin(v) => DoPruneBegin(s, v)
    case PruneCollect => DoPruneCollect(s)
    case PruneWrite => DoPruneWrite(s)
  }

  ghost predicate Reaches(c: Config, s: State, steps: seq<Step>, r: State)
    decreases |steps|
  {
    if steps == [] then r == s
    else Enabled(s, steps[0]) && Reaches(c, Do(c, s, steps[0]), steps[1..], r)
  }

  // ---------- the invariant ----------

  /** Orphans of the newest block have not yet left the pre-persist cache. */
  predicate Unfed(pc: Pc, task: Option<Task>)
  {
    pc.Hashed? || (task.Some? && !task.value.persist)
  }

  /** The nodes that block b dropped from the tree before it. */
  function DroppedBy(h: History, b: int): set<Hash> { At(h, b - 1) - At(h, b) }

  ghost predicate MainOk(h: History, pc: Pc, task: Option<Task>, lastPersist: int)
  {
    var n := |h|;
    && ValidHistory(h)
    && 0 <= lastPersist <= n
    && (!pc.Idle? ==> n >= 1 && task.None? && pc.orphans == DroppedBy(h, n))
    && (pc.Started? ==> lastPersist == n)
    && (pc.Hashed? || pc.Fed? ==> lastPersist < n)
    && (task.Some? ==> n >= 1 && task.value.version == n && task.value.orphans == DroppedBy(h, n))
    && (task.Some? && !task.value.persist ==> lastPersist < n)
  }

  /** The pre-persist cache holds exactly what was not handed over, and the flags agree. */
  ghost predicate CacheOk(h: History, unfed: bool, ppnc: set<Hash>, persisted: set<Hash>, commitOrphans: set<Hash>, lastPersist: int)
  {
    var n := |h|;
    && (forall x :: x in ppnc <==> (x in At(h, n) || (unfed && x in At(h, n - 1))) && x.version > lastPersist)
    && (forall x :: x in persisted ==> x.version <= lastPersist)
    && (forall x :: x in At(h, n) && x.version <= lastPersist ==> x in persisted)
    && commitOrphans == At(h, lastPersist) - At(h, n)
  }

  /** The disk is the canonical database of the last committed checkpoint; one commit may be under way. */
  ghost predicate DiskOk(h: History, event: Option<Event>, tpp: map<int, set<Hash>>, disk: Db, committed: int, lastPersist: int)
  {
    && 0 <= committed <= lastPersist <= |h|
    && Canonical(disk, h[..committed])
    && (event.None? ==> committed == lastPersist && tpp == map[])
    && (event.Some? ==>
          var e := event.value;
          && e.version == lastPersist
          && 1 <= lastPersist
          && e.root == RootHash(h[lastPersist - 1])
          && tpp == (if e.root.Some? then map[lastPersist := e.nodes] else map[])
          && (e.phase.Written? ==> committed == lastPersist)
          && (!e.phase.Written? ==>
                && committed < lastPersist
                && e.nodes == NewSince(h, committed, lastPersist)
                && e.dead == At(h, committed) - At(h, lastPersist))
          && (e.phase.Batched? ==> e.phase.to == committed))
  }

  /** The last block whose orphan task has run. */
  function TasksDone(h: History, pc: Pc, task: Option<Task>): int
  {
    if task.Some? || !pc.Idle? then |h| - 1 else |h|
  }

  /** The window holds the newest blocks, and the cache all that they have lost since. */
  ghost predicate WindowOk(c: Config, h: History, pc: Pc, task: Option<Task>, items: map<int, Item>, orphanCache: set<Hash>)
  {
    var n := |h|;
    var top := if pc.Idle? then n else n - 1;
    && (forall v :: v in items <==> 1 <= v <= top && v > TasksDone(h, pc, task) - c.itemSize)
    && (forall v :: v in items ==> 1 <= v <= n && items[v].root == RootHash(h[v - 1]))
    && (forall v :: v in items ==>
          items[v].orphans == if v + 1 < n || (v + 1 == n && !Unfed(pc, task)) then DroppedBy(h, v + 1) else {})
    && (forall v :: v in items ==> items[v].orphans <= orphanCache)
    && (pc.Fed? || pc.Started? ==> DroppedBy(h, n) <= orphanCache)
  }

  predicate Building(event: Option<Event>) { event.Some? && event.value.phase.Batched? }

  /** Versions to be pruned are old committed checkpoints that the pool has let go. */
  ghost predicate PoolOk(queue: seq<int>, removed: set<int>, prunable: set<int>, prune: Option<Prune>,
                         event: Option<Event>, disk: Db, committed: int)
  {
    var extra := if Building(event) then 1 else 0;
    && (forall i, j :: 0 <= i < j < |queue| ==> queue[i] < queue[j])
    && |queue| >= extra
    && (Building(event) ==> queue[|queue| - 1] == event.value.version)
    && (forall i :: 0 <= i < |queue| - extra ==> queue[i] in disk.roots)
    && (committed >= 1 ==> |queue| - extra >= 1 && queue[|queue| - extra - 1] == committed)
    && (committed == 0 ==> |queue| == extra)
    && (forall v :: v in Doomed(removed, prunable, prune) ==> v in disk.roots && v < committed && v !in queue)
    && removed !! prunable
    && (prune.Some? ==> prune.value.version !in removed && prune.value.version !in prunable)
    && (prune.Some? ==>
          && prune.value.previous == GetPreviousVersion(disk, prune.value.version)
          && (prune.value.records.Some? ==> prune.value.records.value == set r | r in disk.orphans && r.to == prune.value.version))
  }

  function Doomed(removed: set<int>, prunable: set<int>, prune: Option<Prune>): set<int>
  {
    removed + prunable + (if prune.Some? then {prune.value.version} else {})
  }

  ghost predicate Inv(c: Config, s: State)
  {
    && MainOk(s.h, s.pc, s.task, s.lastPersist)
    && CacheOk(s.h, Unfed(s.pc, s.task), s.ppnc, s.persisted, s.commitOrphans, s.lastPersist)
    && DiskOk(s.h, s.event, s.tpp, s.disk, s.committed, s.lastPersist)
    && WindowOk(c, s.h, s.pc, s.task, s.items, s.orphanCache)
    && PoolOk(s.queue, s.removed, s.prunable, s.prune, s.event, s.disk, s.committed)
  }

  // ---------- every reachable version can be read ----------

  predicate Readable(s: State, v: int)
  {
    v == |s.h| || (!s.pc.Idle? && v == |s.h| - 1) || v in s.items || v in s.disk.roots ||
    (s.event.Some? && v == s.event.value.version)
  }

  /** getNodeFromMemory and getNodeFromDisk, without the node cache. */
  predicate Found(s: State, x: Hash)
  {
    x in s.ppnc || (exists v :: v in s.tpp && x in s.tpp[v]) || x in s.orphanCache || x in s.disk.nodes
  }

  lemma AtZero(h: History)
    ensures At(h, 0) == {}
  {}

  /** Nodes that are gone from a block do not come back. */
  lemma {:induction false} DroppedOnce(h: History, x: Hash, w: int, n: int) returns (b: int)
    requires ValidHistory(h) && x in At(h, w) && x !in At(h, n) && w <= n
    ensures w < b <= n && x in DroppedBy(h, b)
    decreases n - w
  {
    hide At, ValidHistory;
    if x in At(h, w + 1) { b := DroppedOnce(h, x, w + 1, n); } else { b := w + 1; }
  }

  lemma InSomeTree(h: History, v: int, x: Hash)
    requires x in At(h, v)
    ensures 1 <= v <= |h| && h[v - 1].Some?
  {}

  lemma OnDisk(db: Db, h: History, l: int, v: int, x: Hash)
    requires ValidHistory(h) && 0 <= l <= |h| && Canonical(db, h[..l]) && v in db.roots && x in At(h, v)
    ensures x in db.nodes
  {
    HistoryTruncated(h, l);
    hide At, ValidHistory, OrphansOk;
    assert x in At(h[..l], v);
  }

  /** A node of the last checkpoint that was handed over is in flight or on disk. */
  lemma HandedOver(s: State, x: Hash)
    requires DiskOk(s.h, s.event, s.tpp, s.disk, s.committed, s.lastPersist)
    requires ValidHistory(s.h) && x in At(s.h, s.lastPersist)
    ensures Found(s, x)
  {
    hide At, ValidHistory, NodesOk, OrphansOk;
    InSomeTree(s.h, s.lastPersist, x);
    if s.event.Some? && !s.event.value.phase.Written? && x.version > s.committed {
      assert x in s.event.value.nodes;
      assert s.event.value.version in s.tpp && x in s.tpp[s.event.value.version];
    } else {
      if s.committed < s.lastPersist { LastCommitted(s.h, s.committed, s.lastPersist, x); }
      assert s.committed in s.disk.roots;
      OnDisk(s.disk, s.h, s.committed, s.committed, x);
    }
  }

  /** A node of the newest tree, or one that its block has dropped but not yet fed to the orphan cache. */
  lemma NewestFound(c: Config, s: State, x: Hash)
    requires Inv(c, s)
    requires x in At(s.h, |s.h|) || (Unfed(s.pc, s.task) && x in At(s.h, |s.h| - 1))
    ensures Found(s, x)
  {
    hide At, DiskOk, ValidHistory, WindowOk, PoolOk;
    if x.version <= s.lastPersist {
      AliveSinceCreation(s.h, x, s.lastPersist, if x in At(s.h, |s.h|) then |s.h| else |s.h| - 1);
      HandedOver(s, x);
    }
  }

  lemma WindowFound(c: Config, s: State, v: int, x: Hash)
    requires Inv(c, s) && (v in s.items || (!s.pc.Idle? && v == |s.h| - 1)) && x in At(s.h, v)
    ensures Found(s, x)
  {
    hide At, DiskOk, CacheOk, PoolOk, ValidHistory;
    if x in At(s.h, |s.h|) { NewestFound(c, s, x); }
    else {
      var b := DroppedOnce(s.h, x, v, |s.h|);
      if b == |s.h| && Unfed(s.pc, s.task) { NewestFound(c, s, x); }
      else if v in s.items {
        assert b - 1 in s.items;
        assert x in s.items[b - 1].orphans;
      }
    }
  }

  /**
    In every state the invariant allows, each node of the newest tree, of a block
    in the orphan window, of a checkpoint on disk and of one being committed is
    found in the pre-persist cache, in flight, in the orphan cache or on disk.
   */
  lemma EveryReadableNodeIsFound(c: Config, s: State, v: int, x: Hash)
    requires Inv(c, s) && Readable(s, v) && x in At(s.h, v)
    ensures Found(s, x)
  {
    hide At, CacheOk, PoolOk, WindowOk, ValidHistory;
    if v == |s.h| { NewestFound(c, s, x); }
    else if v in s.items || (!s.pc.Idle? && v == |s.h| - 1) { WindowFound(c, s, v, x); }
    else if v in s.disk.roots { OnDisk(s.disk, s.h, s.committed, v, x); }
    else { HandedOver(s, x); }
  }

  /** A checkpoint hands over exactly the nodes of its root that were not persisted. */
  lemma CheckpointMovesTheUnpersisted(c: Config, s: State)
    requires Inv(c, s) && Enabled(s, StartPersist)
    ensures var e := Do(c, s, StartPersist).event.value;
            forall x :: x in e.nodes <==> x in At(s.h, |s.h|) && x !in s.persisted
  {
    hide DiskOk, WindowOk, PoolOk, ValidHistory;
    if s.h[|s.h| - 1].None? { assert At(s.h, |s.h|) == {}; }
    hide At;
  }

  // ---------- every step keeps the invariant ----------

  lemma InitInv(c: Config)
    ensures Inv(c, INIT)
  {
    AtZero([]);
    assert INIT.h[..0] == INIT.h;
  }

  lemma UpdateBranchCache(h: History, root: Option<Node>, orphans: set<Hash>,
                          ppnc: set<Hash>, persisted: set<Hash>, commitOrphans: set<Hash>, lastPersist: int)
    requires ValidHistory(h) && 0 <= lastPersist <= |h| && WorkingOk(h, root, orphans)
    requires CacheOk(h, false, ppnc, persisted, commitOrphans, lastPersist)
    ensures CacheOk(h + [root], true, ppnc + (set x | x in HashesOf(root) && x.version == |h| + 1), persisted,
                    commitOrphans + orphans * persisted, lastPersist)
  {
    AtGrows(h, root, lastPersist);
    AtGrows(h, root, |h|);
    NewTreeVersions(h, root, orphans);
    hide WorkingOk, ValidHistory, At, HashesOf;
    forall x ensures x in commitOrphans + orphans * persisted <==> x in At(h, lastPersist) - HashesOf(root) {
      UpdateBranchDead(h, root, orphans, persisted, commitOrphans, lastPersist, x);
    }
    NewNodesCached(At(h, |h|), HashesOf(root), ppnc, |h|, lastPersist);
  }

  lemma NewNodesCached(old_: set<Hash>, new_: set<Hash>, ppnc: set<Hash>, n: int, lastPersist: int)
    requires lastPersist <= n && forall x :: x in ppnc <==> x in old_ && x.version > lastPersist
    requires forall x :: x in new_ ==> x.version <= n + 1 && (x.version <= n ==> x in old_)
    ensures forall x :: x in ppnc + (set y | y in new_ && y.version == n + 1) <==> (x in new_ || x in old_) && x.version > lastPersist
  {
  }

  lemma AtGrows(h: History, root: Option<Node>, u: int)
    requires 0 <= u <= |h|
    ensures At(h + [root], u) == At(h, u) && At(h + [root], |h| + 1) == HashesOf(root)
  {
  }

  /** The new tree holds new nodes and nodes of the tree before it. */
  lemma NewTreeVersions(h: History, root: Option<Node>, orphans: set<Hash>)
    requires WorkingOk(h, root, orphans)
    ensures forall x :: x in HashesOf(root) ==> x.version <= |h| + 1 && (x.version <= |h| ==> x in At(h, |h|))
  {
  }

  lemma UpdateBranchDead(h: History, root: Option<Node>, orphans: set<Hash>,
                         persisted: set<Hash>, commitOrphans: set<Hash>, lastPersist: int, x: Hash)
    requires ValidHistory(h) && 0 <= lastPersist <= |h| && WorkingOk(h, root, orphans)
    requires x in persisted ==> x.version <= lastPersist
    requires x in At(h, |h|) && x.version <= lastPersist ==> x in persisted
    requires commitOrphans == At(h, lastPersist) - At(h, |h|)
    ensures x in commitOrphans + orphans * persisted <==> x in At(h, lastPersist) - HashesOf(root)
  {
    hide At, HashesOf, WellFormed;
    if x in At(h, lastPersist) { assert x.version <= lastPersist; }
    if x in orphans && x in persisted { AliveSinceCreation(h, x, lastPersist, |h|); }
  }

  lemma UpdateBranchWindow(c: Config, h: History, root: Option<Node>, orphans: set<Hash>, persist: bool,
                           items: map<int, Item>, orphanCache: set<Hash>)
    requires ValidHistory(h) && WorkingOk(h, root, orphans)
    requires WindowOk(c, h, Idle, None, items, orphanCache)
    ensures WindowOk(c, h + [root], Hashed(persist, orphans), None, items, orphanCache)
  {
    HistoryGrows(h, root, orphans);
    hide At, HashesOf, WellFormed, ValidHistory;
  }

  lemma UpdateBranchDisk(h: History, root: Option<Node>, orphans: set<Hash>,
                         event: Option<Event>, tpp: map<int, set<Hash>>, disk: Db, committed: int, lastPersist: int)
    requires ValidHistory(h) && WorkingOk(h, root, orphans)
    requires DiskOk(h, event, tpp, disk, committed, lastPersist)
    ensures DiskOk(h + [root], event, tpp, disk, committed, lastPersist)
  {
    HistoryGrows(h, root, orphans);
    assert (h + [root])[..committed] == h[..committed];
    hide At, HashesOf, WellFormed, ValidHistory, Canonical;
    if event.Some? && !event.value.phase.Written? {
      assert NewSince(h + [root], committed, lastPersist) == NewSince(h, committed, lastPersist);
    }
  }

  lemma UpdateBranchInv(c: Config, s: State, root: Option<Node>, orphans: set<Hash>, persist: bool)
    requires Inv(c, s) && Enabled(s, UpdateBranch(root, orphans, persist))
    ensures Inv(c, DoUpdateBranch(s, root, orphans, persist))
  {
    hide At, ValidHistory, Canonical, CacheOk, DiskOk, WindowOk, PoolOk, WorkingOk;
    UpdateBranchCache(s.h, root, orphans, s.ppnc, s.persisted, s.commitOrphans, s.lastPersist);
    UpdateBranchWindow(c, s.h, root, orphans, persist, s.items, s.orphanCache);
    UpdateBranchDisk(s.h, root, orphans, s.event, s.tpp, s.disk, s.committed, s.lastPersist);
    UpdateBranchMain(s, root, orphans, persist);
  }

  lemma UpdateBranchMain(s: State, root: Option<Node>, orphans: set<Hash>, persist: bool)
    requires MainOk(s.h, Idle, None, s.lastPersist) && WorkingOk(s.h, root, orphans)
    ensures MainOk(s.h + [root], Hashed(persist, orphans), None, s.lastPersist)
  {
    hide DroppedBy, WorkingOk, ValidHistory;
    DropsOrphans(s.h, root, orphans);
  }

  lemma DropsOrphans(h: History, root: Option<Node>, orphans: set<Hash>)
    requires ValidHistory(h) && WorkingOk(h, root, orphans)
    ensures ValidHistory(h + [root]) && DroppedBy(h + [root], |h| + 1) == orphans
  {
    HistoryGrows(h, root, orphans);
    hide At, HashesOf, WellFormed, ValidHistory;
  }

  /** Moving the newest block's orphans from the pre-persist cache to the orphan cache. */
  lemma Feeding(c: Config, s: State, pc: Pc, task: Option<Task>)
    requires MainOk(s.h, s.pc, s.task, s.lastPersist) && Unfed(s.pc, s.task) && !Unfed(pc, task)
    requires s.pc.Idle? == pc.Idle? && s.task.Some? == task.Some?
    requires CacheOk(s.h, true, s.ppnc, s.persisted, s.commitOrphans, s.lastPersist)
    requires WindowOk(c, s.h, s.pc, s.task, s.items, s.orphanCache)
    ensures var s' := SaveNewOrphans(s, |s.h|, DroppedBy(s.h, |s.h|));
            CacheOk(s.h, false, s'.ppnc, s.persisted, s.commitOrphans, s.lastPersist) &&
            WindowOk(c, s.h, pc, task, s'.items, s'.orphanCache)
  {
    hide At, ValidHistory;
  }

  lemma FeedOrphansInv(c: Config, s: State)
    requires Inv(c, s) && Enabled(s, FeedOrphans)
    ensures Inv(c, Do(c, s, FeedOrphans))
  {
    hide At, ValidHistory, CacheOk, DiskOk, WindowOk, PoolOk;
    Feeding(c, s, Fed(s.pc.orphans), s.task);
  }

  lemma StartPersistInv(c: Config, s: State)
    requires Inv(c, s) && Enabled(s, StartPersist)
    ensures Inv(c, Do(c, s, StartPersist))
  {
    hide At, ValidHistory, CacheOk, DiskOk, WindowOk, PoolOk;
    StartPersistCache(c, s);
    StartPersistDisk(c, s);
    StartPersistPool(s);
    StartPersistWindow(c, s);
  }

  lemma StartPersistWindow(c: Config, s: State)
    requires s.pc.Fed? && WindowOk(c, s.h, s.pc, s.task, s.items, s.orphanCache)
    ensures WindowOk(c, s.h, Started(s.pc.orphans), s.task, s.items, s.orphanCache)
  {
    hide At;
  }

  lemma StartPersistCache(c: Config, s: State)
    requires Inv(c, s) && Enabled(s, StartPersist)
    ensures var s' := DoStartPersist(s);
            CacheOk(s'.h, false, s'.ppnc, s'.persisted, s'.commitOrphans, s'.lastPersist)
  {
    hide At, DiskOk, WindowOk, PoolOk, ValidHistory, CacheOk;
    HandOver(s.h, s.ppnc, s.persisted, s.commitOrphans, s.lastPersist);
    AllHandedOver(s.h, s.ppnc, s.persisted, s.commitOrphans, s.lastPersist);
  }

  lemma AllHandedOver(h: History, ppnc: set<Hash>, persisted: set<Hash>, commitOrphans: set<Hash>, lastPersist: int)
    requires CacheOk(h, false, ppnc, persisted, commitOrphans, lastPersist) && ValidHistory(h) && lastPersist <= |h|
    ensures CacheOk(h, false, {}, persisted + ppnc, {}, |h|)
  {
    assert forall x :: x in At(h, |h|) ==> x.version <= |h|;
    hide At, ValidHistory;
  }

  lemma StartPersistDisk(c: Config, s: State)
    requires Inv(c, s) && Enabled(s, StartPersist)
    ensures var s' := DoStartPersist(s);
            DiskOk(s'.h, s'.event, s'.tpp, s'.disk, s'.committed, s'.lastPersist)
  {
    hide At, Canonical, WindowOk, PoolOk, ValidHistory, CacheOk;
    HandOver(s.h, s.ppnc, s.persisted, s.commitOrphans, s.lastPersist);
    hide NewSince;
  }

  lemma HandOver(h: History, ppnc: set<Hash>, persisted: set<Hash>, commitOrphans: set<Hash>, lastPersist: int)
    requires CacheOk(h, false, ppnc, persisted, commitOrphans, lastPersist) && h != []
    ensures ppnc == NewSince(h, lastPersist, |h|)
    ensures h[|h| - 1].None? ==> ppnc == {}
    ensures commitOrphans == At(h, lastPersist) - At(h, |h|)
  {
    if h[|h| - 1].None? { assert At(h, |h|) == {}; }
    hide At;
  }

  lemma StartPersistPool(s: State)
    requires s.pc.Fed? && s.h != [] && s.event.None?
    requires PoolOk(s.queue, s.removed, s.prunable, s.prune, s.event, s.disk, s.committed)
    ensures PoolOk(s.queue, s.removed, s.prunable, s.prune, DoStartPersist(s).event, s.disk, s.committed)
  {}

  lemma EnqueueInv(c: Config, s: State)
    requires Inv(c, s) && Enabled(s, Enqueue)
    ensures Inv(c, Do(c, s, Enqueue))
  {
    hide At, ValidHistory, CacheOk, DiskOk, PoolOk;
  }

  /** Expiring the oldest block of the window takes nothing that a younger block needs. */
  lemma Expiring(c: Config, s: State)
    requires ValidHistory(s.h) && s.pc.Idle? && s.task.Some? && s.h != []
    requires WindowOk(c, s.h, Idle, Some(s.task.value.(persist := true)), s.items, s.orphanCache)
    ensures var s' := RemoveOldOrphans(c, s, |s.h|);
            WindowOk(c, s.h, Idle, None, s'.items, s'.orphanCache)
  {
    var n := |s.h|;
    var e := n - c.itemSize;
    var s' := RemoveOldOrphans(c, s, n);
    hide At, ValidHistory, DroppedBy;
    forall v | v in s'.items ensures s'.items[v].orphans <= s'.orphanCache {
      if e in s.items { KeptOrphans(s.h, s.items, e, v); }
    }
  }

  /** What another block of the window has lost, the expiring block has not lost. */
  lemma KeptOrphans(h: History, items: map<int, Item>, e: int, v: int)
    requires ValidHistory(h) && e in items && v in items && 1 <= e < v
    requires items[e].orphans <= DroppedBy(h, e + 1) && items[v].orphans <= DroppedBy(h, v + 1)
    ensures items[e].orphans !! items[v].orphans
  {
    hide At, ValidHistory;
    forall x | x in items[e].orphans && x in items[v].orphans ensures false { DroppedTwice(h, x, e + 1, v + 1); }
  }

  lemma DroppedTwice(h: History, x: Hash, a: int, b: int)
    requires ValidHistory(h) && x in DroppedBy(h, a) && a < b
    ensures x !in DroppedBy(h, b)
  {
    hide At;
    if x in At(h, b - 1) {
      assert x.version <= a - 1;
      AliveSinceCreation(h, x, a, b - 1);
    }
  }

  lemma RunTaskInv(c: Config, s: State)
    requires Inv(c, s) && Enabled(s, RunTask)
    ensures Inv(c, Do(c, s, RunTask))
  {
    hide At, ValidHistory, CacheOk, DiskOk, WindowOk, PoolOk;
    var t := s.task.value;
    var done := Some(t.(persist := true));
    var s1 := if t.persist then s else SaveNewOrphans(s, t.version, t.orphans);
    if !t.persist { Feeding(c, s, Idle, done); }
    Expiring(c, s1);
  }

  lemma CommitBeginInv(c: Config, s: State, mayPrune: bool)
    requires Inv(c, s) && Enabled(s, CommitBegin(mayPrune)) && c.historyStateNum >= MIN_HISTORY_STATE_NUM
    ensures Inv(c, Do(c, s, CommitBegin(mayPrune)))
  {
    hide At, ValidHistory, CacheOk, WindowOk, PoolOk, Canonical;
    PreviousIsCommitted(s);
    CommitBeginPool(c, s, mayPrune);
  }

  lemma PreviousIsCommitted(s: State)
    requires DiskOk(s.h, s.event, s.tpp, s.disk, s.committed, s.lastPersist) && s.committed < s.lastPersist
    ensures GetPreviousVersion(s.disk, s.lastPersist) == s.committed
    ensures forall v :: v in s.disk.roots ==> 1 <= v <= s.committed
  {
    hide NodesOk, OrphansOk, ValidHistory;
  }

  lemma CommitBeginPool(c: Config, s: State, mayPrune: bool)
    requires s.event.Some? && s.event.value.phase.Queued? && c.historyStateNum >= MIN_HISTORY_STATE_NUM
    requires 0 <= s.committed < s.event.value.version && forall v :: v in s.disk.roots ==> v <= s.committed
    requires PoolOk(s.queue, s.removed, s.prunable, s.prune, s.event, s.disk, s.committed)
    ensures var s' := DoCommitBegin(c, s, mayPrune);
            PoolOk(s'.queue, s'.removed, s'.prunable, s'.prune, s'.event, s'.disk, s'.committed)
  {
    var s1 := s.(event := DoCommitBegin(c, s, mayPrune).event, queue := s.queue + [s.event.value.version]);
    PushCheckpoint(s, s1.event);
    if |s1.queue| > c.historyStateNum { PopCheckpoint(s1, mayPrune); }
  }

  lemma PushCheckpoint(s: State, event: Option<Event>)
    requires s.event.Some? && s.event.value.phase.Queued? && Building(event) && event.value.version == s.event.value.version
    requires 0 <= s.committed < s.event.value.version && forall v :: v in s.disk.roots ==> v <= s.committed
    requires PoolOk(s.queue, s.removed, s.prunable, s.prune, s.event, s.disk, s.committed)
    ensures PoolOk(s.queue + [s.event.value.version], s.removed, s.prunable, s.prune, event, s.disk, s.committed)
  {
    var q := s.queue + [s.event.value.version];
    assert forall i :: 0 <= i < |s.queue| ==> q[i] == s.queue[i] && q[i] <= s.committed;
    assert forall v :: v in q ==> v in s.queue || v == s.event.value.version;
  }

  /** The pool has room for the checkpoint being committed and the one before it, so an older one goes. */
  lemma PopCheckpoint(s: State, mayPrune: bool)
    requires Building(s.event) && |s.queue| > MIN_HISTORY_STATE_NUM && s.committed >= 0
    requires PoolOk(s.queue, s.removed, s.prunable, s.prune, s.event, s.disk, s.committed)
    ensures PoolOk(s.queue[1..], if mayPrune then s.removed + {s.queue[0]} else s.removed, s.prunable, s.prune, s.event, s.disk, s.committed)
  {
    var v := s.queue[0];
    assert v in s.queue;
    assert v < s.committed;
    assert v !in s.queue[1..];
    assert forall u :: u in s.queue[1..] ==> u in s.queue;
  }

  lemma CommitWriteInv(c: Config, s: State)
    requires Inv(c, s) && Enabled(s, CommitWrite)
    ensures Inv(c, Do(c, s, CommitWrite))
  {
    hide At, ValidHistory, CacheOk, WindowOk;
    PreviousIsCommitted(s);
    CommitWritePool(s);
    CommitWriteDisk(s);
    hide PoolOk, DiskOk, Canonical;
  }

  lemma CommitWriteDisk(s: State)
    requires DiskOk(s.h, s.event, s.tpp, s.disk, s.committed, s.lastPersist) && Enabled(s, CommitWrite) && ValidHistory(s.h)
    ensures var s' := DoCommitWrite(s);
            DiskOk(s'.h, s'.event, s'.tpp, s'.disk, s'.committed, s'.lastPersist)
  {
    hide At, ValidHistory, Canonical;
    CommitCanonical(s.disk, s.h, s.committed, s.lastPersist);
  }

  lemma CommitWritePool(s: State)
    requires s.event.Some? && s.event.value.phase == Batched(s.committed) && 0 <= s.committed < s.event.value.version
    requires forall v :: v in s.disk.roots ==> 1 <= v
    requires PoolOk(s.queue, s.removed, s.prunable, s.prune, s.event, s.disk, s.committed)
    ensures var s' := DoCommitWrite(s);
            PoolOk(s'.queue, s'.removed, s'.prunable, s'.prune, s'.event, s'.disk, s'.committed)
  {
    var s' := DoCommitWrite(s);
    if s.prune.Some? {
      var v := s.prune.value.version;
      assert v in Doomed(s.removed, s.prunable, s.prune);
      assert forall u :: u < v ==> (u in s'.disk.roots.Keys <==> u in s.disk.roots.Keys);
      SamePrevious(s.disk.roots.Keys, s'.disk.roots.Keys, v);
      assert GetPreviousVersion(s'.disk, v) == GetPreviousVersion(s.disk, v);
    }
  }

  lemma {:induction false} SamePrevious(a: set<int>, b: set<int>, v: int)
    requires forall u :: u < v ==> (u in a <==> u in b)
    ensures Previous(a, v) == Previous(b, v)
  {
    if v > 1 && v - 1 !in a { SamePrevious(a, b, v - 1); }
  }

  lemma CommitDoneInv(c: Config, s: State)
    requires Inv(c, s) && Enabled(s, CommitDone)
    ensures Inv(c, Do(c, s, CommitDone))
  {
    hide At, ValidHistory, CacheOk, WindowOk, Canonical;
  }

  lemma SendPruneInv(c: Config, s: State, v: int)
    requires Inv(c, s) && Enabled(s, SendPrune(v))
    ensures Inv(c, Do(c, s, SendPrune(v)))
  {
    hide At, ValidHistory, CacheOk, WindowOk, DiskOk;
    assert Doomed(s.removed - {v}, s.prunable + {v}, s.prune) == Doomed(s.removed, s.prunable, s.prune);
  }

  lemma PruneBeginInv(c: Config, s: State, v: int)
    requires Inv(c, s) && Enabled(s, PruneBegin(v))
    ensures Inv(c, Do(c, s, PruneBegin(v)))
  {
    hide At, ValidHistory, CacheOk, WindowOk, DiskOk;
  }

  lemma PruneCollectInv(c: Config, s: State)
    requires Inv(c, s) && Enabled(s, PruneCollect)
    ensures Inv(c, Do(c, s, PruneCollect))
  {
    hide At, ValidHistory, CacheOk, WindowOk, DiskOk;
    assert Doomed(s.removed, s.prunable, DoPruneCollect(s).prune) == Doomed(s.removed, s.prunable, s.prune);
  }

  lemma PruneWriteIsDelete(s: State)
    requires s.prune.Some? && s.prune.value.records.Some?
    requires s.prune.value.previous == GetPreviousVersion(s.disk, s.prune.value.version)
    requires s.prune.value.records.value == set r | r in s.disk.orphans && r.to == s.prune.value.version
    ensures DoPruneWrite(s).disk == Lifetimes.DeleteVersion(s.disk, s.prune.value.version)
  {
    var d, e := DoPruneWrite(s).disk, Lifetimes.DeleteVersion(s.disk, s.prune.value.version);
    assert d.nodes == e.nodes;
    assert d.orphans == e.orphans;
  }

  lemma PruneWriteInv(c: Config, s: State)
    requires Inv(c, s) && Enabled(s, PruneWrite)
    ensures Inv(c, Do(c, s, PruneWrite))
  {
    hide At, ValidHistory, CacheOk, WindowOk, Canonical;
    var v := s.prune.value.version;
    assert v in Doomed(s.removed, s.prunable, s.prune);
    PruneWriteIsDelete(s);
    DeleteVersionCanonical(s.disk, s.h[..s.committed], v);
    hide Lifetimes.DeleteVersion, DoPruneWrite;
    PrunePool(s);
  }

  lemma PrunePool(s: State)
    requires s.prune.Some? && s.prune.value.records.Some? && PoolOk(s.queue, s.removed, s.prunable, s.prune, s.event, s.disk, s.committed)
    ensures PoolOk(s.queue, s.removed, s.prunable, None, s.event, DoPruneWrite(s).disk, s.committed)
  {
    var v := s.prune.value.version;
    assert v in Doomed(s.removed, s.prunable, s.prune);
    assert forall i :: 0 <= i < |s.queue| ==> s.queue[i] in s.queue;
  }

  lemma StepInv(c: Config, s: State, step: Step)
    requires Inv(c, s) && Enabled(s, step) && c.historyStateNum >= MIN_HISTORY_STATE_NUM
    ensures Inv(c, Do(c, s, step))
  {
    hide Inv;
    match step
    case UpdateBranch(root, orphans, persist) => UpdateBranchInv(c, s, root, orphans, persist);
    case FeedOrphans => FeedOrphansInv(c, s);
    case StartPersist => StartPersistInv(c, s);
    case Enqueue => EnqueueInv(c, s);
    case RunTask => RunTaskInv(c, s);
    case CommitBegin(mayPrune) => CommitBeginInv(c, s, mayPrune);
    case CommitWrite => CommitWriteInv(c, s);
    case CommitDone => CommitDoneInv(c, s);
    case SendPrune(v) => SendPruneInv(c, s, v);
    case PruneBegin(v) => PruneBeginInv(c, s, v);
    case PruneCollect => PruneCollectInv(c, s);
    case PruneWrite => PruneWriteInv(c, s);
  }

  lemma {:induction false} RunInv(c: Config, s: State, steps: seq<Step>, r: State)
    requires Inv(c, s) && Reaches(c, s, steps, r) && c.historyStateNum >= MIN_HISTORY_STATE_NUM
    ensures Inv(c, r)
    decreases |steps|
  {
    hide Inv;
    if steps != [] {
      StepInv(c, s, steps[0]);
      RunInv(c, Do(c, s, steps[0]), steps[1..], r);
    }
  }

  /**
    In every interleaving of block saves, orphan tasks, checkpoint commits and
    prunes, every node of every readable version is found, and the disk holds
    exactly the checkpoints that were committed and not pruned.
   */
  lemma EveryInterleaving(c: Config, steps: seq<Step>, s: State)
    requires Reaches(c, INIT, steps, s) && c.historyStateNum >= MIN_HISTORY_STATE_NUM
    ensures forall v, x :: Readable(s, v) && x in At(s.h, v) ==> Found(s, x)
    ensures 0 <= s.committed <= |s.h| && Canonical(s.disk, s.h[..s.committed])
  {
    InitInv(c);
    RunInv(c, INIT, steps, s);
    hide At, CacheOk, WindowOk, PoolOk, Canonical;
    forall v, x | Readable(s, v) && x in At(s.h, v) ensures Found(s, x) {
      EveryReadableNodeIsFound(c, s, v, x);
    }
  }
}
