/**
  Reading through the fast nodes while blocks are saved asynchronously: the
  layers are the unsaved changes, the pre-persist changes, the change sets in
  flight, the cache and the disk. The block thread, the commit goroutine and
  readers take atomic steps in any order.
 */
module FastOverlay {
  import opened Options
  import opened ByteStrings
  import opened FastChanges

  type Kv = map<Bytes, Bytes>

  /** Where SaveVersionAsync is: at rest, fast nodes merged, latest version raised, checkpoint handed over. */
  datatype Pc = Rest | Merged | Raised | Started

  datatype State = State(
    pc: Pc,
    version: int,             // of the working tree's last saved tree
    saved: seq<Kv>,           // the saved trees; version i is at i - 1
    working: Kv,
    latest: int,              // latestMemoryVersion
    unsaved: Changes,
    pre: Changes,             // prePersistFastNode
    flight: seq<Changes>,     // tpfv, oldest first
    done: set<Bytes>,         // keys of the oldest change set already put in or taken out of the cache
    written: bool,            // its batch is committed
    cache: Fast,
    disk: Fast)

  datatype Step =
    | SetKey(key: Bytes, value: Bytes)
    | RemoveKey(key: Bytes)
    | Rollback
    | Merge
    | SaveEmpty
    | Raise
    | PersistStart
    | Finish
    | CacheKey(key: Bytes)
    | WriteBatch
    | DropFlight
    | FillCache(key: Bytes)
    | Evict(key: Bytes)

  const EMPTY := State(Rest, 0, [], map[], 0, NO_CHANGES, NO_CHANGES, [], {}, false, map[], map[])

  function Current(saved: seq<Kv>): Kv { if saved == [] then map[] else saved[|saved| - 1] }

  /** The number of the last saved tree that was not empty, the last whose fast nodes were merged. */
  function LastMerged(saved: seq<Kv>): (n: nat)
    ensures n <= |saved| && (n > 0 ==> saved[n - 1] != map[])
    ensures forall t :: n <= t < |saved| ==> saved[t] == map[]
  {
    if saved == [] then 0 else if saved[|saved| - 1] != map[] then |saved| else LastMerged(saved[..|saved| - 1])
  }

  function MergedTree(saved: seq<Kv>): Kv { if LastMerged(saved) == 0 then map[] else saved[LastMerged(saved) - 1] }

  lemma LastMergedMore(saved: seq<Kv>, tree: Kv)
    ensures LastMerged(saved + [tree]) == if tree != map[] then |saved| + 1 else LastMerged(saved)
    ensures MergedTree(saved + [tree]) == if tree != map[] then tree else MergedTree(saved)
  {
    LastMergedOf(saved, tree);
    var s := saved + [tree];
    hide LastMerged;
    if tree != map[] { assert s[|saved|] == tree; }
    else if LastMerged(saved) > 0 { assert s[LastMerged(saved) - 1] == saved[LastMerged(saved) - 1]; }
  }

  lemma LastMergedOf(saved: seq<Kv>, tree: Kv)
    ensures LastMerged(saved + [tree]) == if tree != map[] then |saved| + 1 else LastMerged(saved)
  {
    var s := saved + [tree];
    assert s != [] && s[|s| - 1] == tree;
    LastMergedStep(s);
    if tree == map[] { assert s[..|s| - 1] == saved; }
  }

  lemma LastMergedStep(s: seq<Kv>)
    requires s != []
    ensures LastMerged(s) == if s[|s| - 1] != map[] then |s| else LastMerged(s[..|s| - 1])
  {
  }

  function LookupIn(m: Kv, k: Bytes): Option<Bytes> { if k in m then Some(m[k]) else None }

  // ---------- reading ----------

  datatype FastRead = Failed | Missing | Found(node: FastNode)

  function ToRead(o: Option<FastNode>): FastRead { if o.None? then Missing else Found(o.value) }

  /** GetFastNode; it takes the read lock, so no layer changes meanwhile. */
  function GetFastNode(s: State, k: Bytes): FastRead
  {
    if k == [] then Failed
    else if Touches(s.pre, k) then ToRead(Find(s.pre, k).value)
    else
      var f := FindIn(s.flight, k);
      if f.Some? then ToRead(f.value)
      else if k in s.cache then Found(s.cache[k])
      else if k in s.disk then Found(s.disk[k])
      else Missing
  }

  /** ImmutableTree.Get on a tree with this version and these contents. */
  function Get(s: State, version: int, tree: Kv, k: Bytes): Option<Bytes>
  {
    if tree == map[] then None
    else
      match GetFastNode(s, k)
      case Failed => LookupIn(tree, k)
      case Missing => if version == s.latest then None else LookupIn(tree, k)
      case Found(n) => if n.updated <= version then Some(n.value) else LookupIn(tree, k)
  }

  /** MutableTree.Get. */
  function WorkingGet(s: State, k: Bytes): Option<Bytes>
  {
    if s.working == map[] then None
    else
      var f := Find(s.unsaved, k);
      if f.None? then Get(s, s.version, s.working, k)
      else if f.value.None? then None
      else Some(f.value.value.value)
  }

  // ---------- steps ----------

  ghost predicate Enabled(s: State, step: Step)
  {
    match step
    case SetKey(_, _) => s.pc.Rest?
    case RemoveKey(k) => s.pc.Rest? && k in s.working
    case Rollback => s.pc.Rest?
    case Merge => s.pc.Rest? && s.working != map[]
    case SaveEmpty => s.pc.Rest? && s.working == map[]
    case Raise => s.pc.Merged?
    case PersistStart => s.pc.Raised? && s.working != map[]
    case Finish => s.pc.Raised? || s.pc.Started?
    case CacheKey(k) => s.flight != [] && !s.written && Touches(s.flight[0], k) && k !in s.done
    case WriteBatch => s.flight != [] && !s.written && forall k :: Touches(s.flight[0], k) ==> k in s.done
    case DropFlight => s.flight != [] && s.written
    case FillCache(k) => k != [] && !Touches(s.pre, k) && FindIn(s.flight, k).None? && k !in s.cache && k in s.disk
    case Evict(_) => true
  }

  ghost function Do(s: State, step: Step): State
    requires Enabled(s, step)
  {
    match step
    case SetKey(k, v) => s.(working := s.working[k := v], unsaved := Add(s.unsaved, k, FastNode(v, s.version + 1)))
    case RemoveKey(k) => s.(working := s.working - {k}, unsaved := Remove(s.unsaved, k))
    case Rollback => s.(working := Current(s.saved), unsaved := NO_CHANGES)
    case Merge => s.(pc := Merged, saved := s.saved + [s.working], pre := MergeLater(s.pre, s.unsaved), unsaved := NO_CHANGES)
    case SaveEmpty => s.(pc := Raised, saved := s.saved + [map[]], latest := s.version + 1)  // nothing is merged, and the unsaved changes stay
    case Raise => s.(pc := Raised, latest := s.version + 1)
    case PersistStart => s.(pc := Started, flight := s.flight + [s.pre], pre := NO_CHANGES)
    case Finish => s.(pc := Rest, version := s.version + 1)
    case CacheKey(k) =>
      var c := s.flight[0];
      s.(done := s.done + {k}, cache := if k in c.additions then s.cache[k := c.additions[k]] else s.cache - {k})
    case WriteBatch => s.(written := true, disk := Apply(s.flight[0], s.disk))
    case DropFlight => s.(flight := s.flight[1..], done := {}, written := false)
    case FillCache(k) => s.(cache := s.cache[k := s.disk[k]])
    case Evict(k) => s.(cache := s.cache - {k})
  }

  ghost predicate Reaches(s: State, steps: seq<Step>, t: State)
    decreases |steps|
  {
    if steps == [] then s == t else Enabled(s, steps[0]) && Reaches(Do(s, steps[0]), steps[1..], t)
  }

  // ---------- the invariant ----------

  /** The fast node of k below the unsaved changes, leaving the cache aside. */
  function Stored(pre: Changes, flight: seq<Changes>, disk: Fast, k: Bytes): Option<FastNode>
  {
    if Touches(pre, k) then Find(pre, k).value
    else
      var f := FindIn(flight, k);
      if f.Some? then f.value else if k in disk then Some(disk[k]) else None
  }

  /** A fast node holds the value of the tree merged last and of all trees since it was set. */
  ghost predicate LiveOk(saved: seq<Kv>, k: Bytes, o: Option<FastNode>)
  {
    match o
    case None => k !in MergedTree(saved)
    case Some(n) =>
      1 <= n.updated <= LastMerged(saved) &&
      forall t :: n.updated - 1 <= t < LastMerged(saved) ==> k in saved[t] && saved[t][k] == n.value
  }

  /** The unsaved changes lead from the tree merged last to the working tree; after an empty save they touch all of its keys. */
  predicate UnsavedOk(unsaved: Changes, working: Kv, saved: seq<Kv>, version: int, k: Bytes)
  {
    (match Find(unsaved, k)
     case None => LookupIn(working, k) == LookupIn(MergedTree(saved), k)
     case Some(None) => k !in working
     case Some(Some(n)) => k in working && working[k] == n.value && n.updated == version + 1) &&
    (k in MergedTree(saved) && LastMerged(saved) < |saved| ==> Touches(unsaved, k))
  }

  /** A cached node is the stored one, unless the key is in flight. */
  predicate CacheOk(cache: Fast, flight: seq<Changes>, disk: Fast, k: Bytes)
  {
    k in cache && FindIn(flight, k).None? ==> k in disk && disk[k] == cache[k]
  }

  /** How far the oldest change set in flight has got. */
  predicate FlightOk(flight: seq<Changes>, done: set<Bytes>, written: bool, cache: Fast, disk: Fast, k: Bytes)
  {
    (flight == [] ==> k !in done && !written) &&
    (flight != [] ==>
       var c := flight[0];
       (k in done ==> Touches(c, k) && (k in cache ==> k in c.additions && cache[k] == c.additions[k])) &&
       (written && Touches(c, k) ==> k in done && (k in disk <==> k in c.additions) && (k in c.additions ==> disk[k] == c.additions[k])))
  }

  ghost predicate KeyOk(s: State, k: Bytes)
  {
    LiveOk(s.saved, k, Stored(s.pre, s.flight, s.disk, k)) && UnsavedOk(s.unsaved, s.working, s.saved, s.version, k) &&
    CacheOk(s.cache, s.flight, s.disk, k) && FlightOk(s.flight, s.done, s.written, s.cache, s.disk, k)
  }

  ghost predicate Shape(s: State)
  {
    Disjoint(s.unsaved) && Disjoint(s.pre) && (forall i :: 0 <= i < |s.flight| ==> Disjoint(s.flight[i])) &&
    (s.pc.Rest? ==> s.version == |s.saved| == s.latest) &&
    (!s.pc.Rest? ==> s.version + 1 == |s.saved| && s.latest == (if s.pc.Merged? then s.version else s.version + 1) &&
                     s.working == Current(s.saved) && (s.working != map[] ==> s.unsaved == NO_CHANGES)) &&
    (s.pc.Merged? || s.pc.Started? ==> s.working != map[])
  }

  /** Rolling back drops the unsaved changes; that is right if the tree saved last is the one merged last. */
  predicate MayRollback(s: State) { Current(s.saved) == MergedTree(s.saved) }

  ghost predicate Inv(s: State) { Shape(s) && forall k :: KeyOk(s, k) }

  lemma {:induction false} FindInTail(layers: seq<Changes>, k: Bytes)
    requires layers != []
    ensures FindIn(layers, k) == var f := FindIn(layers[1..], k); if f.Some? then f else Find(layers[0], k)
    decreases |layers|
  {
    if |layers| > 1 {
      assert layers[1..][..|layers[1..]| - 1] == layers[..|layers| - 1][1..];
      FindInTail(layers[..|layers| - 1], k);
    } else {
      assert layers[..0] == [] && layers[1..] == [];
    }
  }

  lemma FindInMore(layers: seq<Changes>, c: Changes, k: Bytes)
    ensures FindIn(layers + [c], k) == if Touches(c, k) then Find(c, k) else FindIn(layers, k)
  {
    assert (layers + [c])[..|layers + [c]| - 1] == layers;
  }

  // ---------- every step keeps it ----------

  lemma EditKeeps(s: State, step: Step, k: Bytes)
    requires Inv(s) && Enabled(s, step) && (step.SetKey? || step.RemoveKey?)
    ensures KeyOk(Do(s, step), k)
  {
    assert KeyOk(s, k);
    hide FindIn, LiveOk, MergedTree, LastMerged;
  }

  lemma RollbackKeeps(s: State, k: Bytes)
    requires Inv(s) && Enabled(s, Rollback) && MayRollback(s)
    ensures KeyOk(Do(s, Rollback), k)
  {
    assert KeyOk(s, k);
    hide FindIn, LiveOk;
    assert LastMerged(s.saved) < |s.saved| ==> Current(s.saved) == map[];
    hide LastMerged;
  }

  lemma SaveEmptyKeeps(s: State, k: Bytes)
    requires Inv(s) && Enabled(s, SaveEmpty)
    ensures KeyOk(Do(s, SaveEmpty), k)
  {
    assert KeyOk(s, k);
    hide FindIn, LiveOk, UnsavedOk, CacheOk, FlightOk, Stored;
    EmptyIsLive(s.saved, s.unsaved, s.version, k, Stored(s.pre, s.flight, s.disk, k));
  }

  lemma EmptyIsLive(saved: seq<Kv>, unsaved: Changes, version: int, k: Bytes, o: Option<FastNode>)
    requires LiveOk(saved, k, o) && UnsavedOk(unsaved, map[], saved, version, k)
    ensures LiveOk(saved + [map[]], k, o) && UnsavedOk(unsaved, map[], saved + [map[]], version, k)
  {
    LastMergedMore(saved, map[]);
    var saved' := saved + [map[]];
    assert forall t :: 0 <= t < |saved| ==> saved'[t] == saved[t];
    assert MergedTree(saved') == MergedTree(saved);
    hide LastMerged, MergedTree;
  }

  lemma MergeKeeps(s: State, k: Bytes)
    requires Inv(s) && Enabled(s, Merge)
    ensures KeyOk(Do(s, Merge), k)
  {
    assert KeyOk(s, k);
    hide FindIn;
    MergeLaterFinds(s.pre, s.unsaved, k);
    LastMergedMore(s.saved, s.working);
    hide LastMerged;
    var s' := Do(s, Merge);
    assert Stored(s'.pre, s.flight, s.disk, k) ==
           if Touches(s.unsaved, k) then Find(s.unsaved, k).value else Stored(s.pre, s.flight, s.disk, k);
    hide Stored, MergeLater;
    MergeIsLive(s.saved, s.working, s.unsaved, s.version, k, Stored(s.pre, s.flight, s.disk, k));
  }

  lemma MergeIsLive(saved: seq<Kv>, working: Kv, unsaved: Changes, version: int, k: Bytes, o: Option<FastNode>)
    requires LiveOk(saved, k, o) && UnsavedOk(unsaved, working, saved, version, k) && working != map[] && version == |saved|
    ensures LiveOk(saved + [working], k, if Touches(unsaved, k) then Find(unsaved, k).value else o)
    ensures UnsavedOk(NO_CHANGES, working, saved + [working], version, k)
  {
    LastMergedMore(saved, working);
    hide LastMerged;
    var saved' := saved + [working];
    assert forall t :: 0 <= t < |saved| ==> saved'[t] == saved[t];
  }

  lemma PersistStartKeeps(s: State, k: Bytes)
    requires Inv(s) && Enabled(s, PersistStart)
    ensures KeyOk(Do(s, PersistStart), k)
  {
    assert KeyOk(s, k);
    hide FindIn, LiveOk, UnsavedOk, FlightOk, Disjoint;
    var flight := s.flight + [s.pre];
    FindInMore(s.flight, s.pre, k);
    assert Stored(NO_CHANGES, flight, s.disk, k) == Stored(s.pre, s.flight, s.disk, k);
    assert FlightOk(flight, s.done, s.written, s.cache, s.disk, k) by { FlightGrows(s.flight, s.pre, s.done, s.written, s.cache, s.disk, k); }
  }

  lemma FlightGrows(flight: seq<Changes>, c: Changes, done: set<Bytes>, written: bool, cache: Fast, disk: Fast, k: Bytes)
    requires FlightOk(flight, done, written, cache, disk, k)
    ensures FlightOk(flight + [c], done, written, cache, disk, k)
  {
    if flight != [] { assert (flight + [c])[0] == flight[0]; }
  }

  lemma CommitKeeps(s: State, step: Step, k: Bytes)
    requires Inv(s) && Enabled(s, step) && (step.CacheKey? || step.WriteBatch?)
    ensures KeyOk(Do(s, step), k)
  {
    assert KeyOk(s, k);
    FindInTail(s.flight, k);
    hide FindIn, LiveOk, UnsavedOk;
  }

  lemma CacheMovesKeep(s: State, step: Step, k: Bytes)
    requires Inv(s) && Enabled(s, step) && (step.FillCache? || step.Evict?)
    ensures KeyOk(Do(s, step), k)
  {
    assert KeyOk(s, k);
    if s.flight != [] { FindInTail(s.flight, k); }
    hide FindIn, LiveOk, UnsavedOk;
  }

  lemma DropKeeps(s: State, k: Bytes)
    requires Inv(s) && Enabled(s, DropFlight)
    ensures KeyOk(Do(s, DropFlight), k)
  {
    assert KeyOk(s, k);
    FindInTail(s.flight, k);
    hide FindIn, LiveOk;
  }

  lemma StepKeeps(s: State, step: Step)
    requires Inv(s) && Enabled(s, step) && (step.Rollback? ==> MayRollback(s))
    ensures Inv(Do(s, step))
  {
    hide KeyOk;
    var t := Do(s, step);
    assert Shape(t) by { ShapeKeeps(s, step); }
    forall k ensures KeyOk(t, k) {
      match step
      case SetKey(_, _) => EditKeeps(s, step, k);
      case RemoveKey(_) => EditKeeps(s, step, k);
      case Rollback => RollbackKeeps(s, k);
      case Merge => MergeKeeps(s, k);
      case SaveEmpty => SaveEmptyKeeps(s, k);
      case PersistStart => PersistStartKeeps(s, k);
      case CacheKey(_) => CommitKeeps(s, step, k);
      case WriteBatch => CommitKeeps(s, step, k);
      case FillCache(_) => CacheMovesKeep(s, step, k);
      case Evict(_) => CacheMovesKeep(s, step, k);
      case DropFlight => DropKeeps(s, k);
      case Raise => CounterKeeps(s, step, k);
      case Finish => CounterKeeps(s, step, k);
    }
  }

  lemma CounterKeeps(s: State, step: Step, k: Bytes)
    requires Inv(s) && Enabled(s, step) && (step.Raise? || step.Finish?)
    ensures KeyOk(Do(s, step), k)
  {
    assert KeyOk(s, k);
    hide FindIn, LiveOk;
  }

  lemma ShapeKeeps(s: State, step: Step)
    requires Shape(s) && Enabled(s, step)
    ensures Shape(Do(s, step))
  {
    hide FindIn;
  }

  /** No roll-back of the run comes between an empty save and the next save that is not, unless nothing was merged before. */
  ghost predicate Steady(s: State, steps: seq<Step>)
    decreases |steps|
  {
    steps == [] || !Enabled(s, steps[0]) ||
    ((steps[0].Rollback? ==> MayRollback(s)) && Steady(Do(s, steps[0]), steps[1..]))
  }

  lemma {:induction false} RunKeeps(s: State, steps: seq<Step>, t: State)
    requires Inv(s) && Reaches(s, steps, t) && Steady(s, steps)
    ensures Inv(t)
    decreases |steps|
  {
    hide Inv, Enabled, Do, MayRollback;
    if steps != [] {
      StepKeeps(s, steps[0]);
      RunKeeps(Do(s, steps[0]), steps[1..], t);
    }
  }

  lemma ReachableOk(steps: seq<Step>, s: State)
    requires Reaches(EMPTY, steps, s) && Steady(EMPTY, steps)
    ensures Inv(s)
  {
    hide Reaches, Steady;
    assert Inv(EMPTY);
    RunKeeps(EMPTY, steps, s);
  }

  /** A run that saves no empty tree, or never rolls back, is steady. */
  lemma {:induction false} UsuallySteady(s: State, steps: seq<Step>)
    requires (forall i :: 0 <= i < |steps| ==> !steps[i].Rollback?) ||
             (LastMerged(s.saved) == |s.saved| && forall i :: 0 <= i < |steps| ==> !steps[i].SaveEmpty?)
    ensures Steady(s, steps)
    decreases |steps|
  {
    if steps != [] && Enabled(s, steps[0]) {
      assert !steps[0].Rollback? || !steps[0].SaveEmpty?;
      if steps[0].Merge? { LastMergedMore(s.saved, s.working); }
      UsuallySteady(Do(s, steps[0]), steps[1..]);
    }
  }

  // ---------- main results ----------

  /** The reader finds the stored fast node, whether or not it is cached. */
  lemma LookupIsStored(s: State, k: Bytes)
    requires Inv(s) && k != []
    ensures GetFastNode(s, k) == ToRead(Stored(s.pre, s.flight, s.disk, k))
  {
    assert KeyOk(s, k);
    hide FindIn, LiveOk;
  }

  /** The one case in which a saved tree is misread: its key was removed by the block being saved, between the merge and the raise. */
  predicate InWindow(s: State, version: int, k: Bytes)
  {
    s.pc.Merged? && version == s.latest && k != [] && 0 < version < |s.saved| && k in s.saved[version - 1] && k !in s.saved[version]
  }

  /** Get on any saved version returns what the tree holds, except in that window, and there it does not. */
  lemma GetIsLookup(s: State, version: int, k: Bytes)
    requires Inv(s) && 1 <= version <= |s.saved|
    ensures Get(s, version, s.saved[version - 1], k) == LookupIn(s.saved[version - 1], k) <==> !InWindow(s, version, k)
  {
    assert KeyOk(s, k);
    if k != [] { LookupIsStored(s, k); }
    hide FindIn;
  }

  lemma WorkingGetIsLookup(s: State, k: Bytes)
    requires Inv(s)
    ensures WorkingGet(s, k) == LookupIn(s.working, k)
  {
    assert KeyOk(s, k);
    if k != [] { LookupIsStored(s, k); }
    hide FindIn;
  }

  /** In every steady run the working tree, and every saved tree outside the window, is read correctly through the overlay. */
  lemma EveryRun(steps: seq<Step>, s: State, k: Bytes)
    requires Reaches(EMPTY, steps, s) && Steady(EMPTY, steps)
    ensures WorkingGet(s, k) == LookupIn(s.working, k)
    ensures forall v :: 1 <= v <= |s.saved| ==>
              (Get(s, v, s.saved[v - 1], k) == LookupIn(s.saved[v - 1], k) <==> !InWindow(s, v, k))
  {
    ReachableOk(steps, s);
    WorkingGetIsLookup(s, k);
    forall v | 1 <= v <= |s.saved|
      ensures Get(s, v, s.saved[v - 1], k) == LookupIn(s.saved[v - 1], k) <==> !InWindow(s, v, k)
    {
      GetIsLookup(s, v, k);
    }
  }

  /** After any roll-back, a key is read right from the next working tree exactly if the trees merged and saved last agree on it. */
  lemma RollbackReads(s: State, a: Bytes, v: Bytes, k: Bytes)
    requires Inv(s) && s.pc.Rest? && k != [] && k != a
    ensures var t := Do(Do(s, Rollback), SetKey(a, v));
            WorkingGet(t, k) == LookupIn(t.working, k) <==> LookupIn(MergedTree(s.saved), k) == LookupIn(Current(s.saved), k)
  {
    assert KeyOk(s, k);
    LookupIsStored(s, k);
    var t := Do(Do(s, Rollback), SetKey(a, v));
    assert GetFastNode(t, k) == GetFastNode(s, k) && a in t.working;
    hide FindIn, GetFastNode, Stored;
  }

  /** A key is saved and removed, the empty tree is saved and rolled back to, and another key is set: the first is read although it is gone. */
  lemma RollbackRevivesKey()
    ensures exists steps, s :: Reaches(EMPTY, steps, s) && [1] !in s.working && WorkingGet(s, [1]) != None
  {
    hide Reaches, Steady, Inv, MergedTree, WorkingGet;
    var steps, s := EmptiedRun();
    ReachableOk(steps, s);
    RollbackReads(s, [2], [8], [1]);
    RollbackThenSet(s, steps, [2], [8]);
  }

  lemma EmptiedRun() returns (steps: seq<Step>, s: State)
    ensures Reaches(EMPTY, steps, s) && Steady(EMPTY, steps) && s.pc.Rest?
    ensures [1] in MergedTree(s.saved) && s.saved != [] && Current(s.saved) == map[]
  {
    hide Reaches, Steady, MergedTree;
    var s1 := Do(EMPTY, SetKey([1], [7]));
    assert [1] in s1.working && s1.working - {[1]} == map[];
    var rest;
    rest, s := SaveThenEmpty(s1, [1]);
    steps := [SetKey([1], [7])] + rest;
    RunsOn(EMPTY, SetKey([1], [7]), rest, s);
    assert forall i :: 0 <= i < |steps| ==> !steps[i].Rollback?;
    UsuallySteady(EMPTY, steps);
  }

  lemma RollbackThenSet(s: State, steps: seq<Step>, a: Bytes, v: Bytes)
    requires s.pc.Rest? && Reaches(EMPTY, steps, s)
    ensures Reaches(EMPTY, steps + [Rollback] + [SetKey(a, v)], Do(Do(s, Rollback), SetKey(a, v)))
  {
    hide Reaches;
    OneMore(EMPTY, steps, s, Rollback);
    OneMore(EMPTY, steps + [Rollback], Do(s, Rollback), SetKey(a, v));
  }

  lemma SaveThenEmpty(s: State, k: Bytes) returns (steps: seq<Step>, t: State)
    requires s.pc.Rest? && k in s.working && s.working - {k} == map[]
    ensures Reaches(s, steps, t) && t.pc.Rest? && k in MergedTree(t.saved) && t.saved != [] && Current(t.saved) == map[]
    ensures forall i :: 0 <= i < |steps| ==> !steps[i].Rollback?
  {
    hide Reaches, MergeLater, LastMerged, MergedTree;
    var s1 := Do(s, Merge);
    var s2 := Do(s1, Raise);
    var s3 := Do(s2, Finish);
    var s4 := Do(s3, RemoveKey(k));
    var s5 := Do(s4, SaveEmpty);
    t := Do(s5, Finish);
    LastMergedMore(s.saved, s.working);
    LastMergedMore(s.saved + [s.working], map[]);
    Runs1(s5, Finish);
    RunsOn(s4, SaveEmpty, [Finish], t);
    RunsOn(s3, RemoveKey(k), [SaveEmpty] + [Finish], t);
    steps := [RemoveKey(k)] + ([SaveEmpty] + [Finish]);
    RunsOn(s2, Finish, steps, t);
    steps := [Finish] + steps;
    RunsOn(s1, Raise, steps, t);
    steps := [Raise] + steps;
    RunsOn(s, Merge, steps, t);
    steps := [Merge] + steps;
  }

  /** Every block that removes a key and leaves others opens the window for that key. */
  lemma RemovalOpensWindow(s: State, k: Bytes)
    requires Inv(s) && s.pc.Rest? && s.working != map[] && k != [] && k in Current(s.saved) && k !in s.working
    ensures Enabled(s, Merge) && InWindow(Do(s, Merge), s.version, k)
    ensures Get(Do(s, Merge), s.version, s.saved[s.version - 1], k) != LookupIn(s.saved[s.version - 1], k)
  {
    hide KeyOk;
    StepKeeps(s, Merge);
    GetIsLookup(Do(s, Merge), s.version, k);
    hide Inv;
  }

  /** Such a block is reachable: two keys are saved, and one of them is removed. */
  lemma RemovalIsReachable()
    ensures exists steps, s :: Reaches(EMPTY, steps, s) && Steady(EMPTY, steps) && s.pc.Rest? && s.working != map[] &&
              [1] in Current(s.saved) && [1] !in s.working
  {
    hide Reaches, Steady;
    var s1 := Do(EMPTY, SetKey([1], [7]));
    var s2 := Do(s1, SetKey([2], [8]));
    assert [1] in s2.working && [2] in s2.working;
    var steps, t := SaveThenRemove(s2, [1], [2]);
    RunsOn(s1, SetKey([2], [8]), steps, t);
    var all := [SetKey([1], [7])] + ([SetKey([2], [8])] + steps);
    RunsOn(EMPTY, SetKey([1], [7]), [SetKey([2], [8])] + steps, t);
    assert forall i :: 0 <= i < |all| ==> !all[i].Rollback?;
    UsuallySteady(EMPTY, all);
  }

  lemma SaveThenRemove(s: State, a: Bytes, b: Bytes) returns (steps: seq<Step>, t: State)
    requires s.pc.Rest? && a in s.working && b in s.working && a != b
    ensures Reaches(s, steps, t) && t.pc.Rest? && t.working != map[] && a in Current(t.saved) && a !in t.working
    ensures forall i :: 0 <= i < |steps| ==> !steps[i].Rollback?
  {
    hide Reaches, MergeLater;
    var s1 := Do(s, Merge);
    var s2 := Do(s1, Raise);
    var s3 := Do(s2, Finish);
    t := Do(s3, RemoveKey(a));
    assert Current(t.saved) == s.working && b in t.working;
    Runs1(s3, RemoveKey(a));
    RunsOn(s2, Finish, [RemoveKey(a)], t);
    RunsOn(s1, Raise, [Finish] + [RemoveKey(a)], t);
    steps := [Merge] + ([Raise] + ([Finish] + [RemoveKey(a)]));
    RunsOn(s, Merge, [Raise] + ([Finish] + [RemoveKey(a)]), t);
  }

  lemma {:induction false} OneMore(s: State, steps: seq<Step>, t: State, step: Step)
    requires Reaches(s, steps, t) && Enabled(t, step)
    ensures Reaches(s, steps + [step], Do(t, step))
    decreases |steps|
  {
    if steps == [] {
      Runs1(s, step);
      assert steps + [step] == [step];
    } else {
      OneMore(Do(s, steps[0]), steps[1..], t, step);
      assert (steps + [step])[0] == steps[0] && (steps + [step])[1..] == steps[1..] + [step];
    }
  }

  lemma Runs1(s: State, step: Step)
    requires Enabled(s, step)
    ensures Reaches(s, [step], Do(s, step))
  {
    assert [step][1..] == [];
  }

  lemma RunsOn(s: State, step: Step, steps: seq<Step>, t: State)
    requires Enabled(s, step) && Reaches(Do(s, step), steps, t)
    ensures Reaches(s, [step] + steps, t)
  {
    assert ([step] + steps)[1..] == steps;
  }
}
