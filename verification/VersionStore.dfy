/**
  The synchronous mutable tree as a state machine: updates of the working tree,
  saving, rolling back, pruning and overwriting. Over every run it refines a map
  from versions to key-value maps, and its database holds no unreachable node.
 */
module VersionStore {
  import opened Options
  import opened ByteStrings
  import opened AvlTree
  import opened TreeUpdate
  import opened Orphans
  import opened MerkleHash
  import opened Lifetimes

  const INT64_LIMIT: int := 0x8000_0000_0000_0000

  datatype State = State(
    root: Option<Node>,        // working tree
    lastSaved: Option<Node>,
    version: int,              // last saved version
    orphans: seq<Node>,
    readers: multiset<int>,    // active readers of saved versions
    db: Db)

  const INIT := State(None, None, 0, [], multiset{}, EMPTY)

  // ---------- steps ----------

  function SetKey(s: State, key: Bytes, value: Bytes): State
    requires s.root.Some? ==> Avl(s.root.value)
  {
    if s.root.None? then s.(root := Some(Leaf(key, value, s.version + 1)))
    else
      var r := RecursiveSet(s.root.value, key, value, s.version + 1);
      s.(root := Some(r.node), orphans := s.orphans + PersistedOf(r.orphans, s.version))
  }

  function RemoveKey(s: State, key: Bytes): State
    requires s.root.Some? ==> Avl(s.root.value)
  {
    if s.root.None? then s
    else
      var r := RecursiveRemove(s.root.value, key, s.version + 1);
      if r.orphans == [] then s
      else s.(root := r.node, orphans := s.orphans + PersistedOf(r.orphans, s.version))
  }

  function OrphanHashes(s: State): set<Hash> { set n | n in s.orphans :: HashOf(n) }

  function Save(s: State): State
  {
    s.(version := s.version + 1, lastSaved := s.root, orphans := [],
       db := Lifetimes.SaveVersion(s.db, s.version + 1, s.root, OrphanHashes(s)))
  }

  function Rollback(s: State): State
  {
    s.(root := if s.version > 0 then s.lastSaved else None, orphans := [])
  }

  /** deleteVersionPreCheck. */
  predicate MayDelete(s: State, v: int)
  {
    v != 0 && v != s.version && v in s.db.roots && s.readers[v] == 0
  }

  function Delete(s: State, v: int): State
  {
    if MayDelete(s, v) then s.(db := Lifetimes.DeleteVersion(s.db, v)) else s
  }

  predicate MayDeleteRange(s: State, from: int, to: int)
  {
    from < to && to != 0 && to <= s.version &&
    forall v :: v in s.readers ==> !(GetPreviousVersion(s.db, from) < v < to)
  }

  function DeleteVersionsRange(s: State, from: int, to: int): State
  {
    if MayDeleteRange(s, from, to) then s.(db := DeleteRange(s.db, from, to)) else s
  }

  predicate MayOverwrite(s: State, v: int)
  {
    v in s.db.roots && forall r :: r in s.readers ==> r <= v
  }

  /** Loads version v and deletes every later one. */
  function Overwrite(s: State, v: int): State
  {
    if !MayOverwrite(s, v) then s
    else
      var t := if s.db.roots[v].None? then None else Load(s.db.nodes, s.db.roots[v].value);
      var db := if s.version <= v || s.version !in s.db.roots then s.db else DeleteFrom(s.db, s.db.roots[s.version], v + 1);
      s.(root := t, lastSaved := t, version := v, orphans := [], db := db)
  }

  datatype Op =
    | OpSet(key: Bytes, value: Bytes)
    | OpRemove(key: Bytes)
    | OpSave
    | OpRollback
    | OpDelete(v: int)
    | OpDeleteRange(from: nat, to: int)
    | OpOverwrite(v: int)
    | OpOpenReader(v: int)
    | OpCloseReader(v: int)

  function Step(s: State, op: Op): State
    requires s.root.Some? ==> Avl(s.root.value)
  {
    match op
    case OpSet(key, value) => SetKey(s, key, value)
    case OpRemove(key) => RemoveKey(s, key)
    case OpSave => Save(s)
    case OpRollback => Rollback(s)
    case OpDelete(v) => Delete(s, v)
    case OpDeleteRange(from, to) => DeleteVersionsRange(s, from, to)
    case OpOverwrite(v) => Overwrite(s, v)
    case OpOpenReader(v) => if v in s.db.roots then s.(readers := s.readers + multiset{v}) else s
    case OpCloseReader(v) => s.(readers := s.readers - multiset{v})
  }

  // ---------- the invariant ----------

  ghost predicate VersionsIn(n: Node, hi: int)
  {
    1 <= n.version <= hi && (n.Inner? ==> VersionsIn(n.left, hi) && VersionsIn(n.right, hi))
  }

  /** The working tree against the last saved one; the orphan list is exact since the last save. */
  ghost predicate Working(s: State)
  {
    && (s.root.Some? ==> WellFormed(s.root.value) && VersionsIn(s.root.value, s.version + 1))
    && (s.lastSaved.Some? ==> WellFormed(s.lastSaved.value) && VersionsIn(s.lastSaved.value, s.version))
    && (forall m :: m in SubnodesOf(s.root) && m.version <= s.version ==> m in SubnodesOf(s.lastSaved))
    && NoDuplicates(s.orphans)
    && (forall m :: m in s.orphans <==> m in SubnodesOf(s.lastSaved) && m !in SubnodesOf(s.root))
  }

  ghost predicate Valid(s: State, h: History)
  {
    && Working(s)
    && s.version == |h|
    && s.lastSaved == (if h == [] then None else h[|h| - 1])
    && Canonical(s.db, h)
    && (forall v :: v in s.readers ==> v in s.db.roots)
  }

  lemma BalanceVersions(n: Node, version: int, hi: int)
    requires Rotatable(n) && VersionsIn(n, hi) && 1 <= version <= hi
    ensures VersionsIn(Balance(n, version).node, hi)
  {
    if CalcBalance(n) > 1 {
      assert VersionsIn(n.left.right, hi);
      if CalcBalance(n.left) < 0 { assert VersionsIn(RotateLeft(n.left, version).node.left, hi); }
    } else if CalcBalance(n) < -1 {
      assert VersionsIn(n.right.left, hi);
      if CalcBalance(n.right) > 0 { assert VersionsIn(RotateRight(n.right, version).node.right, hi); }
    }
  }

  lemma {:induction false} SetVersions(n: Node, key: Bytes, value: Bytes, version: int, hi: int)
    requires Avl(n) && VersionsIn(n, hi) && 1 <= version <= hi
    ensures VersionsIn(RecursiveSet(n, key, value, version).node, hi)
  {
    hide Lt, Balance;
    if n.Inner? {
      var goLeft := Lt(key, n.key);
      var child := if goLeft then n.left else n.right;
      SetVersions(child, key, value, version, hi);
      var s := RecursiveSet(child, key, value, version);
      if !s.updated {
        var d := CalcHeightAndSize(if goLeft then n.(version := version, left := s.node) else n.(version := version, right := s.node));
        NearlyAvlIsRotatable(d);
        BalanceVersions(d, version, hi);
      }
    }
  }

  lemma {:induction false} RemoveVersions(n: Node, key: Bytes, version: int, hi: int)
    requires Avl(n) && VersionsIn(n, hi) && 1 <= version <= hi
    ensures var r := RecursiveRemove(n, key, version);
            r.node.Some? ==> VersionsIn(r.node.value, hi)
  {
    hide Lt, Balance;
    if n.Inner? {
      var goLeft := Lt(key, n.key);
      var child := if goLeft then n.left else n.right;
      RemoveVersions(child, key, version, hi);
      var s := RecursiveRemove(child, key, version);
      if s.orphans != [] && s.node.Some? {
        var d := CalcHeightAndSize(
          if goLeft then Inner(n.key, n.height, n.size, version, s.node.value, n.right)
          else Inner(if s.newKey.Some? then s.newKey.value else n.key, n.height, n.size, version, n.left, s.node.value));
        NearlyAvlIsRotatable(d);
        BalanceVersions(d, version, hi);
      }
    }
  }

  lemma {:induction false} VersionsInSubnodes(n: Node, hi: int, m: Node)
    requires VersionsIn(n, hi) && m in Subnodes(n)
    ensures 1 <= m.version <= hi
  {
    if m != n {
      if m in Subnodes(n.left) { VersionsInSubnodes(n.left, hi, m); } else { VersionsInSubnodes(n.right, hi, m); }
    }
  }

  // ---------- updates of the working tree ----------

  /** Exact orphans of one update, added to exact orphans since the save, are exact since the save. */
  lemma WorkingStep(s: State, root: Option<Node>, o: seq<Node>)
    requires Working(s) && s.root.Some? && ExactOrphans(s.root.value, root, o, s.version)
    requires root.Some? ==> WellFormed(root.value) && VersionsIn(root.value, s.version + 1)
    ensures Working(s.(root := root, orphans := s.orphans + o))
  {
    hide WellFormed;
    hide Subnodes, VersionsIn;
    var s' := s.(root := root, orphans := s.orphans + o);
    forall m | m in SubnodesOf(s.lastSaved) ensures m.version <= s.version {
      VersionsInSubnodes(s.lastSaved.value, s.version, m);
    }
    forall m ensures m in s'.orphans <==> m in SubnodesOf(s.lastSaved) && m !in SubnodesOf(root) {}
    forall i, j | 0 <= i < j < |s'.orphans| ensures s'.orphans[i] != s'.orphans[j] {
      if i < |s.orphans| <= j {
        assert s'.orphans[i] in s.orphans;
        assert s'.orphans[j] in o;
      }
    }
  }

  lemma FirstKeyWorking(s: State, key: Bytes, value: Bytes)
    requires Working(s) && s.version >= 0 && s.root.None?
    ensures Working(SetKey(s, key, value))
  {
    hide Subnodes;
    forall m | m in SubnodesOf(s.lastSaved) ensures m.version <= s.version {
      VersionsInSubnodes(s.lastSaved.value, s.version, m);
    }
    var n := Leaf(key, value, s.version + 1);
    assert SubnodesOf(Some(n)) == {n} by { LeafSubnodes(n); }
  }

  lemma LeafSubnodes(n: Node)
    requires n.Leaf?
    ensures Subnodes(n) == {n}
  {}

  lemma SetUpdate(n: Node, key: Bytes, value: Bytes, saved: int)
    requires WellFormed(n) && VersionsIn(n, saved + 1) && saved >= 0
    ensures var r := RecursiveSet(n, key, value, saved + 1);
            WellFormed(r.node) && VersionsIn(r.node, saved + 1) &&
            ExactOrphans(n, Some(r.node), PersistedOf(r.orphans, saved), saved)
  {
    hide ExactOrphans, RecursiveSet, PersistedOf, VersionsIn, Avl;
    SetContents(n, key, value, saved + 1);
    SetVersions(n, key, value, saved + 1, saved + 1);
    SetOrphansExact(n, key, value, saved);
  }

  lemma RemoveUpdate(n: Node, key: Bytes, saved: int)
    requires WellFormed(n) && VersionsIn(n, saved + 1) && saved >= 0
    ensures var r := RecursiveRemove(n, key, saved + 1);
            (r.node.Some? ==> WellFormed(r.node.value) && VersionsIn(r.node.value, saved + 1)) &&
            ExactOrphans(n, r.node, PersistedOf(r.orphans, saved), saved)
  {
    hide ExactOrphans, RecursiveRemove, PersistedOf, VersionsIn, Avl;
    RemoveContents(n, key, saved + 1);
    RemoveVersions(n, key, saved + 1, saved + 1);
    RemoveOrphansExact(n, key, saved);
  }

  lemma SetKeyWorking(s: State, key: Bytes, value: Bytes)
    requires Working(s) && s.version >= 0
    ensures Working(SetKey(s, key, value))
  {
    hide RecursiveSet, PersistedOf, ExactOrphans, Subnodes, VersionsIn, Avl, Ordered;
    if s.root.None? { FirstKeyWorking(s, key, value); }
    else {
      SetUpdate(s.root.value, key, value, s.version);
      var r := RecursiveSet(s.root.value, key, value, s.version + 1);
      WorkingStep(s, Some(r.node), PersistedOf(r.orphans, s.version));
    }
  }

  lemma RemoveKeyWorking(s: State, key: Bytes)
    requires Working(s) && s.version >= 0
    ensures Working(RemoveKey(s, key))
  {
    hide RecursiveRemove, PersistedOf, ExactOrphans, Subnodes, VersionsIn, Avl, Ordered;
    if s.root.Some? {
      RemoveUpdate(s.root.value, key, s.version);
      var r := RecursiveRemove(s.root.value, key, s.version + 1);
      WorkingStep(s, r.node, PersistedOf(r.orphans, s.version));
    }
  }

  lemma {:induction false} VersionsInWeaken(n: Node, a: int, b: int)
    requires VersionsIn(n, a) && a <= b
    ensures VersionsIn(n, b)
  {
    if n.Inner? { VersionsInWeaken(n.left, a, b); VersionsInWeaken(n.right, a, b); }
  }

  /** A working tree that is the saved one has no orphans. */
  lemma CleanWorking(s: State)
    requires s.root == s.lastSaved && s.orphans == []
    requires s.root.Some? ==> WellFormed(s.root.value) && VersionsIn(s.root.value, s.version)
    ensures Working(s)
  {
    if s.root.Some? { VersionsInWeaken(s.root.value, s.version, s.version + 1); }
    hide WellFormed, VersionsIn, Subnodes;
  }

  /** The working tree is fit to be saved as the next tree of the history, whether or not that history is on disk. */
  lemma WorkingOkFromWorking(s: State, h: History)
    requires Working(s) && s.version == |h| && s.lastSaved == (if h == [] then None else h[|h| - 1])
    ensures WorkingOk(h, s.root, OrphanHashes(s))
  {
    hide WellFormed;
    hide VersionsIn;
    assert At(h, |h|) == HashesOf(s.lastSaved);
    forall x | x in HashesOf(s.root)
      ensures 1 <= x.version <= |h| + 1 && (x.version <= |h| ==> x in At(h, |h|)) {
      SubhashesAreSubnodes(s.root.value, x);
      var m :| m in Subnodes(s.root.value) && HashOf(m) == x;
      VersionsInSubnodes(s.root.value, s.version + 1, m);
      if m.version <= |h| { SubhashesAreSubnodes(s.lastSaved.value, x); }
    }
    forall x ensures x in OrphanHashes(s) <==> x in At(h, |h|) - HashesOf(s.root) {
      OrphanHash(s, x);
    }
  }

  lemma OrphanHash(s: State, x: Hash)
    requires Working(s)
    ensures x in OrphanHashes(s) <==> x in HashesOf(s.lastSaved) - HashesOf(s.root)
  {
    hide Subnodes, Subhashes, VersionsIn;
    if x in OrphanHashes(s) {
      var m :| m in s.orphans && HashOf(m) == x;
      SubnodesOrdered(s.lastSaved.value, m);
      MemberByHash(s.lastSaved.value, m);
      if s.root.Some? { MemberByHash(s.root.value, m); }
    }
    if x in HashesOf(s.lastSaved) - HashesOf(s.root) {
      SubhashesAreSubnodes(s.lastSaved.value, x);
      var m :| m in Subnodes(s.lastSaved.value) && HashOf(m) == x;
      SubnodesOrdered(s.lastSaved.value, m);
      if s.root.Some? { MemberByHash(s.root.value, m); }
      assert m in s.orphans;
    }
  }

  // ---------- every step keeps the invariant ----------

  /** The saved trees after a step. */
  function HistoryAfter(s: State, h: History, op: Op): History
  {
    match op
    case OpSave => h + [s.root]
    case OpOverwrite(v) => if MayOverwrite(s, v) && 0 <= v <= |h| then h[..v] else h
    case _ => h
  }

  lemma SaveValid(s: State, h: History)
    requires Valid(s, h)
    ensures Valid(Save(s), h + [s.root])
  {
    hide Canonical, WellFormed, VersionsIn, Lifetimes.SaveVersion;
    WorkingOkFromWorking(s, h);
    SaveVersionCanonical(s.db, h, s.root, OrphanHashes(s));
    CleanWorking(Save(s));
    SavedRoots(s);
    hide Working;
  }

  lemma SavedRoots(s: State)
    ensures forall v :: v in s.db.roots ==> v in Save(s).db.roots
  {}

  lemma DeleteValid(s: State, h: History, v: int)
    requires Valid(s, h)
    ensures Valid(Delete(s, v), h)
  {
    hide Canonical, Working, Lifetimes.DeleteVersion;
    if MayDelete(s, v) {
      DeleteVersionCanonical(s.db, h, v);
      var db := Lifetimes.DeleteVersion(s.db, v);
      forall u | u in s.readers ensures u in db.roots { assert u in db.roots.Keys; }
      SameWorking(s, Delete(s, v));
    }
  }

  /** The working tree does not depend on the database. */
  lemma SameWorking(s: State, t: State)
    requires Working(s) && t == s.(db := t.db)
    ensures Working(t)
  {
    hide WellFormed, VersionsIn, Subnodes;
  }

  lemma DeleteRangeValid(s: State, h: History, from: int, to: int)
    requires Valid(s, h) && from >= 0
    ensures Valid(DeleteVersionsRange(s, from, to), h)
  {
    hide Canonical, Working, Cut;
    if MayDeleteRange(s, from, to) {
      CutCanonical(s.db, h, from, to);
      RootsCut(s, h, from, to);
      SameWorking(s, DeleteVersionsRange(s, from, to));
    }
  }

  /** A version with a reader is not cut. */
  lemma RootsCut(s: State, h: History, from: int, to: int)
    requires Canonical(s.db, h) && from >= 0 && MayDeleteRange(s, from, to) && forall v :: v in s.readers ==> v in s.db.roots
    ensures forall v :: v in s.readers ==> v in DeleteRange(s.db, from, to).roots
  {
    hide NodesOk, OrphansOk, ValidHistory;
    forall v | v in s.readers ensures !(from <= v < to) {
      assert !(GetPreviousVersion(s.db, from) < v < to);
    }
  }

  lemma SavedTree(h: History, v: int)
    requires ValidHistory(h) && 1 <= v <= |h| && h[v - 1].Some?
    ensures WellFormed(h[v - 1].value) && VersionsIn(h[v - 1].value, v)
  {
    assert Subhashes(HashOf(h[v - 1].value)) == At(h, v);
    HistoryVersions(h, v, h[v - 1].value);
  }

  lemma OverwriteLoads(s: State, h: History, v: int)
    requires Canonical(s.db, h) && s.version == |h| && MayOverwrite(s, v)
    ensures 1 <= v <= |h|
    ensures Overwrite(s, v).root == h[v - 1]
    ensures h[v - 1].Some? ==> WellFormed(h[v - 1].value) && VersionsIn(h[v - 1].value, v)
    ensures v < |h| ==> Overwrite(s, v).db == DeleteFrom(s.db, RootHash(h[|h| - 1]), v + 1)
  {
    hide DeleteFrom, WellFormed, VersionsIn, Load, At, NodesOk, OrphansOk;
    ExistingVersionsReadBack(s.db, h, v);
    if h[v - 1].Some? { SavedTree(h, v); }
  }

  lemma OverwriteLoadsValid(s: State, h: History, v: int)
    requires Valid(s, h) && MayOverwrite(s, v)
    ensures 1 <= v <= |h| && |h| == s.version && Overwrite(s, v).root == h[v - 1]
    ensures v < |h| ==> Overwrite(s, v).db == DeleteFrom(s.db, RootHash(h[|h| - 1]), v + 1)
  {
    hide Canonical, Working, DeleteFrom, Load, Overwrite;
    OverwriteLoads(s, h, v);
  }

  lemma OverwriteValid(s: State, h: History, v: int)
    requires Valid(s, h) && MayOverwrite(s, v)
    ensures 1 <= v <= |h|
    ensures Valid(Overwrite(s, v), h[..v])
  {
    hide Canonical, WellFormed, VersionsIn, DeleteFrom, Load;
    OverwriteLoads(s, h, v);
    DeleteFromCanonical(s.db, h, v);
    var s' := Overwrite(s, v);
    CleanWorking(s');
    hide Working;
    if v == |h| { assert h[..v] == h; }
  }

  lemma {:induction false} HistoryVersions(h: History, v: int, n: Node)
    requires ValidHistory(h) && 1 <= v <= |h| && Subhashes(HashOf(n)) <= At(h, v)
    ensures VersionsIn(n, v)
  {
    hide At, WellFormed;
    assert HashOf(n) in Subhashes(HashOf(n));
    if n.Inner? { HistoryVersions(h, v, n.left); HistoryVersions(h, v, n.right); }
  }

  lemma OverwriteStep(s: State, h: History, v: int)
    requires Valid(s, h)
    ensures Valid(Overwrite(s, v), HistoryAfter(s, h, OpOverwrite(v)))
  {
    if MayOverwrite(s, v) { OverwriteValid(s, h, v); }
    hide Canonical, Working, DeleteFrom;
  }

  lemma StepValid(s: State, h: History, op: Op)
    requires Valid(s, h)
    ensures Valid(Step(s, op), HistoryAfter(s, h, op))
  {
    hide Canonical, Lifetimes.SaveVersion, Lifetimes.DeleteVersion, DeleteRange, Overwrite;
    match op
    case OpSet(key, value) => SetKeyWorking(s, key, value);
    case OpRollback => CleanWorking(Rollback(s));
    case OpRemove(key) => RemoveKeyWorking(s, key);
    case OpSave => SaveValid(s, h);
    case OpDelete(v) => DeleteValid(s, h, v);
    case OpDeleteRange(from, to) => DeleteRangeValid(s, h, from, to);
    case OpOverwrite(v) => OverwriteStep(s, h, v);
    case _ =>
  }

  // ---------- refinement of a map of maps ----------

  type Kv = map<Bytes, Bytes>

  /** What a user of the tree sees: the working map, and one map per existing version. */
  datatype Abstract = Abstract(cur: Kv, saved: map<int, Kv>, latest: int, readers: multiset<int>)

  const ABSTRACT_INIT := Abstract(map[], map[], 0, multiset{})

  function AbstractStep(a: Abstract, op: Op): Abstract
  {
    match op
    case OpSet(key, value) => a.(cur := a.cur[key := value])
    case OpRemove(key) => a.(cur := a.cur - {key})
    case OpSave => a.(saved := a.saved[a.latest + 1 := a.cur], latest := a.latest + 1)
    case OpRollback => a.(cur := if a.latest in a.saved then a.saved[a.latest] else map[])
    case OpDelete(v) =>
      if v != a.latest && v in a.saved && a.readers[v] == 0 then a.(saved := a.saved - {v}) else a
    case OpDeleteRange(from, to) =>
      if from < to <= a.latest && forall v :: v in a.readers ==> !(Previous(a.saved.Keys, from) < v < to)
      then a.(saved := a.saved - (set v | v in a.saved && from <= v < to)) else a
    case OpOverwrite(v) =>
      if v in a.saved && forall r :: r in a.readers ==> r <= v
      then a.(cur := a.saved[v], saved := map u | u in a.saved && u <= v :: a.saved[u], latest := v) else a
    case OpOpenReader(v) => if v in a.saved then a.(readers := a.readers + multiset{v}) else a
    case OpCloseReader(v) => a.(readers := a.readers - multiset{v})
  }

  function ContentsOf(n: Option<Node>): Kv { if n.None? then map[] else Contents(n.value) }

  /** Reads version v from disk. */
  function ReadVersion(db: Db, v: int): Kv
    requires v in db.roots
  {
    ContentsOf(if db.roots[v].None? then None else Load(db.nodes, db.roots[v].value))
  }

  function View(s: State): Abstract
  {
    Abstract(ContentsOf(s.root), map v | v in s.db.roots :: ReadVersion(s.db, v), s.version, s.readers)
  }

  /** The saved maps that a state shows are those of the trees in h. */
  ghost predicate Shows(a: Abstract, versions: set<int>, h: History)
  {
    && a.saved.Keys == versions
    && (forall v :: v in a.saved ==> 1 <= v <= |h| && a.saved[v] == ContentsOf(h[v - 1]))
  }

  lemma ViewOfValid(s: State, h: History)
    requires Valid(s, h)
    ensures Shows(View(s), s.db.roots.Keys, h)
  {
    hide Working, Contents, Load;
    forall v | v in s.db.roots ensures 1 <= v <= |h| && ReadVersion(s.db, v) == ContentsOf(h[v - 1]) {
      ExistingVersionsReadBack(s.db, h, v);
    }
  }

  lemma RemoveMap(n: Node, key: Bytes, version: int)
    requires WellFormed(n)
    ensures var r := RecursiveRemove(n, key, version);
            ContentsOf(r.node) == Contents(n) - {key} && (r.orphans == [] ==> r.node == Some(n))
  {
    RemoveContents(n, key, version);
    hide RecursiveRemove, Ordered, Avl;
    if key !in Contents(n) { assert Contents(n) - {key} == Contents(n); }
  }

  lemma SetMap(n: Node, key: Bytes, value: Bytes, version: int)
    requires WellFormed(n)
    ensures Contents(RecursiveSet(n, key, value, version).node) == Contents(n)[key := value]
  {
    SetContents(n, key, value, version);
  }

  lemma SetRefines(s: State, key: Bytes, value: Bytes)
    requires s.root.Some? ==> WellFormed(s.root.value)
    ensures View(SetKey(s, key, value)) == AbstractStep(View(s), OpSet(key, value))
  {
    hide RecursiveSet, Contents, Ordered, Avl, ReadVersion;
    if s.root.Some? { SetMap(s.root.value, key, value, s.version + 1); }
    else { LeafContents(key, value, s.version + 1); }
  }

  lemma LeafContents(key: Bytes, value: Bytes, version: int)
    ensures Contents(Leaf(key, value, version)) == map[key := value]
  {}

  lemma RemoveRefines(s: State, key: Bytes)
    requires s.root.Some? ==> WellFormed(s.root.value)
    ensures View(RemoveKey(s, key)) == AbstractStep(View(s), OpRemove(key))
  {
    hide RecursiveRemove, Contents, Ordered, Avl, View;
    ViewOfRoot(s, RemoveKey(s, key));
    RemovedMap(s, key);
  }

  lemma RemovedMap(s: State, key: Bytes)
    requires s.root.Some? ==> WellFormed(s.root.value)
    ensures var t := RemoveKey(s, key);
            ContentsOf(t.root) == ContentsOf(s.root) - {key} && t == s.(root := t.root, orphans := t.orphans)
  {
    hide RecursiveRemove, Contents, Ordered, Avl, PersistedOf;
    if s.root.Some? { RemoveMap(s.root.value, key, s.version + 1); } else { NothingRemoved(key); }
  }

  lemma NothingRemoved(key: Bytes)
    ensures ContentsOf(None) - {key} == ContentsOf(None)
  {
  }

  lemma SetKeyValid(s: State, h: History, key: Bytes, value: Bytes)
    requires Valid(s, h)
    ensures (s.root.Some? ==> WellFormed(s.root.value)) && Valid(SetKey(s, key, value), h)
  {
    hide Canonical, RecursiveSet, PersistedOf, VersionsIn, Subnodes, Ordered, Avl;
    SetKeyWorking(s, key, value);
    hide Working;
  }

  lemma RemoveKeyValid(s: State, h: History, key: Bytes)
    requires Valid(s, h)
    ensures (s.root.Some? ==> WellFormed(s.root.value)) && Valid(RemoveKey(s, key), h)
  {
    hide Canonical, RecursiveRemove, PersistedOf, VersionsIn, Subnodes, Ordered, Avl;
    RemoveKeyWorking(s, key);
    hide Working;
  }

  lemma UpdatedMap(s: State, key: Bytes, value: Bytes)
    requires s.root.Some? ==> WellFormed(s.root.value)
    ensures ContentsOf(SetKey(s, key, value).root) == ContentsOf(s.root)[key := value]
    ensures s.root.Some? ==> (RecursiveSet(s.root.value, key, value, s.version + 1).updated <==> key in Contents(s.root.value))
  {
    hide RecursiveSet, Contents, Ordered, Avl, PersistedOf;
    if s.root.Some? {
      SetContents(s.root.value, key, value, s.version + 1);
      ContentsKeys(s.root.value);
    } else {
      LeafContents(key, value, s.version + 1);
    }
  }

  /** What the recursion reports. */
  lemma RemoveReports(s: State, key: Bytes)
    requires s.root.Some? && WellFormed(s.root.value)
    ensures var r := RecursiveRemove(s.root.value, key, s.version + 1);
            (r.orphans == [] <==> key !in Contents(s.root.value)) && (r.orphans != [] ==> r.value == Some(Contents(s.root.value)[key]))
  {
    hide RecursiveRemove, Ordered, Avl, Contents;
    RemoveContents(s.root.value, key, s.version + 1);
  }

  /** An update of the working tree shows in nothing else. */
  lemma ViewOfRoot(s: State, t: State)
    ensures t == s.(root := t.root, orphans := t.orphans) ==> View(t) == View(s).(cur := ContentsOf(t.root))
    ensures View(s).cur == ContentsOf(s.root)
  {
    hide Contents, ReadVersion;
  }

  lemma SaveShows(a: Abstract, a': Abstract, h: History, root: Option<Node>)
    requires Shows(a, a.saved.Keys, h) && Shows(a', a.saved.Keys + {|h| + 1}, h + [root])
    ensures a'.saved == a.saved[|h| + 1 := ContentsOf(root)]
  {
    hide Contents;
    var m := a.saved[|h| + 1 := ContentsOf(root)];
    assert a'.saved.Keys == m.Keys;
    forall v | v in m.Keys ensures a'.saved[v] == m[v] {
      assert v in a'.saved && a'.saved[v] == ContentsOf((h + [root])[v - 1]);
      if v in a.saved { assert a.saved[v] == ContentsOf(h[v - 1]); }
    }
  }

  lemma SaveRefines(s: State, h: History)
    requires Valid(s, h)
    ensures View(Save(s)) == AbstractStep(View(s), OpSave)
  {
    SaveValid(s, h);
    ViewOfValid(s, h); ViewOfValid(Save(s), h + [s.root]);
    assert Save(s).db.roots.Keys == s.db.roots.Keys + {|h| + 1};
    hide Working, Canonical, ReadVersion, Contents, Lifetimes.SaveVersion;
    SaveShows(View(s), View(Save(s)), h, s.root);
  }

  lemma DeleteShows(a: Abstract, a': Abstract, h: History, gone: set<int>)
    requires Shows(a, a.saved.Keys, h) && Shows(a', a.saved.Keys - gone, h)
    ensures a'.saved == a.saved - gone
  {
    hide Contents;
    var m := a.saved - gone;
    assert a'.saved.Keys == m.Keys;
    forall v | v in m.Keys ensures a'.saved[v] == m[v] {
      assert v in a'.saved && a'.saved[v] == ContentsOf(h[v - 1]) == a.saved[v];
    }
  }

  lemma DeleteRefines(s: State, h: History, v: int)
    requires Valid(s, h)
    ensures View(Delete(s, v)) == AbstractStep(View(s), OpDelete(v))
  {
    hide Working, Canonical, ReadVersion, Contents, Lifetimes.DeleteVersion;
    var s' := Delete(s, v);
    DeleteValid(s, h, v);
    ViewOfValid(s, h); ViewOfValid(s', h);
    if MayDelete(s, v) {
      DeleteVersionCanonical(s.db, h, v);
      DeleteShows(View(s), View(s'), h, {v});
    }
    hide Shows;
    NoVersionZero(s, h);
  }

  lemma NoVersionZero(s: State, h: History)
    requires Valid(s, h)
    ensures 0 !in s.db.roots
  {}

  lemma DeleteRangeRefines(s: State, h: History, from: nat, to: int)
    requires Valid(s, h)
    ensures View(DeleteVersionsRange(s, from, to)) == AbstractStep(View(s), OpDeleteRange(from, to))
  {
    hide Working, Canonical, ReadVersion, Contents, Cut;
    var s' := DeleteVersionsRange(s, from, to);
    DeleteRangeValid(s, h, from, to);
    ViewOfValid(s, h); ViewOfValid(s', h);
    if MayDeleteRange(s, from, to) {
      CutCanonical(s.db, h, from, to);
      var gone := set v | v in View(s).saved && from <= v < to;
      assert gone == set v | v in s.db.roots && from <= v < to;
      DeleteShows(View(s), View(s'), h, gone);
    }
  }

  lemma OverwriteShows(a: Abstract, a': Abstract, h: History, v: int)
    requires Shows(a, a.saved.Keys, h) && v in a.saved && 1 <= v <= |h|
    requires Shows(a', (set u | u in a.saved && u <= v), h[..v])
    ensures a'.saved == map u | u in a.saved && u <= v :: a.saved[u]
    ensures ContentsOf(h[v - 1]) == a.saved[v]
  {
    hide Contents;
  }

  lemma OverwriteRefines(s: State, h: History, v: int)
    requires Valid(s, h)
    ensures View(Overwrite(s, v)) == AbstractStep(View(s), OpOverwrite(v))
  {
    hide Working, Canonical, ReadVersion, Contents, DeleteFrom, Load;
    ViewOfValid(s, h);
    if MayOverwrite(s, v) {
      var s' := Overwrite(s, v);
      OverwriteValid(s, h, v);
      OverwriteLoads(s, h, v);
      OverwriteRoots(s, h, v);
      ViewOfValid(s', h[..v]);
      assert (set u | u in s.db.roots && u <= v) == (set u | u in View(s).saved && u <= v);
      OverwriteShows(View(s), View(s'), h, v);
    }
  }

  lemma OverwriteRoots(s: State, h: History, v: int)
    requires Valid(s, h) && MayOverwrite(s, v)
    ensures Overwrite(s, v).db.roots.Keys == set u | u in s.db.roots && u <= v
  {
    hide Working, NodesOk, OrphansOk, Load;
    if v < |h| { OverwriteLoads(s, h, v); DeleteFromRoots(s.db, h, v); }
  }

  lemma RollbackRefines(s: State, h: History)
    requires Valid(s, h)
    ensures View(Rollback(s)) == AbstractStep(View(s), OpRollback)
  {
    LatestExists(s, h);
    ViewOfValid(s, h);
    hide ReadVersion, Contents, Working, Canonical;
  }

  lemma LatestExists(s: State, h: History)
    requires Valid(s, h)
    ensures s.version > 0 <==> s.version in s.db.roots
  {}

  lemma StepRefines(s: State, h: History, op: Op)
    requires Valid(s, h)
    ensures View(Step(s, op)) == AbstractStep(View(s), op)
  {
    WellFormedRoot(s, h);
    hide Valid, View, SetKey, RemoveKey, Save, Rollback, Delete, DeleteVersionsRange, Overwrite, AbstractStep, WellFormed;
    match op
    case OpSet(key, value) => SetRefines(s, key, value);
    case OpRemove(key) => RemoveRefines(s, key);
    case OpSave => SaveRefines(s, h);
    case OpRollback => RollbackRefines(s, h);
    case OpDelete(v) => DeleteRefines(s, h, v);
    case OpDeleteRange(from, to) => DeleteRangeRefines(s, h, from, to);
    case OpOverwrite(v) => OverwriteRefines(s, h, v);
    case _ => ReadersRefine(s, op);
  }

  lemma WellFormedRoot(s: State, h: History)
    requires Valid(s, h)
    ensures s.root.Some? ==> WellFormed(s.root.value) && Avl(s.root.value)
  {
    hide Canonical, Ordered, Avl, VersionsIn, Subnodes;
  }

  lemma ReadersRefine(s: State, op: Op)
    requires (op.OpOpenReader? || op.OpCloseReader?) && (s.root.Some? ==> Avl(s.root.value))
    ensures View(Step(s, op)) == AbstractStep(View(s), op)
  {
    hide ReadVersion, Contents, Avl;
  }

  // ---------- every run ----------

  function AbstractRun(a: Abstract, ops: seq<Op>): Abstract
    decreases |ops|
  {
    if ops == [] then a else AbstractRun(AbstractStep(a, ops[0]), ops[1..])
  }

  /** r is the state reached from s by the steps of ops. */
  ghost predicate Reaches(s: State, ops: seq<Op>, r: State)
    decreases |ops|
  {
    if ops == [] then r == s
    else (s.root.Some? ==> Avl(s.root.value)) && Reaches(Step(s, ops[0]), ops[1..], r)
  }

  lemma {:induction false} RunRefines(s: State, h: History, ops: seq<Op>, r: State) returns (h': History)
    requires Valid(s, h) && Reaches(s, ops, r)
    ensures Valid(r, h')
    ensures View(r) == AbstractRun(View(s), ops)
    decreases |ops|
  {
    hide Valid, Step, View, AbstractStep;
    if ops == [] { h' := h; }
    else {
      StepValid(s, h, ops[0]);
      StepRefines(s, h, ops[0]);
      h' := RunRefines(Step(s, ops[0]), HistoryAfter(s, h, ops[0]), ops[1..], r);
    }
  }

  lemma {:induction false} RunExists(s: State, h: History, ops: seq<Op>) returns (r: State)
    requires Valid(s, h)
    ensures Reaches(s, ops, r)
    decreases |ops|
  {
    if ops == [] { r := s; }
    else {
      StepValid(s, h, ops[0]);
      r := RunExists(Step(s, ops[0]), HistoryAfter(s, h, ops[0]), ops[1..]);
    }
  }

  lemma InitValid()
    ensures Valid(INIT, [])
  {
    CleanWorking(INIT);
  }

  /**
    In every run of updates, saves, roll-backs, prunings and overwrites, each
    existing version reads back the map it had when it was saved, the working
    tree is the working map, and every stored node is reachable from some
    existing version.
   */
  lemma EveryRun(ops: seq<Op>, s: State)
    requires Reaches(INIT, ops, s)
    ensures View(s) == AbstractRun(ABSTRACT_INIT, ops)
    ensures forall x :: x in s.db.nodes ==>
              exists v :: v in s.db.roots && s.db.roots[v].Some? && x in Subhashes(s.db.roots[v].value)
  {
    hide Reaches, Valid, View, Subhashes;
    InitValid();
    ViewOfInit();
    var h := RunRefines(INIT, [], ops, s);
    NoLeak(s, h);
  }

  lemma ViewOfInit()
    ensures View(INIT) == ABSTRACT_INIT
  {
  }

  lemma NoLeak(s: State, h: History)
    requires Valid(s, h)
    ensures forall x :: x in s.db.nodes ==>
              exists v :: v in s.db.roots && s.db.roots[v].Some? && x in Subhashes(s.db.roots[v].value)
  {
    hide Working, ValidHistory, OrphansOk, Subhashes;
    forall x | x in s.db.nodes
      ensures exists v :: v in s.db.roots && s.db.roots[v].Some? && x in Subhashes(s.db.roots[v].value) {
      var v :| v in s.db.roots && x in At(h, v);
      assert s.db.roots[v].Some? && x in Subhashes(s.db.roots[v].value);
    }
  }
}
