/**
  The synchronous MutableTree with its node database: each operation collects
  its writes in a batch and commits it. Every method is proved to take the
  corresponding step of VersionStore.
 */
module MutableTrees {
  import opened Options
  import opened ByteStrings
  import opened AvlTree
  import opened TreeUpdate
  import opened Orphans
  import opened Filters
  import opened MerkleHash
  import opened Lifetimes
  import VS = VersionStore
  import opened Intervals
  import RD = RunDeletion

  // ---------- batches ----------

  datatype Write =
    | PutRoot(v: int, root: Option<Hash>)
    | DropRoot(v: int)
    | PutNode(hash: Hash, node: DiskNode)
    | DropNode(hash: Hash)
    | PutOrphan(o: Orphan)
    | DropOrphan(o: Orphan)

  function Apply(db: Db, w: Write): Db
  {
    match w
    case PutRoot(v, root) => db.(roots := db.roots[v := root])
    case DropRoot(v) => db.(roots := db.roots - {v})
    case PutNode(hash, node) => db.(nodes := db.nodes[hash := node])
    case DropNode(hash) => db.(nodes := db.nodes - {hash})
    case PutOrphan(o) => db.(orphans := db.orphans + {o})
    case DropOrphan(o) => db.(orphans := db.orphans - {o})
  }

  /** Commits the writes in order. */
  function Commit(db: Db, batch: seq<Write>): Db
  {
    if batch == [] then db else Apply(Commit(db, batch[..|batch| - 1]), batch[|batch| - 1])
  }

  lemma CommitOneMore(db: Db, batch: seq<Write>, w: Write)
    ensures Commit(db, batch + [w]) == Apply(Commit(db, batch), w)
  {
    assert (batch + [w])[..|batch|] == batch;
  }

  /** The database after the records of `done` were cut back to version p. */
  function CutBack(db: Db, done: set<Orphan>, p: int): Db
  {
    Db(db.roots,
       db.nodes - (set r | r in done && p < r.from :: r.hash),
       (db.orphans - done) + (set r | r in done && p >= r.from :: Orphan(p, r.from, r.hash)))
  }

  lemma CutBackNone(db: Db, p: int)
    ensures CutBack(db, {}, p) == db
  {
    assert CutBack(db, {}, p).nodes == db.nodes;
    assert CutBack(db, {}, p).orphans == db.orphans;
  }

  lemma CutBackOne(db: Db, done: set<Orphan>, p: int, r: Orphan)
    requires r !in done && r.to != p
    ensures var w := if p < r.from then DropNode(r.hash) else PutOrphan(Orphan(p, r.from, r.hash));
            Apply(Apply(CutBack(db, done, p), DropOrphan(r)), w) == CutBack(db, done + {r}, p)
  {
    var w := if p < r.from then DropNode(r.hash) else PutOrphan(Orphan(p, r.from, r.hash));
    var a := Apply(Apply(CutBack(db, done, p), DropOrphan(r)), w);
    var b := CutBack(db, done + {r}, p);
    var dead := set o | o in done && p < o.from :: o.hash;
    var dead' := set o | o in done + {r} && p < o.from :: o.hash;
    assert dead' == if p < r.from then dead + {r.hash} else dead;
    var moved := set o | o in done && p >= o.from :: Orphan(p, o.from, o.hash);
    var moved' := set o | o in done + {r} && p >= o.from :: Orphan(p, o.from, o.hash);
    assert moved' == if p < r.from then moved else moved + {Orphan(p, r.from, r.hash)};
    assert a.nodes == b.nodes;
    assert a.orphans == b.orphans;
  }

  /** Two writes cut back one more record, which ended after p. */
  lemma CutRecord(db: Db, batch: seq<Write>, done: set<Orphan>, p: int, r: Orphan)
    requires r !in done && r.to > p && Commit(db, batch) == CutBack(db, done, p)
    ensures var w := if Dies(p, r) then DropNode(r.hash) else PutOrphan(Orphan(p, r.from, r.hash));
            Commit(db, batch + [DropOrphan(r)] + [w]) == CutBack(db, done + {r}, p)
  {
    hide CutBack, Commit;
    var w := if Dies(p, r) then DropNode(r.hash) else PutOrphan(Orphan(p, r.from, r.hash));
    CommitOneMore(db, batch, DropOrphan(r));
    CommitOneMore(db, batch + [DropOrphan(r)], w);
    CutBackOne(db, done, p, r);
  }

  class MutableTree {
    var root: Option<Node>
    var lastSaved: Option<Node>
    var version: int
    var orphans: seq<Node>
    var readers: multiset<int>
    var db: Db
    ghost var history: History  // the saved trees, deleted versions included

    function Now(): VS.State
      reads this
    {
      VS.State(root, lastSaved, version, orphans, readers, db)
    }

    ghost predicate Valid()
      reads this
    {
      VS.Valid(Now(), history)
    }

    constructor ()
      ensures Now() == VS.INIT && Valid()
    {
      root, lastSaved, version, orphans, readers, db := None, None, 0, [], multiset{}, EMPTY;
      history := [];
      new;
      VS.InitValid();
    }

    // ---------- updates ----------

    method AddOrphans(list: seq<Node>)
      modifies this`orphans
      ensures orphans == old(orphans) + PersistedOf(list, version)
    {
      hide PersistedOf;
      KeepNone(orphans, list, version);
      var i := 0;
      while i < |list|
        invariant 0 <= i <= |list|
        invariant orphans == old(orphans) + PersistedOf(list[..i], version)
      {
        KeepOne(old(orphans), list, i, version);
        if list[i].version <= version { orphans := orphans + [list[i]]; }
        i := i + 1;
      }
      assert list[..i] == list;
    }

    method Set(key: Bytes, value: Bytes) returns (updated: bool)
      requires Valid()
      modifies this`root, this`orphans
      ensures Now() == VS.SetKey(old(Now()), key, value) && Valid()
      ensures VS.ContentsOf(root) == old(VS.ContentsOf(root))[key := value]
      ensures updated <==> key in old(VS.ContentsOf(root))
    {
      hide VS.Valid, RecursiveSet, PersistedOf, Contents, Ordered, Avl;
      VS.SetKeyValid(Now(), history, key, value);
      VS.UpdatedMap(Now(), key, value);
      if root.None? {
        root := Some(Leaf(key, value, version + 1));
        updated := false;
      } else {
        var r := RecursiveSet(root.value, key, value, version + 1);
        root := Some(r.node);
        AddOrphans(r.orphans);
        updated := r.updated;
      }
    }

    method Remove(key: Bytes) returns (value: Option<Bytes>, removed: bool)
      requires Valid()
      modifies this`root, this`orphans
      ensures Now() == VS.RemoveKey(old(Now()), key) && Valid()
      ensures VS.ContentsOf(root) == old(VS.ContentsOf(root)) - {key}
      ensures removed <==> key in old(VS.ContentsOf(root))
      ensures value == if removed then Some(old(VS.ContentsOf(root))[key]) else None
    {
      hide VS.Valid, RecursiveRemove, PersistedOf, Contents, Ordered, Avl;
      VS.RemoveKeyValid(Now(), history, key);
      VS.RemovedMap(Now(), key);
      if root.Some? { VS.RemoveReports(Now(), key); }
      if root.None? { return None, false; }
      var r := RecursiveRemove(root.value, key, version + 1);
      if r.orphans == [] { return None, false; }
      root := r.node;
      AddOrphans(r.orphans);
      return r.value, true;
    }

    method Rollback()
      requires Valid()
      modifies this`root, this`orphans
      ensures Now() == VS.Rollback(old(Now())) && Valid()
    {
      VS.StepValid(Now(), history, VS.OpRollback);
      root := if version > 0 then lastSaved else None;
      orphans := [];
    }

    // ---------- pruning ----------

    /** Traverses the records that end at v, in whatever order the iterator yields them. */
    method DeleteOrphans(batch: seq<Write>, v: int) returns (batch': seq<Write>)
      requires v >= 1 && Commit(db, batch) == db
      ensures Commit(db, batch') == CutBack(db, (set r | r in db.orphans && r.to == v), GetPreviousVersion(db, v))
    {
      hide CutBack, Commit;
      batch' := batch;
      var p := GetPreviousVersion(db, v);
      var todo := set r | r in db.orphans && r.to == v;
      ghost var all := todo;
      CutBackNone(db, p);
      assert all - todo == {};
      while todo != {}
        invariant todo <= all
        invariant Commit(db, batch') == CutBack(db, all - todo, p)
      {
        var r :| r in todo;
        var w := if Dies(p, r) then DropNode(r.hash) else PutOrphan(Orphan(p, r.from, r.hash));
        CutRecord(db, batch', all - todo, p, r);
        assert (all - todo) + {r} == all - (todo - {r});
        batch' := batch' + [DropOrphan(r)] + [w];
        todo := todo - {r};
      }
      assert all - todo == all;
    }

    method DeleteVersion(v: int) returns (ok: bool)
      requires Valid()
      modifies this`db
      ensures ok <==> old(VS.MayDelete(Now(), v))
      ensures Now() == VS.Delete(old(Now()), v) && Valid()
    {
      hide VS.Valid, CutBack, Commit, Lifetimes.DeleteVersion;
      VS.DeleteValid(Now(), history, v);
      if v in db.roots { RootIsPositive(v); }
      if v == 0 || v == version || v !in db.roots || readers[v] > 0 { return false; }
      CommitNothing(db);
      var batch := DeleteOrphans([], v);
      CommitOneMore(db, batch, DropRoot(v));
      batch := batch + [DropRoot(v)];
      DeleteVersionIsCutBack(db, v);
      db := Commit(db, batch);
      return true;
    }

    lemma RootIsPositive(v: int)
      requires Valid() && v in db.roots
      ensures v >= 1
    {
      hide VS.Working, NodesOk, OrphansOk, ValidHistory;
    }

    /** One interval of versions in one batch. */
    method DeleteVersionsRange(from: int, to: int) returns (ok: bool)
      requires RD.Sane(Now())
      modifies this`db
      ensures ok <==> old(VS.MayDeleteRange(Now(), from, to))
      ensures Now() == VS.DeleteVersionsRange(old(Now()), from, to)
      ensures RD.Sane(Now()) && (from >= 0 && old(Valid()) ==> Valid())
    {
      hide VS.Valid, RD.Sane, DeleteRange, GetPreviousVersion;
      RD.RangeKeeps(Now(), history, from, to);
      if from >= to || to == 0 || version < to { return false; }
      var p := GetPreviousVersion(db, from);
      if exists v :: v in readers && p < v < to { return false; }
      assert forall r :: r in db.orphans && from <= r.to < to ==> r.to != p by { PreviousIsOutside(from, to); }
      var batch := RangeBatch(from, to, p);
      db := Commit(db, batch);
      return true;
    }

    lemma PreviousIsOutside(from: int, to: int)
      requires RD.Sane(Now()) && to <= version
      ensures forall r :: r in db.orphans && from <= r.to < to ==> r.to != GetPreviousVersion(db, from)
    {
      if version > 0 { assert version in db.roots.Keys; }
    }

    /** The iterators read the database as it was before the batch. */
    method RangeBatch(from: int, to: int, p: int) returns (batch: seq<Write>)
      requires from < to && p == GetPreviousVersion(db, from)
      requires forall r :: r in db.orphans && from <= r.to < to ==> r.to != p
      ensures Commit(db, batch) == DeleteRange(db, from, to)
    {
      batch := [];
      var v := from;
      CutBackNone(db, p);
      assert Ending(db, from, from) == {};
      while v < to
        invariant from <= v <= to
        invariant Commit(db, batch) == CutBack(db, Ending(db, from, v), p)
      {
        batch := CutVersion(batch, from, v, p);
        v := v + 1;
      }
      batch := DropRoots(batch, from, to, CutBack(db, Ending(db, from, to), p));
      RangeIsCutBack(db, from, to);
    }

    method CutVersion(batch: seq<Write>, from: int, v: int, p: int) returns (batch': seq<Write>)
      requires from <= v && forall r :: r in db.orphans && r.to == v ==> r.to != p
      requires Commit(db, batch) == CutBack(db, Ending(db, from, v), p)
      ensures Commit(db, batch') == CutBack(db, Ending(db, from, v + 1), p)
    {
      batch' := batch;
      var todo := set r | r in db.orphans && r.to == v;
      ghost var before, all := Ending(db, from, v), todo;
      assert before + (all - todo) == before;
      while todo != {}
        invariant todo <= all
        invariant Commit(db, batch') == CutBack(db, before + (all - todo), p)
      {
        var r :| r in todo;
        var w := if p < r.from then DropNode(r.hash) else PutOrphan(Orphan(p, r.from, r.hash));
        CommitOneMore(db, batch', DropOrphan(r));
        CommitOneMore(db, batch' + [DropOrphan(r)], w);
        CutBackOne(db, before + (all - todo), p, r);
        assert before + (all - todo) + {r} == before + (all - (todo - {r}));
        batch' := batch' + [DropOrphan(r)] + [w];
        todo := todo - {r};
      }
      assert before + (all - todo) == Ending(db, from, v + 1);
    }

    /** Drops the roots whose keys lie between those of the two bounds. */
    method DropRoots(batch: seq<Write>, from: int, to: int, ghost now: Db) returns (batch': seq<Write>)
      requires Commit(db, batch) == now && now.roots == db.roots
      ensures Commit(db, batch') == now.(roots := db.roots - RootKeysIn(db, from, to))
    {
      batch' := batch;
      var todo := RootKeysIn(db, from, to);
      ghost var all := todo;
      assert db.roots - (all - todo) == db.roots;
      while todo != {}
        invariant todo <= all
        invariant Commit(db, batch') == now.(roots := db.roots - (all - todo))
      {
        var v :| v in todo;
        CommitOneMore(db, batch', DropRoot(v));
        assert (db.roots - (all - todo)) - {v} == db.roots - (all - (todo - {v}));
        batch' := batch' + [DropRoot(v)];
        todo := todo - {v};
      }
      assert all - todo == all;
    }

    /**
      Deletes the runs of a list of versions, in whatever order the map yields them, up to the first
      that is refused. The runs deleted are returned in `order`.
     */
    method DeleteVersions(vs: seq<int>) returns (ok: bool, ghost order: seq<int>)
      requires Valid() && version < VS.INT64_LIMIT
      modifies this`db
      ensures RD.AllAdmitted(old(Now()), Runs(vs), order) && Now() == RD.DeleteRuns(old(Now()), Runs(vs), order)
      ensures ok ==> forall f :: f in Runs(vs) ==> f in order
      ensures ok <==> forall f :: f in Runs(vs) ==> RD.Admits(old(Now()), f, f + Runs(vs)[f])
      // versions that are not negative: a refusal has deleted some runs and no other version
      ensures RD.NoneNegative(vs) ==> Valid()
      ensures RD.NoneNegative(vs) ==> (ok <==> forall v :: Takes(Runs(vs), v) ==> v < version && readers[v] == 0)
      ensures RD.NoneNegative(vs) ==> forall v :: v in old(db.roots) && v !in db.roots ==> Takes(Runs(vs), v)
      ensures RD.NoneNegative(vs) && ok ==> db.roots.Keys == old(db.roots.Keys) - (set v | v in old(db.roots) && Takes(Runs(vs), v))
      ensures RD.NoneNegative(vs) ==>
                forall list :: RD.Lists(list, old(db.roots.Keys) - db.roots.Keys) ==> db == DeleteEach(old(db), list)
      ensures RD.NoneNegative(vs) && ok && NoneExtra(vs) ==> db.roots.Keys == old(db.roots.Keys) - (set v | v in vs)
    {
      hide VS.Valid, Runs, Takes, NoneExtra, RD.Admits, RD.AllAdmitted, RD.DeleteRuns;
      ghost var was := Now();
      RD.ValidIsSane(was, history);
      ok, order := DeleteAll(vs);
      if RD.NoneNegative(vs) {
        RD.RunsDeleteGiven(was, history, vs, order);
        RD.AllAdmittedIff(was, vs);
        if ok && NoneExtra(vs) { ExactlyGiven(vs, was.db.roots.Keys); }
      }
    }

    method DeleteAll(vs: seq<int>) returns (ok: bool, ghost order: seq<int>)
      requires RD.Sane(Now())
      modifies this`db
      ensures RD.AllAdmitted(old(Now()), Runs(vs), order) && Now() == RD.DeleteRuns(old(Now()), Runs(vs), order)
      ensures ok ==> forall f :: f in Runs(vs) ==> f in order
      ensures ok <==> forall f :: f in Runs(vs) ==> RD.Admits(old(Now()), f, f + Runs(vs)[f])
    {
      hide RD.Sane, RD.Admits, Runs;
      if |vs| == 0 {
        NoRuns(vs);
        return true, [];
      }
      var intervals := SortAndSplit(vs);
      ok, order := DeleteIntervals(intervals);
    }

    method DeleteIntervals(intervals: map<int, int>) returns (ok: bool, ghost order: seq<int>)
      requires RD.Sane(Now())
      modifies this`db
      ensures RD.AllAdmitted(old(Now()), intervals, order) && Now() == RD.DeleteRuns(old(Now()), intervals, order)
      ensures ok ==> forall f :: f in intervals ==> f in order
      ensures ok <==> forall f :: f in intervals ==> RD.Admits(old(Now()), f, f + intervals[f])
    {
      hide RD.Sane, RD.Admits, VS.Valid, VS.MayDeleteRange, DeleteRange;
      var todo: set<int> := intervals.Keys;
      order := [];
      while todo != {}
        invariant todo <= intervals.Keys && RD.Sane(Now())
        invariant forall f :: f in intervals ==> f in todo || f in order
        invariant RD.AllAdmitted(old(Now()), intervals, order) && Now() == RD.DeleteRuns(old(Now()), intervals, order)
        invariant version == old(version) && readers == old(readers)
      {
        assert exists f :: f in todo by { if forall f :: f !in todo { assert false; } }
        var f :| f in todo;
        RD.MayIsAdmits(Now(), f, f + intervals[f]);
        RD.SameAdmits(old(Now()), Now(), f, f + intervals[f]);
        var r := DeleteVersionsRange(f, f + intervals[f]);
        if !r { return false, order; }
        assert (order + [f])[..|order|] == order;
        order := order + [f];
        todo := todo - {f};
      }
      return true, order;
    }

    // ---------- saving ----------

    /** Children first; a persisted subtree is not entered. */
    method SaveBranch(batch: seq<Write>, n: Node) returns (batch': seq<Write>)
      requires Ordered(n) && PersistedBelow(n, version)
      ensures Commit(db, batch') == AddNodes(Commit(db, batch), Unsaved(n, version))
      decreases n
    {
      batch' := batch;
      if n.version <= version {
        assert AddNodes(Commit(db, batch), {}) == Commit(db, batch) by { AddNoNodes(Commit(db, batch)); }
        return;
      }
      ghost var d := Commit(db, batch);
      if n.Inner? {
        batch' := SaveBranch(batch', n.left);
        batch' := SaveBranch(batch', n.right);
      }
      CommitOneMore(db, batch', PutNode(HashOf(n), ToDisk(n)));
      DiskContent(n);
      AddNodesInOrder(d, n, version);
      batch' := batch' + [PutNode(HashOf(n), ToDisk(n))];
    }

    method SaveOrphans(batch: seq<Write>) returns (batch': seq<Write>)
      requires forall n :: n in orphans ==> n.version <= GetPreviousVersion(db, version + 1)
      ensures Commit(db, batch') == AddOrphanRecords(Commit(db, batch), orphans, GetPreviousVersion(db, version + 1))
    {
      var to := GetPreviousVersion(db, version + 1);
      batch' := batch;
      var i := 0;
      while i < |orphans|
        invariant 0 <= i <= |orphans|
        invariant Commit(db, batch') == AddOrphanRecords(Commit(db, batch), orphans[..i], to)
      {
        var o := Orphan(to, orphans[i].version, HashOf(orphans[i]));
        assert o.from <= o.to;  // saveOrphan panics otherwise
        CommitOneMore(db, batch', PutOrphan(o));
        batch' := batch' + [PutOrphan(o)];
        assert orphans[..i + 1] == orphans[..i] + [orphans[i]];
        AddOneRecord(Commit(db, batch), orphans[..i], orphans[i], to);
        i := i + 1;
      }
      assert orphans[..i] == orphans;
    }

    method SaveVersion()
      requires Valid()
      modifies this
      ensures Now() == VS.Save(old(Now())) && history == old(history) + [old(root)] && Valid()
    {
      VS.SaveValid(Now(), history);
      var batch := SaveBatch();
      hide VS.Valid;
      db := Commit(db, batch);
      history := history + [root];
      version := version + 1;
      lastSaved := root;
      orphans := [];
    }

    method SaveBatch() returns (batch: seq<Write>)
      requires Valid()
      ensures Commit(db, batch) == VS.Save(Now()).db
    {
      hide VS.Valid;
      ReadyToSave();
      batch := [];
      if root.Some? { batch := SaveBranch(batch, root.value); }
      batch := SaveOrphans(batch);
      CommitOneMore(db, batch, PutRoot(version + 1, RootHash(root)));
      batch := batch + [PutRoot(version + 1, RootHash(root))];
      SaveIsOneStep();
    }

    lemma ReadyToSave()
      requires Valid()
      ensures root.Some? ==> Ordered(root.value) && PersistedBelow(root.value, version)
      ensures forall n :: n in orphans ==> n.version <= GetPreviousVersion(db, version + 1)
      ensures forall x :: x in HashesOf(root) ==> x.version <= version + 1
    {
      hide NodesOk, OrphansOk, Ordered, Avl;
      if root.Some? { VS.WorkingOkFromWorking(Now(), history); PersistedTreesBelow(root.value); }
      forall n | n in orphans ensures n.version <= version { VS.VersionsInSubnodes(lastSaved.value, version, n); }
      if version > 0 { assert version in db.roots; }
    }

    /** A persisted node of the working tree is a node of the saved tree, with all that is below it. */
    lemma {:induction false} PersistedTreesBelow(n: Node)
      requires Valid() && Subnodes(n) <= SubnodesOf(root)
      ensures PersistedBelow(n, version)
    {
      hide NodesOk, OrphansOk, Ordered, Avl;
      assert n in Subnodes(n);
      if n.version <= version {
        assert n in SubnodesOf(lastSaved);
        forall x | x in Subhashes(HashOf(n)) ensures x.version <= version {
          SubhashesAreSubnodes(n, x);
          var m :| m in Subnodes(n) && HashOf(m) == x;
          assert m in SubnodesOf(root);
          SubtreeIn(lastSaved.value, n, m);
          VS.VersionsInSubnodes(lastSaved.value, version, m);
        }
      }
      if n.Inner? { PersistedTreesBelow(n.left); PersistedTreesBelow(n.right); }
    }

    lemma SaveIsOneStep()
      requires forall x :: x in HashesOf(root) ==> x.version <= version + 1
      ensures var v := version + 1;
              var d := if root.Some? then AddNodes(db, Unsaved(root.value, version)) else db;
              Apply(AddOrphanRecords(d, orphans, GetPreviousVersion(db, v)), PutRoot(v, RootHash(root)))
                == VS.Save(Now()).db
    {
      hide Subhashes, Content, HashOf, HashesOf, GetPreviousVersion, AddNodes, AddOrphanRecords, Apply, Lifetimes.SaveVersion;
      BatchIsCommit(db, root, orphans, VS.OrphanHashes(Now()), version);
    }

    // ---------- deleting everything above a version ----------

    /** Drops the nodes of the tree at h that were created at `from` or later. */
    method DeleteNodesFrom(batch: seq<Write>, from: int, h: Hash) returns (batch': seq<Write>)
      requires forall x :: x in Subhashes(h) ==> x in db.nodes && db.nodes[x] == Content(x)
      ensures Commit(db, batch') == DropNodes(Commit(db, batch), CreatedSince(h, from))
      decreases h
    {
      batch' := batch;
      ghost var d := Commit(db, batch);
      assert h in Subhashes(h);
      var node := db.nodes[h];
      if node.DiskInner? {
        batch' := DeleteNodesFrom(batch', from, node.leftHash);
        batch' := DeleteNodesFrom(batch', from, node.rightHash);
      }
      if node.version >= from {
        CommitOneMore(db, batch', DropNode(h));
        batch' := batch' + [DropNode(h)];
      }
      DropNodesInOrder(d, h, from);
    }

    method DeleteOrphansFrom(batch: seq<Write>, from: int) returns (batch': seq<Write>)
      requires Commit(db, batch).orphans == db.orphans
      ensures Commit(db, batch') == ReviveOrphans(Commit(db, batch), db.orphans, from)
    {
      batch' := batch;
      var todo := db.orphans;
      ghost var d := Commit(db, batch);
      ReviveNone(d, from);
      assert db.orphans - todo == {};
      while todo != {}
        invariant todo <= db.orphans
        invariant Commit(db, batch') == ReviveOrphans(d, db.orphans - todo, from)
      {
        var r :| r in todo;
        if r.from >= from {
          CommitOneMore(db, batch', DropOrphan(r));
          CommitOneMore(db, batch' + [DropOrphan(r)], DropNode(r.hash));
          batch' := batch' + [DropOrphan(r)] + [DropNode(r.hash)];
        } else if r.to >= from - 1 {
          CommitOneMore(db, batch', DropOrphan(r));
          batch' := batch' + [DropOrphan(r)];
        }
        ReviveOne(d, db.orphans - todo, r, from);
        assert (db.orphans - todo) + {r} == db.orphans - (todo - {r});
        todo := todo - {r};
      }
      assert db.orphans - todo == db.orphans;
    }

    /** DeleteVersionsFrom(v + 1), committed, and then loading v as the working tree. */
    method OverwriteFrom(v: int) returns (ok: bool)
      requires Valid() && version < VS.INT64_LIMIT - 1 && v >= 1
      modifies this
      ensures ok <==> old(VS.MayOverwrite(Now(), v))
      ensures Now() == VS.Overwrite(old(Now()), v) && Valid()
      ensures history == if ok then old(history)[..v] else old(history)
    {
      hide VS.Valid, DeleteFrom, Load;
      if v !in db.roots || exists r :: r in readers && r > v {
        return false;
      }
      VS.OverwriteValid(Now(), history, v);
      VS.OverwriteLoadsValid(Now(), history, v);
      var t := if db.roots[v].None? then None else Load(db.nodes, db.roots[v].value);
      if version > v {
        LatestExists();
        var batch := FromBatch(v + 1);
        db := Commit(db, batch);
      }
      history := history[..v];
      root, lastSaved, version, orphans := t, t, v, [];
      return true;
    }

    method FromBatch(from: int) returns (batch: seq<Write>)
      requires Valid() && version in db.roots && 0 <= from && version < VS.INT64_LIMIT - 1
      ensures Commit(db, batch) == DeleteFrom(db, db.roots[version], from)
    {
      hide CreatedSince, DeleteFrom, RootKeysIn, Commit;
      batch := [];
      CommitNothing(db);
      var latest := db.roots[version];
      if latest.Some? {
        LatestTreeIsStored();
        batch := DeleteNodesFrom(batch, from, latest.value);
      }
      batch := DeleteOrphansFrom(batch, from);
      ghost var newer := if latest.Some? then CreatedSince(latest.value, from) else {};
      ghost var d := ReviveOrphans(DropNodes(db, newer), db.orphans, from);
      DropNoNodes(db);
      batch := DropRoots(batch, from, VS.INT64_LIMIT - 1, d);
      assert forall u :: u in db.roots ==> u < VS.INT64_LIMIT - 1;
      FromIsOneStep(db, latest, from, VS.INT64_LIMIT - 1);
    }

    lemma LatestExists()
      requires Valid() && version > 0
      ensures version in db.roots
    {
      VS.LatestExists(Now(), history);
    }

    lemma LatestTreeIsStored()
      requires Valid() && version in db.roots && db.roots[version].Some?
      ensures forall x :: x in Subhashes(db.roots[version].value) ==> x in db.nodes && db.nodes[x] == Content(x)
    {
      hide VS.Working, OrphansOk, ValidHistory;
      assert At(history, version) == Subhashes(db.roots[version].value);
      hide At;
    }
  }

  lemma KeepNone(was: seq<Node>, list: seq<Node>, version: int)
    ensures was + PersistedOf(list[..0], version) == was
  {
    FilterNone(PersistedBy(version), list[..0]);
  }

  lemma KeepOne(was: seq<Node>, list: seq<Node>, i: nat, version: int)
    requires i < |list|
    ensures was + PersistedOf(list[..i + 1], version) ==
            was + PersistedOf(list[..i], version) + (if list[i].version <= version then [list[i]] else [])
  {
    hide Filter;
    assert list[..i + 1] == list[..i] + [list[i]];
    FilterConcat(PersistedBy(version), list[..i], [list[i]]);
    FilterOne(PersistedBy(version), list[i]);
  }

  lemma DropNoNodes(db: Db)
    ensures DropNodes(db, {}) == db
  {
    assert db.nodes - {} == db.nodes;
  }

  lemma CommitNothing(db: Db)
    ensures Commit(db, []) == db
  {
  }

  function CreatedSince(h: Hash, from: int): set<Hash>
  {
    set x | x in Subhashes(h) && x.version >= from
  }

  function DropNodes(d: Db, hs: set<Hash>): Db { d.(nodes := d.nodes - hs) }

  lemma DropNodesInOrder(d: Db, h: Hash, from: int)
    ensures var d' := if h.InnerHash? then DropNodes(DropNodes(d, CreatedSince(h.left, from)), CreatedSince(h.right, from)) else d;
            (if h.version >= from then Apply(d', DropNode(h)) else d') == DropNodes(d, CreatedSince(h, from))
  {
    assert CreatedSince(h, from) ==
      (if h.InnerHash? then CreatedSince(h.left, from) + CreatedSince(h.right, from) else {}) +
      (if h.version >= from then {h} else {});
    hide CreatedSince;
    var d' := if h.InnerHash? then DropNodes(DropNodes(d, CreatedSince(h.left, from)), CreatedSince(h.right, from)) else d;
    var a, b := (if h.version >= from then Apply(d', DropNode(h)) else d'), DropNodes(d, CreatedSince(h, from));
    assert a.nodes == b.nodes;
  }

  /** The records of `done` created since go with their nodes; those that ended at the kept version or later go. */
  function ReviveOrphans(d: Db, done: set<Orphan>, from: int): Db
  {
    Db(d.roots,
       d.nodes - (set r | r in done && r.from >= from :: r.hash),
       d.orphans - (set r | r in done && (r.from >= from || r.to >= from - 1)))
  }

  lemma ReviveNone(d: Db, from: int)
    ensures ReviveOrphans(d, {}, from) == d
  {
    assert ReviveOrphans(d, {}, from).nodes == d.nodes;
    assert ReviveOrphans(d, {}, from).orphans == d.orphans;
  }

  lemma ReviveOne(d: Db, done: set<Orphan>, r: Orphan, from: int)
    ensures var e := ReviveOrphans(d, done, from);
            ReviveOrphans(d, done + {r}, from) ==
              if r.from >= from then Apply(Apply(e, DropOrphan(r)), DropNode(r.hash))
              else if r.to >= from - 1 then Apply(e, DropOrphan(r)) else e
  {
    var e := ReviveOrphans(d, done, from);
    var a := if r.from >= from then Apply(Apply(e, DropOrphan(r)), DropNode(r.hash))
             else if r.to >= from - 1 then Apply(e, DropOrphan(r)) else e;
    var b := ReviveOrphans(d, done + {r}, from);
    assert a.nodes == b.nodes;
    assert a.orphans == b.orphans;
  }

  lemma FromIsOneStep(db: Db, latest: Option<Hash>, from: int, limit: int)
    requires from >= 0 && forall u :: u in db.roots ==> u < limit
    ensures var newer := if latest.Some? then CreatedSince(latest.value, from) else {};
            ReviveOrphans(DropNodes(db, newer), db.orphans, from).(roots := db.roots - RootKeysIn(db, from, limit))
              == DeleteFrom(db, latest, from)
  {
    var newer := if latest.Some? then CreatedSince(latest.value, from) else {};
    var a := ReviveOrphans(DropNodes(db, newer), db.orphans, from).(roots := db.roots - RootKeysIn(db, from, limit));
    var b := DeleteFrom(db, latest, from);
    hide Subhashes;
    assert a.roots == b.roots;
    assert a.nodes == b.nodes;
    assert a.orphans == b.orphans;
  }

  lemma RecordsAgree(db: Db, orphans: seq<Node>, dead: set<Hash>, to: int)
    requires dead == set n | n in orphans :: HashOf(n)
    ensures AddOrphanRecords(db, orphans, to).orphans == db.orphans + (set x | x in dead :: Orphan(to, x.version, x))
  {
    assert forall n: Node :: HashOf(n).version == n.version;
    hide HashOf;
    assert (set n | n in orphans :: Orphan(to, n.version, HashOf(n))) == (set x | x in dead :: Orphan(to, x.version, x));
  }

  /** Nodes, orphan records and root written one by one make the new version. */
  lemma BatchIsCommit(db: Db, root: Option<Node>, orphans: seq<Node>, dead: set<Hash>, version: int)
    requires forall x :: x in HashesOf(root) ==> x.version <= version + 1
    requires dead == set n | n in orphans :: HashOf(n)
    ensures var d := if root.Some? then AddNodes(db, Unsaved(root.value, version)) else db;
            Apply(AddOrphanRecords(d, orphans, GetPreviousVersion(db, version + 1)), PutRoot(version + 1, RootHash(root)))
              == Lifetimes.SaveVersion(db, version + 1, root, dead)
  {
    hide Subhashes, Content, HashOf, HashesOf, Unsaved, GetPreviousVersion;
    SavedNodesAgree(db, root, version);
    var d := if root.Some? then AddNodes(db, Unsaved(root.value, version)) else db;
    RecordsAgree(d, orphans, dead, GetPreviousVersion(db, version + 1));
  }

  lemma SavedNodesAgree(db: Db, root: Option<Node>, version: int)
    requires forall x :: x in HashesOf(root) ==> x.version <= version + 1
    ensures var d := if root.Some? then AddNodes(db, Unsaved(root.value, version)) else db;
            d == AddNodes(db, set x | x in HashesOf(root) && x.version == version + 1)
  {
    hide Subhashes, Content, HashOf;
    var new_ := set x | x in HashesOf(root) && x.version == version + 1;
    if root.Some? {
      assert Unsaved(root.value, version) == new_;
    } else {
      assert new_ == {};
      assert db.nodes + (map x | x in new_ :: Content(x)) == db.nodes;
    }
  }

  lemma NoRuns(vs: seq<int>)
    requires vs == []
    ensures Runs(vs) == map[]
  {
  }

  lemma ExactlyGiven(vs: seq<int>, versions: set<int>)
    requires NoneExtra(vs)
    ensures versions - (set v | v in versions && Takes(Runs(vs), v)) == versions - (set v | v in vs)
  {
    RunsExactIff(vs);
    hide Runs, Takes;
  }

  // ---------- what the parts of a batch add ----------

  function AddNodes(db: Db, hs: set<Hash>): Db
  {
    db.(nodes := db.nodes + (map x | x in hs :: Content(x)))
  }

  function Unsaved(n: Node, saved: int): set<Hash>
  {
    set x | x in Subhashes(HashOf(n)) && x.version > saved
  }

  /** Below a persisted node everything is persisted. */
  ghost predicate PersistedBelow(n: Node, saved: int)
  {
    && (n.version <= saved ==> Unsaved(n, saved) == {})
    && (n.Inner? ==> PersistedBelow(n.left, saved) && PersistedBelow(n.right, saved))
  }

  lemma AddNoNodes(d: Db)
    ensures AddNodes(d, {}) == d
  {
    assert AddNodes(d, {}).nodes == d.nodes;
  }

  lemma AddNodesUnion(d: Db, a: set<Hash>, b: set<Hash>)
    ensures AddNodes(AddNodes(d, a), b) == AddNodes(d, a + b)
  {
    hide Content;
    assert AddNodes(AddNodes(d, a), b).nodes == AddNodes(d, a + b).nodes;
  }

  lemma PutIsAdd(d: Db, x: Hash)
    ensures Apply(d, PutNode(x, Content(x))) == AddNodes(d, {x})
  {
    hide Content;
    assert Apply(d, PutNode(x, Content(x))).nodes == AddNodes(d, {x}).nodes;
  }

  lemma UnsavedParts(n: Node, saved: int)
    requires n.version > saved
    ensures Unsaved(n, saved) == (if n.Inner? then Unsaved(n.left, saved) + Unsaved(n.right, saved) else {}) + {HashOf(n)}
  {}

  lemma AddNodesInOrder(d: Db, n: Node, saved: int)
    requires n.version > saved
    ensures var d' := if n.Inner? then AddNodes(AddNodes(d, Unsaved(n.left, saved)), Unsaved(n.right, saved)) else d;
            Apply(d', PutNode(HashOf(n), Content(HashOf(n)))) == AddNodes(d, Unsaved(n, saved))
  {
    hide AddNodes, Apply, Unsaved, Content;
    UnsavedParts(n, saved);
    if n.Inner? {
      var l, r := Unsaved(n.left, saved), Unsaved(n.right, saved);
      AddNodesUnion(d, l, r);
      PutIsAdd(AddNodes(d, l + r), HashOf(n));
      AddNodesUnion(d, l + r, {HashOf(n)});
    } else {
      PutIsAdd(d, HashOf(n));
      assert {} + {HashOf(n)} == {HashOf(n)};
    }
  }

  function AddOrphanRecords(db: Db, list: seq<Node>, to: int): Db
  {
    db.(orphans := db.orphans + (set n | n in list :: Orphan(to, n.version, HashOf(n))))
  }

  lemma AddOneRecord(d: Db, list: seq<Node>, n: Node, to: int)
    ensures Apply(AddOrphanRecords(d, list, to), PutOrphan(Orphan(to, n.version, HashOf(n)))) == AddOrphanRecords(d, list + [n], to)
  {
    var a, b := Apply(AddOrphanRecords(d, list, to), PutOrphan(Orphan(to, n.version, HashOf(n)))), AddOrphanRecords(d, list + [n], to);
    assert a.orphans == b.orphans;
  }

  /** Records whose lifetime ends in [from, v). */
  function Ending(db: Db, from: int, v: int): set<Orphan>
  {
    set r | r in db.orphans && from <= r.to < v
  }

  /** A negative bound is a key above every version. */
  function RootKeysIn(db: Db, from: int, to: int): set<int>
  {
    if from < 0 then {} else set v | v in db.roots && from <= v < to
  }

  lemma DeleteVersionIsCutBack(db: Db, v: int)
    requires v >= 1
    ensures var done := set r | r in db.orphans && r.to == v;
            Apply(CutBack(db, done, GetPreviousVersion(db, v)), DropRoot(v)) == Lifetimes.DeleteVersion(db, v)
  {
    var p := GetPreviousVersion(db, v);
    var done := set r | r in db.orphans && r.to == v;
    var a, b := Apply(CutBack(db, done, p), DropRoot(v)), Lifetimes.DeleteVersion(db, v);
    assert forall r :: r in done ==> (Dies(p, r) <==> p < r.from);
    assert a.nodes == b.nodes;
    assert a.orphans == b.orphans;
  }

  lemma RangeIsCutBack(db: Db, from: int, to: int)
    ensures var p := GetPreviousVersion(db, from);
            CutBack(db, Ending(db, from, to), p).(roots := db.roots - RootKeysIn(db, from, to)) == DeleteRange(db, from, to)
  {
    var p := GetPreviousVersion(db, from);
    var a, b := CutBack(db, Ending(db, from, to), p).(roots := db.roots - RootKeysIn(db, from, to)), DeleteRange(db, from, to);
    assert a.roots == b.roots;
    assert a.nodes == b.nodes;
    assert a.orphans == b.orphans;
  }
}
