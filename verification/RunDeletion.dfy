/**
  DeleteVersions on the version store: the runs of the given versions are deleted
  one after the other, in whatever order the map yields them, until one is refused.
 */
module RunDeletion {
  import opened Options
  import opened Lifetimes
  import opened Intervals
  import opened VersionStore

  /** What every deletion keeps, also one with a negative bound. */
  ghost predicate Sane(s: State)
  {
    && 0 <= s.version < INT64_LIMIT
    && (s.version > 0 ==> s.version in s.db.roots)
    && (forall v :: v in s.db.roots ==> 1 <= v <= s.version)
    && (forall v :: v in s.readers ==> v in s.db.roots)
    && (forall r :: r in s.db.orphans ==> 1 <= r.to <= s.version && 1 <= r.from)
  }

  lemma ValidIsSane(s: State, h: History)
    requires Valid(s, h) && s.version < INT64_LIMIT
    ensures Sane(s)
  {
    hide Working, NodesOk, At;
    forall r | r in s.db.orphans ensures 1 <= r.to <= s.version && 1 <= r.from {
      assert IsLastVersionOf(s.db, h, r.hash, r.to);
      assert r.hash in At(h, r.to);
    }
  }

  /** When the run [from, to) may be deleted; it depends only on what no deletion changes. */
  predicate Admits(s: State, from: int, to: int)
  {
    from < to && to != 0 && to <= s.version && (from >= 0 ==> forall v :: from <= v < to ==> s.readers[v] == 0)
  }

  lemma MayIsAdmits(s: State, from: int, to: int)
    requires Sane(s)
    ensures MayDeleteRange(s, from, to) <==> Admits(s, from, to)
  {
    var p := GetPreviousVersion(s.db, from);
    if from < to && to <= s.version {
      if from < 0 {
        assert forall v :: v in s.readers ==> !(p < v < to);
      } else {
        assert forall v :: v in s.db.roots.Keys && p < v ==> from <= v;
        if MayDeleteRange(s, from, to) && to != 0 {
          forall v | from <= v < to ensures s.readers[v] == 0 { assert v in s.readers ==> p < v < to; }
        }
        if Admits(s, from, to) {
          forall v | v in s.readers ensures !(p < v < to) { assert v in s.db.roots.Keys; }
        }
      }
    }
  }

  /** A run below version 1 holds nothing; one with a negative start keeps its roots. */
  lemma RangeSane(s: State, from: int, to: int)
    requires Sane(s) && Admits(s, from, to)
    ensures var t := DeleteVersionsRange(s, from, to);
            Sane(t) && t == s.(db := t.db) && t.db == DeleteRange(s.db, from, to) &&
            t.db.roots.Keys == s.db.roots.Keys - (set v | v in s.db.roots && 0 <= from <= v < to)
    ensures to <= 0 ==> DeleteVersionsRange(s, from, to) == s
  {
    MayIsAdmits(s, from, to);
    var p := GetPreviousVersion(s.db, from);
    assert p == 0 || 1 <= p <= s.version;
    var d := DeleteRange(s.db, from, to);
    assert d.roots.Keys == s.db.roots.Keys - (set v | v in s.db.roots && 0 <= from <= v < to);
    if to <= 0 {
      assert forall r :: r in s.db.orphans ==> !(from <= r.to < to);
      assert d.nodes == s.db.nodes && d.orphans == s.db.orphans && d.roots == s.db.roots;
    }
    forall v | v in s.readers ensures v in d.roots {
      assert v in s.db.roots.Keys;
      assert s.readers[v] > 0 && !(0 <= from <= v < to);
      assert v in d.roots.Keys;
    }
  }

  lemma SameAdmits(s: State, t: State, from: int, to: int)
    requires s.version == t.version && s.readers == t.readers
    ensures Admits(s, from, to) <==> Admits(t, from, to)
  {
  }

  /** A range deletion, taken or refused. */
  lemma RangeKeeps(s: State, h: History, from: int, to: int)
    requires Sane(s)
    ensures Sane(DeleteVersionsRange(s, from, to))
    ensures from >= 0 && Valid(s, h) ==> Valid(DeleteVersionsRange(s, from, to), h)
  {
    hide Valid, Sane, DeleteRange;
    if from >= 0 && Valid(s, h) { DeleteRangeValid(s, h, from, to); }
    MayIsAdmits(s, from, to);
    if MayDeleteRange(s, from, to) { RangeSane(s, from, to); }
  }

  /** The deletion of the runs that start at the listed versions. */
  function DeleteRuns(s: State, runs: map<int, int>, order: seq<int>): State
    requires forall i :: 0 <= i < |order| ==> order[i] in runs
    decreases |order|
  {
    if order == [] then s
    else
      var n := |order| - 1;
      DeleteVersionsRange(DeleteRuns(s, runs, order[..n]), order[n], order[n] + runs[order[n]])
  }

  ghost predicate AllAdmitted(s: State, runs: map<int, int>, order: seq<int>)
  {
    forall i :: 0 <= i < |order| ==> order[i] in runs && Admits(s, order[i], order[i] + runs[order[i]])
  }

  /** A version lies in a listed run that starts at 0 or above. */
  predicate TakenBy(runs: map<int, int>, order: seq<int>, v: int)
  {
    exists f :: f in order && f in runs && 0 <= f && InRun(runs, f, v)
  }

  function Taken(s: State, runs: map<int, int>, order: seq<int>): set<int>
  {
    set v | v in s.db.roots && TakenBy(runs, order, v)
  }

  lemma TakenMore(s: State, runs: map<int, int>, order: seq<int>, f: int)
    requires f in runs
    ensures Taken(s, runs, order + [f]) == Taken(s, runs, order) + (set v | v in s.db.roots && 0 <= f && InRun(runs, f, v))
  {
    forall v | v in s.db.roots ensures TakenBy(runs, order + [f], v) <==> TakenBy(runs, order, v) || (0 <= f && InRun(runs, f, v)) {
      if TakenBy(runs, order, v) {
        var g :| g in order && g in runs && 0 <= g && InRun(runs, g, v);
        assert g in order + [f];
      }
      if 0 <= f && InRun(runs, f, v) { assert f in order + [f]; }
    }
  }

  lemma NoneTaken(s: State, runs: map<int, int>)
    ensures Taken(s, runs, []) == {}
  {
  }

  /** In any order, the roots that go are those of the runs that start at 0 or above. */
  lemma {:induction false} RunsDelete(s: State, runs: map<int, int>, order: seq<int>)
    requires Sane(s) && AllAdmitted(s, runs, order)
    ensures var t := DeleteRuns(s, runs, order);
            Sane(t) && t == s.(db := t.db) && t.db.roots.Keys == s.db.roots.Keys - Taken(s, runs, order)
    decreases |order|
  {
    hide Sane, Taken, TakenBy, DeleteVersionsRange;
    if order == [] {
      NoneTaken(s, runs);
    } else {
      var n := |order| - 1;
      var f := order[n];
      RunsDelete(s, runs, order[..n]);
      var t := DeleteRuns(s, runs, order[..n]);
      assert Admits(t, f, f + runs[f]);
      RangeSane(t, f, f + runs[f]);
      assert order == order[..n] + [f];
      TakenMore(s, runs, order[..n], f);
      KeysGone(s.db.roots.Keys, t.db.roots.Keys, Taken(s, runs, order[..n]), runs, f);
    }
  }

  lemma KeysGone(all: set<int>, now: set<int>, gone: set<int>, runs: map<int, int>, f: int)
    requires now == all - gone && f in runs
    ensures now - (set v | v in now && 0 <= f <= v < f + runs[f]) == all - (gone + (set v | v in all && 0 <= f && InRun(runs, f, v)))
  {
  }

  /** The runs that do not reach from below version 1 into the versions. */
  ghost predicate Harmless(runs: map<int, int>, order: seq<int>)
  {
    forall i :: 0 <= i < |order| ==> order[i] in runs && (0 <= order[i] || order[i] + runs[order[i]] <= 0)
  }

  /** Harmless runs leave the canonical database of the remaining versions. */
  lemma {:induction false} RunsValid(s: State, h: History, runs: map<int, int>, order: seq<int>)
    requires Valid(s, h) && s.version < INT64_LIMIT && AllAdmitted(s, runs, order) && Harmless(runs, order)
    ensures Valid(DeleteRuns(s, runs, order), h)
    decreases |order|
  {
    hide Valid, Sane, Taken, DeleteVersionsRange;
    if order != [] {
      var n := |order| - 1;
      var f := order[n];
      RunsValid(s, h, runs, order[..n]);
      ValidIsSane(s, h);
      RunsDelete(s, runs, order[..n]);
      var t := DeleteRuns(s, runs, order[..n]);
      assert Admits(t, f, f + runs[f]);
      if 0 <= f { DeleteRangeValid(t, h, f, f + runs[f]); } else { RangeSane(t, f, f + runs[f]); }
    }
  }

  /** The versions of a set, each once. */
  ghost predicate Lists(vs: seq<int>, versions: set<int>)
  {
    (forall v :: v in vs <==> v in versions) && forall i, j :: 0 <= i < j < |vs| ==> vs[i] != vs[j]
  }

  /** The whole database is the one that deleting those versions one by one gives, in any order of either. */
  lemma RunsAreOneByOne(s: State, h: History, runs: map<int, int>, order: seq<int>, vs: seq<int>)
    requires Valid(s, h) && s.version < INT64_LIMIT && AllAdmitted(s, runs, order) && Harmless(runs, order)
    requires Lists(vs, Taken(s, runs, order))
    ensures DeleteRuns(s, runs, order).db == DeleteEach(s.db, vs)
  {
    ValidIsSane(s, h);
    RunsValid(s, h, runs, order);
    RunsDelete(s, runs, order);
    TakenBelow(s, runs, order);
    forall i | 0 <= i < |vs| ensures vs[i] in s.db.roots && vs[i] != |h| {
      var v := vs[i];
      assert v in vs && v in Taken(s, runs, order);
    }
    hide Taken, Working, Canonical, Sane, DeleteRuns;
    DeleteEachCanonical(s.db, h, vs);
    assert (set v | v in vs) == Taken(s, runs, order);
    CanonicalIsUnique(DeleteRuns(s, runs, order).db, DeleteEach(s.db, vs), h);
  }

  lemma TakenBelow(s: State, runs: map<int, int>, order: seq<int>)
    requires AllAdmitted(s, runs, order)
    ensures forall v :: v in Taken(s, runs, order) ==> v in s.db.roots && v < s.version
  {
    forall v | v in Taken(s, runs, order) ensures v < s.version {
      var f :| f in order && f in runs && 0 <= f && InRun(runs, f, v);
      var i :| 0 <= i < |order| && order[i] == f;
    }
  }

  // ---------- in terms of the given versions ----------

  ghost predicate NoneNegative(vs: seq<int>)
  {
    forall v :: v in vs ==> v >= 0
  }

  lemma NoneNegativeRuns(vs: seq<int>, order: seq<int>)
    requires NoneNegative(vs) && forall i :: 0 <= i < |order| ==> order[i] in Runs(vs)
    ensures Harmless(Runs(vs), order)
  {
    hide Runs;
    forall i | 0 <= i < |order| ensures 0 <= order[i] { RunsStart(vs, order[i]); }
  }

  /** All runs may be deleted exactly when every version in them is below the latest one and unread. */
  lemma AllAdmittedIff(s: State, vs: seq<int>)
    requires NoneNegative(vs)
    ensures (forall f :: f in Runs(vs) ==> Admits(s, f, f + Runs(vs)[f])) <==>
            forall v :: Takes(Runs(vs), v) ==> v < s.version && s.readers[v] == 0
  {
    hide Runs;
    var runs := Runs(vs);
    if forall f :: f in runs ==> Admits(s, f, f + runs[f]) {
      forall v | Takes(runs, v) ensures v < s.version && s.readers[v] == 0 {
        var f :| f in runs && InRun(runs, f, v);
        RunsStart(vs, f);
      }
    }
    if forall v :: Takes(runs, v) ==> v < s.version && s.readers[v] == 0 {
      forall f | f in runs ensures Admits(s, f, f + runs[f]) {
        RunsStart(vs, f);
        assert InRun(runs, f, f + runs[f] - 1);
        assert Takes(runs, f + runs[f] - 1);
        forall v | f <= v < f + runs[f] ensures s.readers[v] == 0 { assert InRun(runs, f, v); assert Takes(runs, v); }
      }
    }
  }

  lemma AllTaken(s: State, vs: seq<int>, order: seq<int>)
    requires NoneNegative(vs) && forall f :: f in order ==> f in Runs(vs)
    ensures forall v :: v in Taken(s, Runs(vs), order) ==> v in s.db.roots && Takes(Runs(vs), v)
    ensures (forall f :: f in Runs(vs) ==> f in order) ==> Taken(s, Runs(vs), order) == set v | v in s.db.roots && Takes(Runs(vs), v)
  {
    hide Runs;
    var runs := Runs(vs);
    forall v | v in Taken(s, runs, order) ensures Takes(runs, v) { var f :| f in order && f in runs && 0 <= f && InRun(runs, f, v); }
    if forall f :: f in runs ==> f in order {
      forall v | v in s.db.roots && Takes(runs, v) ensures TakenBy(runs, order, v) {
        var f :| f in runs && InRun(runs, f, v);
        RunsStart(vs, f);
        assert f in order;
      }
    }
  }

  /** What is left when the listed runs of non-negative versions are deleted. */
  lemma RunsDeleteGiven(s: State, h: History, vs: seq<int>, order: seq<int>)
    requires Valid(s, h) && s.version < INT64_LIMIT && NoneNegative(vs) && AllAdmitted(s, Runs(vs), order)
    ensures var t := DeleteRuns(s, Runs(vs), order);
            && Valid(t, h) && t.version == s.version && t.readers == s.readers
            && (forall v :: v in s.db.roots && v !in t.db.roots ==> Takes(Runs(vs), v))
            && ((forall f :: f in Runs(vs) ==> f in order) ==>
                 t.db.roots.Keys == s.db.roots.Keys - (set v | v in s.db.roots && Takes(Runs(vs), v)))
            && (forall list :: Lists(list, s.db.roots.Keys - t.db.roots.Keys) ==> t.db == DeleteEach(s.db, list))
  {
    hide Runs, Valid, Sane;
    var runs := Runs(vs);
    var t := DeleteRuns(s, runs, order);
    NoneNegativeRuns(vs, order);
    ValidIsSane(s, h);
    RunsDelete(s, runs, order);
    RunsValid(s, h, runs, order);
    AllTaken(s, vs, order);
    hide DeleteRuns;
    assert Taken(s, runs, order) == s.db.roots.Keys - t.db.roots.Keys;
    hide Taken, Takes;
    forall list | Lists(list, s.db.roots.Keys - t.db.roots.Keys) ensures t.db == DeleteEach(s.db, list) {
      RunsAreOneByOne(s, h, runs, order, list);
    }
  }

  /** A store with versions 3, 4 and 5, all empty. */
  const THREE_VERSIONS := State(None, None, 5, [], multiset{}, Db(map[3 := None, 4 := None, 5 := None], map[], {}))

  lemma ThreeVersions()
    ensures Valid(THREE_VERSIONS, [None, None, None, None, None])
  {
    var h: History := [None, None, None, None, None];
    assert forall v :: At(h, v) == {};
  }

  /** Asked to delete version 3, twice, it loses version 4 as well. */
  lemma RepeatedVersionLosesTheNext()
    ensures Valid(THREE_VERSIONS, [None, None, None, None, None]) && AllAdmitted(THREE_VERSIONS, Runs([3, 3]), [3])
    ensures DeleteRuns(THREE_VERSIONS, Runs([3, 3]), [3]).db.roots.Keys == {5}
  {
    hide Valid, DeleteRuns, Runs;
    ThreeVersions();
    ValidIsSane(THREE_VERSIONS, [None, None, None, None, None]);
    RepeatedVersionTakesTheNext();
    var r := map[3 := 2];
    RunsDelete(THREE_VERSIONS, r, [3]);
    assert InRun(r, 3, 3) && InRun(r, 3, 4) && 3 in [3];
    assert Taken(THREE_VERSIONS, r, [3]) == {3, 4};
  }
}
