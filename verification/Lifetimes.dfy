/**
  The node database on disk: version roots, nodes by hash, and orphan records
  giving each dead node its lifetime. What the database holds is a function of
  the saved trees and of which versions still exist; each pruning operation is
  shown to respect that.
 */
module Lifetimes {
  import opened Options
  import opened AvlTree
  import opened MerkleHash

  /** o<last-version><first-version><hash> */
  datatype Orphan = Orphan(to: int, from: int, hash: Hash)

  datatype Db = Db(roots: map<int, Option<Hash>>, nodes: map<Hash, DiskNode>, orphans: set<Orphan>)

  const EMPTY := Db(map[], map[], {})

  /** Tree saved as version v is h[v - 1]; deleted versions stay in the history. */
  type History = seq<Option<Node>>

  function At(h: History, v: int): set<Hash>
  {
    if 1 <= v <= |h| then HashesOf(h[v - 1]) else {}
  }

  /** Copy-on-write: what a version does not share with its predecessor was created by it. */
  ghost predicate ValidHistory(h: History)
  {
    && (forall i :: 0 <= i < |h| && h[i].Some? ==> WellFormed(h[i].value))
    && (forall v, x :: x in At(h, v) ==> 1 <= x.version <= v && (x.version < v ==> x in At(h, v - 1)))
  }

  /** A node is in every version from its creation up to the last one that has it. */
  lemma {:induction false} AliveSinceCreation(h: History, x: Hash, u: int, v: int)
    requires ValidHistory(h) && x in At(h, v) && x.version <= u <= v
    ensures x in At(h, u)
    decreases v
  {
    hide At, WellFormed;
    if u < v {
      assert x in At(h, v - 1);
      AliveSinceCreation(h, x, u, v - 1);
    }
  }

  // ---------- the canonical database ----------

  ghost predicate RootsOk(db: Db, h: History)
  {
    && (forall v :: v in db.roots ==> 1 <= v <= |h| && db.roots[v] == RootHash(h[v - 1]))
    && (h != [] ==> |h| in db.roots)
  }

  /** Nothing missing and nothing leaked: the nodes are those of the existing versions. */
  ghost predicate NodesOk(db: Db, h: History)
  {
    && (forall x :: x in db.nodes <==> exists v :: v in db.roots && x in At(h, v))
    && (forall x :: x in db.nodes ==> db.nodes[x] == Content(x))
  }

  ghost predicate IsLastVersionOf(db: Db, h: History, x: Hash, v: int)
  {
    v in db.roots && x in At(h, v) && forall u :: u in db.roots && u > v ==> x !in At(h, u)
  }

  /** Each dead node has one record, from its creation to the last existing version that has it. */
  ghost predicate OrphansOk(db: Db, h: History)
  {
    forall r :: r in db.orphans <==> r.to < |h| && r.from == r.hash.version && IsLastVersionOf(db, h, r.hash, r.to)
  }

  ghost predicate Canonical(db: Db, h: History)
  {
    ValidHistory(h) && RootsOk(db, h) && NodesOk(db, h) && OrphansOk(db, h)
  }

  /** The saved trees and the existing versions determine the whole database. */
  lemma CanonicalIsUnique(a: Db, b: Db, h: History)
    requires Canonical(a, h) && Canonical(b, h) && a.roots.Keys == b.roots.Keys
    ensures a == b
  {
    hide At;
    assert forall v :: v in a.roots <==> v in b.roots by {
      assert forall v :: (v in a.roots <==> v in a.roots.Keys) && (v in b.roots <==> v in b.roots.Keys);
    }
    forall v | v in a.roots ensures v in b.roots && a.roots[v] == b.roots[v] {
      assert v in b.roots;
      assert a.roots[v] == RootHash(h[v - 1]) == b.roots[v];
    }
    assert a.roots == b.roots;
    assert forall x :: x in a.nodes <==> x in b.nodes;
    assert a.nodes == b.nodes;
    forall r ensures r in a.orphans <==> r in b.orphans {
      assert IsLastVersionOf(a, h, r.hash, r.to) <==> IsLastVersionOf(b, h, r.hash, r.to);
    }
    assert a.orphans == b.orphans;
  }

  /** Every existing version reads back exactly the tree that was saved. */
  lemma ExistingVersionsReadBack(db: Db, h: History, v: int)
    requires Canonical(db, h) && v in db.roots
    ensures 1 <= v <= |h|
    ensures h[v - 1].None? ==> db.roots[v] == None
    ensures h[v - 1].Some? ==> db.roots[v].Some? && Load(db.nodes, db.roots[v].value) == h[v - 1]
  {
    hide RootsOk, NodesOk, OrphansOk, ValidHistory, Ordered, Load, HashOf, Subhashes, At, Content;
    RootIs(db, h, v);
    if h[v - 1].Some? {
      TreeIsStored(db, h, v);
      SavedOrdered(h, v);
      LoadReadsBack(db.nodes, h[v - 1].value);
    }
  }

  lemma RootIs(db: Db, h: History, v: int)
    requires RootsOk(db, h) && v in db.roots
    ensures 1 <= v <= |h| && db.roots[v] == RootHash(h[v - 1])
  {
  }

  lemma SavedOrdered(h: History, v: int)
    requires ValidHistory(h) && 1 <= v <= |h| && h[v - 1].Some?
    ensures Ordered(h[v - 1].value)
  {
    hide Ordered, Avl, At;
    assert WellFormed(h[v - 1].value);
  }

  lemma TreeIsStored(db: Db, h: History, v: int)
    requires NodesOk(db, h) && v in db.roots && 1 <= v <= |h| && h[v - 1].Some?
    ensures forall x :: x in Subhashes(HashOf(h[v - 1].value)) ==> x in db.nodes && db.nodes[x] == Content(x)
  {
    hide Subhashes, HashOf, Content;
    assert Subhashes(HashOf(h[v - 1].value)) == At(h, v);
    hide At;
  }

  // ---------- previous version ----------

  /** The greatest of the versions in [1, v), or 0. */
  function Previous(versions: set<int>, v: int): (p: int)
    ensures p == 0 || (p in versions && 1 <= p < v)
    ensures forall u :: u in versions && 1 <= u < v ==> u <= p
  {
    if v <= 1 then 0 else if v - 1 in versions then v - 1 else Previous(versions, v - 1)
  }

  /** Keys are the eight bytes of uint64(version): a negative bound lies above every version. */
  function GetPreviousVersion(db: Db, v: int): int
  {
    Previous(db.roots.Keys, if v < 0 then 0x8000_0000_0000_0000 else v)
  }

  lemma LastVersion(db: Db, h: History, x: Hash, u: int) returns (t: int)
    requires RootsOk(db, h) && u in db.roots && x in At(h, u)
    ensures IsLastVersionOf(db, h, x, t) && t >= u
  {
    hide At;
    var s := set v | v in db.roots && x in At(h, v);
    t := Previous(s, |h| + 1);
    assert u in s;
    assert forall w :: w in db.roots && x in At(h, w) ==> w in s;
  }

  // ---------- deleting an interval of versions ----------

  /** Lifetimes that end inside [a, b) end at the previous version p instead, or the node goes. */
  function Cut(db: Db, a: int, b: int, p: int): Db
  {
    Db(db.roots - (set v | v in db.roots && a <= v < b),
       db.nodes - (set r | r in db.orphans && a <= r.to < b && p < r.from :: r.hash),
       (set r | r in db.orphans && !(a <= r.to < b)) +
       (set r | r in db.orphans && a <= r.to < b && p >= r.from :: Orphan(p, r.from, r.hash)))
  }

  lemma CutNode(db: Db, h: History, a: int, b: int, x: Hash)
    requires Canonical(db, h) && 0 <= a < b <= |h|
    ensures var db' := Cut(db, a, b, Previous(db.roots.Keys, a));
            x in db'.nodes <==> exists u :: u in db'.roots && x in At(h, u)
  {
    hide At, WellFormed;
    var p := Previous(db.roots.Keys, a);
    var db' := Cut(db, a, b, p);
    if x in db.nodes {
      var u :| u in db.roots && x in At(h, u);
      var t := LastVersion(db, h, x, u);
      if a <= t < b {
        assert Orphan(t, x.version, x) in db.orphans;
        if p >= x.version {
          AliveSinceCreation(h, x, p, t);
          assert p in db'.roots && x in At(h, p);
        }
      } else {
        assert t in db'.roots;
      }
    }
  }

  lemma CutOrphan(db: Db, h: History, a: int, b: int, r: Orphan)
    requires Canonical(db, h) && 0 <= a < b <= |h|
    ensures var db' := Cut(db, a, b, Previous(db.roots.Keys, a));
            r in db'.orphans <==> r.to < |h| && r.from == r.hash.version && IsLastVersionOf(db', h, r.hash, r.to)
  {
    hide At, WellFormed;
    var p := Previous(db.roots.Keys, a);
    var db' := Cut(db, a, b, p);
    var x := r.hash;
    if r in db'.orphans {
      if !(r in db.orphans && !(a <= r.to < b)) {
        var o :| o in db.orphans && a <= o.to < b && p >= o.from && r == Orphan(p, o.from, o.hash);
        AliveSinceCreation(h, x, p, o.to);
      }
    }
    if r.to < |h| && r.from == x.version && IsLastVersionOf(db', h, x, r.to) {
      var t := LastVersion(db, h, x, r.to);
      assert Orphan(t, x.version, x) in db.orphans || t == |h|;
      if t != r.to {
        assert a <= t < b;
        assert r.to <= p;
        AliveSinceCreation(h, x, p, t);
        assert p == r.to;
      }
    }
  }

  /** Cutting an interval below the latest version leaves the canonical database of the rest. */
  lemma CutCanonical(db: Db, h: History, a: int, b: int)
    requires Canonical(db, h) && 0 <= a < b <= |h|
    ensures var db' := Cut(db, a, b, Previous(db.roots.Keys, a));
            Canonical(db', h) && db'.roots.Keys == db.roots.Keys - (set v | v in db.roots && a <= v < b)
  {
    hide At, ValidHistory, IsLastVersionOf, Previous;
    var db' := Cut(db, a, b, Previous(db.roots.Keys, a));
    assert NodesOk(db', h) by {
      forall x ensures x in db'.nodes <==> exists u :: u in db'.roots && x in At(h, u) { CutNode(db, h, a, b, x); }
    }
    assert OrphansOk(db', h) by {
      forall r ensures r in db'.orphans <==> r.to < |h| && r.from == r.hash.version && IsLastVersionOf(db', h, r.hash, r.to) {
        CutOrphan(db, h, a, b, r);
      }
    }
  }

  // ---------- DeleteVersion and DeleteVersionsRange ----------

  /** deleteOrphans: the node of a record ending at the deleted version goes, or the record moves to p. */
  predicate Dies(p: int, r: Orphan) { p < r.from || r.from == r.to }

  function DeleteVersion(db: Db, v: int): Db
  {
    var p := GetPreviousVersion(db, v);
    Db(db.roots - {v},
       db.nodes - (set r | r in db.orphans && r.to == v && Dies(p, r) :: r.hash),
       (set r | r in db.orphans && r.to != v) +
       (set r | r in db.orphans && r.to == v && !Dies(p, r) :: Orphan(p, r.from, r.hash)))
  }

  /** The root keys of a negative lower bound lie above those of every version, so no root is deleted. */
  function DeleteRange(db: Db, from: int, to: int): Db
  {
    var c := Cut(db, from, to, GetPreviousVersion(db, from));
    if from < 0 then c.(roots := db.roots) else c
  }

  lemma DeleteVersionIsCut(db: Db, v: int)
    requires v >= 1
    ensures DeleteVersion(db, v) == Cut(db, v, v + 1, Previous(db.roots.Keys, v))
  {
    var p := Previous(db.roots.Keys, v);
    assert forall r :: r in db.orphans && r.to == v ==> (Dies(p, r) <==> p < r.from);
    var c := Cut(db, v, v + 1, p);
    assert DeleteVersion(db, v).roots == c.roots;
    assert DeleteVersion(db, v).nodes == c.nodes;
    assert DeleteVersion(db, v).orphans == c.orphans;
  }

  lemma DeleteVersionCanonical(db: Db, h: History, v: int)
    requires Canonical(db, h) && v in db.roots && v != |h|
    ensures Canonical(DeleteVersion(db, v), h)
    ensures DeleteVersion(db, v).roots.Keys == db.roots.Keys - {v}
    ensures DeleteVersion(db, v) == DeleteRange(db, v, v + 1)
  {
    assert 1 <= v < |h|;
    hide DeleteVersion, Cut, Canonical;
    DeleteVersionIsCut(db, v);
    CutCanonical(db, h, v, v + 1);
    assert (set u | u in db.roots && v <= u < v + 1) == {v};
  }

  /** Deletes the listed versions one at a time. */
  function DeleteEach(db: Db, vs: seq<int>): Db
    decreases |vs|
  {
    if vs == [] then db else DeleteEach(DeleteVersion(db, vs[0]), vs[1..])
  }

  lemma {:induction false} DeleteEachCanonical(db: Db, h: History, vs: seq<int>)
    requires Canonical(db, h)
    requires forall i :: 0 <= i < |vs| ==> vs[i] in db.roots && vs[i] != |h|
    requires forall i, j :: 0 <= i < j < |vs| ==> vs[i] != vs[j]
    ensures Canonical(DeleteEach(db, vs), h)
    ensures DeleteEach(db, vs).roots.Keys == db.roots.Keys - (set v | v in vs)
    decreases |vs|
  {
    hide Canonical, DeleteVersion;
    if vs != [] {
      DeleteVersionCanonical(db, h, vs[0]);
      DeleteEachCanonical(DeleteVersion(db, vs[0]), h, vs[1..]);
      assert vs == [vs[0]] + vs[1..];
    }
  }

  lemma NegativeRange(db: Db, h: History, from: int, to: int)
    requires Canonical(db, h) && from < 0 && from < to <= |h| < 0x8000_0000_0000_0000
    ensures DeleteRange(db, from, to).nodes == db.nodes && DeleteRange(db, from, to).roots == db.roots
    ensures (forall v :: v in db.roots ==> v >= to) ==> DeleteRange(db, from, to) == db
  {
    hide At, WellFormed;
    var p := GetPreviousVersion(db, from);
    assert p == |h|;
    var db' := DeleteRange(db, from, to);
    var dead := set r | r in db.orphans && from <= r.to < to && p < r.from :: r.hash;
    assert dead == {} by {
      forall r | r in db.orphans ensures r.from <= p { assert r.hash in At(h, r.to); }
    }
    if forall v :: v in db.roots ==> v >= to {
      assert forall r :: r in db.orphans ==> r.to >= to;
      assert db'.orphans == db.orphans;
    }
  }

  /** Two empty versions, deleting from -1 up to 2: version 1 is still there. */
  lemma NegativeRangeKeepsVersion()
    ensures var db, h := Db(map[1 := None, 2 := None], map[], {}), [None, None];
            Canonical(db, h) && DeleteRange(db, -1, 2) == db && 1 in db.roots
  {
    var db, h: History := Db(map[1 := None, 2 := None], map[], {}), [None, None];
    assert forall v :: At(h, v) == {};
    assert Cut(db, -1, 2, GetPreviousVersion(db, -1)).orphans == {};
    assert Cut(db, -1, 2, GetPreviousVersion(db, -1)).nodes == map[];
  }

  /**
    DeleteVersionsRange does what it should, leaving the canonical database of
    the other versions, exactly when the lower bound is not negative or there
    was nothing to delete. A negative lower bound never loses a node or a root.
   */
  lemma DeleteRangeCanonical(db: Db, h: History, from: int, to: int)
    requires Canonical(db, h) && from < to <= |h| < 0x8000_0000_0000_0000
    ensures var db' := DeleteRange(db, from, to);
            Canonical(db', h) && db'.roots.Keys == db.roots.Keys - (set v | v in db.roots && from <= v < to)
            <==> from >= 0 || forall v :: v in db.roots ==> v >= to
    ensures from < 0 ==> DeleteRange(db, from, to).nodes == db.nodes && DeleteRange(db, from, to).roots == db.roots
  {
    if from >= 0 { CutCanonical(db, h, from, to); }
    else {
      NegativeRange(db, h, from, to);
      assert forall v :: v in db.roots ==> v >= 1;
      hide Canonical, DeleteRange;
      if forall v :: v in db.roots ==> v >= to {
        assert (set v | v in db.roots && from <= v < to) == {};
      } else {
        var v :| v in db.roots && v < to;
        assert v in (set v | v in db.roots && from <= v < to);
      }
    }
  }

  /** One range deletion is the same as deleting its existing versions one by one, in any order. */
  lemma RangeEqualsOneByOne(db: Db, h: History, from: int, to: int, vs: seq<int>)
    requires Canonical(db, h) && 0 <= from < to <= |h| < 0x8000_0000_0000_0000
    requires forall v :: v in vs <==> v in db.roots && from <= v < to
    requires forall i, j :: 0 <= i < j < |vs| ==> vs[i] != vs[j]
    ensures DeleteEach(db, vs) == DeleteRange(db, from, to)
  {
    DeleteRangeCanonical(db, h, from, to);
    assert forall i :: 0 <= i < |vs| ==> vs[i] in vs;
    DeleteEachCanonical(db, h, vs);
    assert (set v | v in vs) == (set v | v in db.roots && from <= v < to);
    CanonicalIsUnique(DeleteEach(db, vs), DeleteRange(db, from, to), h);
  }

  // ---------- committing a version ----------

  lemma HistoryTruncated(h: History, v: int)
    requires ValidHistory(h) && 0 <= v <= |h|
    ensures ValidHistory(h[..v])
    ensures forall u :: u <= v ==> At(h[..v], u) == At(h, u)
    ensures forall u :: u > v ==> At(h[..v], u) == {}
  {
    hide WellFormed;
    hide HashesOf;
    var h' := h[..v];
    assert forall u {:trigger At(h', u)} :: u <= v ==> At(h', u) == At(h, u);
    forall u, x | x in At(h', u) ensures 1 <= x.version <= u && (x.version < u ==> x in At(h', u - 1)) {
      assert x in At(h, u);
    }
  }

  /** Writes a root, the nodes that are new since the last committed version, and the nodes that died since. */
  function CommitVersion(db: Db, v: int, root: Option<Hash>, nodes: set<Hash>, dead: set<Hash>, to: int): Db
  {
    Db(db.roots[v := root],
       db.nodes + (map x | x in nodes :: Content(x)),
       db.orphans + (set x | x in dead :: Orphan(to, x.version, x)))
  }

  /** The nodes of version c that are newer than version l. */
  function NewSince(h: History, l: int, c: int): set<Hash> { set x | x in At(h, c) && x.version > l }

  function CommitOf(db: Db, h: History, l: int, c: int): Db
    requires 0 <= l < c <= |h|
  {
    CommitVersion(db, c, RootHash(h[c - 1]), NewSince(h, l, c), At(h, l) - At(h, c), l)
  }

  lemma CommitKeeps(db: Db, h: History, l: int, c: int, x: Hash, v: int)
    requires ValidHistory(h) && 0 <= l < c <= |h| && Canonical(db, h[..l])
    requires (v in db.roots || v == c) && x in At(h, v)
    ensures x in CommitOf(db, h, l, c).nodes
  {
    HistoryTruncated(h, l);
    hide At, ValidHistory, OrphansOk, Content;
    if v != c { assert x in At(h[..l], v); }
    else if x.version <= l {
      LastCommitted(h, l, c, x);
      assert l in db.roots && x in At(h[..l], l);
    }
  }

  lemma CommitReached(db: Db, h: History, l: int, c: int, x: Hash) returns (v: int)
    requires ValidHistory(h) && 0 <= l < c <= |h| && Canonical(db, h[..l]) && x in CommitOf(db, h, l, c).nodes
    ensures (v in db.roots || v == c) && x in At(h, v) && v <= c
  {
    HistoryTruncated(h, l);
    hide At, ValidHistory, OrphansOk, Content;
    if x in db.nodes { v :| v in db.roots && x in At(h[..l], v); }
    else { v := c; }
  }

  lemma CommitNode(db: Db, h: History, l: int, c: int, x: Hash)
    requires ValidHistory(h) && 0 <= l < c <= |h| && Canonical(db, h[..l])
    ensures var db' := CommitOf(db, h, l, c);
            x in db'.nodes <==> exists v :: v in db'.roots && x in At(h[..c], v)
  {
    HistoryTruncated(h, c);
    var db' := CommitOf(db, h, l, c);
    assert db'.roots.Keys == db.roots.Keys + {c};
    hide At, ValidHistory, Canonical, CommitOf;
    if v :| v in db'.roots && x in At(h[..c], v) {
      assert v in db.roots || v == c;
      CommitKeeps(db, h, l, c, x, v);
    }
    if x in db'.nodes {
      var v := CommitReached(db, h, l, c, x);
      assert v in db'.roots.Keys && x in At(h[..c], v);
    }
  }

  lemma LastCommitted(h: History, l: int, c: int, x: Hash)
    requires ValidHistory(h) && 0 <= l < c <= |h| && x in At(h, c) && x.version <= l
    ensures 1 <= l && x in At(h, l)
  {
    AliveSinceCreation(h, x, l, c);
  }

  lemma CommitOrphan(db: Db, h: History, l: int, c: int, r: Orphan)
    requires ValidHistory(h) && 0 <= l < c <= |h| && Canonical(db, h[..l])
    ensures var db' := CommitOf(db, h, l, c);
            r in db'.orphans <==> r.to < c && r.from == r.hash.version && IsLastVersionOf(db', h[..c], r.hash, r.to)
  {
    HistoryTruncated(h, l); HistoryTruncated(h, c);
    assert At(h, 0) == {};
    assert forall v :: v in db.roots ==> 1 <= v <= l;
    var db' := CommitOf(db, h, l, c);
    var x := r.hash;
    if l < r.to < c { assert r.to !in db'.roots; }
    hide At, ValidHistory;
    if r.to == l {
      if r.from == x.version && IsLastVersionOf(db', h[..c], x, l) { assert x !in At(h[..c], c); }
      if r in db'.orphans { assert x in At(h, l) - At(h, c); }
    } else if r.to < l {
      LifetimeUnchanged(db, h, l, c, x, r.to);
    }
  }

  /** A new version does not touch a lifetime that had ended before the last committed one. */
  lemma LifetimeUnchanged(db: Db, h: History, l: int, c: int, x: Hash, t: int)
    requires ValidHistory(h) && 0 <= l < c <= |h| && Canonical(db, h[..l]) && t < l
    ensures IsLastVersionOf(CommitOf(db, h, l, c), h[..c], x, t) <==> IsLastVersionOf(db, h[..l], x, t)
  {
    HistoryTruncated(h, l); HistoryTruncated(h, c);
    hide At, NodesOk, OrphansOk;
    assert forall v :: v in db.roots ==> 1 <= v <= l;
    assert CommitOf(db, h, l, c).roots.Keys == db.roots.Keys + {c};
    assert l > 0 ==> l in db.roots;
    hide CommitOf, RootsOk;
    if IsLastVersionOf(db, h[..l], x, t) {
      assert x in At(h, t) && x !in At(h[..l], l);
      StaysDead(h, l, c, x, t);
    }
    hide ValidHistory;
    SameLifetime(db, CommitOf(db, h, l, c), h, l, c, x, t);
  }

  /** A node that version l has lost is not in a later version. */
  lemma StaysDead(h: History, l: int, c: int, x: Hash, t: int)
    requires ValidHistory(h) && 0 <= l < c <= |h| && t < l && x in At(h, t) && x !in At(h, l)
    ensures x !in At(h, c)
  {
    hide At, WellFormed;
    assert x.version <= t;
    if x in At(h, c) { LastCommitted(h, l, c, x); }
  }

  lemma SameLifetime(db: Db, db': Db, h: History, l: int, c: int, x: Hash, t: int)
    requires 0 <= l < c <= |h| && t < l && db'.roots.Keys == db.roots.Keys + {c}
    requires (forall v :: v in db.roots ==> 1 <= v <= l) && (forall u :: u <= l ==> At(h[..l], u) == At(h, u)) && (forall u :: u <= c ==> At(h[..c], u) == At(h, u))
    requires IsLastVersionOf(db, h[..l], x, t) ==> x !in At(h, c)
    ensures IsLastVersionOf(db', h[..c], x, t) <==> IsLastVersionOf(db, h[..l], x, t)
  {
    hide At;
    assert forall u :: u in db'.roots <==> u in db.roots || u == c;
    if IsLastVersionOf(db', h[..c], x, t) {
      forall u | u in db.roots && u > t ensures x !in At(h[..l], u) { assert u in db'.roots; }
    }
    if IsLastVersionOf(db, h[..l], x, t) {
      forall u | u in db'.roots && u > t ensures x !in At(h[..c], u) { assert u in db.roots || u == c; }
    }
  }

  lemma CommitRoots(db: Db, h: History, l: int, c: int)
    requires 0 <= l < c <= |h| && RootsOk(db, h[..l]) && (forall x :: x in db.nodes ==> db.nodes[x] == Content(x))
    ensures var db' := CommitOf(db, h, l, c);
            RootsOk(db', h[..c]) && (forall x :: x in db'.nodes ==> db'.nodes[x] == Content(x))
  {
    hide Content, At;
  }

  /** Committing version c on top of version l, with no version between them kept. */
  lemma CommitCanonical(db: Db, h: History, l: int, c: int)
    requires ValidHistory(h) && 0 <= l < c <= |h| && Canonical(db, h[..l])
    ensures Canonical(CommitOf(db, h, l, c), h[..c])
  {
    hide At, RootsOk, CommitOf, ValidHistory, IsLastVersionOf, Content;
    HistoryTruncated(h, c);
    CommitRoots(db, h, l, c);
    var h' := h[..c];
    var db' := CommitOf(db, h, l, c);
    forall x ensures x in db'.nodes <==> exists v :: v in db'.roots && x in At(h', v) { CommitNode(db, h, l, c, x); }
    forall r ensures r in db'.orphans <==> r.to < |h'| && r.from == r.hash.version && IsLastVersionOf(db', h', r.hash, r.to) {
      CommitOrphan(db, h, l, c, r);
    }
  }

  // ---------- saving a version ----------

  /** The working tree and its orphans, compared with the last saved tree. */
  ghost predicate WorkingOk(h: History, root: Option<Node>, orphans: set<Hash>)
  {
    && (root.Some? ==> WellFormed(root.value))
    && (forall x :: x in HashesOf(root) ==> 1 <= x.version <= |h| + 1 && (x.version <= |h| ==> x in At(h, |h|)))
    && orphans == At(h, |h|) - HashesOf(root)
  }

  lemma HistoryGrows(h: History, root: Option<Node>, orphans: set<Hash>)
    requires ValidHistory(h) && WorkingOk(h, root, orphans)
    ensures ValidHistory(h + [root])
    ensures forall v :: v <= |h| ==> At(h + [root], v) == At(h, v)
    ensures At(h + [root], |h| + 1) == HashesOf(root)
  {
    hide WellFormed;
    hide Subhashes;
    var h' := h + [root];
    assert forall v {:trigger At(h', v)} :: v <= |h| ==> At(h', v) == At(h, v);
    assert At(h', |h| + 1) == HashesOf(root);
    forall v, x | x in At(h', v) ensures 1 <= x.version <= v && (x.version < v ==> x in At(h', v - 1)) {
      if v <= |h| { assert x in At(h, v); }
    }
  }

  /** SaveBranch, SaveOrphans and SaveRoot in one batch. */
  function SaveVersion(db: Db, v: int, root: Option<Node>, orphans: set<Hash>): Db
  {
    CommitVersion(db, v, RootHash(root), (set x | x in HashesOf(root) && x.version == v), orphans, GetPreviousVersion(db, v))
  }

  lemma SaveVersionCanonical(db: Db, h: History, root: Option<Node>, orphans: set<Hash>)
    requires Canonical(db, h) && WorkingOk(h, root, orphans)
    ensures Canonical(SaveVersion(db, |h| + 1, root, orphans), h + [root])
  {
    HistoryGrows(h, root, orphans);
    var h' := h + [root];
    assert h'[..|h|] == h && h'[..|h| + 1] == h';
    assert GetPreviousVersion(db, |h| + 1) == |h|;
    assert NewSince(h', |h|, |h| + 1) == set x | x in HashesOf(root) && x.version == |h| + 1;
    hide Canonical, ValidHistory;
    CommitCanonical(db, h', |h|, |h| + 1);
  }

  // ---------- deleting all versions above one ----------

  /** DeleteVersionsFrom: drop the nodes created since, revive the orphans made since, drop the roots. */
  function DeleteFrom(db: Db, latest: Option<Hash>, version: int): Db
  {
    var newer := if latest.None? then {} else set x | x in Subhashes(latest.value) && x.version >= version;
    Db(map v | v in db.roots && v < version :: db.roots[v],
       db.nodes - newer - (set r | r in db.orphans && r.from >= version :: r.hash),
       set r | r in db.orphans && r.from < version && r.to < version - 1)
  }

  lemma NewerNodesGo(db: Db, h: History, v: int, x: Hash)
    requires Canonical(db, h) && v in db.roots
    ensures 1 <= v <= |h|
    ensures var db' := DeleteFrom(db, RootHash(h[|h| - 1]), v + 1);
            x in db'.nodes <==> x in db.nodes && x.version <= v
  {
    var db' := DeleteFrom(db, RootHash(h[|h| - 1]), v + 1);
    assert x in At(h, |h|) && x.version > v ==> x !in db'.nodes;
    assert x.version <= v ==> (x in db'.nodes <==> x in db.nodes);
    hide At, WellFormed;
    hide Subhashes;
    if x in db'.nodes {
      var u :| u in db.roots && x in At(h, u);
      var t := LastVersion(db, h, x, u);
      assert t != |h| ==> Orphan(t, x.version, x) in db.orphans;
    }
  }

  lemma DeleteFromNode(db: Db, h: History, v: int, x: Hash)
    requires Canonical(db, h) && v in db.roots
    ensures 1 <= v <= |h|
    ensures var db' := DeleteFrom(db, RootHash(h[|h| - 1]), v + 1);
            x in db'.nodes <==> exists u :: u in db'.roots && x in At(h[..v], u)
  {
    HistoryTruncated(h, v);
    NewerNodesGo(db, h, v, x);
    var db' := DeleteFrom(db, RootHash(h[|h| - 1]), v + 1);
    assert forall u :: u in db'.roots <==> u in db.roots && u <= v;
    assert forall u :: x in At(h, u) ==> x.version <= u;
    hide At, ValidHistory, OrphansOk, DeleteFrom;
    if x in db'.nodes {
      var u :| u in db.roots && x in At(h, u);
      var w := if u <= v then u else v;
      AliveSinceCreation(h, x, w, u);
      assert w in db'.roots && x in At(h[..v], w);
    }
    if u :| u in db'.roots && x in At(h[..v], u) {
      assert u in db.roots && x in At(h, u);
    }
  }

  lemma DeleteFromOrphan(db: Db, h: History, v: int, r: Orphan)
    requires Canonical(db, h) && v in db.roots
    ensures 1 <= v <= |h|
    ensures var db' := DeleteFrom(db, RootHash(h[|h| - 1]), v + 1);
            r in db'.orphans <==> r.to < v && r.from == r.hash.version && IsLastVersionOf(db', h[..v], r.hash, r.to)
  {
    HistoryTruncated(h, v);
    hide At, WellFormed;
    hide Subhashes;
    var db' := DeleteFrom(db, RootHash(h[|h| - 1]), v + 1);
    var x := r.hash;
    if r.to < v {
      if IsLastVersionOf(db', h[..v], x, r.to) {
        assert v in db'.roots;
        forall u | u in db.roots && u > r.to ensures x !in At(h, u) {
          if u <= v { assert u in db'.roots; }
          else if x in At(h, u) { AliveSinceCreation(h, x, v, u); }
        }
        assert IsLastVersionOf(db, h, x, r.to);
      }
      if IsLastVersionOf(db, h, x, r.to) {
        forall u | u in db'.roots && u > r.to ensures x !in At(h[..v], u) { assert u in db.roots; }
        assert r.to in db'.roots;
      }
    }
  }

  lemma DeleteFromRoots(db: Db, h: History, v: int)
    requires RootsOk(db, h) && v in db.roots
    ensures 1 <= v <= |h|
    ensures var db' := DeleteFrom(db, RootHash(h[|h| - 1]), v + 1);
            RootsOk(db', h[..v]) && db'.roots.Keys == set u | u in db.roots && u <= v
  {}

  /** After DeleteVersionsFrom(v + 1) the database is as if no version above v had ever been saved. */
  lemma DeleteFromCanonical(db: Db, h: History, v: int)
    requires Canonical(db, h) && v in db.roots
    ensures 1 <= v <= |h|
    ensures var db' := DeleteFrom(db, RootHash(h[|h| - 1]), v + 1);
            Canonical(db', h[..v]) && db'.roots.Keys == set u | u in db.roots && u <= v
  {
    hide At, RootsOk, NodesOk, OrphansOk, ValidHistory, DeleteFrom;
    DeleteFromRoots(db, h, v);
    HistoryTruncated(h, v);
    DeleteFromNodes(db, h, v);
    DeleteFromOrphans(db, h, v);
  }

  lemma DeleteFromContent(db: Db, latest: Option<Hash>, version: int)
    requires forall x :: x in db.nodes ==> db.nodes[x] == Content(x)
    ensures var db' := DeleteFrom(db, latest, version); forall x :: x in db'.nodes ==> db'.nodes[x] == Content(x)
  {
    hide Content, Subhashes;
  }

  lemma DeleteFromNodes(db: Db, h: History, v: int)
    requires Canonical(db, h) && v in db.roots
    ensures 1 <= v <= |h| && NodesOk(DeleteFrom(db, RootHash(h[|h| - 1]), v + 1), h[..v])
  {
    hide At, ValidHistory, OrphansOk, DeleteFrom, Content;
    assert 1 <= v <= |h|;
    var h', db' := h[..v], DeleteFrom(db, RootHash(h[|h| - 1]), v + 1);
    DeleteFromContent(db, RootHash(h[|h| - 1]), v + 1);
    forall x ensures x in db'.nodes <==> exists u :: u in db'.roots && x in At(h', u) { DeleteFromNode(db, h, v, x); }
    hide RootsOk;
  }

  lemma DeleteFromOrphans(db: Db, h: History, v: int)
    requires Canonical(db, h) && v in db.roots
    ensures 1 <= v <= |h| && OrphansOk(DeleteFrom(db, RootHash(h[|h| - 1]), v + 1), h[..v])
  {
    hide At, ValidHistory, NodesOk, DeleteFrom, IsLastVersionOf;
    assert 1 <= v <= |h|;
    var h', db' := h[..v], DeleteFrom(db, RootHash(h[|h| - 1]), v + 1);
    forall r ensures r in db'.orphans <==> r.to < |h'| && r.from == r.hash.version && IsLastVersionOf(db', h', r.hash, r.to) {
      DeleteFromOrphan(db, h, v, r);
    }
    hide RootsOk;
  }
}
