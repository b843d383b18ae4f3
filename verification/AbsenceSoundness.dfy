/**
  Soundness of VerifyAbsence for any proof, however it was built, whose inner
  paths are leftmost, as those that the tree generates are: its leaves are then
  neighbours in the tree, and nothing lies between them.
 */
module AbsenceSoundness {
  import opened Options
  import opened ByteStrings
  import opened AvlTree
  import opened Orphans
  import opened RangeProofs
  import opened RangeQuery
  import opened ProofSoundness
  import opened ProofCompleteness
  import opened RangeAnswer
  import opened RangeExact
  import opened RangeAbsence

  ghost predicate AllLeftmost(paths: seq<Path>) { forall i :: 0 <= i < |paths| ==> IsLeftmost(paths[i]) }

  // ---------- where a path leads ----------

  /** The subtree that a path of the tree leads to: left where it gives no left hash. */
  function Reached(m: Node, path: Path): Node
  {
    if path == [] || m.Leaf? then m else Reached(if |path[0].left| == 0 then m.left else m.right, path[1..])
  }

  /** How many leaves come before that subtree. */
  function Before(m: Node, path: Path): nat
  {
    if path == [] || m.Leaf? then 0
    else if |path[0].left| == 0 then Before(m.left, path[1..])
    else |Leaves(m.left)| + Before(m.right, path[1..])
  }

  /** How many leaves there are up to its end. */
  function UpTo(m: Node, path: Path): nat { Before(m, path) + |Leaves(Reached(m, path))| }

  /** Every step of the path is an inner node with the hash of the sibling. */
  ghost predicate Descends(hash: HashFn, m: Node, path: Path)
  {
    path == [] ||
    (m.Inner? &&
     (if |path[0].left| == 0 then |path[0].right| > 0 && path[0].right == NodeHash(hash, m.right) else |path[0].right| == 0) &&
     Descends(hash, if |path[0].left| == 0 then m.left else m.right, path[1..]))
  }

  /** A path and leaf that hash to a subtree lead in it to that leaf. */
  lemma {:induction false} PathLeads(hash: HashFn, n: Node, m: Node, path: Path, leaf: ProofLeaf)
    requires NeverEmpty(hash) && m in Subnodes(n) && HeightsPositive(m) && InnerHeights(path)
    requires NoClash(hash, PathPreimages(hash, path, leaf), TreePreimages(hash, n))
    requires PathHash(hash, path, LeafHash(hash, leaf)) == Some(NodeHash(hash, m))
    ensures Descends(hash, m, path) && Reached(m, path).Leaf? && Reached(m, path).key == leaf.key
  {
    assert NodePreimage(hash, m) in TreePreimages(hash, n);
    if path == [] {
      assert LeafPreimage(leaf) == NodePreimage(hash, m);
      LeafByPreimage(hash, m, leaf);
    } else {
      var p, rest := path[0], path[1..];
      var child := PathHash(hash, rest, LeafHash(hash, leaf)).value;
      assert InnerPreimage(p, child) == NodePreimage(hash, m);
      InnerByPreimage(hash, m, p, child);
      NodeHashNotEmpty(hash, m.right);
      hide NodeHash, PathHash, TreePreimages, NoClash;
      assert m.left in Subnodes(m) && m.right in Subnodes(m);
      SubtreeIn(n, m, m.left); SubtreeIn(n, m, m.right);
      PathLeads(hash, n, if |p.left| == 0 then m.left else m.right, rest, leaf);
    }
  }

  /** t is the part of s from e on. */
  ghost predicate Stretch(s: seq<Node>, e: nat, t: seq<Node>)
  {
    e + |t| <= |s| && forall i :: 0 <= i < |t| ==> s[e + i] == t[i]
  }

  lemma StretchOfConcat(a: seq<Node>, b: seq<Node>, e: nat, t: seq<Node>)
    ensures Stretch(a, e, t) ==> Stretch(a + b, e, t)
    ensures Stretch(b, e, t) ==> Stretch(a + b, |a| + e, t)
  {
    var s := a + b;
    if Stretch(b, e, t) {
      forall i | 0 <= i < |t| ensures s[|a| + e + i] == t[i] { assert s[|a| + (e + i)] == b[e + i]; }
    }
  }

  lemma StretchOfStretch(s: seq<Node>, e: nat, t: seq<Node>, f: nat, u: seq<Node>)
    requires Stretch(s, e, t) && Stretch(t, f, u)
    ensures Stretch(s, e + f, u)
  {
    forall i | 0 <= i < |u| ensures s[e + f + i] == u[i] { assert s[e + (f + i)] == t[f + i]; }
  }

  lemma StretchSelf(s: seq<Node>)
    ensures Stretch(s, 0, s)
  {
  }

  lemma StretchOne(s: seq<Node>, e: nat, x: Node)
    requires Stretch(s, e, [x])
    ensures e < |s| && s[e] == x
  {
    var t, i := [x], 0;
    assert s[e + i] == t[i];
  }

  /** The leaves of the subtree are a stretch of those of the tree. */
  lemma {:induction false} ReachedLeaves(m: Node, path: Path)
    ensures Stretch(Leaves(m), Before(m, path), Leaves(Reached(m, path)))
  {
    hide Stretch;
    if path == [] || m.Leaf? {
      StretchSelf(Leaves(m));
    } else {
      var l, r, child := Leaves(m.left), Leaves(m.right), if |path[0].left| == 0 then m.left else m.right;
      ReachedLeaves(child, path[1..]);
      StretchOfConcat(l, r, Before(child, path[1..]), Leaves(Reached(child, path[1..])));
    }
  }

  lemma {:induction false} ReachedIn(m: Node, path: Path)
    ensures Reached(m, path) in Subnodes(m)
  {
    if path != [] && m.Inner? { ReachedIn(if |path[0].left| == 0 then m.left else m.right, path[1..]); }
  }

  lemma {:induction false} LeftmostStarts(m: Node, path: Path)
    requires IsLeftmost(path)
    ensures Before(m, path) == 0
  {
    if path != [] && m.Inner? { LeftmostStarts(m.left, path[1..]); }
  }

  lemma {:induction false} RightmostEnds(hash: HashFn, m: Node, path: Path)
    requires Descends(hash, m, path) && IsRightmost(path)
    ensures UpTo(m, path) == |Leaves(m)|
  {
    if path != [] { RightmostEnds(hash, m.right, path[1..]); }
  }

  /** The last step of a path: from an inner node to its left child, with the hash of the right one, or to its right child. */
  lemma {:induction false} LastStep(hash: HashFn, m: Node, path: Path)
    requires path != [] && Descends(hash, m, path)
    ensures var rest, last := path[..|path| - 1], path[|path| - 1];
            Descends(hash, m, rest) && Reached(m, rest).Inner? &&
            var x := Reached(m, rest);
            if |last.right| > 0
            then last.right == NodeHash(hash, x.right) && UpTo(m, path) == Before(m, rest) + |Leaves(x.left)|
            else UpTo(m, path) == UpTo(m, rest)
  {
    hide NodeHash;
    if |path| > 1 {
      var rest := path[..|path| - 1];
      assert rest[0] == path[0] && rest[1..] == path[1..][..|path| - 2] && path[1..][|path| - 2] == path[|path| - 1];
      LastStep(hash, if |path[0].left| == 0 then m.left else m.right, path[1..]);
    } else {
      var child := if |path[0].left| == 0 then m.left else m.right;
      assert path[..0] == [] && path[1..] == [];
      assert Reached(child, []) == child && Before(child, []) == 0;
      assert Leaves(m) == Leaves(m.left) + Leaves(m.right);
    }
  }

  // ---------- what a verification pops ----------

  /** The leaves popped have the keys of s from position e on. */
  ghost predicate PoppedAt(s: seq<Node>, e: nat, leaves: seq<ProofLeaf>, rest: seq<ProofLeaf>)
  {
    |rest| <= |leaves| && rest == leaves[|leaves| - |rest|..] && e + |leaves| - |rest| <= |s| &&
    forall i :: 0 <= i < |leaves| - |rest| ==> leaves[i].key == s[e + i].key
  }

  lemma PoppedMore(s: seq<Node>, e: nat, a: seq<ProofLeaf>, b: seq<ProofLeaf>, c: seq<ProofLeaf>)
    requires PoppedAt(s, e, a, b) && PoppedAt(s, e + |a| - |b|, b, c)
    ensures PoppedAt(s, e, a, c)
  {
    var k := |a| - |b|;
    assert b[|b| - |c|..] == a[|a| - |c|..];
    forall i | 0 <= i < |a| - |c| ensures a[i].key == s[e + i].key {
      if i >= k { assert a[i] == b[i - k]; }
    }
  }

  lemma PoppedNone(s: seq<Node>, leaves: seq<ProofLeaf>)
    ensures PoppedAt(s, |s|, leaves, leaves)
  {
  }

  /** Popped from a stretch of s. */
  lemma PoppedWithin(s: seq<Node>, e: nat, t: seq<Node>, leaves: seq<ProofLeaf>, rest: seq<ProofLeaf>)
    requires PoppedAt(t, 0, leaves, rest) && Stretch(s, e, t)
    ensures PoppedAt(s, e, leaves, rest)
  {
  }

  /** How a verification against a subtree with leaves s ends: either all leaves of s from e on are popped, or the queue is empty. */
  ghost predicate Runs(hash: HashFn, n: Node, s: seq<Node>, e: nat, rightmost: bool, leaves: seq<ProofLeaf>, r: Outcome)
  {
    r.Computed? && Honest(hash, n, r.inners, r.leaves) && AllLeftmost(r.inners) && PoppedAt(s, e, leaves, r.leaves) &&
    (!r.done ==> e + |leaves| - |r.leaves| == |s|) &&
    (r.treeEnd ==> rightmost && e + |leaves| - |r.leaves| == |s|)
  }

  lemma FirstPops(hash: HashFn, n: Node, m: Node, path: Path, leaves: seq<ProofLeaf>, inners: seq<Path>)
    requires NeverEmpty(hash) && m in Subnodes(n) && HeightsPositive(m) && leaves != [] && Honest(hash, n, [path] + inners, leaves)
    requires PathHash(hash, path, LeafHash(hash, leaves[0])) == Some(NodeHash(hash, m))
    ensures Honest(hash, n, inners, leaves[1..]) && Descends(hash, m, path) && UpTo(m, path) == Before(m, path) + 1
    ensures PoppedAt(Leaves(m), Before(m, path), leaves, leaves[1..])
  {
    hide Subnodes, NodeHash, PathHash, NoClash, LeafIn, RightsIn, TreePreimages, PathPreimages, Descends, Before, Reached;
    FirstLeafSound(hash, n, m, path, leaves, inners);
    assert ([path] + inners)[0] == path;
    PathLeads(hash, n, m, path, leaves[0]);
    ReachedLeaves(m, path);
    assert Leaves(Reached(m, path)) == [Reached(m, path)];
    StretchOne(Leaves(m), Before(m, path), Reached(m, path));
    assert leaves[|leaves| - |leaves[1..]|..] == leaves[1..];
  }

  lemma {:induction false} ComputeWindow(hash: HashFn, n: Node, m: Node, path: Path, rightmost: bool, leaves: seq<ProofLeaf>, inners: seq<Path>)
    requires NeverEmpty(hash) && m in Subnodes(n) && HeightsPositive(m) && Honest(hash, n, [path] + inners, leaves) && AllLeftmost(inners)
    requires var r := ComputeHash(hash, path, rightmost, leaves, inners); r.Computed? && r.root == NodeHash(hash, m)
    ensures Runs(hash, n, Leaves(m), Before(m, path), rightmost, leaves, ComputeHash(hash, path, rightmost, leaves, inners))
    ensures Descends(hash, m, path) && UpTo(m, path) == Before(m, path) + 1
    decreases |leaves|, 0, 0
  {
    hide Honest, AllLeftmost, PoppedAt, Subnodes, NodeHash, PathHash, Before, Reached, Descends, Leaves, UpTo, ProveAlong;
    assert leaves != [];
    var root := PathHash(hash, path, LeafHash(hash, leaves[0])).value;
    if |leaves| > 1 { AlongRoot(hash, path, rightmost, root, leaves[1..], inners); }
    FirstPops(hash, n, m, path, leaves, inners);
    if |leaves| == 1 {
      assert leaves[1..] == [];
      if IsRightmost(path) { RightmostEnds(hash, m, path); }
    } else {
      AlongWindow(hash, n, m, path, rightmost, root, leaves[1..], inners);
      PoppedMore(Leaves(m), Before(m, path), leaves, leaves[1..], ProveAlong(hash, path, rightmost, root, leaves[1..], inners).leaves);
    }
  }

  /** The loop: behind the subtree that the rest of the path leads to come the leaves of its right sibling. */
  lemma {:induction false} AlongWindow(hash: HashFn, n: Node, m: Node, path: Path, rightmost: bool, root: Bytes, leaves: seq<ProofLeaf>, inners: seq<Path>)
    requires NeverEmpty(hash) && m in Subnodes(n) && HeightsPositive(m) && Descends(hash, m, path) && Honest(hash, n, inners, leaves) && AllLeftmost(inners)
    requires ProveAlong(hash, path, rightmost, root, leaves, inners).Computed?
    ensures Runs(hash, n, Leaves(m), UpTo(m, path), rightmost, leaves, ProveAlong(hash, path, rightmost, root, leaves, inners))
    decreases |leaves|, 1, |path|
  {
    hide Honest, AllLeftmost, PoppedAt, Subnodes, NodeHash, Descends, HeightsPositive, ComputeHash;
    if path == [] {
      PoppedNone(Leaves(m), leaves);
      return;
    }
    var rest, last := path[..|path| - 1], path[|path| - 1];
    LastStep(hash, m, path);
    hide Before, Reached, UpTo, Leaves;
    if |last.right| == 0 {
      AlongWindow(hash, n, m, rest, rightmost, root, leaves, inners);
    } else {
      var sub := ComputeHash(hash, inners[0], rightmost && IsRightmost(rest), leaves, inners[1..]);
      SiblingWindow(hash, n, m, path, rightmost, leaves, inners);
      if !sub.done {
        AlongWindow(hash, n, m, rest, rightmost, root, sub.leaves, sub.inners);
        PoppedMore(Leaves(m), UpTo(m, path), leaves, sub.leaves, ProveAlong(hash, rest, rightmost, root, sub.leaves, sub.inners).leaves);
      }
    }
  }

  lemma {:induction false} SiblingWindow(hash: HashFn, n: Node, m: Node, path: Path, rightmost: bool, leaves: seq<ProofLeaf>, inners: seq<Path>)
    requires NeverEmpty(hash) && m in Subnodes(n) && HeightsPositive(m) && path != [] && Descends(hash, m, path) && |path[|path| - 1].right| > 0
    requires inners != [] && Honest(hash, n, inners, leaves) && AllLeftmost(inners)
    requires var sub := ComputeHash(hash, inners[0], rightmost && IsRightmost(path[..|path| - 1]), leaves, inners[1..]);
             sub.Computed? && sub.root == path[|path| - 1].right
    ensures var sub, rest := ComputeHash(hash, inners[0], rightmost && IsRightmost(path[..|path| - 1]), leaves, inners[1..]), path[..|path| - 1];
            Honest(hash, n, sub.inners, sub.leaves) && AllLeftmost(sub.inners) && Descends(hash, m, rest) &&
            PoppedAt(Leaves(m), UpTo(m, path), leaves, sub.leaves) &&
            (!sub.done ==> UpTo(m, path) + |leaves| - |sub.leaves| == UpTo(m, rest)) &&
            (sub.treeEnd ==> rightmost && UpTo(m, path) + |leaves| - |sub.leaves| == |Leaves(m)|)
    decreases |leaves|, 0, 1
  {
    hide Honest, PoppedAt, NodeHash, Descends, ComputeHash, HeightsPositive, Subnodes, Before, Reached, UpTo, Leaves, Stretch, IsRightmost, IsLeftmost;
    var rest := path[..|path| - 1];
    var x := SiblingOf(hash, n, m, path);
    assert [inners[0]] + inners[1..] == inners && AllLeftmost(inners[1..]) && IsLeftmost(inners[0]);
    hide AllLeftmost;
    var sub := ComputeHash(hash, inners[0], rightmost && IsRightmost(rest), leaves, inners[1..]);
    ComputeWindow(hash, n, x, inners[0], rightmost && IsRightmost(rest), leaves, inners[1..]);
    LeftmostStarts(x, inners[0]);
    PoppedWithin(Leaves(m), UpTo(m, path), Leaves(x), leaves, sub.leaves);
  }

  /** The right sibling of where the path leads: its leaves come next, up to the end of their parent. */
  lemma SiblingOf(hash: HashFn, n: Node, m: Node, path: Path) returns (k: Node)
    requires m in Subnodes(n) && HeightsPositive(m) && path != [] && Descends(hash, m, path) && |path[|path| - 1].right| > 0
    ensures k in Subnodes(n) && HeightsPositive(k) && NodeHash(hash, k) == path[|path| - 1].right
    ensures var rest := path[..|path| - 1];
            Descends(hash, m, rest) && Stretch(Leaves(m), UpTo(m, path), Leaves(k)) && UpTo(m, path) + |Leaves(k)| == UpTo(m, rest) &&
            (IsRightmost(rest) ==> UpTo(m, rest) == |Leaves(m)|)
  {
    hide NodeHash, Descends, HeightsPositive, Subnodes, Before, Reached, Stretch, Leaves;
    var rest := path[..|path| - 1];
    LastStep(hash, m, path);
    var x := Reached(m, rest);
    ReachedLeaves(m, rest);
    ReachedIn(m, rest);
    SiblingIn(n, m, x);
    if IsRightmost(rest) { RightmostEnds(hash, m, rest); }
    RightStretch(x);
    StretchOfStretch(Leaves(m), Before(m, rest), Leaves(x), |Leaves(x.left)|, Leaves(x.right));
    k := x.right;
  }

  lemma RightStretch(x: Node)
    requires x.Inner?
    ensures Stretch(Leaves(x), |Leaves(x.left)|, Leaves(x.right)) && |Leaves(x)| == |Leaves(x.left)| + |Leaves(x.right)|
  {
  }

  lemma SiblingIn(n: Node, m: Node, x: Node)
    requires m in Subnodes(n) && x in Subnodes(m) && x.Inner? && HeightsPositive(m)
    ensures x.right in Subnodes(n) && HeightsPositive(x.right)
  {
    HeightsBelow(m, x);
    assert x.right in Subnodes(x);
    SubtreeIn(n, m, x);
    SubtreeIn(n, x, x.right);
  }

  // ---------- main results ----------

  /** Verify and then VerifyAbsence accept only absent keys, if all inner paths are leftmost. */
  lemma LeftmostProofsAreSound(hash: HashFn, n: Node, leftPath: Path, inners: seq<Path>, leaves: seq<ProofLeaf>, key: Bytes)
    requires WellFormed(n) && NeverEmpty(hash) && Honest(hash, n, [leftPath] + inners, leaves) && AllLeftmost(inners)
    requires var r := RootOf(hash, leftPath, inners, leaves);
             r.Some? && r.value.0 == NodeHash(hash, n) && leaves != [] && ProvesAbsence(leftPath, leaves, r.value.1, key)
    ensures key !in Keys(n)
  {
    hide Honest, NodeHash, ProvesAbsence, AllLeftmost, ComputeHash, Leaves, Ordered, Avl, Before, Reached, Descends;
    AvlHeightsPositive(n);
    QueuesSuffice(hash, leftPath, true, leaves, inners);
    var r := ComputeHash(hash, leftPath, true, leaves, inners);
    RootInTree(n);
    ComputeWindow(hash, n, n, leftPath, true, leaves, inners);
    if IsLeftmost(leftPath) { LeftmostStarts(n, leftPath); }
    if IsRightmost(leftPath) { RightmostEnds(hash, n, leftPath); }
    LeavesRise(n);
    hide Rising, KeysOf, IsLeftmost, IsRightmost, Keys;
    if key in Keys(n) {
      KeyHasLeaf(Leaves(n), Keys(n), key);
      var x :| 0 <= x < |Leaves(n)| && Leaves(n)[x].key == key;
      NoLeafHasKey(Leaves(n), Before(n, leftPath), leaves, leftPath, r.treeEnd, key, x);
    }
  }

  lemma RootInTree(n: Node)
    ensures n in Subnodes(n)
  {
  }

  /** The pairs from a key on: those of the left child, the first path going through n, and then those of the right child. */
  lemma PairsToTheLeft(hash: HashFn, n: Node, k: Option<Bytes>, i: nat)
    requires n.Inner? && (k.None? || Lt(k.value, n.key)) && i < |PairsFrom(hash, n, k)|
    ensures var l, p := PairsFrom(hash, n.left, k), PairsFrom(hash, n, k)[i].path;
            if i == 0 then p == [PinLeft(hash, n)] + l[0].path
            else if i < |l| then p == l[i].path
            else i - |l| < |PairsFrom(hash, n.right, None)| && p == PairsFrom(hash, n.right, None)[i - |l|].path
  {
    hide Lt, NodeHash, Prefixed;
    var l, r := PairsFrom(hash, n.left, k), PairsFrom(hash, n.right, None);
    assert PairsFrom(hash, n, k) == Prefixed([PinLeft(hash, n)], l) + r;
    hide PairsFrom;
    PrefixedAt([PinLeft(hash, n)], l, r, i);
  }

  lemma PrefixedAt(path: Path, a: seq<Pair>, b: seq<Pair>, i: nat)
    requires a != [] && i < |a| + |b|
    ensures (Prefixed(path, a) + b)[i].path == if i == 0 then path + a[0].path else if i < |a| then a[i].path else b[i - |a|].path
  {
    if 0 < i < |a| { assert Prefixed(path, a)[i] == a[1..][i - 1]; }
  }

  lemma PairsToTheRight(hash: HashFn, n: Node, k: Bytes, i: nat)
    requires n.Inner? && !Lt(k, n.key) && 0 < i < |PairsFrom(hash, n, Some(k))|
    ensures i < |PairsFrom(hash, n.right, Some(k))| && PairsFrom(hash, n, Some(k))[i].path == PairsFrom(hash, n.right, Some(k))[i].path
  {
    hide Lt, NodeHash;
  }

  /** The inner paths that the tree generates are leftmost. */
  lemma {:induction false} GeneratedAreLeftmost(hash: HashFn, n: Node, k: Option<Bytes>, i: nat)
    requires i < |PairsFrom(hash, n, k)| && (i > 0 || k.None?)
    ensures IsLeftmost(PairsFrom(hash, n, k)[i].path)
  {
    if n.Leaf? { return; }
    hide Lt, NodeHash, PairsFrom, IsLeftmost;
    if k.None? || Lt(k.value, n.key) {
      var l := PairsFrom(hash, n.left, k);
      PairsToTheLeft(hash, n, k, i);
      if i < |l| { GeneratedAreLeftmost(hash, n.left, k, i); } else { GeneratedAreLeftmost(hash, n.right, None, i - |l|); }
      if i == 0 { LeftmostConcat(PinLeft(hash, n), l[0].path); }
    } else {
      PairsToTheRight(hash, n, k.value, i);
      GeneratedAreLeftmost(hash, n.right, k, i);
    }
  }

  lemma AnswersAreLeftmost(hash: HashFn, root: Node, start: Option<Bytes>, end: Option<Bytes>, limit: nat)
    requires Provable(hash, root) && NoneSkipped(root)
    ensures AllLeftmost(GetRange(hash, root, start, end, limit).inners)
  {
    hide Provable, NoneSkipped, GetRange, PairsFrom, IsLeftmost, Given;
    AnswerLists(hash, root, start, end, limit);
    var p, c := PairsFrom(hash, root, Some(KeyOf(start))), Given(hash, root, start, end, limit);
    var inners := Paths(p[1..c + 1]);
    forall i | 0 <= i < |inners| ensures IsLeftmost(inners[i]) {
      assert inners[i] == p[i + 1].path;
      GeneratedAreLeftmost(hash, root, Some(KeyOf(start)), i + 1);
    }
  }
}
