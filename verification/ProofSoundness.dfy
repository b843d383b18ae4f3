/**
  Soundness of range proofs: whatever proof is presented, if it verifies against
  the root hash of a tree then its leaves are leaves of that tree. The hash is
  any function; what is assumed of it is that no string the verifier hashes
  collides with a different string hashed for a node of the tree.
 */
module ProofSoundness {
  import opened Options
  import opened ByteStrings
  import opened AvlTree
  import opened Orphans
  import opened RangeProofs

  /** Inner nodes are told from leaves by their height. */
  ghost predicate InnerHeights(path: Path) { forall i :: 0 <= i < |path| ==> path[i].height > 0 }

  ghost predicate HeightsPositive(n: Node)
  {
    n.Inner? ==> n.height > 0 && HeightsPositive(n.left) && HeightsPositive(n.right)
  }

  lemma {:induction false} AvlHeightsPositive(n: Node)
    requires Avl(n)
    ensures HeightsPositive(n)
  {
    AvlHeight(n);
    if n.Inner? { AvlHeightsPositive(n.left); AvlHeightsPositive(n.right); }
  }

  /** The strings hashed to check one leaf along its path. */
  function PathPreimages(hash: HashFn, path: Path, leaf: ProofLeaf): set<Bytes>
  {
    if path == [] then {LeafPreimage(leaf)}
    else
      var below := PathHash(hash, path[1..], LeafHash(hash, leaf));
      PathPreimages(hash, path[1..], leaf) + (if below.Some? then {InnerPreimage(path[0], below.value)} else {})
  }

  function TreePreimages(hash: HashFn, n: Node): set<Bytes>
  {
    set m | m in Subnodes(n) :: NodePreimage(hash, m)
  }

  ghost predicate NoClash(hash: HashFn, a: set<Bytes>, b: set<Bytes>)
  {
    forall x, y :: x in a && y in b && hash(x) == hash(y) ==> x == y
  }

  /** Path i is checked with leaf i; none of the strings hashed for it clashes with the tree. */
  ghost predicate Honest(hash: HashFn, n: Node, paths: seq<Path>, leaves: seq<ProofLeaf>)
  {
    |paths| == |leaves| && forall i :: 0 <= i < |leaves| ==>
      InnerHeights(paths[i]) && NoClash(hash, PathPreimages(hash, paths[i], leaves[i]), TreePreimages(hash, n))
  }

  /** The leaf is in the tree. */
  ghost predicate LeafIn(hash: HashFn, n: Node, leaf: ProofLeaf)
  {
    exists m :: m in Subnodes(n) && m.Leaf? && m.key == leaf.key && m.version == leaf.version && hash(m.value) == leaf.valueHash
  }

  /** Every right hash on the path is the hash of a subtree of n. */
  ghost predicate RightsIn(hash: HashFn, n: Node, path: Path)
  {
    forall i :: 0 <= i < |path| && |path[i].right| > 0 ==>
      exists m :: m in Subnodes(n) && HeightsPositive(m) && NodeHash(hash, m) == path[i].right
  }

  /** One path and leaf that hash to a subtree m of n descend in m to that leaf. */
  lemma {:induction false} PathSound(hash: HashFn, n: Node, m: Node, path: Path, leaf: ProofLeaf)
    requires m in Subnodes(n) && HeightsPositive(m) && InnerHeights(path)
    requires NoClash(hash, PathPreimages(hash, path, leaf), TreePreimages(hash, n))
    requires PathHash(hash, path, LeafHash(hash, leaf)) == Some(NodeHash(hash, m))
    ensures LeafIn(hash, n, leaf) && RightsIn(hash, n, path)
  {
    assert NodePreimage(hash, m) in TreePreimages(hash, n);
    if path == [] {
      assert LeafPreimage(leaf) == NodePreimage(hash, m);
      LeafByPreimage(hash, m, leaf);
    } else {
      var p, rest := path[0], path[1..];
      var child := PathHash(hash, rest, LeafHash(hash, leaf)).value;
      assert InnerPreimage(p, child) == NodePreimage(hash, m);
      InnerByPreimage(hash, m, p, child);
      var k := if |p.left| == 0 then m.left else m.right;
      assert m.left in Subnodes(m) && m.right in Subnodes(m);
      SubtreeIn(n, m, m.left); SubtreeIn(n, m, m.right);
      PathSound(hash, n, k, rest, leaf);
      forall i | 0 <= i < |path| && |path[i].right| > 0
        ensures exists q :: q in Subnodes(n) && HeightsPositive(q) && NodeHash(hash, q) == path[i].right {
        if i == 0 { assert NodeHash(hash, m.right) == p.right; }
        else { assert path[i] == rest[i - 1]; }
      }
    }
  }

  lemma LeafByPreimage(hash: HashFn, m: Node, leaf: ProofLeaf)
    requires HeightsPositive(m) && LeafPreimage(leaf) == NodePreimage(hash, m)
    ensures m.Leaf? && m.key == leaf.key && m.version == leaf.version && hash(m.value) == leaf.valueHash
  {
    hide Preimage;
    match m
    case Leaf(key, value, version) => PreimageInjective(0, 1, leaf.version, leaf.key, leaf.valueHash, 0, 1, version, key, hash(value));
    case Inner(_, height, size, version, l, r) =>
      PreimageInjective(0, 1, leaf.version, leaf.key, leaf.valueHash, height, size, version, NodeHash(hash, l), NodeHash(hash, r));
  }

  lemma InnerByPreimage(hash: HashFn, m: Node, p: ProofInner, child: Bytes)
    requires HeightsPositive(m) && p.height > 0 && !(|p.left| > 0 && |p.right| > 0)
    requires InnerPreimage(p, child) == NodePreimage(hash, m)
    ensures m.Inner?
    ensures |p.left| == 0 ==> child == NodeHash(hash, m.left) && p.right == NodeHash(hash, m.right)
    ensures |p.left| > 0 ==> child == NodeHash(hash, m.right) && p.left == NodeHash(hash, m.left)
  {
    hide Preimage;
    var a, b := if |p.left| == 0 then child else p.left, if |p.left| == 0 then p.right else child;
    match m
    case Leaf(key, value, version) => PreimageInjective(p.height, p.size, p.version, a, b, 0, 1, version, key, hash(value));
    case Inner(_, height, size, version, l, r) =>
      PreimageInjective(p.height, p.size, p.version, a, b, height, size, version, NodeHash(hash, l), NodeHash(hash, r));
  }

  /** `rest` is what is left of `leaves`, and the leaves popped before it are in the tree. */
  ghost predicate PoppedInTree(hash: HashFn, n: Node, leaves: seq<ProofLeaf>, rest: seq<ProofLeaf>)
  {
    && |rest| <= |leaves|
    && rest == leaves[|leaves| - |rest|..]
    && forall i :: 0 <= i < |leaves| - |rest| ==> LeafIn(hash, n, leaves[i])
  }

  lemma PoppedTwice(hash: HashFn, n: Node, a: seq<ProofLeaf>, b: seq<ProofLeaf>, c: seq<ProofLeaf>)
    requires PoppedInTree(hash, n, a, b) && PoppedInTree(hash, n, b, c)
    ensures PoppedInTree(hash, n, a, c)
  {
    hide LeafIn;
    var k := |a| - |b|;
    assert b[|b| - |c|..] == a[|a| - |c|..];
    forall i | 0 <= i < |a| - |c| ensures LeafIn(hash, n, a[i]) {
      if i >= k { assert a[i] == b[i - k]; }
    }
  }

  lemma FirstLeafSound(hash: HashFn, n: Node, m: Node, path: Path, leaves: seq<ProofLeaf>, inners: seq<Path>)
    requires m in Subnodes(n) && HeightsPositive(m) && leaves != [] && Honest(hash, n, [path] + inners, leaves)
    requires PathHash(hash, path, LeafHash(hash, leaves[0])) == Some(NodeHash(hash, m))
    ensures Honest(hash, n, inners, leaves[1..]) && PoppedInTree(hash, n, leaves, leaves[1..]) && RightsIn(hash, n, path)
  {
    hide Subnodes, NoClash, LeafIn, RightsIn, NodeHash, PathHash, TreePreimages, PathPreimages;
    var paths := [path] + inners;
    assert paths[0] == path;
    PathSound(hash, n, m, path, leaves[0]);
    forall i | 0 <= i < |inners| ensures inners[i] == paths[i + 1] && leaves[1..][i] == leaves[i + 1] {}
  }

  /** COMPUTEHASH: if the hash of a subtree m comes out, all leaves popped on the way are in n. */
  lemma {:induction false} ComputeSound(hash: HashFn, n: Node, m: Node, path: Path, rightmost: bool, leaves: seq<ProofLeaf>, inners: seq<Path>)
    requires m in Subnodes(n) && HeightsPositive(m) && Honest(hash, n, [path] + inners, leaves)
    requires var r := ComputeHash(hash, path, rightmost, leaves, inners);
             r.Computed? && r.root == NodeHash(hash, m)
    ensures var r := ComputeHash(hash, path, rightmost, leaves, inners);
            Honest(hash, n, r.inners, r.leaves) && PoppedInTree(hash, n, leaves, r.leaves)
    decreases |leaves|, 0, 0
  {
    hide Honest, PoppedInTree, RightsIn, Subnodes, NodeHash, PathHash;
    assert leaves != [];
    var root := PathHash(hash, path, LeafHash(hash, leaves[0]));
    if |leaves| == 1 {
      FirstLeafSound(hash, n, m, path, leaves, inners);
      assert leaves[1..] == [];
    } else {
      AlongRoot(hash, path, rightmost, root.value, leaves[1..], inners);
      FirstLeafSound(hash, n, m, path, leaves, inners);
      AlongSound(hash, n, path, rightmost, root.value, leaves[1..], inners);
      PoppedTwice(hash, n, leaves, leaves[1..], ProveAlong(hash, path, rightmost, root.value, leaves[1..], inners).leaves);
    }
  }

  lemma {:induction false} AlongRoot(hash: HashFn, path: Path, rightmost: bool, root: Bytes, leaves: seq<ProofLeaf>, inners: seq<Path>)
    ensures var r := ProveAlong(hash, path, rightmost, root, leaves, inners); r.Computed? ==> r.root == root
    decreases |leaves|, 1, |path|
  {
    if path != [] {
      var rest, last := path[..|path| - 1], path[|path| - 1];
      if |last.right| == 0 { AlongRoot(hash, rest, rightmost, root, leaves, inners); }
      else if inners != [] {
        var r := ComputeHash(hash, inners[0], rightmost && IsRightmost(rest), leaves, inners[1..]);
        if r.Computed? && r.root == last.right && !r.done { AlongRoot(hash, rest, rightmost, root, r.leaves, r.inners); }
      }
    }
  }

  lemma {:induction false} AlongSound(hash: HashFn, n: Node, path: Path, rightmost: bool, root: Bytes, leaves: seq<ProofLeaf>, inners: seq<Path>)
    requires RightsIn(hash, n, path) && Honest(hash, n, inners, leaves)
    requires ProveAlong(hash, path, rightmost, root, leaves, inners).Computed?
    ensures var r := ProveAlong(hash, path, rightmost, root, leaves, inners);
            Honest(hash, n, r.inners, r.leaves) && PoppedInTree(hash, n, leaves, r.leaves)
    decreases |leaves|, 1, |path|
  {
    hide Honest, LeafIn, Subnodes;
    if path == [] { assert leaves[0..] == leaves; return; }
    var rest, last := path[..|path| - 1], path[|path| - 1];
    assert RightsIn(hash, n, rest);
    if |last.right| == 0 { AlongSound(hash, n, rest, rightmost, root, leaves, inners); }
    else {
      var r := ComputeHash(hash, inners[0], rightmost && IsRightmost(rest), leaves, inners[1..]);
      assert [inners[0]] + inners[1..] == inners;
      var m :| m in Subnodes(n) && HeightsPositive(m) && NodeHash(hash, m) == last.right;
      ComputeSound(hash, n, m, inners[0], rightmost && IsRightmost(rest), leaves, inners[1..]);
      hide PoppedInTree;
      if !r.done {
        AlongSound(hash, n, rest, rightmost, root, r.leaves, r.inners);
        PoppedTwice(hash, n, leaves, r.leaves, ProveAlong(hash, rest, rightmost, root, r.leaves, r.inners).leaves);
      }
    }
  }

  /** A proof that verifies against the root hash of a tree proves leaves of that tree only. */
  lemma VerifiedLeavesAreInTree(hash: HashFn, n: Node, leftPath: Path, inners: seq<Path>, leaves: seq<ProofLeaf>)
    requires Avl(n) && Honest(hash, n, [leftPath] + inners, leaves)
    requires var r := RootOf(hash, leftPath, inners, leaves); r.Some? && r.value.0 == NodeHash(hash, n)
    ensures forall i :: 0 <= i < |leaves| ==> LeafIn(hash, n, leaves[i])
  {
    AvlHeightsPositive(n);
    QueuesSuffice(hash, leftPath, true, leaves, inners);
    ComputeSound(hash, n, n, leftPath, true, leaves, inners);
  }

  lemma {:induction false} LeafInContents(n: Node, m: Node)
    requires Ordered(n) && m in Subnodes(n) && m.Leaf?
    ensures m.key in Contents(n) && Contents(n)[m.key] == m.value
  {
    if n.Inner? {
      ContentsKeys(n.left); ContentsKeys(n.right);
      if m in Subnodes(n.left) {
        LeafInContents(n.left, m);
        KeyNotOnTheRight(n, m.key);
      } else {
        LeafInContents(n.right, m);
      }
    }
  }

  lemma KeyNotOnTheRight(n: Node, key: Bytes)
    requires Ordered(n) && n.Inner? && key in Keys(n.left)
    ensures key !in Keys(n.right)
  {
    LtIsStrictTotalOrder();
    hide Lt;
    MinKeyIsLeast(n.right);
  }

  /**
    Verify and then VerifyItem(key, value) accept only if the tree with that root
    maps key to value, unless the value itself clashes with a stored one.
   */
  lemma VerifiedItemIsMember(hash: HashFn, n: Node, leftPath: Path, inners: seq<Path>, leaves: seq<ProofLeaf>, key: Bytes, value: Bytes)
    requires WellFormed(n) && Honest(hash, n, [leftPath] + inners, leaves)
    requires var r := RootOf(hash, leftPath, inners, leaves); r.Some? && r.value.0 == NodeHash(hash, n)
    requires HasItem(leaves, key, hash(value))
    requires NoClash(hash, {value}, Contents(n).Values)
    ensures key in Contents(n) && Contents(n)[key] == value
  {
    VerifiedLeavesAreInTree(hash, n, leftPath, inners, leaves);
    var i :| 0 <= i < |leaves| && leaves[i].key == key && leaves[i].valueHash == hash(value);
    assert LeafIn(hash, n, leaves[i]);
    var m :| m in Subnodes(n) && m.Leaf? && m.key == key && m.version == leaves[i].version && hash(m.value) == hash(value);
    LeafInContents(n, m);
    assert m.value in Contents(n).Values;
  }
}
