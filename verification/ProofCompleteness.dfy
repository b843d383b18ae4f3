/**
  A proof read off an honest tree verifies: however many of the pairs of
  PairsFrom the proof holds, the verifier recomputes the root hash, and it
  reports the end of the tree exactly when the proof reaches it.
 */
module ProofCompleteness {
  import opened Options
  import opened ByteStrings
  import opened AvlTree
  import opened RangeProofs
  import opened RangeQuery

  ghost predicate NeverEmpty(hash: HashFn) { forall x :: |hash(x)| > 0 }

  predicate AllLeaves(ps: seq<Pair>) { forall i :: 0 <= i < |ps| ==> ps[i].node.Leaf? }

  function ProofLeaves(hash: HashFn, ps: seq<Pair>): (r: seq<ProofLeaf>)
    requires AllLeaves(ps)
    ensures |r| == |ps|
  {
    seq(|ps|, i requires 0 <= i < |ps| => LeafOf(hash, ps[i].node))
  }

  function Paths(ps: seq<Pair>): (r: seq<Path>)
    ensures |r| == |ps|
  {
    seq(|ps|, i requires 0 <= i < |ps| => ps[i].path)
  }

  /** Running the verifier on the pairs: the first path is given, the others are queued. */
  function Check(hash: HashFn, ps: seq<Pair>, rightmost: bool): Outcome
    requires ps != [] && AllLeaves(ps)
  {
    ComputeHash(hash, ps[0].path, rightmost, ProofLeaves(hash, ps), Paths(ps[1..]))
  }

  function CheckAlong(hash: HashFn, path: Path, rightmost: bool, root: Bytes, ps: seq<Pair>): Outcome
    requires AllLeaves(ps)
  {
    ProveAlong(hash, path, rightmost, root, ProofLeaves(hash, ps), Paths(ps))
  }

  /** The lower part of a path is proved before the upper part. */
  lemma {:induction false} AlongSplit(hash: HashFn, a: Path, b: Path, rightmost: bool, root: Bytes, leaves: seq<ProofLeaf>, inners: seq<Path>)
    ensures var r := ProveAlong(hash, b, rightmost && IsRightmost(a), root, leaves, inners);
            ProveAlong(hash, a + b, rightmost, root, leaves, inners) ==
            if r.Computed? && !r.done then ProveAlong(hash, a, rightmost, root, r.leaves, r.inners) else r
    decreases |b|
  {
    if b == [] {
      assert a + b == a;
    } else {
      var rest, last := b[..|b| - 1], b[|b| - 1];
      var ab := a + b;
      assert ab[..|ab| - 1] == a + rest && ab[|ab| - 1] == last;
      assert IsRightmost(a + rest) <==> IsRightmost(a) && IsRightmost(rest) by { RightmostConcat(a, rest); }
      if |last.right| == 0 { AlongSplit(hash, a, rest, rightmost, root, leaves, inners); }
      else if inners != [] {
        var r := ComputeHash(hash, inners[0], rightmost && IsRightmost(a + rest), leaves, inners[1..]);
        if r.Computed? && r.root == last.right && !r.done {
          AlongSplit(hash, a, rest, rightmost, root, r.leaves, r.inners);
        }
      }
    }
  }

  lemma RightmostConcat(a: Path, b: Path)
    ensures IsRightmost(a + b) <==> IsRightmost(a) && IsRightmost(b)
  {
    if IsRightmost(a + b) {
      forall i | 0 <= i < |a| ensures |a[i].right| == 0 { assert (a + b)[i] == a[i]; }
      forall i | 0 <= i < |b| ensures |b[i].right| == 0 { assert (a + b)[|a| + i] == b[i]; }
    }
  }

  /** The root is only carried along. */
  lemma {:induction false} RootCarried(hash: HashFn, path: Path, rightmost: bool, root: Bytes, root': Bytes, leaves: seq<ProofLeaf>, inners: seq<Path>)
    ensures var r, r' := ProveAlong(hash, path, rightmost, root, leaves, inners), ProveAlong(hash, path, rightmost, root', leaves, inners);
            r' == if r.Computed? then r.(root := root') else r
    decreases |leaves|, |path|
  {
    if path != [] {
      var rest, last := path[..|path| - 1], path[|path| - 1];
      if |last.right| == 0 { RootCarried(hash, rest, rightmost, root, root', leaves, inners); }
      else if inners != [] {
        var r := ComputeHash(hash, inners[0], rightmost && IsRightmost(rest), leaves, inners[1..]);
        if r.Computed? && r.root == last.right && !r.done { RootCarried(hash, rest, rightmost, root, root', r.leaves, r.inners); }
      }
    }
  }

  /** `ps` starts like the pairs of the tree, or is a beginning of them. */
  predicate StartsLike(ps: seq<Pair>, tree: seq<Pair>)
  {
    ps != [] && if |ps| <= |tree| then ps == tree[..|ps|] else tree == ps[..|tree|]
  }

  /** What verification of `ps` must answer on a tree with these pairs. */
  function Expected(hash: HashFn, root: Bytes, ps: seq<Pair>, tree: seq<Pair>, rightmost: bool): Outcome
    requires AllLeaves(ps)
  {
    if |ps| <= |tree| then Computed(root, rightmost && |ps| == |tree|, true, [], [])
    else Computed(root, false, false, ProofLeaves(hash, ps[|tree|..]), Paths(ps[|tree|..]))
  }

  /** The leaf's own path leads to the hash of the tree; it has no right hash only before the last leaf. */
  lemma {:induction false} FirstPath(hash: HashFn, n: Node, k: Option<Bytes>)
    requires NeverEmpty(hash)
    ensures var p := PairsFrom(hash, n, k);
            PathHash(hash, p[0].path, LeafHash(hash, LeafOf(hash, p[0].node))) == Some(NodeHash(hash, n)) &&
            (IsRightmost(p[0].path) <==> |p| == 1)
  {
    var p := PairsFrom(hash, n, k);
    if n.Inner? {
      if k.None? || Lt(k.value, n.key) {
        var l := PairsFrom(hash, n.left, k);
        FirstPath(hash, n.left, k);
        assert p[0].path[0] == PinLeft(hash, n) && p[0].path[1..] == l[0].path;
        assert |PinLeft(hash, n).right| > 0;
      } else {
        var r := PairsFrom(hash, n.right, k);
        FirstPath(hash, n.right, k);
        RightmostConcat([PinRight(hash, n)], r[0].path);
        assert p[0].path[0] == PinRight(hash, n) && p[0].path[1..] == r[0].path;
        assert |PinRight(hash, n).left| > 0;
      }
    }
  }

  lemma Shapes(hash: HashFn, ps: seq<Pair>)
    requires ps != [] && AllLeaves(ps)
    ensures ProofLeaves(hash, ps)[0] == LeafOf(hash, ps[0].node) && ProofLeaves(hash, ps)[1..] == ProofLeaves(hash, ps[1..])
    ensures Paths(ps)[0] == ps[0].path && Paths(ps)[1..] == Paths(ps[1..])
  {
  }

  /** Check opens into the path of its first pair. */
  lemma CheckOpens(hash: HashFn, ps: seq<Pair>, rightmost: bool, root: Bytes)
    requires ps != [] && AllLeaves(ps) && PathHash(hash, ps[0].path, LeafHash(hash, LeafOf(hash, ps[0].node))) == Some(root)
    ensures Check(hash, ps, rightmost) ==
            if |ps| == 1 then Computed(root, rightmost && IsRightmost(ps[0].path), true, [], [])
            else CheckAlong(hash, ps[0].path, rightmost, root, ps[1..])
  {
    hide PathHash, ProveAlong, IsRightmost;
    Shapes(hash, ps);
    if |ps| == 1 { assert Paths(ps[1..]) == []; }
  }

  /** Putting one inner node on top of the first path. */
  lemma Lift(hash: HashFn, pin: ProofInner, ps: seq<Pair>, tree: seq<Pair>, below: Bytes, root: Bytes, rightmost: bool)
    requires AllLeaves(ps) && StartsLike(ps, tree) && |ps| > 1
    requires PathHash(hash, ps[0].path, LeafHash(hash, LeafOf(hash, ps[0].node))) == Some(below)
    requires Check(hash, ps, rightmost && IsRightmost([pin])) == Expected(hash, below, ps, tree, rightmost && IsRightmost([pin]))
    ensures CheckAlong(hash, [pin] + ps[0].path, rightmost, root, ps[1..]) ==
            if |ps| <= |tree| then Expected(hash, root, ps, tree, rightmost && IsRightmost([pin]))
            else CheckAlong(hash, [pin], rightmost, root, ps[|tree|..])
  {
    hide PathHash, ProveAlong, IsRightmost, ProofLeaves, Paths;
    var rm := rightmost && IsRightmost([pin]);
    CheckOpens(hash, ps, rm, below);
    RootCarried(hash, ps[0].path, rm, below, root, ProofLeaves(hash, ps[1..]), Paths(ps[1..]));
    AlongSplit(hash, [pin], ps[0].path, rightmost, root, ProofLeaves(hash, ps[1..]), Paths(ps[1..]));
  }

  function Stripped(ps: seq<Pair>): seq<Pair>
    requires ps != [] && ps[0].path != []
  {
    [Pair(ps[0].path[1..], ps[0].node)] + ps[1..]
  }

  lemma StripLeft(hash: HashFn, n: Node, k: Option<Bytes>, ps: seq<Pair>)
    requires n.Inner? && (k.None? || Lt(k.value, n.key)) && StartsLike(ps, PairsFrom(hash, n, k))
    ensures ps[0].path != [] && ps[0].path == [PinLeft(hash, n)] + Stripped(ps)[0].path
    ensures StartsLike(Stripped(ps), PairsFrom(hash, n.left, k)) && AllLeaves(ps) == AllLeaves(Stripped(ps))
    ensures |ps| > |PairsFrom(hash, n.left, k)| ==> StartsLike(ps[|PairsFrom(hash, n.left, k)|..], PairsFrom(hash, n.right, None))
  {
    hide Lt, NodeHash, Prefixed, StartsLike, AllLeaves;
    var p, l, r := PairsFrom(hash, n, k), PairsFrom(hash, n.left, k), PairsFrom(hash, n.right, None);
    StripCompatible(ps, p, l, r, PinLeft(hash, n));
  }

  lemma StripRight(hash: HashFn, n: Node, k: Option<Bytes>, ps: seq<Pair>)
    requires n.Inner? && k.Some? && !Lt(k.value, n.key) && StartsLike(ps, PairsFrom(hash, n, k))
    ensures ps[0].path != [] && ps[0].path == [PinRight(hash, n)] + Stripped(ps)[0].path
    ensures StartsLike(Stripped(ps), PairsFrom(hash, n.right, k)) && AllLeaves(ps) == AllLeaves(Stripped(ps))
  {
    hide Lt, NodeHash, Prefixed, StartsLike, AllLeaves;
    var p, r := PairsFrom(hash, n, k), PairsFrom(hash, n.right, k);
    assert p == Prefixed([PinRight(hash, n)], r) + [];
    StripCompatible(ps, p, r, [], PinRight(hash, n));
  }

  lemma StripCompatible(ps: seq<Pair>, p: seq<Pair>, l: seq<Pair>, r: seq<Pair>, pin: ProofInner)
    requires l != [] && p == Prefixed([pin], l) + r && StartsLike(ps, p)
    ensures ps != [] && ps[0].path == [pin] + l[0].path && Stripped(ps)[0].path == l[0].path
    ensures StartsLike(Stripped(ps), l) && AllLeaves(ps) == AllLeaves(Stripped(ps))
    ensures |ps| > |l| && r != [] ==> StartsLike(ps[|l|..], r)
  {
    assert ps[0] == p[0];
    assert ps[0].path[1..] == l[0].path;
    var s := Stripped(ps);
    assert |s| == |ps| && s[0].node == ps[0].node;
    forall i | 0 <= i < |s| && i < |l| ensures s[i] == l[i] {
      if i > 0 { assert s[i] == ps[i] == p[i]; }
    }
    if |s| <= |l| { assert s == l[..|s|]; } else { assert l == s[..|l|]; }
    forall i | 0 <= i < |ps| ensures s[i].node == ps[i].node { }
    if |ps| > |l| && r != [] {
      var t := ps[|l|..];
      forall i | 0 <= i < |t| && i < |r| ensures t[i] == r[i] { assert t[i] == ps[|l| + i] == p[|l| + i]; }
      if |t| <= |r| { assert t == r[..|t|]; } else { assert r == t[..|r|]; }
    }
  }

  /** Verification of any number of pairs of a tree: its root hash, whether it is finished, what is left. */
  lemma {:induction false} PairsVerify(hash: HashFn, n: Node, k: Option<Bytes>, ps: seq<Pair>, rightmost: bool)
    requires NeverEmpty(hash) && AllLeaves(ps) && StartsLike(ps, PairsFrom(hash, n, k))
    ensures Check(hash, ps, rightmost) == Expected(hash, NodeHash(hash, n), ps, PairsFrom(hash, n, k), rightmost)
    decreases n, 1
  {
    hide Lt, PathHash, NodeHash, ComputeHash, ProofLeaves, Paths;
    var root, p := NodeHash(hash, n), PairsFrom(hash, n, k);
    FirstPath(hash, n, k);
    assert ps[0] == p[0];
    CheckOpens(hash, ps, rightmost, root);
    if |ps| > 1 {
      if n.Leaf? {
        LeafAlone(hash, rightmost, root, ps[1..]);
      } else if k.None? || Lt(k.value, n.key) {
        PairsVerifyLeft(hash, n, k, ps, rightmost);
      } else {
        PairsVerifyRight(hash, n, k, ps, rightmost);
      }
    }
  }

  lemma LeafAlone(hash: HashFn, rightmost: bool, root: Bytes, ps: seq<Pair>)
    requires AllLeaves(ps)
    ensures CheckAlong(hash, [], rightmost, root, ps) == Computed(root, false, false, ProofLeaves(hash, ps), Paths(ps))
  {
  }

  lemma {:induction false} PairsVerifyLeft(hash: HashFn, n: Node, k: Option<Bytes>, ps: seq<Pair>, rightmost: bool)
    requires NeverEmpty(hash) && AllLeaves(ps) && StartsLike(ps, PairsFrom(hash, n, k)) && |ps| > 1
    requires n.Inner? && (k.None? || Lt(k.value, n.key))
    ensures CheckAlong(hash, ps[0].path, rightmost, NodeHash(hash, n), ps[1..]) ==
            Expected(hash, NodeHash(hash, n), ps, PairsFrom(hash, n, k), rightmost)
    decreases n, 0
  {
    hide Lt, PathHash, NodeHash, ComputeHash, ProveAlong, ProofLeaves, Paths, StartsLike, Prefixed;
    var root, l, r, pin := NodeHash(hash, n), PairsFrom(hash, n.left, k), PairsFrom(hash, n.right, None), PinLeft(hash, n);
    StripLeft(hash, n, k, ps);
    var s := Stripped(ps);
    assert s[1..] == ps[1..];
    var rm := rightmost && IsRightmost([pin]);
    NodeHashNotEmpty(hash, n.right);
    assert !rm by { assert |[pin][0].right| > 0; }
    PairsVerify(hash, n.left, k, s, rm);
    FirstPath(hash, n.left, k);
    assert s[0] == l[0] by { FirstSame(s, l); }
    Lift(hash, pin, s, l, NodeHash(hash, n.left), root, rightmost);
    assert |PairsFrom(hash, n, k)| == |l| + |r|;
    if |ps| > |l| {
      var t := ps[|l|..];
      assert s[|l|..] == t;
      PairsVerify(hash, n.right, None, t, rightmost);
      AlongOne(hash, pin, rightmost, root, t);
      assert |t| > |r| ==> t[|r|..] == ps[|l| + |r|..];
    }
  }

  lemma NodeHashNotEmpty(hash: HashFn, n: Node)
    requires NeverEmpty(hash)
    ensures |NodeHash(hash, n)| > 0
  {
  }

  lemma FirstSame(ps: seq<Pair>, tree: seq<Pair>)
    requires StartsLike(ps, tree) && tree != []
    ensures ps[0] == tree[0]
  {
  }

  /** One inner node with a right hash: the queued pairs must prove it. */
  lemma AlongOne(hash: HashFn, pin: ProofInner, rightmost: bool, root: Bytes, ps: seq<Pair>)
    requires ps != [] && AllLeaves(ps) && |pin.right| > 0
    ensures var r := Check(hash, ps, rightmost);
            CheckAlong(hash, [pin], rightmost, root, ps) ==
            if !r.Computed? then r else if r.root != pin.right then Mismatch else r.(root := root, treeEnd := r.done && r.treeEnd)
  {
    hide PathHash, ComputeHash;
    Shapes(hash, ps);
    var path := [pin];
    assert path[..|path| - 1] == [] && path[|path| - 1] == pin && IsRightmost([]);
    var r := Check(hash, ps, rightmost);
    if r.Computed? { assert ProveAlong(hash, [], rightmost, root, r.leaves, r.inners) == Computed(root, false, false, r.leaves, r.inners); }
  }

  lemma {:induction false} PairsVerifyRight(hash: HashFn, n: Node, k: Option<Bytes>, ps: seq<Pair>, rightmost: bool)
    requires NeverEmpty(hash) && AllLeaves(ps) && StartsLike(ps, PairsFrom(hash, n, k)) && |ps| > 1
    requires n.Inner? && k.Some? && !Lt(k.value, n.key)
    ensures CheckAlong(hash, ps[0].path, rightmost, NodeHash(hash, n), ps[1..]) ==
            Expected(hash, NodeHash(hash, n), ps, PairsFrom(hash, n, k), rightmost)
    decreases n, 0
  {
    hide Lt, PathHash, NodeHash, ComputeHash, ProveAlong, ProofLeaves, Paths, StartsLike, Prefixed;
    var root, r, pin := NodeHash(hash, n), PairsFrom(hash, n.right, k), PinRight(hash, n);
    StripRight(hash, n, k, ps);
    var s := Stripped(ps);
    assert s[1..] == ps[1..];
    assert IsRightmost([pin]);
    PairsVerify(hash, n.right, k, s, rightmost);
    FirstPath(hash, n.right, k);
    assert s[0] == r[0] by { FirstSame(s, r); }
    Lift(hash, pin, s, r, NodeHash(hash, n.right), root, rightmost);
    assert |PairsFrom(hash, n, k)| == |r|;
    if |ps| > |r| {
      var t := ps[|r|..];
      assert s[|r|..] == t;
      AlongNone(hash, pin, rightmost, root, t);
    }
  }

  lemma AlongNone(hash: HashFn, pin: ProofInner, rightmost: bool, root: Bytes, ps: seq<Pair>)
    requires AllLeaves(ps) && |pin.right| == 0
    ensures CheckAlong(hash, [pin], rightmost, root, ps) == Computed(root, false, false, ProofLeaves(hash, ps), Paths(ps))
  {
    var path := [pin];
    assert path[..|path| - 1] == [] && path[|path| - 1] == pin;
    LeafAlone(hash, rightmost, root, ps);
  }
}
