/**
  What getRangeProof answers: exactly the key-value pairs of the range, with a
  proof that verifies against the root hash of the tree.
 */
module RangeAnswer {
  import opened Options
  import opened ByteStrings
  import opened AvlTree
  import opened Orphans
  import opened Filters
  import opened RangeProofs
  import opened RangeQuery
  import opened ProofSoundness
  import opened ProofCompleteness

  // ---------- the traversal along the first path ----------

  /** Among the keys of n, those after x are those from start on. */
  ghost predicate Follows(x: Bytes, start: Bytes, n: Node)
  {
    forall k :: k in Keys(n) ==> (Lt(x, k) <==> Le(start, k))
  }

  /** Nodes with different first keys have different hashes. */
  ghost predicate DistinctHashes(hash: HashFn, n: Node)
  {
    forall a, b :: a in Subnodes(n) && b in Subnodes(n) && NodeHash(hash, a) == NodeHash(hash, b) ==> MinKey(a) == MinKey(b)
  }

  lemma {:induction false} SameHashSameKey(hash: HashFn, n: Node, a: Node, b: Node)
    requires NoClash(hash, TreePreimages(hash, n), TreePreimages(hash, n)) && HeightsPositive(a) && HeightsPositive(b)
    requires Subnodes(a) <= Subnodes(n) && Subnodes(b) <= Subnodes(n) && NodeHash(hash, a) == NodeHash(hash, b)
    ensures MinKey(a) == MinKey(b)
  {
    hide Preimage;
    assert a in Subnodes(a) && b in Subnodes(b);
    assert NodePreimage(hash, a) in TreePreimages(hash, n) && NodePreimage(hash, b) in TreePreimages(hash, n);
    match (a, b) {
      case (Leaf(k1, v1, n1), Leaf(k2, v2, n2)) => PreimageInjective(0, 1, n1, k1, hash(v1), 0, 1, n2, k2, hash(v2));
      case (Inner(_, h1, s1, n1, l1, r1), Inner(_, h2, s2, n2, l2, r2)) =>
        PreimageInjective(h1, s1, n1, NodeHash(hash, l1), NodeHash(hash, r1), h2, s2, n2, NodeHash(hash, l2), NodeHash(hash, r2));
        SameHashSameKey(hash, n, l1, l2);
      case (Leaf(k1, v1, n1), Inner(_, h2, s2, n2, l2, r2)) =>
        PreimageInjective(0, 1, n1, k1, hash(v1), h2, s2, n2, NodeHash(hash, l2), NodeHash(hash, r2));
      case (Inner(_, h1, s1, n1, l1, r1), Leaf(k2, v2, n2)) =>
        PreimageInjective(h1, s1, n1, NodeHash(hash, l1), NodeHash(hash, r1), 0, 1, n2, k2, hash(v2));
    }
  }

  /** A subtree to the right is never mistaken for the next node of the first path. */
  lemma RightDiverges(hash: HashFn, n: Node, key: Bytes)
    requires n.Inner? && Ordered(n) && HeightsPositive(n) && DistinctHashes(hash, n) && NeverEmpty(hash)
    ensures var p := PathToLeaf(hash, n.left, key).path; p != [] ==> Diverged(hash, p[0], n.right)
  {
    var l, r := n.left, n.right;
    if l.Inner? && r.Inner? {
      assert l.left in Subnodes(n) && l.right in Subnodes(n) && r.left in Subnodes(n) && r.right in Subnodes(n) by {
        assert Subnodes(l) <= Subnodes(n) && Subnodes(r) <= Subnodes(n);
        assert l.left in Subnodes(l.left) && l.right in Subnodes(l.right) && r.left in Subnodes(r.left) && r.right in Subnodes(r.right);
      }
      LtIsStrictTotalOrder();
      MinKeyIsKey(l.left); MinKeyIsKey(l.right); MinKeyIsKey(r.left); MinKeyIsKey(r.right);
      MinKeyIsLeast(r);
      assert MinKey(l.left) in Keys(l) && MinKey(l.right) in Keys(l) && MinKey(r.left) in Keys(r) && MinKey(r.right) in Keys(r);
      assert MinKey(l.left) != MinKey(r.left) && MinKey(l.right) != MinKey(r.right);
      NodeHashNotEmpty(hash, l.left);
      NodeHashNotEmpty(hash, l.right);
    }
  }

  ghost predicate OnPath(q: Query, n: Node, key: Bytes, i: int)
  {
    0 <= i <= |q.path| && q.path[i..] == PathToLeaf(q.hash, n, key).path
  }

  lemma {:induction false} FirstLeafKey(hash: HashFn, n: Node, key: Bytes)
    ensures PathToLeaf(hash, n, key).node.key in Keys(n)
  {
    if n.Inner? { FirstLeafKey(hash, if Lt(key, n.key) then n.left else n.right, key); }
  }

  /** Entering the inner nodes of the first path only counts them. */
  lemma VisitOnPath(q: Query, n: Node, key: Bytes, a: Acc)
    requires n.Inner? && NeverEmpty(q.hash) && OnPath(q, n, key, a.pathCount)
    ensures Visit(q, a, n) == a.(pathCount := a.pathCount + 1)
    ensures OnPath(q, if Lt(key, n.key) then n.left else n.right, key, a.pathCount + 1)
  {
    var i := a.pathCount;
    var p := PathToLeaf(q.hash, n, key).path;
    assert q.path[i] == p[0] && q.path[i + 1..] == p[1..] by { assert q.path[i..][0] == p[0] && q.path[i..][1..] == p[1..]; }
    assert p[0] == if Lt(key, n.key) then PinLeft(q.hash, n) else PinRight(q.hash, n);
    assert p[1..] == PathToLeaf(q.hash, if Lt(key, n.key) then n.left else n.right, key).path;
  }

  /** The traversal collects what follows the first leaf. */
  ghost predicate CollectsRest(q: Query, start: Bytes, n: Node, key: Bytes, a: Acc)
    requires a.pathCount >= -1
  {
    var p := PairsFrom(q.hash, n, Some(key));
    Traverse(q, start, n, a) ==
    if |p| == 1 then a.(pathCount := |q.path|) else Feed(q, a.(pathCount := -1), p[1..])
  }

  lemma {:induction false} TraverseOnPath(q: Query, start: Bytes, n: Node, key: Bytes, a: Acc)
    requires Ordered(n) && HeightsPositive(n) && DistinctHashes(q.hash, n) && NeverEmpty(q.hash)
    requires OnPath(q, n, key, a.pathCount) && !a.stopped && a.cur == []
    requires Follows(PathToLeaf(q.hash, n, key).node.key, start, n)
    ensures CollectsRest(q, start, n, key, a)
    decreases n, 1
  {
    hide Lt, Visit, Feed, Prefixed, DistinctHashes, NodeHash, Diverged;
    FirstLeafKey(q.hash, n, key);
    LtIsStrictTotalOrder();
    if n.Inner? {
      VisitOnPath(q, n, key, a);
      if Lt(key, n.key) {
        TraverseOnPathLeft(q, start, n, key, a);
      } else {
        FirstLeafKey(q.hash, n.right, key);
        MinKeyIsLeast(n.right);
        var b := a.(pathCount := a.pathCount + 1);
        DistinctBelow(q.hash, n);
        TraverseOnPath(q, start, n.right, key, b);
        var r := PairsFrom(q.hash, n.right, Some(key));
        assert PairsFrom(q.hash, n, Some(key))[1..] == r[1..] by { PrefixedTail([PinRight(q.hash, n)], r, []); }
        assert b.(pathCount := -1) == a.(pathCount := -1);
      }
    }
  }

  lemma PrefixedTail(path: Path, ps: seq<Pair>, ps': seq<Pair>)
    requires ps != []
    ensures Prefixed(path, ps)[1..] == ps[1..]
    ensures (Prefixed(path, ps) + ps')[1..] == ps[1..] + ps'
  {
  }

  lemma DistinctBelow(hash: HashFn, n: Node)
    requires n.Inner? && DistinctHashes(hash, n)
    ensures DistinctHashes(hash, n.left) && DistinctHashes(hash, n.right)
  {
  }

  lemma {:induction false} TraverseOnPathLeft(q: Query, start: Bytes, n: Node, key: Bytes, a: Acc)
    requires n.Inner? && Lt(key, n.key)
    requires Ordered(n) && HeightsPositive(n) && DistinctHashes(q.hash, n) && NeverEmpty(q.hash)
    requires OnPath(q, n, key, a.pathCount) && !a.stopped && a.cur == []
    requires Follows(PathToLeaf(q.hash, n, key).node.key, start, n)
    ensures CollectsRest(q, start, n, key, a)
    decreases n, 0
  {
    hide Lt, Visit, Feed, Prefixed, DistinctHashes, NodeHash, Diverged;
    LtIsStrictTotalOrder();
    VisitOnPath(q, n, key, a);
    FirstLeafKey(q.hash, n.left, key);
    MinKeyIsLeast(n.right);
    MinKeyIsKey(n.right);
    var x := PathToLeaf(q.hash, n, key).node.key;
    assert Lt(x, n.key);
    assert n.key in Keys(n) && Le(start, n.key);
    assert AllFrom(start, n.right);
    var b := a.(pathCount := a.pathCount + 1);
    var l, r := PairsFrom(q.hash, n.left, Some(key)), PairsFrom(q.hash, n.right, None);
    PrefixedTail([PinLeft(q.hash, n)], l, r);
    assert |PairsFrom(q.hash, n, Some(key))| == |l| + |r|;
    PrefixedByNone(r);
    if Lt(start, n.key) {
      DistinctBelow(q.hash, n);
      TraverseOnPath(q, start, n.left, key, b);
      FeedThenRight(q, start, n, a, l, r, Traverse(q, start, n.left, b));
    } else {
      NothingSkipped(q.hash, n.left, key, start);
      RightDiverges(q.hash, n, key);
      assert EndsPath(q, b.pathCount, n.right) by { NotOnPath(q, n, key, b.pathCount); }
      TraverseSubtree(q, start, n.right, b);
      assert l[1..] + r == r;
      assert b.(pathCount := -1) == a.(pathCount := -1);
    }
  }

  lemma NotOnPath(q: Query, n: Node, key: Bytes, i: int)
    requires n.Inner? && OnPath(q, n.left, key, i)
    requires var p := PathToLeaf(q.hash, n.left, key).path; p != [] ==> Diverged(q.hash, p[0], n.right)
    ensures EndsPath(q, i, n.right)
  {
    hide Diverged;
    if i < |q.path| { assert q.path[i] == q.path[i..][0]; }
  }

  /** After the left subtree the right one is traversed whole, unless the callback stopped. */
  lemma FeedThenRight(q: Query, start: Bytes, n: Node, a: Acc, l: seq<Pair>, r: seq<Pair>, c: Acc)
    requires n.Inner? && Ordered(n) && AllFrom(start, n.right) && !a.stopped && a.cur == [] && -1 <= a.pathCount
    requires AllLeaves(l) && AllLeaves(r) && l != [] && r == PairsFrom(q.hash, n.right, None)
    requires c == if |l| == 1 then a.(pathCount := |q.path|) else Feed(q, a.(pathCount := -1), l[1..])
    ensures c.pathCount >= -1
    ensures (if c.stopped then c else Traverse(q, start, n.right, c)) == Feed(q, a.(pathCount := -1), l[1..] + r)
  {
    hide Lt, Traverse, Prefixed;
    var z := a.(pathCount := -1);
    assert AllLeaves(l[1..]);
    FeedConcat(q, z, l[1..], r);
    FeedEffect(q, z, l[1..]);
    if !c.stopped {
      if |l| > 1 { AlwaysEnds(q, n.right); }
      TraverseSubtree(q, start, n.right, c);
      PrefixedByNone(r);
      assert c.(pathCount := -1) == Feed(q, z, l[1..]);
    }
  }

  /** If all keys of n are below start, its first leaf is the only one from its path on. */
  lemma {:induction false} NothingSkipped(hash: HashFn, n: Node, key: Bytes, start: Bytes)
    requires Ordered(n) && Follows(PathToLeaf(hash, n, key).node.key, start, n)
    requires forall k :: k in Keys(n) ==> Lt(k, start)
    ensures |PairsFrom(hash, n, Some(key))| == 1
  {
    LtIsStrictTotalOrder();
    if n.Inner? {
      if Lt(key, n.key) {
        FirstLeafKey(hash, n.left, key);
        MinKeyIsKey(n.right);
        assert n.key in Keys(n);
        assert false;
      } else {
        NothingSkipped(hash, n.right, key, start);
      }
    }
  }

  // ---------- the leaves of a tree and those in a range ----------

  function Leaves(n: Node): (r: seq<Node>)
    ensures r != [] && forall i :: 0 <= i < |r| ==> r[i].Leaf?
  {
    if n.Leaf? then [n] else Leaves(n.left) + Leaves(n.right)
  }

  ghost predicate Rising(s: seq<Node>) { forall i, j :: 0 <= i < j < |s| ==> Lt(s[i].key, s[j].key) }

  ghost predicate KeysOf(s: seq<Node>, keys: set<Bytes>)
  {
    (forall i :: 0 <= i < |s| ==> s[i].key in keys) && (forall k :: k in keys ==> exists i :: 0 <= i < |s| && s[i].key == k)
  }

  lemma RisingConcat(a: seq<Node>, b: seq<Node>)
    requires Rising(a) && Rising(b) && forall i, j :: 0 <= i < |a| && 0 <= j < |b| ==> Lt(a[i].key, b[j].key)
    ensures Rising(a + b)
  {
    hide Lt;
  }

  lemma KeysOfConcat(a: seq<Node>, b: seq<Node>, ka: set<Bytes>, kb: set<Bytes>)
    requires KeysOf(a, ka) && KeysOf(b, kb)
    ensures KeysOf(a + b, ka + kb)
  {
    var s := a + b;
    forall k | k in ka + kb ensures exists i :: 0 <= i < |s| && s[i].key == k {
      if k in ka {
        var i :| 0 <= i < |a| && a[i].key == k;
        assert s[i].key == k;
      } else {
        var i :| 0 <= i < |b| && b[i].key == k;
        assert s[|a| + i].key == k;
      }
    }
  }

  /** Every key on the left is below every key on the right. */
  lemma SidesApart(n: Node)
    requires n.Inner? && Ordered(n)
    ensures forall a, b :: a in Keys(n.left) && b in Keys(n.right) ==> Lt(a, b)
    ensures forall b :: b in Keys(n.right) ==> Le(n.key, b)
  {
    hide Lt;
    MinKeyIsLeast(n.right);
    forall a, b | a in Keys(n.left) && b in Keys(n.right) ensures Lt(a, b) {
      if n.key != b { LtTotal(n.key, b); LtTransitive(a, n.key, b); }
    }
  }

  /** The leaves hold the keys of the tree, in order. */
  lemma {:induction false} LeavesRise(n: Node)
    requires Ordered(n)
    ensures Rising(Leaves(n)) && KeysOf(Leaves(n), Keys(n))
  {
    hide Lt;
    if n.Leaf? {
      assert Leaves(n)[0].key == n.key;
    } else {
      LeavesRise(n.left);
      LeavesRise(n.right);
      SidesApart(n);
      KeysOfConcat(Leaves(n.left), Leaves(n.right), Keys(n.left), Keys(n.right));
      RisingConcat(Leaves(n.left), Leaves(n.right));
    }
  }

  function KeyIn(start: Option<Bytes>, end: Option<Bytes>): Node -> bool { (n: Node) => InRange(start, end, n.key) }

  function Select(start: Option<Bytes>, end: Option<Bytes>, s: seq<Node>): seq<Node> { Filter(KeyIn(start, end), s) }

  function Nodes(ps: seq<Pair>): (r: seq<Node>)
    ensures |r| == |ps|
  {
    seq(|ps|, i requires 0 <= i < |ps| => ps[i].node)
  }

  lemma NodesPrefixed(path: Path, ps: seq<Pair>, ps': seq<Pair>)
    requires ps != []
    ensures Nodes(Prefixed(path, ps)) == Nodes(ps) && Nodes(Prefixed(path, ps) + ps') == Nodes(ps) + Nodes(ps')
  {
    hide Prefixed;
  }

  lemma {:induction false} PairsOfAll(hash: HashFn, n: Node)
    ensures Nodes(PairsFrom(hash, n, None)) == Leaves(n)
  {
    hide NodeHash, Nodes, Prefixed;
    if n.Leaf? {
      LeafIsTail(n, []);
    } else {
      NodesPrefixed([PinLeft(hash, n)], PairsFrom(hash, n.left, None), PairsFrom(hash, n.right, None));
      PairsOfAll(hash, n.left);
      PairsOfAll(hash, n.right);
    }
  }

  /** The pairs from key on are a tail of the leaves: before it all keys are below `key`, after its first all are above. */
  ghost predicate TailFrom(s: seq<Node>, tail: seq<Node>, key: Bytes)
  {
    0 < |tail| <= |s| && s == s[..|s| - |tail|] + tail &&
    (forall i :: 0 <= i < |s| - |tail| ==> Lt(s[i].key, key)) &&
    (forall i :: 0 < i < |tail| ==> Lt(key, tail[i].key))
  }

  lemma {:induction false} PairsAreTail(hash: HashFn, n: Node, key: Bytes)
    requires Ordered(n)
    ensures TailFrom(Leaves(n), Nodes(PairsFrom(hash, n, Some(key))), key)
  {
    hide Lt, NodeHash, Ordered, Nodes, Prefixed, TailFrom, Rising;
    if n.Leaf? {
      LeafIsTail(n, key);
    } else {
      OrderedBelow(n);
      SidesApart(n);
      LeavesRise(n.left);
      LeavesRise(n.right);
      if Lt(key, n.key) {
        PairsAreTail(hash, n.left, key);
        PairsOfAll(hash, n.right);
        var t := Nodes(PairsFrom(hash, n.left, Some(key)));
        NodesPrefixed([PinLeft(hash, n)], PairsFrom(hash, n.left, Some(key)), PairsFrom(hash, n.right, None));
        TailExtends(Leaves(n.left), t, Leaves(n.right), key, n.key);
      } else {
        PairsAreTail(hash, n.right, key);
        var t := Nodes(PairsFrom(hash, n.right, Some(key)));
        NodesPrefixed([PinRight(hash, n)], PairsFrom(hash, n.right, Some(key)), []);
        TailStays(Leaves(n.left), Leaves(n.right), t, key, n.key, Keys(n.left));
      }
    }
  }

  lemma LeafIsTail(n: Node, key: Bytes)
    ensures Nodes([Pair([], n)]) == [n] && TailFrom([n], [n], key)
  {
    assert Nodes([Pair([], n)]) == [n];
  }

  lemma OrderedBelow(n: Node)
    requires n.Inner? && Ordered(n)
    ensures Ordered(n.left) && Ordered(n.right) && forall k :: k in Keys(n.left) ==> Lt(k, n.key)
  {
  }

  lemma TailExtends(s: seq<Node>, t: seq<Node>, more: seq<Node>, key: Bytes, from: Bytes)
    requires TailFrom(s, t, key) && Lt(key, from) && forall i :: 0 <= i < |more| ==> Le(from, more[i].key)
    ensures TailFrom(s + more, t + more, key)
  {
    hide Lt;
    AllBeyond(more, key, from);
    TailConcat(s, t, more, key);
  }

  lemma AllBeyond(more: seq<Node>, key: Bytes, from: Bytes)
    requires Lt(key, from) && forall i :: 0 <= i < |more| ==> Le(from, more[i].key)
    ensures forall i :: 0 <= i < |more| ==> Lt(key, more[i].key)
  {
    hide Lt;
    forall i | 0 <= i < |more| ensures Lt(key, more[i].key) {
      var k := more[i].key;
      if k != from { LtTotal(from, k); LtTransitive(key, from, k); }
    }
  }

  lemma TailConcat(s: seq<Node>, t: seq<Node>, more: seq<Node>, key: Bytes)
    requires TailFrom(s, t, key) && forall i :: 0 <= i < |more| ==> Lt(key, more[i].key)
    ensures TailFrom(s + more, t + more, key)
  {
    hide Lt;
    var s', t', d := s + more, t + more, |s| - |t|;
    assert s'[..d] == s[..d];
    assert s' == s'[..d] + t' by { assert s == s[..d] + t; }
    forall i | 0 <= i < d ensures Lt(s'[i].key, key) { assert s'[i] == s[i]; }
    forall i | 0 < i < |t'| ensures Lt(key, t'[i].key) { assert t'[i] == if i < |t| then t[i] else more[i - |t|]; }
  }

  lemma TailStays(l: seq<Node>, s: seq<Node>, t: seq<Node>, key: Bytes, from: Bytes, keys: set<Bytes>)
    requires TailFrom(s, t, key) && Le(from, key) && KeysOf(l, keys) && forall k :: k in keys ==> Lt(k, from)
    ensures TailFrom(l + s, t, key)
  {
    hide Lt;
    var s' := l + s;
    assert s'[..|s'| - |t|] == l + s[..|s| - |t|];
    forall i | 0 <= i < |s'| - |t| ensures Lt(s'[i].key, key) {
      if i < |l| {
        assert l[i].key in keys;
        if key != from { LtTotal(from, key); LtTransitive(l[i].key, from, key); }
      } else {
        assert s'[i] == s[i - |l|];
      }
    }
  }

  lemma {:induction false} PathFinds(hash: HashFn, n: Node, key: Bytes)
    requires Ordered(n) && key in Keys(n)
    ensures PathToLeaf(hash, n, key).node.key == key
  {
    hide Lt, NodeHash;
    if n.Inner? {
      SidesApart(n);
      if Lt(key, n.key) { PathFinds(hash, n.left, key); } else { PathFinds(hash, n.right, key); }
    }
  }
}
