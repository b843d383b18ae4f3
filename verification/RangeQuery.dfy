/**
  getRangeProof: the path to the first leaf, the traversal after it with the
  callback that collects leaves and inner paths, and the proof that results.
 */
module RangeQuery {
  import opened Options
  import opened ByteStrings
  import opened Successor
  import opened AvlTree
  import opened RangeProofs

  function PinLeft(hash: HashFn, n: Node): ProofInner
    requires n.Inner?
  {
    ProofInner(n.height, n.size, n.version, [], NodeHash(hash, n.right))
  }

  function PinRight(hash: HashFn, n: Node): ProofInner
    requires n.Inner?
  {
    ProofInner(n.height, n.size, n.version, NodeHash(hash, n.left), [])
  }

  function LeafOf(hash: HashFn, n: Node): ProofLeaf
    requires n.Leaf?
  {
    ProofLeaf(n.key, hash(n.value), n.version)
  }

  /** A leaf of the tree with the inner nodes recorded on the way to it. */
  datatype Pair = Pair(path: Path, node: Node)

  /** pathToLeaf: the leaf at key, or the one before it, or the first. */
  function PathToLeaf(hash: HashFn, n: Node, key: Bytes): (r: Pair)
    ensures r.node.Leaf?
  {
    if n.Leaf? then Pair([], n)
    else if Lt(key, n.key) then
      var r := PathToLeaf(hash, n.left, key);
      Pair([PinLeft(hash, n)] + r.path, r.node)
    else
      var r := PathToLeaf(hash, n.right, key);
      Pair([PinRight(hash, n)] + r.path, r.node)
  }

  // ---------- the traversal with its callback ----------

  /** The variables that the callback of getRangeProof updates; `leaves` are those after the first. */
  datatype Acc = Acc(pathCount: int, inners: seq<Path>, cur: Path, leaves: seq<Node>, found: seq<Node>, stopped: bool)

  datatype Query = Query(hash: HashFn, path: Path, end: Option<Bytes>, limit: nat)

  function ChildHash(hash: HashFn, n: Node, left: bool): Bytes
  {
    if n.Leaf? then [] else NodeHash(hash, if left then n.left else n.right)
  }

  predicate Diverged(hash: HashFn, p: ProofInner, n: Node)
  {
    p.height != Height(n) ||
    (|p.left| > 0 && p.left != ChildHash(hash, n, true)) ||
    (|p.right| > 0 && p.right != ChildHash(hash, n, false))
  }

  function NextPathCount(q: Query, pathCount: int, n: Node): int
    requires pathCount >= -1
  {
    if pathCount == -1 || |q.path| <= pathCount || Diverged(q.hash, q.path[pathCount], n) then -1 else pathCount + 1
  }

  /** The callback on a leaf. */
  function TakeLeaf(q: Query, a: Acc, n: Node): Acc
  {
    var b := a.(inners := a.inners + [a.cur], cur := [], leaves := a.leaves + [n]);
    if q.limit > 0 && q.limit <= |b.leaves| + 1 then b.(stopped := true)
    else if q.end.Some? && Le(q.end.value, n.key) then b.(stopped := true)
    else b.(found := b.found + [n], stopped := q.end.Some? && Le(q.end.value, CpIncr(n.key)))
  }

  function Visit(q: Query, a: Acc, n: Node): (r: Acc)
    requires a.pathCount >= -1
    ensures r.pathCount >= -1
  {
    var b := a.(pathCount := NextPathCount(q, a.pathCount, n));
    if n.Leaf? then TakeLeaf(q, b, n)
    else if b.pathCount < 0 then b.(cur := b.cur + [PinLeft(q.hash, n)])
    else b
  }

  /** traverseInRange(start, nil, ascending) with that callback. */
  function Traverse(q: Query, start: Bytes, n: Node, a: Acc): (r: Acc)
    requires a.pathCount >= -1
    ensures r.pathCount >= -1
  {
    var b := if n.Inner? || Le(start, n.key) then Visit(q, a, n) else a;
    if b.stopped || n.Leaf? then b
    else
      var c := if Lt(start, n.key) then Traverse(q, start, n.left, b) else b;
      if c.stopped then c else Traverse(q, start, n.right, c)
  }

  /** A proof as getRangeProof builds it, and the leaves it returns as key-value pairs. */
  datatype Answer = Answer(leftPath: Path, inners: seq<Path>, first: Node, leaves: seq<Node>, found: seq<Node>)

  function GetRange(hash: HashFn, root: Node, start: Option<Bytes>, end: Option<Bytes>, limit: nat): Answer
  {
    var p := PathToLeaf(hash, root, if start.Some? then start.value else []);
    var left := p.node;
    var first := if InRange(start, end, left.key) then [left] else [];
    if limit == 1 || (end.Some? && Le(end.value, CpIncr(left.key))) then Answer(p.path, [], left, [], first)
    else
      var a := Traverse(Query(hash, p.path, end, limit), CpIncr(left.key), root, Acc(0, [], [], [], first, false));
      Answer(p.path, a.inners, left, a.leaves, a.found)
  }

  datatype RangeResult = Panics | NoTree | Answered(answer: Answer)

  /** The closure of getRangeProof: the callback updates the variables it captured. */
  class Collector {
    const q: Query
    var pathCount: int
    var inners: seq<Path>
    var cur: Path
    var leaves: seq<Node>
    var found: seq<Node>

    function Now(stopped: bool): Acc
      reads this
    {
      Acc(pathCount, inners, cur, leaves, found, stopped)
    }

    constructor (q: Query, found: seq<Node>)
      ensures this.q == q && Now(false) == Acc(0, [], [], [], found, false)
    {
      this.q := q;
      pathCount, inners, cur, leaves, this.found := 0, [], [], [], found;
    }

    method Callback(n: Node) returns (stop: bool)
      requires pathCount >= -1
      modifies this
      ensures Now(stop) == Visit(q, old(Now(false)), n)
    {
      if pathCount != -1 {
        if |q.path| <= pathCount || Diverged(q.hash, q.path[pathCount], n) { pathCount := -1; } else { pathCount := pathCount + 1; }
      }
      if n.Leaf? {
        inners, cur, leaves := inners + [cur], [], leaves + [n];
        if q.limit > 0 && q.limit <= |leaves| + 1 { return true; }
        if q.end.Some? && Le(q.end.value, n.key) { return true; }
        found := found + [n];
        return q.end.Some? && Le(q.end.value, CpIncr(n.key));
      }
      if pathCount < 0 { cur := cur + [PinLeft(q.hash, n)]; }
      return false;
    }

    method Walk(start: Bytes, n: Node) returns (stop: bool)
      requires pathCount >= -1
      modifies this
      ensures Now(stop) == Traverse(q, start, n, old(Now(false)))
      decreases n
    {
      stop := false;
      if n.Inner? || Le(start, n.key) { stop := Callback(n); }
      if stop || n.Leaf? { return; }
      if Lt(start, n.key) { stop := Walk(start, n.left); }
      if !stop { stop := Walk(start, n.right); }
    }
  }

  method GetRangeProof(hash: HashFn, root: Option<Node>, start: Option<Bytes>, end: Option<Bytes>, limit: int) returns (r: RangeResult)
    ensures r.Panics? <==> limit < 0 || (start.Some? && end.Some? && Le(end.value, start.value))
    ensures r.NoTree? <==> !r.Panics? && root.None?
    ensures r.Answered? ==> r.answer == GetRange(hash, root.value, start, end, limit)
  {
    if start.Some? && end.Some? && Le(end.value, start.value) { return Panics; }
    if limit < 0 { return Panics; }
    if root.None? { return NoTree; }
    var p := PathToLeaf(hash, root.value, if start.Some? then start.value else []);
    var left := p.node;
    var first := if InRange(start, end, left.key) then [left] else [];
    if limit == 1 || (end.Some? && Le(end.value, CpIncr(left.key))) { return Answered(Answer(p.path, [], left, [], first)); }
    var c := new Collector(Query(hash, p.path, end, limit), first);
    var _ := c.Walk(CpIncr(left.key), root.value);
    return Answered(Answer(p.path, c.inners, left, c.leaves, c.found));
  }

  // ---------- the proof without the traversal ----------

  /** The pairs with inner nodes put before the first leaf's. */
  function Prefixed(path: Path, ps: seq<Pair>): (r: seq<Pair>)
    requires ps != []
    ensures |r| == |ps|
    ensures forall i :: 0 <= i < |r| ==> r[i].node == ps[i].node
  {
    [Pair(path + ps[0].path, ps[0].node)] + ps[1..]
  }

  lemma PrefixedTwice(a: Path, b: Path, ps: seq<Pair>)
    requires ps != []
    ensures Prefixed(a, Prefixed(b, ps)) == Prefixed(a + b, ps)
  {
    assert a + (b + ps[0].path) == (a + b) + ps[0].path;
  }

  lemma PrefixedConcat(a: Path, ps: seq<Pair>, ps': seq<Pair>)
    requires ps != []
    ensures Prefixed(a, ps + ps') == Prefixed(a, ps) + ps'
  {
    assert (ps + ps')[1..] == ps[1..] + ps';
  }

  lemma PrefixedByNone(ps: seq<Pair>)
    requires ps != []
    ensures Prefixed([], ps) == ps
  {
    assert [] + ps[0].path == ps[0].path;
  }

  /**
    The leaves from the one at k on (all of them for None), each with the inner
    nodes between it and the leaf before it: what verification consumes.
   */
  function PairsFrom(hash: HashFn, n: Node, k: Option<Bytes>): (r: seq<Pair>)
    ensures r != [] && forall i :: 0 <= i < |r| ==> r[i].node.Leaf?
  {
    if n.Leaf? then [Pair([], n)]
    else if k.None? || Lt(k.value, n.key) then
      Prefixed([PinLeft(hash, n)], PairsFrom(hash, n.left, k)) + PairsFrom(hash, n.right, None)
    else
      Prefixed([PinRight(hash, n)], PairsFrom(hash, n.right, k))
  }

  lemma {:induction false} PathToLeafIsFirst(hash: HashFn, n: Node, key: Bytes)
    ensures PathToLeaf(hash, n, key) == PairsFrom(hash, n, Some(key))[0]
  {
    if n.Inner? { PathToLeafIsFirst(hash, n.left, key); PathToLeafIsFirst(hash, n.right, key); }
  }

  /** The callback applied to given pairs, one after the other, until it stops. */
  function Feed(q: Query, a: Acc, ps: seq<Pair>): Acc
    requires forall i :: 0 <= i < |ps| ==> ps[i].node.Leaf?
    decreases |ps|
  {
    if ps == [] || a.stopped then a else Feed(q, TakeLeaf(q, a.(cur := ps[0].path), ps[0].node), ps[1..])
  }

  lemma {:induction false} FeedConcat(q: Query, a: Acc, ps: seq<Pair>, ps': seq<Pair>)
    requires forall i :: 0 <= i < |ps| ==> ps[i].node.Leaf?
    requires forall i :: 0 <= i < |ps'| ==> ps'[i].node.Leaf?
    ensures Feed(q, a, ps + ps') == Feed(q, Feed(q, a, ps), ps')
    decreases |ps|
  {
    if ps == [] { assert ps + ps' == ps'; }
    else if !a.stopped {
      FeedConcat(q, TakeLeaf(q, a.(cur := ps[0].path), ps[0].node), ps[1..], ps');
      assert (ps + ps')[1..] == ps[1..] + ps';
    }
  }

  lemma {:induction false} FeedEffect(q: Query, a: Acc, ps: seq<Pair>)
    requires forall i :: 0 <= i < |ps| ==> ps[i].node.Leaf?
    ensures Feed(q, a, ps).pathCount == a.pathCount
    ensures ps != [] && !a.stopped ==> Feed(q, a, ps).cur == []
    decreases |ps|
  {
    if ps != [] && !a.stopped {
      FeedEffect(q, TakeLeaf(q, a.(cur := ps[0].path), ps[0].node), ps[1..]);
    }
  }

  ghost predicate AllFrom(start: Bytes, n: Node) { forall k :: k in Keys(n) ==> Le(start, k) }

  /** Entering n ends the comparison with the first path. */
  predicate EndsPath(q: Query, pathCount: int, n: Node)
  {
    pathCount >= -1 && NextPathCount(q, pathCount, n) == -1
  }

  /** A subtree that lies wholly after the start is traversed leaf by leaf, recording its inner nodes. */
  lemma {:induction false} TraverseSubtree(q: Query, start: Bytes, n: Node, a: Acc)
    requires Ordered(n) && AllFrom(start, n) && !a.stopped && EndsPath(q, a.pathCount, n)
    ensures Traverse(q, start, n, a) == Feed(q, a.(pathCount := -1), Prefixed(a.cur, PairsFrom(q.hash, n, None)))
  {
    hide Lt, Traverse, TakeLeaf, NextPathCount, Prefixed;
    if n.Leaf? {
      SubtreeLeaf(q, start, n, a);
    } else {
      SubtreeInner(q, start, n, a);
      var l, r := PairsFrom(q.hash, n.left, None), PairsFrom(q.hash, n.right, None);
      var b := a.(pathCount := -1, cur := a.cur + [PinLeft(q.hash, n)]);
      AlwaysEnds(q, n.left);
      TraverseSubtree(q, start, n.left, b);
      var first := Prefixed(b.cur, l);
      var c := Feed(q, b, first);
      PrefixedConcat(a.cur, Prefixed([PinLeft(q.hash, n)], l), r);
      PrefixedTwice(a.cur, [PinLeft(q.hash, n)], l);
      FeedConcat(q, b, first, r);
      FeedEffect(q, b, first);
      FeedIgnoresCur(q, b, a.(pathCount := -1), first + r);
      if !c.stopped {
        AlwaysEnds(q, n.right);
        TraverseSubtree(q, start, n.right, c);
        PrefixedByNone(r);
        assert c.(pathCount := -1) == c;
      }
    }
  }

  lemma AlwaysEnds(q: Query, n: Node)
    ensures EndsPath(q, -1, n)
  {
  }

  lemma FeedIgnoresCur(q: Query, a: Acc, b: Acc, ps: seq<Pair>)
    requires ps != [] && !a.stopped && b == a.(cur := b.cur)
    requires forall i :: 0 <= i < |ps| ==> ps[i].node.Leaf?
    ensures Feed(q, a, ps) == Feed(q, b, ps)
  {
    assert a.(cur := ps[0].path) == b.(cur := ps[0].path);
  }

  lemma SubtreeLeaf(q: Query, start: Bytes, n: Node, a: Acc)
    requires n.Leaf? && AllFrom(start, n) && !a.stopped && EndsPath(q, a.pathCount, n)
    ensures Traverse(q, start, n, a) == Feed(q, a.(pathCount := -1), Prefixed(a.cur, [Pair([], n)]))
  {
    assert n.key in Keys(n);
    assert a.cur + [] == a.cur;
    var ps := Prefixed(a.cur, [Pair([], n)]);
    assert ps == [Pair(a.cur, n)] && ps[1..] == [];
  }

  lemma SubtreeInner(q: Query, start: Bytes, n: Node, a: Acc)
    requires n.Inner? && Ordered(n) && AllFrom(start, n) && !a.stopped && EndsPath(q, a.pathCount, n)
    ensures AllFrom(start, n.left) && AllFrom(start, n.right)
    ensures var b := a.(pathCount := -1, cur := a.cur + [PinLeft(q.hash, n)]);
            var c := Traverse(q, start, n.left, b);
            Traverse(q, start, n, a) == if c.stopped then c else Traverse(q, start, n.right, c)
  {
    LtIsStrictTotalOrder();
    MinKeyIsKey(n.left);
    assert MinKey(n.left) in Keys(n);
    assert Lt(start, n.key);
  }
}
