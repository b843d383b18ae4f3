/**
  Range proofs: node hashes under an arbitrary hash function, the recursive
  verifier that pops shared queues of leaves and inner paths, and the checks
  built on it.
 */
module RangeProofs {
  import opened Options
  import opened ByteStrings
  import opened Wire
  import opened AvlTree

  type HashFn = Bytes -> Bytes

  // ---------- what is hashed ----------

  /** writeHashBytes: height, size, version, then two length-prefixed strings. */
  function Preimage(height: int, size: int, version: int, a: Bytes, b: Bytes): Bytes
  {
    Varint(height) + (Varint(size) + (Varint(version) + (ByteSlice(a) + (ByteSlice(b) + []))))
  }

  /** Different nodes are hashed from different strings. */
  lemma PreimageInjective(h1: int, s1: int, v1: int, a1: Bytes, b1: Bytes, h2: int, s2: int, v2: int, a2: Bytes, b2: Bytes)
    requires Preimage(h1, s1, v1, a1, b1) == Preimage(h2, s2, v2, a2, b2)
    ensures h1 == h2 && s1 == s2 && v1 == v2 && a1 == a2 && b1 == b2
  {
    hide Varint, ByteSlice;
    VarintRoundTrip(h1, Varint(s1) + (Varint(v1) + (ByteSlice(a1) + (ByteSlice(b1) + []))));
    VarintRoundTrip(h2, Varint(s2) + (Varint(v2) + (ByteSlice(a2) + (ByteSlice(b2) + []))));
    VarintRoundTrip(s1, Varint(v1) + (ByteSlice(a1) + (ByteSlice(b1) + [])));
    VarintRoundTrip(s2, Varint(v2) + (ByteSlice(a2) + (ByteSlice(b2) + [])));
    VarintRoundTrip(v1, ByteSlice(a1) + (ByteSlice(b1) + []));
    VarintRoundTrip(v2, ByteSlice(a2) + (ByteSlice(b2) + []));
    ByteSliceRoundTrip(a1, ByteSlice(b1) + []);
    ByteSliceRoundTrip(a2, ByteSlice(b2) + []);
    ByteSliceRoundTrip(b1, []);
    ByteSliceRoundTrip(b2, []);
  }

  function NodePreimage(hash: HashFn, n: Node): Bytes
    decreases n, 0
  {
    match n
    case Leaf(key, value, version) => Preimage(0, 1, version, key, hash(value))
    case Inner(_, height, size, version, left, right) =>
      Preimage(height, size, version, NodeHash(hash, left), NodeHash(hash, right))
  }

  function NodeHash(hash: HashFn, n: Node): Bytes
    decreases n, 1
  {
    hash(NodePreimage(hash, n))
  }

  // ---------- proofs ----------

  datatype ProofInner = ProofInner(height: int, size: int, version: int, left: Bytes, right: Bytes)

  datatype ProofLeaf = ProofLeaf(key: Bytes, valueHash: Bytes, version: int)

  /** Inner nodes from the root (first) down to the parent of the leaf (last). */
  type Path = seq<ProofInner>

  function LeafPreimage(l: ProofLeaf): Bytes { Preimage(0, 1, l.version, l.key, l.valueHash) }

  function LeafHash(hash: HashFn, l: ProofLeaf): Bytes { hash(LeafPreimage(l)) }

  /** The child goes where no hash is given; the source panics if both hashes are. */
  function InnerPreimage(p: ProofInner, child: Bytes): Bytes
  {
    if |p.left| == 0 then Preimage(p.height, p.size, p.version, child, p.right)
    else Preimage(p.height, p.size, p.version, p.left, child)
  }

  function InnerHash(hash: HashFn, p: ProofInner, child: Bytes): Option<Bytes>
  {
    if |p.left| > 0 && |p.right| > 0 then None else Some(hash(InnerPreimage(p, child)))
  }

  /** PathToLeaf.computeRootHash on top of a leaf hash. */
  function PathHash(hash: HashFn, path: Path, leafHash: Bytes): Option<Bytes>
  {
    if path == [] then Some(leafHash)
    else
      var below := PathHash(hash, path[1..], leafHash);
      if below.None? then None else InnerHash(hash, path[0], below.value)
  }

  /** The loop of computeRootHash runs from the leaf up. */
  method ComputePathHash(hash: HashFn, path: Path, leafHash: Bytes) returns (r: Option<Bytes>)
    ensures r == PathHash(hash, path, leafHash)
  {
    r := Some(leafHash);
    var i := |path|;
    while i > 0
      invariant 0 <= i <= |path|
      invariant r == PathHash(hash, path[i..], leafHash)
    {
      i := i - 1;
      assert path[i..][1..] == path[i + 1..];
      if r.Some? { r := InnerHash(hash, path[i], r.value); }
    }
    assert path[0..] == path;
  }

  predicate IsRightmost(path: Path) { forall i :: 0 <= i < |path| ==> |path[i].right| == 0 }

  predicate IsLeftmost(path: Path) { forall i :: 0 <= i < |path| ==> |path[i].left| == 0 }

  // ---------- the verifier ----------

  /** What COMPUTEHASH returns together with the queues it leaves behind. */
  datatype Outcome =
    | Computed(root: Bytes, treeEnd: bool, done: bool, leaves: seq<ProofLeaf>, inners: seq<Path>)
    | Mismatch     // an intermediate root does not match
    | BothSides    // panic: an inner node with both child hashes
    | EmptyQueue   // panic: pop from an empty queue

  function ComputeHash(hash: HashFn, path: Path, rightmost: bool, leaves: seq<ProofLeaf>, inners: seq<Path>): (r: Outcome)
    ensures r.Computed? ==> |r.leaves| < |leaves|
    decreases |leaves|, 0, 0
  {
    if leaves == [] then EmptyQueue
    else
      var root := PathHash(hash, path, LeafHash(hash, leaves[0]));
      if root.None? then BothSides
      else if |leaves| == 1 then Computed(root.value, rightmost && IsRightmost(path), true, [], inners)
      else ProveAlong(hash, path, rightmost, root.value, leaves[1..], inners)
  }

  /** The loop over the path: each right hash is proved by the next inner path and the remaining leaves. */
  function ProveAlong(hash: HashFn, path: Path, rightmost: bool, root: Bytes, leaves: seq<ProofLeaf>, inners: seq<Path>): (r: Outcome)
    ensures r.Computed? ==> |r.leaves| <= |leaves|
    decreases |leaves|, 1, |path|
  {
    if path == [] then Computed(root, false, false, leaves, inners)
    else
      var rest, last := path[..|path| - 1], path[|path| - 1];
      if |last.right| == 0 then ProveAlong(hash, rest, rightmost, root, leaves, inners)
      else if inners == [] then EmptyQueue
      else
        var r := ComputeHash(hash, inners[0], rightmost && IsRightmost(rest), leaves, inners[1..]);
        if !r.Computed? then r
        else if r.root != last.right then Mismatch
        else if r.done then Computed(root, r.treeEnd, true, r.leaves, r.inners)
        else ProveAlong(hash, rest, rightmost, root, r.leaves, r.inners)
  }

  /** The shared queues of one verification and the recursive closure that pops them. */
  class Verifier {
    var leaves: seq<ProofLeaf>
    var inners: seq<Path>

    constructor (leaves: seq<ProofLeaf>, inners: seq<Path>)
      ensures this.leaves == leaves && this.inners == inners
    {
      this.leaves, this.inners := leaves, inners;
    }

    /** A panic or an error stops the verification; the queues are then of no use. */
    method Compute(hash: HashFn, path0: Path, rightmost: bool) returns (r: Outcome)
      modifies this
      ensures r == ComputeHash(hash, path0, rightmost, old(leaves), old(inners))
      ensures r.Computed? ==> leaves == r.leaves && inners == r.inners
      decreases |leaves|
    {
      if leaves == [] { return EmptyQueue; }
      var root := ComputePathHash(hash, path0, LeafHash(hash, leaves[0]));
      leaves := leaves[1..];
      if root.None? { return BothSides; }
      if |leaves| == 0 { return Computed(root.value, rightmost && IsRightmost(path0), true, leaves, inners); }
      var path := path0;
      while |path| > 0
        invariant |leaves| < |old(leaves)|
        invariant ProveAlong(hash, path, rightmost, root.value, leaves, inners)
               == ComputeHash(hash, path0, rightmost, old(leaves), old(inners))
        decreases |path|
      {
        var last := path[|path| - 1];
        path := path[..|path| - 1];
        if |last.right| == 0 { continue; }
        if inners == [] { return EmptyQueue; }
        var next := inners[0];
        inners := inners[1..];
        var sub := Compute(hash, next, rightmost && IsRightmost(path));
        if !sub.Computed? { return sub; }
        if sub.root != last.right { return Mismatch; }
        if sub.done { return Computed(root.value, sub.treeEnd, true, leaves, inners); }
      }
      return Computed(root.value, false, false, leaves, inners);
    }
  }

  /** With one inner path less than leaves, no queue is popped when it is empty. */
  lemma {:induction false} QueuesSuffice(hash: HashFn, path: Path, rightmost: bool, leaves: seq<ProofLeaf>, inners: seq<Path>)
    requires |leaves| == |inners| + 1
    ensures var r := ComputeHash(hash, path, rightmost, leaves, inners);
            r != EmptyQueue && (r.Computed? ==> |r.leaves| == |r.inners| && (r.done <==> r.leaves == []))
    decreases |leaves|, 0, 0
  {
    var root := PathHash(hash, path, LeafHash(hash, leaves[0]));
    if root.Some? && |leaves| > 1 { QueuesSufficeAlong(hash, path, rightmost, root.value, leaves[1..], inners); }
  }

  lemma {:induction false} QueuesSufficeAlong(hash: HashFn, path: Path, rightmost: bool, root: Bytes, leaves: seq<ProofLeaf>, inners: seq<Path>)
    requires |leaves| == |inners| > 0
    ensures var r := ProveAlong(hash, path, rightmost, root, leaves, inners);
            r != EmptyQueue && (r.Computed? ==> |r.leaves| == |r.inners| && (r.done <==> r.leaves == []))
    decreases |leaves|, 1, |path|
  {
    if path != [] {
      var rest, last := path[..|path| - 1], path[|path| - 1];
      if |last.right| == 0 { QueuesSufficeAlong(hash, rest, rightmost, root, leaves, inners); }
      else {
        QueuesSuffice(hash, inners[0], rightmost && IsRightmost(rest), leaves, inners[1..]);
        var r := ComputeHash(hash, inners[0], rightmost && IsRightmost(rest), leaves, inners[1..]);
        if r.Computed? && r.root == last.right && !r.done {
          QueuesSufficeAlong(hash, rest, rightmost, root, r.leaves, r.inners);
        }
      }
    }
  }

  // ---------- Verify and VerifyItem ----------

  /** _computeRootHash: the root and whether the last leaf ends the tree; None is an error or a panic. */
  function RootOf(hash: HashFn, leftPath: Path, inners: seq<Path>, leaves: seq<ProofLeaf>): Option<(Bytes, bool)>
  {
    if leaves == [] || |inners| + 1 != |leaves| then None
    else
      var r := ComputeHash(hash, leftPath, true, leaves, inners);
      if r.Computed? && r.done then Some((r.root, r.treeEnd)) else None
  }

  ghost predicate Ascending(leaves: seq<ProofLeaf>)
  {
    forall a, b :: 0 <= a < b < |leaves| ==> Lt(leaves[a].key, leaves[b].key)
  }

  ghost predicate HasItem(leaves: seq<ProofLeaf>, key: Bytes, valueHash: Bytes)
  {
    exists i :: 0 <= i < |leaves| && leaves[i].key == key && leaves[i].valueHash == valueHash
  }

  /** Keys before i are below `key`, keys from j on are not. */
  ghost predicate SplitsAt(leaves: seq<ProofLeaf>, key: Bytes, i: int, j: int)
  {
    (forall a :: 0 <= a < i && a < |leaves| ==> Lt(leaves[a].key, key)) &&
    (forall b :: 0 <= b && j <= b < |leaves| ==> Le(key, leaves[b].key))
  }

  /** Looking for a leaf above key among those from i on; without one the proof must reach the end of the tree. */
  predicate Scan(leaves: seq<ProofLeaf>, i: nat, key: Bytes, treeEnd: bool)
    decreases |leaves| - i
  {
    if i >= |leaves| then treeEnd
    else Lt(key, leaves[i].key) || (key != leaves[i].key && Scan(leaves, i + 1, key, treeEnd))
  }

  /** The verdict of VerifyAbsence on a verified proof. */
  predicate ProvesAbsence(leftPath: Path, leaves: seq<ProofLeaf>, treeEnd: bool, key: Bytes)
    requires leaves != []
  {
    if Lt(key, leaves[0].key) then IsLeftmost(leftPath)
    else key != leaves[0].key && (IsRightmost(leftPath) || Scan(leaves, 1, key, treeEnd))
  }

  class RangeProof {
    const hash: HashFn
    const leftPath: Path
    const innerNodes: seq<Path>
    const leaves: seq<ProofLeaf>
    var rootHash: Option<Bytes>   // memo
    var rootVerified: bool
    var treeEnd: bool             // memo
    ghost var verified: set<Bytes>  // the roots this proof was accepted against

    /** The memo, once filled, is what the proof computes to. */
    ghost predicate Valid()
      reads this
    {
      var r := RootOf(hash, leftPath, innerNodes, leaves);
      && (rootHash.Some? ==> r == Some((rootHash.value, treeEnd)))
      && (rootVerified <==> verified != {})
      && (rootVerified ==> rootHash.Some?)
      && (forall v :: v in verified ==> r.Some? && r.value.0 == v)
    }

    constructor (hash: HashFn, leftPath: Path, innerNodes: seq<Path>, leaves: seq<ProofLeaf>)
      ensures Valid() && this.hash == hash && this.leftPath == leftPath && this.innerNodes == innerNodes && this.leaves == leaves
      ensures rootHash == None && !rootVerified
    {
      this.hash, this.leftPath, this.innerNodes, this.leaves := hash, leftPath, innerNodes, leaves;
      rootHash, rootVerified, treeEnd, verified := None, false, false, {};
    }

    method ComputeRootHash() returns (r: Option<Bytes>)
      requires Valid()
      modifies this`rootHash, this`treeEnd
      ensures Valid()
      ensures r == match RootOf(hash, leftPath, innerNodes, leaves) { case None => None case Some((root, _)) => Some(root) }
      ensures r.Some? ==> rootHash == r
    {
      if leaves == [] || |innerNodes| + 1 != |leaves| { return None; }
      var v := new Verifier(leaves, innerNodes);
      var o := v.Compute(hash, leftPath, true);
      if o.Computed? && o.done {
        rootHash, treeEnd := Some(o.root), o.treeEnd;
        return Some(o.root);
      }
      return None;
    }

    method Verify(root: Bytes) returns (ok: bool)
      requires Valid()
      modifies this
      ensures Valid()
      ensures ok <==> var r := RootOf(hash, leftPath, innerNodes, leaves); r.Some? && r.value.0 == root
      ensures ok ==> rootVerified && root in verified
    {
      var r := rootHash;
      if r.None? { r := ComputeRootHash(); }
      if r != Some(root) { return false; }
      rootVerified := true;
      verified := verified + {root};
      return true;
    }

    /** sort.Search for the first leaf whose key is not below `key`. */
    method Search(key: Bytes) returns (i: nat)
      ensures i <= |leaves|
      ensures Ascending(leaves) ==> SplitsAt(leaves, key, i, i)
    {
      LtIsStrictTotalOrder();
      hide Lt;
      i := 0;
      var j := |leaves|;
      while i < j
        invariant 0 <= i <= j <= |leaves|
        invariant Ascending(leaves) ==> SplitsAt(leaves, key, i, j)
      {
        var m := (i + j) / 2;
        if Le(key, leaves[m].key) { j := m; } else { i := m + 1; }
      }
    }

    method VerifyItem(key: Bytes, value: Bytes) returns (ok: bool)
      requires Valid()
      ensures ok ==> rootVerified && HasItem(leaves, key, hash(value))
      ensures rootVerified && Ascending(leaves) && HasItem(leaves, key, hash(value)) ==> ok
    {
      LtIsStrictTotalOrder();
      hide Lt;
      if !rootVerified { return false; }
      var i := Search(key);
      if i >= |leaves| || leaves[i].key != key { return false; }
      if leaves[i].valueHash != hash(value) { return false; }
      return true;
    }

    method VerifyAbsence(key: Bytes) returns (ok: bool)
      requires Valid()
      ensures ok <==> rootVerified && leaves != [] && ProvesAbsence(leftPath, leaves, treeEnd, key)
    {
      if !rootVerified { return false; }
      if Lt(key, leaves[0].key) {
        ok := IsLeftmost(leftPath);
        return;
      }
      if key == leaves[0].key { return false; }
      if IsRightmost(leftPath) { return true; }
      var i := 1;
      while i < |leaves|
        invariant 1 <= i <= |leaves|
        invariant Scan(leaves, 1, key, treeEnd) == Scan(leaves, i, key, treeEnd)
      {
        if Lt(key, leaves[i].key) { return true; }
        if key == leaves[i].key { return false; }
        i := i + 1;
      }
      return treeEnd;
    }
  }
}
