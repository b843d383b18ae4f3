/** Range-proof paths rewritten as ICS 23 existence proofs: a leaf operation and inner operations from the leaf up. */
module Ics23 {
  import opened Options
  import opened ByteStrings
  import opened Wire
  import opened AvlTree
  import opened RangeProofs
  import opened RangeQuery
  import opened RangeAnswer
  import opened ProofCompleteness

  const HASH_LENGTH: Byte := 0x20

  /** The child's hash goes between the prefix and the suffix. */
  datatype InnerOp = InnerOp(prefix: Bytes, suffix: Bytes)

  function ConvertInner(p: ProofInner): InnerOp
  {
    var start := Varint(p.height) + Varint(p.size) + Varint(p.version);
    if |p.left| > 0 then InnerOp(start + [HASH_LENGTH] + p.left + [HASH_LENGTH], [])
    else InnerOp(start + [HASH_LENGTH], [HASH_LENGTH] + p.right)
  }

  /** The operations in the order in which they are applied. */
  function InnerOps(path: Path): (r: seq<InnerOp>)
    ensures |r| == |path|
  {
    seq(|path|, i requires 0 <= i < |path| => ConvertInner(path[|path| - 1 - i]))
  }

  method ConvertInnerOps(path: Path) returns (steps: seq<InnerOp>)
    ensures steps == InnerOps(path)
  {
    steps := [];
    var i := |path| - 1;
    while i >= 0
      invariant -1 <= i < |path| && |steps| == |path| - 1 - i
      invariant forall j :: 0 <= j < |steps| ==> steps[j] == ConvertInner(path[|path| - 1 - j])
    {
      steps := steps + [ConvertInner(path[i])];
      i := i - 1;
    }
  }

  /** LeafOp with a var-proto length and the value hashed first. */
  function ApplyLeaf(hash: HashFn, version: int, key: Bytes, value: Bytes): Bytes
  {
    hash(Varint(0) + Varint(1) + Varint(version) + (ByteSlice(key) + ByteSlice(hash(value))))
  }

  function ApplyInner(hash: HashFn, op: InnerOp, child: Bytes): Bytes { hash(op.prefix + child + op.suffix) }

  function ApplyAll(hash: HashFn, ops: seq<InnerOp>, leaf: Bytes): Bytes
  {
    if ops == [] then leaf else ApplyAll(hash, ops[1..], ApplyInner(hash, ops[0], leaf))
  }

  ghost predicate Sha256Sized(hash: HashFn) { forall x :: |hash(x)| == 32 }

  /** One hash of 32 bytes is given, the other side is open. */
  predicate OneSided(p: ProofInner)
  {
    (|p.left| == 0 && |p.right| == 32) || (|p.left| == 32 && |p.right| == 0)
  }

  predicate AllOneSided(path: Path) { forall i :: 0 <= i < |path| ==> OneSided(path[i]) }

  lemma LeafAgrees(hash: HashFn, version: int, key: Bytes, value: Bytes)
    ensures ApplyLeaf(hash, version, key, value) == LeafHash(hash, ProofLeaf(key, hash(value), version))
  {
    hide Varint, ByteSlice;
    var a, b, c, d, e := Varint(0), Varint(1), Varint(version), ByteSlice(key), ByteSlice(hash(value));
    assert a + b + c + (d + e) == a + (b + (c + (d + (e + []))));
  }

  lemma LengthByte(s: Bytes)
    requires |s| == 32
    ensures ByteSlice(s) == [HASH_LENGTH] + s
  {
  }

  lemma InnerAgrees(hash: HashFn, p: ProofInner, child: Bytes)
    requires OneSided(p) && |child| == 32
    ensures InnerHash(hash, p, child) == Some(ApplyInner(hash, ConvertInner(p), child))
  {
    hide Varint, ByteSlice;
    LengthByte(child);
    var a, b, c, x := Varint(p.height), Varint(p.size), Varint(p.version), [HASH_LENGTH];
    if |p.left| > 0 {
      LengthByte(p.left);
      assert (a + b + c + x + p.left + x) + child + [] == a + (b + (c + ((x + p.left) + ((x + child) + []))));
    } else {
      LengthByte(p.right);
      assert (a + b + c + x) + child + (x + p.right) == a + (b + (c + ((x + child) + ((x + p.right) + []))));
    }
  }

  lemma {:induction false} ApplyAllMore(hash: HashFn, ops: seq<InnerOp>, op: InnerOp, leaf: Bytes)
    ensures ApplyAll(hash, ops + [op], leaf) == ApplyInner(hash, op, ApplyAll(hash, ops, leaf))
  {
    if ops == [] {
      var one := [op];
      assert ops + [op] == one && one[1..] == [];
    } else {
      var s := ops + [op];
      assert s[0] == ops[0] && s[1..] == ops[1..] + [op];
      ApplyAllMore(hash, ops[1..], op, ApplyInner(hash, ops[0], leaf));
    }
  }

  /** The converted proof computes the same root as the path it was made from. */
  lemma {:induction false} RootsAgree(hash: HashFn, path: Path, leaf: Bytes)
    requires Sha256Sized(hash) && |leaf| == 32 && AllOneSided(path)
    ensures PathHash(hash, path, leaf) == Some(ApplyAll(hash, InnerOps(path), leaf)) && |ApplyAll(hash, InnerOps(path), leaf)| == 32
  {
    hide ConvertInner, InnerHash;
    if path != [] {
      RootsAgree(hash, path[1..], leaf);
      var below := ApplyAll(hash, InnerOps(path[1..]), leaf);
      InnerAgrees(hash, path[0], below);
      assert InnerOps(path) == InnerOps(path[1..]) + [ConvertInner(path[0])];
      ApplyAllMore(hash, InnerOps(path[1..]), ConvertInner(path[0]), leaf);
    }
  }

  lemma {:induction false} PathsAreOneSided(hash: HashFn, n: Node, key: Bytes)
    requires Sha256Sized(hash)
    ensures AllOneSided(PathToLeaf(hash, n, key).path)
  {
    hide OneSided, Lt;
    if n.Inner? {
      var child := if Lt(key, n.key) then n.left else n.right;
      PathsAreOneSided(hash, child, key);
      PinsAreOneSided(hash, n);
      var path, below := PathToLeaf(hash, n, key).path, PathToLeaf(hash, child, key).path;
      assert path == [if Lt(key, n.key) then PinLeft(hash, n) else PinRight(hash, n)] + below;
    }
  }

  lemma PinsAreOneSided(hash: HashFn, n: Node)
    requires Sha256Sized(hash) && n.Inner?
    ensures OneSided(PinLeft(hash, n)) && OneSided(PinRight(hash, n))
  {
    assert |hash(NodePreimage(hash, n.left))| == 32 && |hash(NodePreimage(hash, n.right))| == 32;
  }

  /** The existence proof of a key that is there checks against the root hash. */
  lemma ExistenceProofChecks(hash: HashFn, n: Node, key: Bytes)
    requires Sha256Sized(hash) && Ordered(n) && key in Keys(n)
    ensures var p := PathToLeaf(hash, n, key);
            p.node.Leaf? && p.node.key == key && ApplyAll(hash, InnerOps(p.path), ApplyLeaf(hash, p.node.version, key, p.node.value)) == NodeHash(hash, n)
  {
    hide Lt, NodeHash, PathHash, InnerOps, ApplyAll, Ordered, PathToLeaf, OneSided;
    var p := PathToLeaf(hash, n, key);
    PathFinds(hash, n, key);
    PathsAreOneSided(hash, n, key);
    LeafAgrees(hash, p.node.version, key, p.node.value);
    RootsAgree(hash, p.path, LeafHash(hash, LeafOf(hash, p.node)));
    assert NeverEmpty(hash);
    FirstPath(hash, n, Some(key));
    PathToLeafIsFirst(hash, n, key);
  }
}
