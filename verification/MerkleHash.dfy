/**
  Node hashes and the node records on disk. A hash is modelled as the term that
  is hashed: collisions are excluded, and, as in writeHashBytes, the key of an
  inner node is not part of its hash.
 */
module MerkleHash {
  import opened Options
  import opened ByteStrings
  import opened AvlTree
  import opened Orphans

  datatype Hash =
    | LeafHash(version: int, key: Bytes, value: Bytes)
    | InnerHash(height: int, size: int, version: int, left: Hash, right: Hash)

  function HashOf(n: Node): Hash
  {
    match n
    case Leaf(key, value, version) => LeafHash(version, key, value)
    case Inner(_, height, size, version, left, right) => InnerHash(height, size, version, HashOf(left), HashOf(right))
  }

  function RootHash(n: Option<Node>): Option<Hash> { if n.None? then None else Some(HashOf(n.value)) }

  /** A node as writeBytes stores it: inner nodes carry their key and the hashes of their children. */
  datatype DiskNode =
    | DiskLeaf(key: Bytes, value: Bytes, version: int)
    | DiskInner(key: Bytes, height: int, size: int, version: int, leftHash: Hash, rightHash: Hash)

  function ToDisk(n: Node): DiskNode
  {
    match n
    case Leaf(key, value, version) => DiskLeaf(key, value, version)
    case Inner(key, height, size, version, left, right) =>
      DiskInner(key, height, size, version, HashOf(left), HashOf(right))
  }

  /** Reads a whole tree back by its hash, following child hashes; None if a record is missing. */
  function Load(nodes: map<Hash, DiskNode>, h: Hash): Option<Node>
    decreases h
  {
    if h !in nodes then None
    else match nodes[h]
      case DiskLeaf(key, value, version) => Some(Leaf(key, value, version))
      case DiskInner(key, height, size, version, lh, rh) =>
        if h.LeafHash? || lh != h.left || rh != h.right then None
        else
          var l, r := Load(nodes, lh), Load(nodes, rh);
          if l.None? || r.None? then None else Some(Inner(key, height, size, version, l.value, r.value))
  }

  /** The hashes under (and including) h. */
  function Subhashes(h: Hash): set<Hash>
  {
    if h.LeafHash? then {h} else {h} + Subhashes(h.left) + Subhashes(h.right)
  }

  function HashesOf(n: Option<Node>): set<Hash> { if n.None? then {} else Subhashes(HashOf(n.value)) }

  // ---------- a hash determines the node ----------

  function MinKeyOfHash(h: Hash): Bytes { if h.LeafHash? then h.key else MinKeyOfHash(h.left) }

  /** The node record that belongs to a hash. */
  function Content(h: Hash): DiskNode
  {
    match h
    case LeafHash(version, key, value) => DiskLeaf(key, value, version)
    case InnerHash(height, size, version, left, right) =>
      DiskInner(MinKeyOfHash(right), height, size, version, left, right)
  }

  lemma {:induction false} MinKeyAgrees(n: Node)
    ensures MinKeyOfHash(HashOf(n)) == MinKey(n)
  {
    if n.Inner? { MinKeyAgrees(n.left); }
  }

  /** Although inner keys are not hashed, an ordered tree is determined by its root hash. */
  lemma {:induction false} HashInjective(a: Node, b: Node)
    requires Ordered(a) && Ordered(b) && HashOf(a) == HashOf(b)
    ensures a == b
  {
    if a.Inner? {
      HashInjective(a.left, b.left);
      HashInjective(a.right, b.right);
    }
  }

  lemma DiskContent(n: Node)
    requires Ordered(n)
    ensures ToDisk(n) == Content(HashOf(n))
  {
    if n.Inner? { MinKeyAgrees(n.right); }
  }

  /** A store that holds every hash under n, each with its record, reads n back. */
  lemma {:induction false} LoadReadsBack(nodes: map<Hash, DiskNode>, n: Node)
    requires Ordered(n)
    requires forall h :: h in Subhashes(HashOf(n)) ==> h in nodes && nodes[h] == Content(h)
    ensures Load(nodes, HashOf(n)) == Some(n)
  {
    DiskContent(n);
    if n.Inner? { LoadReadsBack(nodes, n.left); LoadReadsBack(nodes, n.right); }
  }

  /** Hashes of the subnodes are the subhashes. */
  lemma {:induction false} SubhashesAreSubnodes(n: Node, h: Hash)
    ensures h in Subhashes(HashOf(n)) <==> exists m :: m in Subnodes(n) && HashOf(m) == h
  {
    if n.Leaf? {
      if h in Subhashes(HashOf(n)) { assert n in Subnodes(n); }
    } else {
      SubhashesAreSubnodes(n.left, h); SubhashesAreSubnodes(n.right, h);
      if h in Subhashes(HashOf(n)) {
        if h == HashOf(n) { assert n in Subnodes(n); }
        else if h in Subhashes(HashOf(n.left)) {
          var m :| m in Subnodes(n.left) && HashOf(m) == h;
          assert m in Subnodes(n);
        } else {
          var m :| m in Subnodes(n.right) && HashOf(m) == h;
          assert m in Subnodes(n);
        }
      }
    }
  }

  lemma {:induction false} SubnodesOrdered(n: Node, m: Node)
    requires Ordered(n) && m in Subnodes(n)
    ensures Ordered(m)
  {
    if m != n {
      if m in Subnodes(n.left) { SubnodesOrdered(n.left, m); } else { SubnodesOrdered(n.right, m); }
    }
  }

  /** For ordered trees a node is in a tree exactly when its hash is. */
  lemma MemberByHash(n: Node, m: Node)
    requires Ordered(n) && Ordered(m)
    ensures m in Subnodes(n) <==> HashOf(m) in Subhashes(HashOf(n))
  {
    SubhashesAreSubnodes(n, HashOf(m));
    if HashOf(m) in Subhashes(HashOf(n)) {
      var m' :| m' in Subnodes(n) && HashOf(m') == HashOf(m);
      SubnodesOrdered(n, m');
      HashInjective(m, m');
    }
  }
}
