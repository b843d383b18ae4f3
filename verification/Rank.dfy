/**
  Lookup, rank and selection in a tree, the height that a 64-bit size allows,
  and the neighbours chosen for a proof of non-membership.
 */
module Rank {
  import opened Options
  import opened ByteStrings
  import opened Successor
  import opened AvlTree
  import opened RangeProofs
  import opened RangeQuery
  import opened RangeAnswer
  import opened ProofCompleteness

  // ---------- height ----------

  const MAX_INT64 := 0x7fff_ffff_ffff_ffff

  /** The fewest leaves of a tree of this height. */
  function MinSize(height: nat): nat
  {
    if height == 0 then 1 else if height == 1 then 2 else MinSize(height - 1) + MinSize(height - 2)
  }

  lemma {:induction false} MinSizeGrows(a: nat, b: nat)
    requires a <= b
    ensures MinSize(a) <= MinSize(b)
    decreases b
  {
    if a < b { MinSizeGrows(a, b - 1); }
  }

  /** Seven places further on. */
  lemma Seven(h: nat, a: nat, b: nat)
    requires MinSize(h) == a && MinSize(h + 1) == b
    ensures MinSize(h + 7) == 8 * a + 13 * b && MinSize(h + 8) == 13 * a + 21 * b
  {
    assert MinSize(h + 2) == a + b;
    assert MinSize(h + 3) == a + 2 * b;
    assert MinSize(h + 4) == 2 * a + 3 * b;
    assert MinSize(h + 5) == 3 * a + 5 * b;
    assert MinSize(h + 6) == 5 * a + 8 * b;
  }

  lemma MinSize91()
    ensures MinSize(91) == 12_200_160_415_121_876_738
  {
    Seven(0, 1, 2);
    Seven(7, 34, 55);
    Seven(14, 987, 1_597);
    Seven(21, 28_657, 46_368);
    Seven(28, 832_040, 1_346_269);
    Seven(35, 24_157_817, 39_088_169);
    Seven(42, 701_408_733, 1_134_903_170);
    Seven(49, 20_365_011_074, 32_951_280_099);
    Seven(56, 591_286_729_879, 956_722_026_041);
    Seven(63, 17_167_680_177_565, 27_777_890_035_288);
    Seven(70, 498_454_011_879_264, 806_515_533_049_393);
    Seven(77, 14_472_334_024_676_221, 23_416_728_348_467_685);
    Seven(84, 420_196_140_727_489_673, 679_891_637_638_612_258);
  }

  lemma {:induction false} AvlSize(n: Node)
    requires Avl(n)
    ensures Height(n) >= 0 && Size(n) >= MinSize(Height(n)) && Size(n) == |Leaves(n)|
  {
    if n.Inner? {
      AvlSize(n.left);
      AvlSize(n.right);
      var l, r := Height(n.left), Height(n.right);
      if n.height >= 2 { MinSizeGrows(n.height - 2, if l < r then l else r); }
    }
  }

  /** A size that fits in an int64 keeps the height far below the limit of an int8. */
  lemma HeightAtMost90(n: Node)
    requires Avl(n) && Size(n) <= MAX_INT64
    ensures 0 <= Height(n) <= 90
  {
    hide MinSize, Avl;
    AvlSize(n);
    if Height(n) > 90 {
      MinSize91();
      MinSizeGrows(91, Height(n));
      assert false;
    }
  }

  // ---------- has, get, getByIndex ----------

  predicate Has(n: Node, key: Bytes)
  {
    n.key == key || (n.Inner? && if Lt(key, n.key) then Has(n.left, key) else Has(n.right, key))
  }

  /** The key of an inner node is a key of its right subtree, so finding it there is enough. */
  lemma {:induction false} HasIsMember(n: Node, key: Bytes)
    requires Ordered(n)
    ensures Has(n, key) <==> key in Keys(n)
  {
    hide Lt;
    if n.Inner? {
      HasIsMember(n.left, key);
      HasIsMember(n.right, key);
      SidesApart(n);
      OrderedBelow(n);
      MinKeyIsKey(n.right);
      LtIrreflexive(key);
    }
  }

  datatype Found = Found(index: int, value: Option<Bytes>)

  function Get(n: Node, key: Bytes): Found
  {
    if n.Leaf? then Found(if Lt(n.key, key) then 1 else 0, if n.key == key then Some(n.value) else None)
    else if Lt(key, n.key) then Get(n.left, key)
    else
      var r := Get(n.right, key);
      Found(r.index + Size(n) - Size(n.right), r.value)
  }

  function GetByIndex(n: Node, index: int): Option<Node>
  {
    if n.Leaf? then if index == 0 then Some(n) else None
    else if index < Size(n.left) then GetByIndex(n.left, index)
    else GetByIndex(n.right, index - Size(n.left))
  }

  /** i keys are smaller than `key`, the others are not. */
  ghost predicate RankIs(s: seq<Node>, key: Bytes, i: int)
  {
    0 <= i <= |s| && (forall j :: 0 <= j < i ==> Lt(s[j].key, key)) && (forall j :: i <= j < |s| ==> Le(key, s[j].key))
  }

  /** get returns the number of smaller keys and the value, if there is one. */
  lemma {:induction false} GetIsRank(n: Node, key: Bytes)
    requires Ordered(n) && Avl(n)
    ensures RankIs(Leaves(n), key, Get(n, key).index)
    ensures Get(n, key).value == if key in Contents(n) then Some(Contents(n)[key]) else None
  {
    hide Lt;
    if n.Inner? {
      GetIsRank(n.left, key);
      GetIsRank(n.right, key);
      ValueOnOneSide(n, key);
      hide RankIs, Leaves, Contents;
      RankOnOneSide(n, key, Get(n.left, key).index, Get(n.right, key).index);
    } else {
      LtTotal(n.key, key);
      LtIrreflexive(key);
    }
  }

  lemma ValueOnOneSide(n: Node, key: Bytes)
    requires n.Inner? && Ordered(n)
    ensures var side := if Lt(key, n.key) then n.left else n.right;
            (key in Contents(n) <==> key in Contents(side)) && (key in Contents(n) ==> Contents(n)[key] == Contents(side)[key])
  {
    hide Lt;
    ContentsKeys(n.left);
    ContentsKeys(n.right);
    NotOnOtherSide(n, key);
    hide Ordered;
  }

  lemma RankOnOneSide(n: Node, key: Bytes, i: int, j: int)
    requires n.Inner? && Ordered(n) && Avl(n) && RankIs(Leaves(n.left), key, i) && RankIs(Leaves(n.right), key, j)
    ensures RankIs(Leaves(n), key, if Lt(key, n.key) then i else Size(n) - Size(n.right) + j)
  {
    hide Lt, RankIs;
    var l, r := Leaves(n.left), Leaves(n.right);
    AvlSize(n.left);
    AvlSize(n.right);
    LeavesRise(n.left);
    LeavesRise(n.right);
    SidesApart(n);
    OrderedBelow(n);
    assert Leaves(n) == l + r && Size(n) - Size(n.right) == |l|;
    hide Leaves, Ordered, Avl;
    if Lt(key, n.key) { RankLeft(l, r, key, n.key, i, Keys(n.right)); }
    else { RankRight(l, r, key, n.key, j, Keys(n.left)); }
  }

  lemma NotOnOtherSide(n: Node, key: Bytes)
    requires n.Inner? && Ordered(n)
    ensures if Lt(key, n.key) then key !in Keys(n.right) else key !in Keys(n.left)
  {
    hide Lt;
    SidesApart(n);
    OrderedBelow(n);
  }

  lemma RankLeft(l: seq<Node>, r: seq<Node>, key: Bytes, from: Bytes, i: int, keys: set<Bytes>)
    requires RankIs(l, key, i) && Lt(key, from) && KeysOf(r, keys) && forall k :: k in keys ==> Le(from, k)
    ensures RankIs(l + r, key, i)
  {
    hide Lt;
    forall j | 0 <= j < |r| ensures Le(key, r[j].key) {
      assert r[j].key in keys;
      if Lt(r[j].key, key) { LtTransitive(r[j].key, key, from); }
    }
  }

  lemma RankRight(l: seq<Node>, r: seq<Node>, key: Bytes, from: Bytes, i: int, keys: set<Bytes>)
    requires RankIs(r, key, i) && Le(from, key) && KeysOf(l, keys) && forall k :: k in keys ==> Lt(k, from)
    ensures RankIs(l + r, key, |l| + i)
  {
    hide Lt;
    forall j | 0 <= j < |l| ensures Lt(l[j].key, key) {
      assert l[j].key in keys;
      LtTotal(from, key);
      if from != key { LtTransitive(l[j].key, from, key); }
    }
  }

  /** getByIndex returns the leaf at that place, and nothing outside the tree. */
  lemma {:induction false} GetByIndexSelects(n: Node, index: int)
    requires Avl(n)
    ensures GetByIndex(n, index) == if 0 <= index < |Leaves(n)| then Some(Leaves(n)[index]) else None
  {
    if n.Inner? {
      AvlSize(n.left);
      AvlSize(n.right);
      GetByIndexSelects(n.left, index);
      GetByIndexSelects(n.right, index - Size(n.left));
    }
  }

  /** Rank and selection undo each other. */
  lemma SelectUndoesRank(n: Node, key: Bytes)
    requires WellFormed(n) && key in Keys(n)
    ensures var m := GetByIndex(n, Get(n, key).index); m.Some? && m.value.key == key
  {
    hide Lt, Ordered, Avl;
    var i, s := Get(n, key).index, Leaves(n);
    GetIsRank(n, key);
    GetByIndexSelects(n, i);
    LeavesRise(n);
    var j :| 0 <= j < |s| && s[j].key == key;
    LtIrreflexive(key);
    assert i <= j;
    assert Le(key, s[i].key);
  }

  lemma RankUndoesSelect(n: Node, index: int)
    requires WellFormed(n) && 0 <= index < Size(n)
    ensures var m := GetByIndex(n, index); m.Some? && Get(n, m.value.key).index == index
  {
    hide Lt, Ordered, Avl;
    var s := Leaves(n);
    AvlSize(n);
    GetByIndexSelects(n, index);
    var key := s[index].key;
    GetIsRank(n, key);
    LeavesRise(n);
    LtIrreflexive(key);
    var i := Get(n, key).index;
    assert i <= index;
    assert Le(key, s[i].key);
  }

  // ---------- PathToLeaf.Index ----------

  /** What the loop of Index adds for the inner node at i. */
  function Turn(path: Path, i: nat): int
    requires i < |path|
  {
    if |path[i].left| == 0 then 0 else path[i].size - (if i + 1 < |path| then path[i + 1].size else 1)
  }

  function PathIndex(path: Path): int
  {
    if path == [] then 0 else Turn(path, 0) + PathIndex(path[1..])
  }

  method Index(path: Path) returns (idx: int)
    ensures if exists p :: p in path && |p.left| > 0 && |p.right| > 0 then idx == -1 else idx == PathIndex(path)
  {
    idx := 0;
    var i := 0;
    assert path[0..] == path;
    while i < |path|
      invariant 0 <= i <= |path|
      invariant forall j :: 0 <= j < i ==> |path[j].left| == 0 || |path[j].right| == 0
      invariant PathIndex(path) == idx + PathIndex(path[i..])
    {
      assert path[i..][0] == path[i] && path[i..][1..] == path[i + 1..];
      if |path[i].left| > 0 {
        if |path[i].right| > 0 { return -1; }
        if i < |path| - 1 {
          assert path[i..][1] == path[i + 1];
          idx := idx + path[i].size - path[i + 1].size;
        } else {
          idx := idx + path[i].size - 1;
        }
      }
      i := i + 1;
    }
  }

  /** For a key in the tree the index read off its proof path is its rank. */
  lemma {:induction false} PathIndexIsRank(hash: HashFn, n: Node, key: Bytes)
    requires NeverEmpty(hash) && Ordered(n) && key in Keys(n)
    ensures PathIndex(PathToLeaf(hash, n, key).path) == Get(n, key).index
  {
    hide Lt;
    var path := PathToLeaf(hash, n, key).path;
    if n.Leaf? {
      LtIrreflexive(key);
    } else {
      SidesApart(n);
      OrderedBelow(n);
      var child := if Lt(key, n.key) then n.left else n.right;
      PathIndexIsRank(hash, child, key);
      var below := PathToLeaf(hash, child, key).path;
      assert path[1..] == below;
      FirstSize(hash, child, key);
      NodeHashNotEmpty(hash, n.left);
    }
  }

  lemma FirstSize(hash: HashFn, n: Node, key: Bytes)
    ensures var p := PathToLeaf(hash, n, key).path; if p == [] then n.Leaf? else p[0].size == Size(n)
  {
  }

  // ---------- the neighbours of an absent key ----------

  datatype NonMember = KeyPresent | Neighbours(left: Option<Node>, right: Option<Node>)

  /** GetNonMembershipProof: the leaves whose existence is proved to the left and to the right of the key. */
  function NonMembership(root: Option<Node>, key: Bytes): NonMember
  {
    if root.None? then Neighbours(None, None)
    else
      var f := Get(root.value, key);
      if f.value.Some? then KeyPresent
      else Neighbours(if f.index >= 1 then GetByIndex(root.value, f.index - 1) else None, GetByIndex(root.value, f.index))
  }

  /** Nothing lies between the two, and a side is missing only if the key is beyond that end of the tree. */
  ghost predicate Brackets(keys: set<Bytes>, left: Option<Node>, key: Bytes, right: Option<Node>)
  {
    (left.Some? ==> left.value.Leaf? && left.value.key in keys && Lt(left.value.key, key)) &&
    (right.Some? ==> right.value.Leaf? && right.value.key in keys && Lt(key, right.value.key)) &&
    forall k :: k in keys ==> (left.Some? && Le(k, left.value.key)) || (right.Some? && Le(right.value.key, k))
  }

  lemma NeighboursBracket(n: Node, key: Bytes)
    requires WellFormed(n)
    ensures NonMembership(Some(n), key).KeyPresent? <==> key in Keys(n)
    ensures key !in Keys(n) ==>
              var p := NonMembership(Some(n), key);
              Brackets(Keys(n), p.left, key, p.right) && p.left == GetByIndex(n, Get(n, key).index - 1) && p.right == GetByIndex(n, Get(n, key).index)
  {
    hide Lt, Ordered, Avl, Brackets, RankIs, Contents;
    var s, i := Leaves(n), Get(n, key).index;
    GetIsRank(n, key);
    ContentsKeys(n);
    GetByIndexSelects(n, i);
    GetByIndexSelects(n, i - 1);
    LeavesRise(n);
    assert 0 <= i <= |s| by { RankInRange(s, key, i); }
    if key !in Keys(n) { SplitBrackets(s, key, i, Keys(n)); }
  }

  lemma RankInRange(s: seq<Node>, key: Bytes, i: int)
    requires RankIs(s, key, i)
    ensures 0 <= i <= |s|
  {
  }

  lemma SplitBrackets(s: seq<Node>, key: Bytes, i: int, keys: set<Bytes>)
    requires Rising(s) && KeysOf(s, keys) && RankIs(s, key, i) && key !in keys && forall j :: 0 <= j < |s| ==> s[j].Leaf?
    ensures Brackets(keys, if i > 0 then Some(s[i - 1]) else None, key, if i < |s| then Some(s[i]) else None)
  {
    hide Lt;
    if i < |s| { LtTotal(key, s[i].key); }
    forall k | k in keys ensures (i > 0 && Le(k, s[i - 1].key)) || (i < |s| && Le(s[i].key, k)) {
      var j :| 0 <= j < |s| && s[j].key == k;
      if j < i {
        if j < i - 1 && Lt(s[i - 1].key, k) { LtTransitive(k, s[i - 1].key, k); }
        LtIrreflexive(k);
      } else {
        if j > i && Lt(k, s[i].key) { LtTransitive(k, s[i].key, k); }
        LtIrreflexive(k);
      }
    }
  }

  // ---------- existence proofs for ICS 23 ----------

  /** createExistenceProof: the range proof of a key that is there has its leaf alone, and its path leads to the root hash. */
  lemma ExistenceHasOneLeaf(hash: HashFn, n: Node, key: Bytes)
    requires NeverEmpty(hash) && Ordered(n) && key in Keys(n)
    ensures var r := GetRange(hash, n, Some(key), Some(CpIncr(key)), 2);
            r.leaves == [] && r.inners == [] && r.first.Leaf? && r.first.key == key &&
            PathHash(hash, r.leftPath, LeafHash(hash, LeafOf(hash, r.first))) == Some(NodeHash(hash, n))
  {
    hide Lt, CpIncr, Ordered, NodeHash, PathHash, Traverse;
    PathFinds(hash, n, key);
    LtIrreflexive(CpIncr(key));
    FirstPath(hash, n, Some(key));
    PathToLeafIsFirst(hash, n, key);
  }
}
