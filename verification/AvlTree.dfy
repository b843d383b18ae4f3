/**
  The AVL+ tree: nodes, search order, rotations and balancing. Nodes are values;
  the slice of orphans that a rotation fills is part of its result.
 */
module AvlTree {
  import opened ByteStrings

  datatype Node =
    | Leaf(key: Bytes, value: Bytes, version: int)
    | Inner(key: Bytes, height: int, size: int, version: int, left: Node, right: Node)

  function Height(n: Node): int { if n.Leaf? then 0 else n.height }

  function Size(n: Node): int { if n.Leaf? then 1 else n.size }

  function Max(a: int, b: int): int { if a > b then a else b }

  function CalcHeightAndSize(n: Node): Node
    requires n.Inner?
  {
    n.(height := Max(Height(n.left), Height(n.right)) + 1, size := Size(n.left) + Size(n.right))
  }

  function CalcBalance(n: Node): int
    requires n.Inner?
  {
    Height(n.left) - Height(n.right)
  }

  function Clone(n: Node, version: int): Node
    requires n.Inner?
  {
    n.(version := version)
  }

  // ---------- rotations and balance ----------

  datatype Rotated = Rotated(node: Node, orphaned: Node)

  function RotateRight(node: Node, version: int): Rotated
    requires node.Inner? && node.left.Inner?
  {
    var orphaned := node.left;
    var lower := CalcHeightAndSize(Clone(node, version).(left := orphaned.right));
    Rotated(CalcHeightAndSize(Clone(orphaned, version).(right := lower)), orphaned)
  }

  function RotateLeft(node: Node, version: int): Rotated
    requires node.Inner? && node.right.Inner?
  {
    var orphaned := node.right;
    var lower := CalcHeightAndSize(Clone(node, version).(right := orphaned.left));
    Rotated(CalcHeightAndSize(Clone(orphaned, version).(left := lower)), orphaned)
  }

  /** Enough children for every rotation that `Balance` may take. */
  predicate Rotatable(n: Node)
  {
    n.Inner? &&
    (CalcBalance(n) > 1 ==> n.left.Inner? && (CalcBalance(n.left) < 0 ==> n.left.right.Inner?)) &&
    (CalcBalance(n) < -1 ==> n.right.Inner? && (CalcBalance(n.right) > 0 ==> n.right.left.Inner?))
  }

  datatype Balanced = Balanced(node: Node, orphans: seq<Node>)

  function Balance(node: Node, version: int): Balanced
    requires Rotatable(node)
  {
    if CalcBalance(node) > 1 then
      if CalcBalance(node.left) >= 0 then
        var r := RotateRight(node, version);
        Balanced(r.node, [r.orphaned])
      else
        var left := node.left;
        var l := RotateLeft(left, version);
        var r := RotateRight(node.(left := l.node), version);
        Balanced(r.node, [left, l.orphaned, r.orphaned])
    else if CalcBalance(node) < -1 then
      if CalcBalance(node.right) <= 0 then
        var r := RotateLeft(node, version);
        Balanced(r.node, [r.orphaned])
      else
        var right := node.right;
        var r := RotateRight(right, version);
        var l := RotateLeft(node.(right := r.node), version);
        Balanced(l.node, [right, l.orphaned, r.orphaned])
    else
      Balanced(node, [])
  }

  // ---------- what a well-formed tree is ----------

  function MinKey(n: Node): Bytes { if n.Leaf? then n.key else MinKey(n.left) }

  function Keys(n: Node): set<Bytes> { if n.Leaf? then {n.key} else Keys(n.left) + Keys(n.right) }

  function Contents(n: Node): map<Bytes, Bytes>
  {
    if n.Leaf? then map[n.key := n.value] else Contents(n.left) + Contents(n.right)
  }

  /** Search order; each inner key is the smallest key of the right subtree. */
  ghost predicate Ordered(n: Node)
  {
    n.Inner? ==>
      Ordered(n.left) && Ordered(n.right) && n.key == MinKey(n.right) &&
      forall k :: k in Keys(n.left) ==> Lt(k, n.key)
  }

  /** Cached heights and sizes are right and siblings differ in height by at most one. */
  ghost predicate Avl(n: Node)
  {
    n.Inner? ==>
      Avl(n.left) && Avl(n.right) && -1 <= CalcBalance(n) <= 1 && n == CalcHeightAndSize(n)
  }

  ghost predicate WellFormed(n: Node) { Ordered(n) && Avl(n) }

  lemma {:induction false} AvlHeight(n: Node)
    requires Avl(n)
    ensures Height(n) >= 0 && (Height(n) == 0 <==> n.Leaf?) && Size(n) >= 1
  {
    if n.Inner? { AvlHeight(n.left); AvlHeight(n.right); }
  }

  lemma {:induction false} MinKeyIsKey(n: Node)
    ensures MinKey(n) in Keys(n)
  {
    if n.Inner? { MinKeyIsKey(n.left); }
  }

  lemma {:induction false} MinKeyIsLeast(n: Node)
    requires Ordered(n)
    ensures MinKey(n) in Keys(n)
    ensures forall k :: k in Keys(n) ==> Le(MinKey(n), k)
  {
    LtIsStrictTotalOrder();
    if n.Inner? { MinKeyIsLeast(n.left); MinKeyIsLeast(n.right); }
  }

  lemma {:induction false} ContentsKeys(n: Node)
    ensures Contents(n).Keys == Keys(n)
  {
    if n.Inner? { ContentsKeys(n.left); ContentsKeys(n.right); }
  }

  // ---------- balance restores the AVL property ----------

  /** Children are AVL and at most two apart: what set and remove hand to balance. */
  ghost predicate NearlyAvl(n: Node)
  {
    n.Inner? && Avl(n.left) && Avl(n.right) && -2 <= CalcBalance(n) <= 2 && n == CalcHeightAndSize(n)
  }

  lemma NearlyAvlIsRotatable(n: Node)
    requires NearlyAvl(n)
    ensures Rotatable(n)
  {
    AvlHeight(n.left); AvlHeight(n.right);
    if n.left.Inner? { AvlHeight(n.left.left); AvlHeight(n.left.right); }
    if n.right.Inner? { AvlHeight(n.right.left); AvlHeight(n.right.right); }
  }

  lemma RotateRightKeepsOrder(n: Node, version: int)
    requires n.Inner? && n.left.Inner? && Ordered(n)
    ensures var r := RotateRight(n, version).node;
            Ordered(r) && MinKey(r) == MinKey(n) && Keys(r) == Keys(n) && Contents(r) == Contents(n)
  {
    hide Lt, Contents;
    var r := RotateRight(n, version).node;
    assert Keys(n.left) == Keys(n.left.left) + Keys(n.left.right);
    assert Ordered(r.right);
    ContentsRegroup(n.left.left, n.left.right, n.right, n.left, r.right, n, r);
  }

  /** The same three subtrees in order, grouped to the left and to the right. */
  lemma ContentsRegroup(a: Node, b: Node, c: Node, ab: Node, bc: Node, n: Node, m: Node)
    requires ab.Inner? && ab.left == a && ab.right == b && n.Inner? && n.left == ab && n.right == c
    requires bc.Inner? && bc.left == b && bc.right == c && m.Inner? && m.left == a && m.right == bc
    ensures Contents(n) == Contents(m)
  {
    assert Contents(ab) == Contents(a) + Contents(b) && Contents(bc) == Contents(b) + Contents(c);
    assert Contents(n) == Contents(ab) + Contents(c) && Contents(m) == Contents(a) + Contents(bc);
    hide Contents;
    UnionRegroup(Contents(a), Contents(b), Contents(c));
  }

  lemma UnionRegroup(a: map<Bytes, Bytes>, b: map<Bytes, Bytes>, c: map<Bytes, Bytes>)
    ensures (a + b) + c == a + (b + c)
  {
  }

  lemma RotateLeftKeepsOrder(n: Node, version: int)
    requires n.Inner? && n.right.Inner? && Ordered(n)
    ensures var r := RotateLeft(n, version).node;
            Ordered(r) && MinKey(r) == MinKey(n) && Keys(r) == Keys(n) && Contents(r) == Contents(n)
  {
    hide Lt, Contents;
    var r := RotateLeft(n, version).node;
    assert Keys(n.right) == Keys(n.right.left) + Keys(n.right.right);
    MinKeyIsKey(n.right.left);
    assert Lt(n.key, n.right.key);
    forall k | k in Keys(r.left) ensures Lt(k, r.key) {
      if k in Keys(n.left) { LtTransitive(k, n.key, r.key); }
    }
    assert Ordered(r.left);
    ContentsRegroup(n.left, n.right.left, n.right.right, r.left, n.right, r, n);
  }

  /** Any rotation that balance takes leaves the order, the least key and the contents alone. */
  lemma BalanceKeepsOrder(n: Node, version: int)
    requires Rotatable(n) && Ordered(n)
    ensures var r := Balance(n, version).node;
            Ordered(r) && MinKey(r) == MinKey(n) && Keys(r) == Keys(n) && Contents(r) == Contents(n)
  {
    if CalcBalance(n) > 1 {
      if CalcBalance(n.left) >= 0 {
        RotateRightKeepsOrder(n, version);
      } else {
        RotateLeftKeepsOrder(n.left, version);
        RotateRightKeepsOrder(n.(left := RotateLeft(n.left, version).node), version);
      }
    } else if CalcBalance(n) < -1 {
      if CalcBalance(n.right) <= 0 {
        RotateLeftKeepsOrder(n, version);
      } else {
        RotateRightKeepsOrder(n.right, version);
        RotateLeftKeepsOrder(n.(right := RotateRight(n.right, version).node), version);
      }
    }
  }

  /** One rotation with the inner grandchild no taller than the outer one. */
  lemma SingleRotationAvl(n: Node, version: int)
    requires NearlyAvl(n)
    ensures CalcBalance(n) == 2 ==> n.left.Inner?
    ensures CalcBalance(n) == -2 ==> n.right.Inner?
    ensures CalcBalance(n) == 2 && CalcBalance(n.left) >= 0 ==>
              var r := RotateRight(n, version).node;
              Avl(r) && Size(r) == Size(n) && Height(n) - 1 <= Height(r) <= Height(n)
    ensures CalcBalance(n) == -2 && CalcBalance(n.right) <= 0 ==>
              var r := RotateLeft(n, version).node;
              Avl(r) && Size(r) == Size(n) && Height(n) - 1 <= Height(r) <= Height(n)
  {
    NearlyAvlIsRotatable(n);
    if CalcBalance(n) == 2 && CalcBalance(n.left) >= 0 {
      assert Avl(RotateRight(n, version).node.right);
    }
    if CalcBalance(n) == -2 && CalcBalance(n.right) <= 0 {
      assert Avl(RotateLeft(n, version).node.left);
    }
  }

  lemma LeftRightAvl(n: Node, version: int)
    requires NearlyAvl(n) && CalcBalance(n) == 2
    requires n.left.Inner? && CalcBalance(n.left) < 0
    ensures n.left.right.Inner?
    ensures var r := RotateRight(n.(left := RotateLeft(n.left, version).node), version).node;
            Avl(r) && Size(r) == Size(n) && Height(n) - 1 <= Height(r) <= Height(n)
  {
    NearlyAvlIsRotatable(n);
    assert Avl(n.left.right);
    assert Avl(n.left.right.left) && Avl(n.left.right.right);
    var r := RotateRight(n.(left := RotateLeft(n.left, version).node), version).node;
    assert Avl(r.left);
    assert Avl(r.right);
  }

  lemma RightLeftAvl(n: Node, version: int)
    requires NearlyAvl(n) && CalcBalance(n) == -2
    requires n.right.Inner? && CalcBalance(n.right) > 0
    ensures n.right.left.Inner?
    ensures var r := RotateLeft(n.(right := RotateRight(n.right, version).node), version).node;
            Avl(r) && Size(r) == Size(n) && Height(n) - 1 <= Height(r) <= Height(n)
  {
    NearlyAvlIsRotatable(n);
    assert Avl(n.right.left);
    assert Avl(n.right.left.left) && Avl(n.right.left.right);
    var r := RotateLeft(n.(right := RotateRight(n.right, version).node), version).node;
    assert Avl(r.left);
    assert Avl(r.right);
  }

  /** Balance repairs a two-level imbalance with at most one level of height lost. */
  lemma BalanceRestoresAvl(n: Node, version: int)
    requires NearlyAvl(n)
    ensures Rotatable(n)
    ensures var r := Balance(n, version).node;
            Avl(r) && Size(r) == Size(n) && Height(n) - 1 <= Height(r) <= Height(n)
    ensures -1 <= CalcBalance(n) <= 1 ==> Balance(n, version).node == n
  {
    NearlyAvlIsRotatable(n);
    hide Avl;
    SingleRotationAvl(n, version);
    if CalcBalance(n) > 1 && CalcBalance(n.left) < 0 { LeftRightAvl(n, version); }
    if CalcBalance(n) < -1 && CalcBalance(n.right) > 0 { RightLeftAvl(n, version); }
    if -1 <= CalcBalance(n) <= 1 { AvlUnfold(n); }
  }

  lemma AvlUnfold(n: Node)
    requires NearlyAvl(n) && -1 <= CalcBalance(n) <= 1
    ensures Avl(n)
  {}
}
