/**
  recursiveSet and recursiveRemove: the two updates of the working tree.
 */
module TreeUpdate {
  import opened Options
  import opened ByteStrings
  import opened AvlTree

  // ---------- set ----------

  datatype SetResult = SetResult(node: Node, updated: bool, orphans: seq<Node>)

  /** What a set makes of height and size. */
  ghost predicate Grown(n: Node, r: SetResult)
  {
    Avl(r.node) &&
    if r.updated then Height(r.node) == Height(n) && Size(r.node) == Size(n)
    else Height(n) <= Height(r.node) <= Height(n) + 1 && Size(r.node) == Size(n) + 1
  }

  /** The way back up: the child has been set, the node is copied and, unless a value was replaced, balanced. */
  function SetUpwards(n: Node, goLeft: bool, s: SetResult, version: int): (r: SetResult)
    requires n.Inner? && Avl(n) && Grown(if goLeft then n.left else n.right, s)
    ensures Grown(n, r)
  {
    var c := Clone(n, version);
    var m := if goLeft then c.(left := s.node) else c.(right := s.node);
    if s.updated then
      SetResult(m, true, [n] + s.orphans)
    else
      var d := CalcHeightAndSize(m);
      BalanceRestoresAvl(d, version);
      var b := Balance(d, version);
      SetResult(b.node, false, [n] + s.orphans + b.orphans)
  }

  /** Sets `key` below `n`, creating nodes of the given version; `orphans` is what the call appends. */
  function RecursiveSet(n: Node, key: Bytes, value: Bytes, version: int): (r: SetResult)
    requires Avl(n)
    ensures Grown(n, r)
  {
    if n.Leaf? then
      if Lt(key, n.key) then
        SetResult(Inner(n.key, 1, 2, version, Leaf(key, value, version), n), false, [])
      else if Lt(n.key, key) then
        SetResult(Inner(key, 1, 2, version, n, Leaf(key, value, version)), false, [])
      else
        SetResult(Leaf(key, value, version), true, [n])
    else
      var goLeft := Lt(key, n.key);
      SetUpwards(n, goLeft, RecursiveSet(if goLeft then n.left else n.right, key, value, version), version)
  }

  /** What setting `key` under `n` must achieve. */
  ghost predicate SetOk(n: Node, key: Bytes, value: Bytes, m: Node, updated: bool)
  {
    && Ordered(m)
    && Contents(m) == Contents(n)[key := value]
    && Keys(m) == Keys(n) + {key}
    && (updated <==> key in Keys(n))
    && MinKey(m) == (if Lt(key, MinKey(n)) then key else MinKey(n))
  }

  lemma UnionUpdate<K, V>(a: map<K, V>, b: map<K, V>, k: K, v: V)
    ensures k !in b ==> (a + b)[k := v] == a[k := v] + b
    ensures (a + b)[k := v] == a + b[k := v]
  {
  }

  lemma SetOnTheLeft(n: Node, key: Bytes, value: Bytes, version: int, l: Node, updated: bool)
    requires Ordered(n) && n.Inner? && Lt(key, n.key)
    requires SetOk(n.left, key, value, l, updated)
    ensures SetOk(n, key, value, n.(version := version, left := l), updated)
  {
    hide Lt;
    KeySide(n, key);
    ContentsKeys(n.right);
    UnionUpdate(Contents(n.left), Contents(n.right), key, value);
  }

  lemma SetOnTheRight(n: Node, key: Bytes, value: Bytes, version: int, r: Node, updated: bool)
    requires Ordered(n) && n.Inner? && !Lt(key, n.key)
    requires SetOk(n.right, key, value, r, updated)
    ensures SetOk(n, key, value, n.(version := version, right := r), updated)
  {
    hide Lt;
    KeySide(n, key);
    MinKeyIsKey(n.left);
    UnionUpdate(Contents(n.left), Contents(n.right), key, value);
    if Lt(key, MinKey(n.left)) { LtTransitive(key, MinKey(n.left), n.key); }
  }

  lemma SetLeaf(n: Node, key: Bytes, value: Bytes, version: int)
    requires n.Leaf?
    ensures var r := RecursiveSet(n, key, value, version);
            SetOk(n, key, value, r.node, r.updated)
  {
    LtIsStrictTotalOrder();
  }

  lemma SetThenBalance(n: Node, key: Bytes, value: Bytes, version: int, m: Node)
    requires m.Inner? && SetOk(n, key, value, m, false) && NearlyAvl(CalcHeightAndSize(m))
    ensures Rotatable(CalcHeightAndSize(m))
    ensures SetOk(n, key, value, Balance(CalcHeightAndSize(m), version).node, false)
  {
    hide Lt;
    var d := CalcHeightAndSize(m);
    BalanceRestoresAvl(d, version);
    assert Ordered(d);
    BalanceKeepsOrder(d, version);
  }

  /** Set keeps the search order and changes the contents at exactly the one key. */
  lemma {:induction false} SetContents(n: Node, key: Bytes, value: Bytes, version: int)
    requires WellFormed(n)
    ensures var r := RecursiveSet(n, key, value, version);
            Avl(r.node) && SetOk(n, key, value, r.node, r.updated)
  {
    hide Lt, SetOk, Balance;
    if n.Leaf? {
      SetLeaf(n, key, value, version);
    } else {
      var goLeft := Lt(key, n.key);
      var child := if goLeft then n.left else n.right;
      SetContents(child, key, value, version);
      var s := RecursiveSet(child, key, value, version);
      var c := Clone(n, version);
      var m := if goLeft then c.(left := s.node) else c.(right := s.node);
      if goLeft { SetOnTheLeft(n, key, value, version, s.node, s.updated); }
      else { SetOnTheRight(n, key, value, version, s.node, s.updated); }
      if !s.updated { SetThenBalance(n, key, value, version, m); }
    }
  }

  // ---------- remove ----------

  /** `node` is None when the subtree was the removed leaf; `newKey` is the new least key, if it changed. */
  datatype RemoveResult = RemoveResult(node: Option<Node>, newKey: Option<Bytes>, value: Option<Bytes>, orphans: seq<Node>)

  /** What a removal makes of height and size. */
  ghost predicate Shrunk(n: Node, r: RemoveResult)
  {
    (r.node.None? ==> n.Leaf? && r.orphans != []) &&
    (r.node.Some? ==> Avl(r.node.value) && Height(n) - 1 <= Height(r.node.value) <= Height(n) &&
                      Size(r.node.value) == if r.orphans == [] then Size(n) else Size(n) - 1)
  }

  /** The way back up after a removal on the left. */
  function RemoveUpLeft(n: Node, l: RemoveResult, version: int): (r: RemoveResult)
    requires n.Inner? && Avl(n) && Shrunk(n.left, l)
    ensures Shrunk(n, r) && r.node.Some?
  {
    AvlHeight(n.right);
    if l.orphans == [] then RemoveResult(Some(n), None, l.value, [])
    else if l.node.None? then
      RemoveResult(Some(n.right), Some(n.key), l.value, l.orphans + [n])
    else
      var c := Clone(n, version);
      var d := CalcHeightAndSize(c.(left := l.node.value));
      BalanceRestoresAvl(d, version);
      var b := Balance(d, version);
      RemoveResult(Some(b.node), l.newKey, l.value, l.orphans + [n] + b.orphans)
  }

  /** The same on the right, where the node may get a new key. */
  function RemoveUpRight(n: Node, r: RemoveResult, version: int): (res: RemoveResult)
    requires n.Inner? && Avl(n) && Shrunk(n.right, r)
    ensures Shrunk(n, res) && res.node.Some?
  {
    AvlHeight(n.left);
    if r.orphans == [] then RemoveResult(Some(n), None, r.value, [])
    else if r.node.None? then
      RemoveResult(Some(n.left), None, r.value, r.orphans + [n])
    else
      var key' := if r.newKey.Some? then r.newKey.value else n.key;
      var d := CalcHeightAndSize(Inner(key', n.height, n.size, version, n.left, r.node.value));
      BalanceRestoresAvl(d, version);
      var b := Balance(d, version);
      RemoveResult(Some(b.node), None, r.value, r.orphans + [n] + b.orphans)
  }

  function RecursiveRemove(n: Node, key: Bytes, version: int): (r: RemoveResult)
    requires Avl(n)
    ensures Shrunk(n, r) && (r.node.None? <==> n.Leaf? && n.key == key)
  {
    if n.Leaf? then
      if n.key == key then RemoveResult(None, None, Some(n.value), [n])
      else RemoveResult(Some(n), None, None, [])
    else if Lt(key, n.key) then RemoveUpLeft(n, RecursiveRemove(n.left, key, version), version)
    else RemoveUpRight(n, RecursiveRemove(n.right, key, version), version)
  }

  /** What is left of the key-value pairs when `key` goes, and the least key after it. */
  ghost predicate RemoveOk(n: Node, key: Bytes, m: Node, newKey: Option<Bytes>)
  {
    && Ordered(m)
    && Keys(m) == Keys(n) - {key}
    && Contents(m) == Contents(n) - {key}
    && newKey == (if key == MinKey(n) then Some(MinKey(m)) else None)
    && (key != MinKey(n) ==> MinKey(m) == MinKey(n))
  }

  lemma KeySide(n: Node, key: Bytes)
    requires Ordered(n) && n.Inner?
    ensures Lt(key, n.key) ==> key !in Keys(n.right) && (key in Keys(n) <==> key in Keys(n.left))
    ensures !Lt(key, n.key) ==> key !in Keys(n.left) && (key in Keys(n) <==> key in Keys(n.right))
    ensures Contents(n).Keys == Keys(n)
    ensures key in Keys(n.left) && Lt(key, n.key) ==> key in Contents(n.left) && Contents(n)[key] == Contents(n.left)[key]
    ensures key in Keys(n.right) ==> key in Contents(n.right) && Contents(n)[key] == Contents(n.right)[key]
  {
    LtIsStrictTotalOrder();
    hide Lt;
    MinKeyIsLeast(n.right);
    ContentsKeys(n.left); ContentsKeys(n.right); ContentsKeys(n);
  }

  lemma UnionMinus<K, V>(a: map<K, V>, b: map<K, V>, k: K)
    ensures k !in b ==> (a + b) - {k} == (a - {k}) + b
    ensures k !in a ==> (a + b) - {k} == a + (b - {k})
  {}

  lemma RemoveOnTheLeft(n: Node, key: Bytes, version: int, l: Node, newKey: Option<Bytes>)
    requires Ordered(n) && n.Inner? && Lt(key, n.key)
    requires RemoveOk(n.left, key, l, newKey)
    ensures RemoveOk(n, key, n.(version := version, left := l), newKey)
  {
    KeySide(n, key);
    hide Lt;
    ContentsKeys(n.right);
    UnionMinus(Contents(n.left), Contents(n.right), key);
  }

  lemma RemoveOnTheRight(n: Node, key: Bytes, version: int, r: Node, newKey: Option<Bytes>)
    requires Ordered(n) && n.Inner? && !Lt(key, n.key)
    requires RemoveOk(n.right, key, r, newKey)
    ensures RemoveOk(n, key, Inner(if newKey.Some? then newKey.value else n.key, n.height, n.size, version, n.left, r), None)
  {
    KeySide(n, key);
    KeysBelow(n, MinKey(r));
    hide Lt;
    MinKeyIsKey(n.left);
    MinKeyIsKey(r);
    ContentsKeys(n.left);
    UnionMinus(Contents(n.left), Contents(n.right), key);
  }

  /** Left keys lie below every key of the right subtree, not only below the inner key. */
  lemma KeysBelow(n: Node, key: Bytes)
    requires Ordered(n) && n.Inner?
    ensures key in Keys(n.right) ==> forall k :: k in Keys(n.left) ==> Lt(k, key)
  {
    LtIsStrictTotalOrder();
    hide Lt;
    MinKeyIsLeast(n.right);
  }

  lemma RemoveLeafOnTheLeft(n: Node)
    requires Ordered(n) && n.Inner? && n.left.Leaf?
    ensures RemoveOk(n, n.left.key, n.right, Some(n.key))
  {
    assert n.left.key in Keys(n.left);
    KeySide(n, n.left.key);
    hide Lt;
    ContentsKeys(n.right);
    UnionMinus(Contents(n.left), Contents(n.right), n.left.key);
    assert Contents(n.left) - {n.left.key} == map[];
    assert map[] + Contents(n.right) == Contents(n.right);
    assert Keys(n.right) == Keys(n) - {n.left.key};
    assert Contents(n.right) == Contents(n) - {n.left.key};
    assert MinKey(n) == n.left.key;
    assert Ordered(n.right);
  }

  lemma RemoveLeafOnTheRight(n: Node)
    requires Ordered(n) && n.Inner? && n.right.Leaf?
    ensures RemoveOk(n, n.right.key, n.left, None)
  {
    LtIrreflexive(n.key);
    KeySide(n, n.right.key);
    hide Lt;
    MinKeyIsKey(n.left);
    ContentsKeys(n.left);
    UnionMinus(Contents(n.left), Contents(n.right), n.right.key);
    assert Contents(n.right) - {n.right.key} == map[];
  }

  lemma RemoveThenBalance(n: Node, key: Bytes, newKey: Option<Bytes>, version: int, m: Node)
    requires m.Inner? && RemoveOk(n, key, m, newKey) && NearlyAvl(CalcHeightAndSize(m))
    ensures Rotatable(CalcHeightAndSize(m))
    ensures RemoveOk(n, key, Balance(CalcHeightAndSize(m), version).node, newKey)
  {
    hide Lt;
    var d := CalcHeightAndSize(m);
    BalanceRestoresAvl(d, version);
    assert Ordered(d);
    BalanceKeepsOrder(d, version);
  }

  ghost predicate Removed(n: Node, key: Bytes, r: RemoveResult)
  {
    if key !in Contents(n) then r == RemoveResult(Some(n), None, None, [])
    else r.orphans != [] && r.value == Some(Contents(n)[key]) &&
         (r.node.Some? ==> RemoveOk(n, key, r.node.value, r.newKey))
  }

  /** A child that lost at most one level leaves the node fit for balancing. */
  lemma NearlyAfterRemove(n: Node, m: Node, s: RemoveResult, onLeft: bool)
    requires n.Inner? && m.Inner? && Avl(n) && s.node.Some? && Shrunk(if onLeft then n.left else n.right, s)
    requires if onLeft then m.left == s.node.value && m.right == n.right else m.left == n.left && m.right == s.node.value
    ensures NearlyAvl(CalcHeightAndSize(m))
  {
    AvlHeight(n.left);
    AvlHeight(n.right);
  }

  lemma RemovedOnTheLeft(n: Node, key: Bytes, s: RemoveResult, version: int)
    requires WellFormed(n) && n.Inner? && Lt(key, n.key)
    requires Removed(n.left, key, s) && Shrunk(n.left, s) && (s.node.None? ==> n.left.Leaf? && n.left.key == key)
    ensures Removed(n, key, RemoveUpLeft(n, s, version))
  {
    KeySide(n, key);
    ContentsKeys(n.left);
    hide Lt, RemoveOk, Balance, Ordered, Contents, Avl, NearlyAvl, CalcHeightAndSize, Rotatable;
    if key in Keys(n) {
      if s.node.None? { RemoveLeafOnTheLeft(n); }
      else {
        var m := n.(version := version, left := s.node.value);
        RemoveOnTheLeft(n, key, version, s.node.value, s.newKey);
        NearlyAfterRemove(n, m, s, true);
        RemoveThenBalance(n, key, s.newKey, version, m);
      }
    }
  }

  lemma RemovedOnTheRight(n: Node, key: Bytes, s: RemoveResult, version: int)
    requires WellFormed(n) && n.Inner? && !Lt(key, n.key)
    requires Removed(n.right, key, s) && Shrunk(n.right, s) && (s.node.None? ==> n.right.Leaf? && n.right.key == key)
    ensures Removed(n, key, RemoveUpRight(n, s, version))
  {
    KeySide(n, key);
    ContentsKeys(n.right);
    hide Lt, RemoveOk, Balance, Ordered, Contents, Avl, NearlyAvl, CalcHeightAndSize, Rotatable;
    if key in Keys(n) {
      if s.node.None? { RemoveLeafOnTheRight(n); }
      else {
        var m := Inner(if s.newKey.Some? then s.newKey.value else n.key, n.height, n.size, version, n.left, s.node.value);
        RemoveOnTheRight(n, key, version, s.node.value, s.newKey);
        NearlyAfterRemove(n, m, s, false);
        RemoveThenBalance(n, key, None, version, m);
      }
    }
  }

  /** An absent key changes nothing; a present one leaves exactly the other pairs, in order. */
  lemma {:induction false} RemoveContents(n: Node, key: Bytes, version: int)
    requires WellFormed(n)
    ensures Removed(n, key, RecursiveRemove(n, key, version))
  {
    if n.Inner? {
      hide Lt, Removed, RemoveUpLeft, RemoveUpRight;
      if Lt(key, n.key) {
        RemoveContents(n.left, key, version);
        RemovedOnTheLeft(n, key, RecursiveRemove(n.left, key, version), version);
      } else {
        RemoveContents(n.right, key, version);
        RemovedOnTheRight(n, key, RecursiveRemove(n.right, key, version), version);
      }
    }
  }
}
