/**
  The orphan list of one update is exact: of the nodes already persisted, it
  names once each those that the old root reaches and the new root does not.
  In the synchronous mode a node is persisted when its version is at most the
  last saved one.
 */
module Orphans {
  import opened Options
  import opened ByteStrings
  import opened AvlTree
  import opened TreeUpdate
  import opened Filters

  /** All nodes under (and including) n. */
  function Subnodes(n: Node): set<Node>
  {
    if n.Leaf? then {n} else {n} + Subnodes(n.left) + Subnodes(n.right)
  }

  lemma {:induction false} SubtreeIn(n: Node, m: Node, k: Node)
    requires m in Subnodes(n) && k in Subnodes(m)
    ensures k in Subnodes(n)
  {
    if m != n {
      if m in Subnodes(n.left) { SubtreeIn(n.left, m, k); } else { SubtreeIn(n.right, m, k); }
    }
  }

  /** How often m occurs under (and including) n. */
  function Occurs(n: Node, m: Node): nat
  {
    (if n == m then 1 else 0) + (if n.Leaf? then 0 else Occurs(n.left, m) + Occurs(n.right, m))
  }

  function OccursIn(s: seq<Node>, m: Node): nat
  {
    if s == [] then 0 else (if s[0] == m then 1 else 0) + OccursIn(s[1..], m)
  }

  lemma {:induction false} OccursInConcat(a: seq<Node>, b: seq<Node>, m: Node)
    ensures OccursIn(a + b, m) == OccursIn(a, m) + OccursIn(b, m)
  {
    if a == [] { assert a + b == b; }
    else {
      OccursInConcat(a[1..], b, m);
      assert (a + b)[1..] == a[1..] + b;
    }
  }

  lemma {:induction false} OccursIffSubnode(n: Node, m: Node)
    ensures m in Subnodes(n) <==> Occurs(n, m) > 0
  {
    if n.Inner? { OccursIffSubnode(n.left, m); OccursIffSubnode(n.right, m); }
  }

  function PersistedBy(saved: int): Node -> bool { (n: Node) => n.version <= saved }

  /** addOrphans keeps only the persisted nodes of an orphan slice. */
  function PersistedOf(s: seq<Node>, saved: int): seq<Node> { Filter(PersistedBy(saved), s) }

  ghost predicate NoDuplicates(s: seq<Node>)
  {
    forall i, j :: 0 <= i < j < |s| ==> s[i] != s[j]
  }

  // ---------- conservation: an old node is kept in the tree or listed as an orphan ----------

  lemma RotationConserves(n: Node, version: int, m: Node)
    requires n.Inner? && m.version < version
    ensures n.left.Inner? ==> var r := RotateRight(n, version);
              r.orphaned == n.left && r.node.Inner? && r.node.version == version &&
              Occurs(r.node, m) + (if r.orphaned == m then 1 else 0) + (if n == m then 1 else 0) == Occurs(n, m)
    ensures n.right.Inner? ==> var r := RotateLeft(n, version);
              r.orphaned == n.right && r.node.Inner? && r.node.version == version &&
              Occurs(r.node, m) + (if r.orphaned == m then 1 else 0) + (if n == m then 1 else 0) == Occurs(n, m)
  {
    if n.left.Inner? {
      var r := RotateRight(n, version).node;
      assert Occurs(r.right, m) == Occurs(n.left.right, m) + Occurs(n.right, m);
    }
    if n.right.Inner? {
      var r := RotateLeft(n, version).node;
      assert Occurs(r.left, m) == Occurs(n.left, m) + Occurs(n.right.left, m);
    }
  }

  lemma OccursInner(n: Node, m: Node)
    requires n.Inner?
    ensures Occurs(n, m) == (if n == m then 1 else 0) + Occurs(n.left, m) + Occurs(n.right, m)
  {}

  lemma LeftRightConserves(n: Node, version: int, m: Node)
    requires n.Inner? && n.left.Inner? && n.left.right.Inner? && n.version == version > m.version
    ensures var l := RotateLeft(n.left, version);
            var r := RotateRight(n.(left := l.node), version);
            Occurs(r.node, m) + OccursIn([n.left, l.orphaned, r.orphaned], m) == Occurs(n, m)
  {
    hide Occurs, RotateLeft, RotateRight, OccursIn;
    RotationConserves(n.left, version, m);
    var l := RotateLeft(n.left, version);
    var n' := n.(left := l.node);
    var r := RotateRight(n', version);
    RotationConserves(n', version, m);
    OccursInThree(n.left, l.orphaned, r.orphaned, m);
    OccursInner(n, m); OccursInner(n', m);
  }

  lemma RightLeftConserves(n: Node, version: int, m: Node)
    requires n.Inner? && n.right.Inner? && n.right.left.Inner? && n.version == version > m.version
    ensures var r := RotateRight(n.right, version);
            var l := RotateLeft(n.(right := r.node), version);
            Occurs(l.node, m) + OccursIn([n.right, l.orphaned, r.orphaned], m) == Occurs(n, m)
  {
    hide Occurs, RotateLeft, RotateRight, OccursIn;
    RotationConserves(n.right, version, m);
    var r := RotateRight(n.right, version);
    var n' := n.(right := r.node);
    var l := RotateLeft(n', version);
    RotationConserves(n', version, m);
    OccursInThree(n.right, l.orphaned, r.orphaned, m);
    OccursInner(n, m); OccursInner(n', m);
  }

  lemma OccursInThree(a: Node, b: Node, c: Node, m: Node)
    ensures OccursIn([a, b, c], m) == (if a == m then 1 else 0) + (if b == m then 1 else 0) + (if c == m then 1 else 0)
  {
    assert [a, b, c][1..] == [b, c] && [b, c][1..] == [c];
    assert OccursIn([b, c], m) == (if b == m then 1 else 0) + OccursIn([c], m);
  }

  lemma BalanceConserves(n: Node, version: int, m: Node)
    requires Rotatable(n) && n.version == version > m.version
    ensures var b := Balance(n, version);
            Occurs(b.node, m) + OccursIn(b.orphans, m) == Occurs(n, m)
  {
    hide RotateLeft, RotateRight, Occurs;
    RotationConserves(n, version, m);
    if CalcBalance(n) > 1 && CalcBalance(n.left) < 0 { LeftRightConserves(n, version, m); }
    if CalcBalance(n) < -1 && CalcBalance(n.right) > 0 { RightLeftConserves(n, version, m); }
  }

  /** The copy c of n with one child replaced, n itself listed as an orphan. */
  lemma CopyConserves(n: Node, c: Node, orphans: seq<Node>, m: Node)
    requires n.Inner? && c.Inner? && c.version > m.version
    requires Occurs(c.left, m) + Occurs(c.right, m) + OccursIn(orphans, m) == Occurs(n.left, m) + Occurs(n.right, m)
    ensures Occurs(c, m) + OccursIn([n] + orphans, m) == Occurs(n, m)
    ensures Occurs(c, m) + OccursIn(orphans + [n], m) == Occurs(n, m)
  {
    OccursInner(n, m); OccursInner(c, m);
    OccursInConcat([n], orphans, m);
    OccursInConcat(orphans, [n], m);
    hide Occurs;
  }

  lemma RebalanceConserves(c: Node, orphans: seq<Node>, version: int, m: Node)
    requires c.Inner? && c.version == version > m.version && NearlyAvl(CalcHeightAndSize(c))
    ensures Rotatable(CalcHeightAndSize(c))
    ensures var b := Balance(CalcHeightAndSize(c), version);
            Occurs(b.node, m) + OccursIn(orphans + b.orphans, m) == Occurs(c, m) + OccursIn(orphans, m)
  {
    var d := CalcHeightAndSize(c);
    NearlyAvlIsRotatable(d);
    OccursInner(c, m); OccursInner(d, m);
    BalanceConserves(d, version, m);
    OccursInConcat(orphans, Balance(d, version).orphans, m);
    hide Occurs, OccursIn, Balance;
  }

  lemma SetLeafConserves(n: Node, key: Bytes, value: Bytes, version: int, m: Node)
    requires n.Leaf? && m.version < version
    ensures var r := RecursiveSet(n, key, value, version);
            Occurs(r.node, m) + OccursIn(r.orphans, m) == Occurs(n, m)
  {}

  lemma {:induction false} SetConserves(n: Node, key: Bytes, value: Bytes, version: int, m: Node)
    requires Avl(n) && m.version < version
    ensures var r := RecursiveSet(n, key, value, version);
            Occurs(r.node, m) + OccursIn(r.orphans, m) == Occurs(n, m)
  {
    if n.Leaf? { SetLeafConserves(n, key, value, version, m); return; }
    hide Lt, Occurs, OccursIn, RecursiveSet;
    SetConserves(if Lt(key, n.key) then n.left else n.right, key, value, version, m);
    SetInnerConserves(n, key, value, version, m);
  }

  lemma SetInnerConserves(n: Node, key: Bytes, value: Bytes, version: int, m: Node)
    requires Avl(n) && n.Inner? && m.version < version
    requires var child := if Lt(key, n.key) then n.left else n.right;
             var s := RecursiveSet(child, key, value, version);
             Occurs(s.node, m) + OccursIn(s.orphans, m) == Occurs(child, m)
    ensures var r := RecursiveSet(n, key, value, version);
            Occurs(r.node, m) + OccursIn(r.orphans, m) == Occurs(n, m)
  {
    hide Lt, Balance, Occurs, OccursIn, Rotatable;
    var goLeft := Lt(key, n.key);
    var child := if goLeft then n.left else n.right;
    var s := RecursiveSet(child, key, value, version);
    var c := if goLeft then n.(version := version, left := s.node) else n.(version := version, right := s.node);
    CopyConserves(n, c, s.orphans, m);
    if !s.updated { RebalanceConserves(c, [n] + s.orphans, version, m); }
  }

  lemma RemoveLeafConserves(n: Node, key: Bytes, version: int, m: Node)
    requires Avl(n) && n.Inner?
    requires var s := RecursiveRemove(if Lt(key, n.key) then n.left else n.right, key, version);
             (s.orphans == [] || s.node.None?) &&
             (if s.node.Some? then Occurs(s.node.value, m) else 0) + OccursIn(s.orphans, m)
               == Occurs(if Lt(key, n.key) then n.left else n.right, m)
    ensures var r := RecursiveRemove(n, key, version);
            (if r.node.Some? then Occurs(r.node.value, m) else 0) + OccursIn(r.orphans, m) == Occurs(n, m)
  {
    hide Lt, Occurs;
    OccursInner(n, m);
    var s := RecursiveRemove(if Lt(key, n.key) then n.left else n.right, key, version);
    OccursInConcat(s.orphans, [n], m);
  }

  lemma RemoveInnerConserves(n: Node, key: Bytes, version: int, m: Node)
    requires Avl(n) && n.Inner? && m.version < version
    requires var child := if Lt(key, n.key) then n.left else n.right;
             var s := RecursiveRemove(child, key, version);
             s.orphans != [] && s.node.Some? &&
             Occurs(s.node.value, m) + OccursIn(s.orphans, m) == Occurs(child, m)
    ensures var r := RecursiveRemove(n, key, version);
            r.node.Some? && Occurs(r.node.value, m) + OccursIn(r.orphans, m) == Occurs(n, m)
  {
    hide Lt, Balance, Occurs, OccursIn, Rotatable;
    var goLeft := Lt(key, n.key);
    var s := RecursiveRemove(if goLeft then n.left else n.right, key, version);
    var c := if goLeft then Inner(n.key, n.height, n.size, version, s.node.value, n.right)
             else Inner(if s.newKey.Some? then s.newKey.value else n.key, n.height, n.size, version, n.left, s.node.value);
    CopyConserves(n, c, s.orphans, m);
    RebalanceConserves(c, s.orphans + [n], version, m);
  }

  lemma {:induction false} RemoveConserves(n: Node, key: Bytes, version: int, m: Node)
    requires Avl(n) && m.version < version
    ensures var r := RecursiveRemove(n, key, version);
            (if r.node.Some? then Occurs(r.node.value, m) else 0) + OccursIn(r.orphans, m) == Occurs(n, m)
  {
    if n.Inner? {
      var child := if Lt(key, n.key) then n.left else n.right;
      RemoveConserves(child, key, version, m);
      var s := RecursiveRemove(child, key, version);
      if s.orphans == [] || s.node.None? { RemoveLeafConserves(n, key, version, m); }
      else { RemoveInnerConserves(n, key, version, m); }
    }
  }

  // ---------- no node occurs twice in an ordered tree ----------

  lemma {:induction false} SubnodeKeys(n: Node, m: Node)
    requires m in Subnodes(n)
    ensures Keys(m) <= Keys(n)
  {
    if n.Inner? && m != n {
      if m in Subnodes(n.left) { SubnodeKeys(n.left, m); } else { SubnodeKeys(n.right, m); }
    }
  }

  lemma {:induction false} OccursAtMostOnce(n: Node, m: Node)
    requires Ordered(n)
    ensures Occurs(n, m) <= 1
  {
    if n.Inner? {
      OccursAtMostOnce(n.left, m); OccursAtMostOnce(n.right, m);
      OccursIffSubnode(n.left, m); OccursIffSubnode(n.right, m);
      MinKeyIsKey(m); MinKeyIsKey(n.left); MinKeyIsKey(n.right);
      KeySide(n, MinKey(m)); KeySide(n, MinKey(n.left)); KeySide(n, MinKey(n.right));
      if m in Subnodes(n.left) { SubnodeKeys(n.left, m); }
      if m in Subnodes(n.right) { SubnodeKeys(n.right, m); }
    }
  }

  // ---------- exactness ----------

  function SubnodesOf(n: Option<Node>): set<Node> { if n.None? then {} else Subnodes(n.value) }

  /**
    `o` lists, once each, exactly the persisted nodes of the old tree that the
    new tree no longer reaches; and the new tree brings in no other persisted node.
   */
  ghost predicate ExactOrphans(old_: Node, new_: Option<Node>, o: seq<Node>, saved: int)
  {
    && NoDuplicates(o)
    && (forall m :: m in o <==> m.version <= saved && m in Subnodes(old_) && m !in SubnodesOf(new_))
    && (forall m :: m in SubnodesOf(new_) && m.version <= saved ==> m in Subnodes(old_))
  }

  lemma {:induction false} PersistedOfCounts(s: seq<Node>, saved: int, m: Node)
    ensures OccursIn(PersistedOf(s, saved), m) == if m.version <= saved then OccursIn(s, m) else 0
  {
    if s != [] {
      PersistedOfCounts(s[1..], saved, m);
      OccursInConcat(if s[0].version <= saved then [s[0]] else [], PersistedOf(s[1..], saved), m);
    }
  }

  lemma {:induction false} MemberIffOccurs(s: seq<Node>, m: Node)
    ensures m in s <==> OccursIn(s, m) > 0
  {
    if s != [] { MemberIffOccurs(s[1..], m); }
  }

  lemma OnceEach(s: seq<Node>)
    requires forall m :: OccursIn(s, m) <= 1
    ensures NoDuplicates(s)
  {
    forall i, j | 0 <= i < j < |s| ensures s[i] != s[j] {
      assert s == s[..j] + s[j..];
      OccursInConcat(s[..j], s[j..], s[i]);
      MemberIffOccurs(s[..j], s[..j][i]);
      MemberIffOccurs(s[j..], s[j..][0]);
    }
  }

  lemma ConservationIsExact(old_: Node, new_: Option<Node>, orphans: seq<Node>, saved: int)
    requires Ordered(old_)
    requires forall m: Node {:trigger Occurs(old_, m)} :: m.version <= saved ==>
               (if new_.Some? then Occurs(new_.value, m) else 0) + OccursIn(orphans, m) == Occurs(old_, m)
    ensures ExactOrphans(old_, new_, PersistedOf(orphans, saved), saved)
  {
    var o := PersistedOf(orphans, saved);
    forall m ensures OccursIn(o, m) <= 1
             ensures m in o <==> m.version <= saved && m in Subnodes(old_) && m !in SubnodesOf(new_)
             ensures m in SubnodesOf(new_) && m.version <= saved ==> m in Subnodes(old_)
    {
      PersistedOfCounts(orphans, saved, m);
      MemberIffOccurs(o, m);
      OccursAtMostOnce(old_, m);
      OccursIffSubnode(old_, m);
      if new_.Some? { OccursIffSubnode(new_.value, m); }
    }
    OnceEach(o);
  }

  /** Through every rotation, the persisted orphans of a set are exact. */
  lemma SetOrphansExact(n: Node, key: Bytes, value: Bytes, saved: int)
    requires WellFormed(n)
    ensures var r := RecursiveSet(n, key, value, saved + 1);
            ExactOrphans(n, Some(r.node), PersistedOf(r.orphans, saved), saved)
  {
    var r := RecursiveSet(n, key, value, saved + 1);
    forall m: Node | m.version <= saved ensures Occurs(r.node, m) + OccursIn(r.orphans, m) == Occurs(n, m) {
      SetConserves(n, key, value, saved + 1, m);
    }
    ConservationIsExact(n, Some(r.node), r.orphans, saved);
  }

  /** Through every rotation, the persisted orphans of a remove are exact. */
  lemma RemoveOrphansExact(n: Node, key: Bytes, saved: int)
    requires WellFormed(n)
    ensures var r := RecursiveRemove(n, key, saved + 1);
            ExactOrphans(n, r.node, PersistedOf(r.orphans, saved), saved)
  {
    var r := RecursiveRemove(n, key, saved + 1);
    forall m: Node | m.version <= saved
      ensures (if r.node.Some? then Occurs(r.node.value, m) else 0) + OccursIn(r.orphans, m) == Occurs(n, m) {
      RemoveConserves(n, key, saved + 1, m);
    }
    ConservationIsExact(n, r.node, r.orphans, saved);
  }
}
