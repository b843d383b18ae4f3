/**
  Which nodes a traversal shows, and in which order, stated on the subtrees and the bounds.
 */
module WalkOrder {
  import opened Options
  import opened ByteStrings
  import opened AvlTree
  import opened Traversals
  import opened RangeAnswer
  import O = Orphans

  // ---------- which nodes are shown ----------

  /** The bounds cut off the side of the inner node a on which m lies. */
  ghost predicate CutsOff(d: Domain, a: Node, m: Node)
    requires a.Inner?
  {
    || (d.start.Some? && Le(a.key, d.start.value) && m in O.Subnodes(a.left))
    || (d.end.Some? && (if d.inclusive then Lt(d.end.value, a.key) else Le(d.end.value, a.key)) && m in O.Subnodes(a.right))
  }

  ghost predicate Reached(d: Domain, n: Node, m: Node)
  {
    m in O.Subnodes(n) && forall a :: a in O.Subnodes(n) && a.Inner? ==> !CutsOff(d, a, m)
  }

  predicate InRange(d: Domain, key: Bytes)
  {
    && (d.start.Some? ==> Le(d.start.value, key))
    && (d.end.Some? ==> if d.inclusive then Le(key, d.end.value) else Lt(key, d.end.value))
  }

  lemma {:induction false} BelowIsSmaller(n: Node, m: Node)
    requires m in O.Subnodes(n)
    ensures m == n || Weight(m) < Weight(n)
  {
    if m != n {
      if m in O.Subnodes(n.left) { BelowIsSmaller(n.left, m); } else { BelowIsSmaller(n.right, m); }
    }
  }

  /** Nothing is below itself. */
  lemma NotBelowSelf(n: Node, a: Node)
    requires a in O.Subnodes(n) && a.Inner?
    ensures n !in O.Subnodes(a.left) && n !in O.Subnodes(a.right)
  {
    hide O.Subnodes;
    BelowIsSmaller(n, a);
    if n in O.Subnodes(a.left) { BelowIsSmaller(a.left, n); }
    if n in O.Subnodes(a.right) { BelowIsSmaller(a.right, n); }
  }

  /** The two sides of an ordered tree share no node. */
  lemma SidesShareNothing(n: Node, m: Node)
    requires Ordered(n) && n.Inner? && m in O.Subnodes(n.left)
    ensures m !in O.Subnodes(n.right)
  {
    O.OccursAtMostOnce(n, m);
    O.OccursIffSubnode(n.left, m);
    O.OccursIffSubnode(n.right, m);
    O.OccursInner(n, m);
  }

  lemma {:induction false} WalkStaysInside(d: Domain, n: Node)
    ensures forall m :: m in Walk(d, n) ==> m in O.Subnodes(n)
  {
    hide AfterStart, BeforeEnd, StartOrAfter;
    if n.Inner? {
      WalkStaysInside(d, n.left);
      WalkStaysInside(d, n.right);
    }
  }

  lemma WalkMembers(d: Domain, n: Node, m: Node)
    ensures m in Walk(d, n) <==>
            (m == n && Shown(d, n)) || (n.Inner? && ((AfterStart(d, n) && m in Walk(d, n.left)) || (BeforeEnd(d, n) && m in Walk(d, n.right))))
  {
    hide AfterStart, BeforeEnd, Shown;
  }

  lemma Sides(d: Domain, n: Node)
    ensures AfterStart(d, n) <==> !(d.start.Some? && Le(n.key, d.start.value))
    ensures BeforeEnd(d, n) <==> !(d.end.Some? && if d.inclusive then Lt(d.end.value, n.key) else Le(d.end.value, n.key))
    ensures Shown(d, n) <==> n.Inner? || InRange(d, n.key)
  {
    hide Lt;
    if d.start.Some? { LtTotal(d.start.value, n.key); }
    if d.end.Some? { LtTotal(d.end.value, n.key); }
  }

  lemma ReachedSelf(d: Domain, n: Node)
    ensures Reached(d, n, n)
  {
    hide O.Subnodes, Lt;
    assert n in O.Subnodes(n) by { O.OccursIffSubnode(n, n); }
    forall a | a in O.Subnodes(n) && a.Inner? ensures !CutsOff(d, a, n) { NotBelowSelf(n, a); }
  }

  lemma ReachedLeft(d: Domain, n: Node, m: Node)
    requires Ordered(n) && n.Inner? && m in O.Subnodes(n.left)
    ensures Reached(d, n, m) <==> Reached(d, n.left, m) && AfterStart(d, n)
  {
    hide Lt, AfterStart, BeforeEnd;
    Sides(d, n);
    SidesShareNothing(n, m);
    forall a | a in O.Subnodes(n.right) && a.Inner? ensures !CutsOff(d, a, m) {
      if m in O.Subnodes(a.left) { O.SubtreeIn(n.right, a, a.left); O.SubtreeIn(n.right, a.left, m); }
      if m in O.Subnodes(a.right) { O.SubtreeIn(n.right, a, a.right); O.SubtreeIn(n.right, a.right, m); }
    }
  }

  lemma ReachedRight(d: Domain, n: Node, m: Node)
    requires Ordered(n) && n.Inner? && m in O.Subnodes(n.right)
    ensures Reached(d, n, m) <==> Reached(d, n.right, m) && BeforeEnd(d, n)
  {
    hide Lt, AfterStart, BeforeEnd;
    Sides(d, n);
    if m in O.Subnodes(n.left) { SidesShareNothing(n, m); }
    forall a | a in O.Subnodes(n.left) && a.Inner? ensures !CutsOff(d, a, m) {
      if m in O.Subnodes(a.left) { O.SubtreeIn(n.left, a, a.left); O.SubtreeIn(n.left, a.left, m); }
      if m in O.Subnodes(a.right) { O.SubtreeIn(n.left, a, a.right); O.SubtreeIn(n.left, a.right, m); }
    }
  }

  /** A node is shown exactly if the bounds cut off no side it lies on and, for a leaf, its key is in the range. */
  lemma {:induction false} ShownIff(d: Domain, n: Node, m: Node)
    requires Ordered(n)
    ensures m in Walk(d, n) <==> Reached(d, n, m) && (m.Leaf? ==> InRange(d, m.key))
  {
    hide Reached, Walk, Shown, AfterStart, BeforeEnd, InRange, Ordered;
    WalkMembers(d, n, m);
    WalkStaysInside(d, n);
    if m == n {
      ReachedSelf(d, n);
      Sides(d, n);
      if n.Inner? { NotInWalk(d, n); }
    } else if n.Inner? {
      OrderedSides(n);
      WalkStaysInside(d, n.left);
      WalkStaysInside(d, n.right);
      if m in O.Subnodes(n.left) {
        ShownIff(d, n.left, m);
        ReachedLeft(d, n, m);
        SidesShareNothing(n, m);
      } else if m in O.Subnodes(n.right) {
        ShownIff(d, n.right, m);
        ReachedRight(d, n, m);
      } else {
        Unreached(d, n, m);
      }
    } else {
      Unreached(d, n, m);
    }
  }

  lemma OrderedSides(n: Node)
    requires Ordered(n) && n.Inner?
    ensures Ordered(n.left) && Ordered(n.right)
  {
  }

  lemma Unreached(d: Domain, n: Node, m: Node)
    requires m !in O.Subnodes(n)
    ensures !Reached(d, n, m)
  {
  }

  lemma NotInWalk(d: Domain, n: Node)
    requires n.Inner?
    ensures n !in Walk(d, n.left) && n !in Walk(d, n.right)
  {
    assert n in O.Subnodes(n);
    NotBelowSelf(n, n);
    WalkStaysInside(d, n.left);
    WalkStaysInside(d, n.right);
  }

  // ---------- in which order ----------

  ghost predicate Under(x: Node, y: Node) { x in O.Subnodes(y) && x != y }

  ghost predicate Across(a: Node, x: Node, y: Node)
    requires a.Inner?
  {
    x in O.Subnodes(a.left) && y in O.Subnodes(a.right)
  }

  /** x may come before y: what is below a node comes after it in preorder and before it in postorder, and left and right follow the direction. */
  ghost predicate MayPrecede(d: Domain, n: Node, x: Node, y: Node)
  {
    && x != y
    && (Under(x, y) ==> d.post)
    && (Under(y, x) ==> !d.post)
    && (forall a :: a in O.Subnodes(n) && a.Inner? && Across(a, x, y) ==> d.ascending)
    && (forall a :: a in O.Subnodes(n) && a.Inner? && Across(a, y, x) ==> !d.ascending)
  }

  ghost predicate InOrder(d: Domain, n: Node, s: seq<Node>) { forall i, j :: 0 <= i < j < |s| ==> MayPrecede(d, n, s[i], s[j]) }

  lemma InOrderConcat(d: Domain, n: Node, s: seq<Node>, t: seq<Node>)
    requires InOrder(d, n, s) && InOrder(d, n, t) && forall x, y :: x in s && y in t ==> MayPrecede(d, n, x, y)
    ensures InOrder(d, n, s + t)
  {
    hide MayPrecede;
    var u := s + t;
    forall i, j | 0 <= i < j < |u| ensures MayPrecede(d, n, u[i], u[j]) {
      if j < |s| { assert u[i] == s[i] && u[j] == s[j]; }
      else if i >= |s| { assert u[i] == t[i - |s|] && u[j] == t[j - |s|]; }
      else { assert u[i] == s[i] && u[j] == t[j - |s|]; }
    }
  }

  /** Whatever lies below an inner node of one side lies on that side. */
  lemma StaysOnSide(side: Node, a: Node, m: Node)
    requires a in O.Subnodes(side) && a.Inner? && (m in O.Subnodes(a.left) || m in O.Subnodes(a.right))
    ensures m in O.Subnodes(side)
  {
    assert m in O.Subnodes(a);
    O.SubtreeIn(side, a, m);
  }

  /** On one side the order is that of the side. */
  lemma LeftAlone(d: Domain, n: Node, x: Node, y: Node)
    requires Ordered(n) && n.Inner? && x in O.Subnodes(n.left) && y in O.Subnodes(n.left)
    ensures MayPrecede(d, n, x, y) <==> MayPrecede(d, n.left, x, y)
  {
    hide Ordered;
    SidesShareNothing(n, x);
    SidesShareNothing(n, y);
    forall a | a in O.Subnodes(n) && a.Inner? && a !in O.Subnodes(n.left) ensures !Across(a, x, y) && !Across(a, y, x) {
      if a != n && (Across(a, x, y) || Across(a, y, x)) { StaysOnSide(n.right, a, x); }
    }
    assert forall a :: a in O.Subnodes(n.left) ==> a in O.Subnodes(n);
  }

  lemma RightAlone(d: Domain, n: Node, x: Node, y: Node)
    requires Ordered(n) && n.Inner? && x in O.Subnodes(n.right) && y in O.Subnodes(n.right)
    ensures MayPrecede(d, n, x, y) <==> MayPrecede(d, n.right, x, y)
  {
    hide Ordered;
    assert x !in O.Subnodes(n.left) by { if x in O.Subnodes(n.left) { SidesShareNothing(n, x); } }
    assert y !in O.Subnodes(n.left) by { if y in O.Subnodes(n.left) { SidesShareNothing(n, y); } }
    forall a | a in O.Subnodes(n) && a.Inner? && a !in O.Subnodes(n.right) ensures !Across(a, x, y) && !Across(a, y, x) {
      if a != n && (Across(a, x, y) || Across(a, y, x)) { StaysOnSide(n.left, a, x); }
    }
    assert forall a :: a in O.Subnodes(n.right) ==> a in O.Subnodes(n);
  }

  /** Of two nodes on different sides the left one comes first exactly if the direction is ascending. */
  lemma AcrossSides(d: Domain, n: Node, x: Node, y: Node)
    requires Ordered(n) && n.Inner? && x in O.Subnodes(n.left) && y in O.Subnodes(n.right)
    ensures (MayPrecede(d, n, x, y) <==> d.ascending) && (MayPrecede(d, n, y, x) <==> !d.ascending)
  {
    hide Ordered;
    SidesShareNothing(n, x);
    assert y !in O.Subnodes(n.left) by { if y in O.Subnodes(n.left) { SidesShareNothing(n, y); } }
    assert !Under(x, y) by { if Under(x, y) { O.SubtreeIn(n.right, y, x); } }
    assert !Under(y, x) by { if Under(y, x) { O.SubtreeIn(n.left, x, y); } }
    assert n in O.Subnodes(n) && Across(n, x, y);
    forall a | a in O.Subnodes(n) && a.Inner? && a != n ensures !Across(a, x, y) && !Across(a, y, x) {
      if Across(a, x, y) || Across(a, y, x) {
        if a in O.Subnodes(n.left) { StaysOnSide(n.left, a, y); } else { StaysOnSide(n.right, a, x); }
      }
    }
    assert !Across(n, y, x);
  }

  /** The root comes first in preorder and last in postorder. */
  lemma RootAndBelow(d: Domain, n: Node, y: Node)
    requires y in O.Subnodes(n) && y != n
    ensures (MayPrecede(d, n, n, y) <==> !d.post) && (MayPrecede(d, n, y, n) <==> d.post)
  {
    BelowIsSmaller(n, y);
    assert !Under(n, y) by { if Under(n, y) { BelowIsSmaller(y, n); } }
    forall a | a in O.Subnodes(n) && a.Inner? ensures !Across(a, n, y) && !Across(a, y, n) { NotBelowSelf(n, a); }
  }

  lemma InOrderLeft(d: Domain, n: Node, s: seq<Node>)
    requires Ordered(n) && n.Inner? && InOrder(d, n.left, s) && forall m :: m in s ==> m in O.Subnodes(n.left)
    ensures InOrder(d, n, s)
  {
    hide Ordered, MayPrecede, O.Subnodes;
    forall i, j | 0 <= i < j < |s| ensures MayPrecede(d, n, s[i], s[j]) { LeftAlone(d, n, s[i], s[j]); }
  }

  lemma InOrderRight(d: Domain, n: Node, s: seq<Node>)
    requires Ordered(n) && n.Inner? && InOrder(d, n.right, s) && forall m :: m in s ==> m in O.Subnodes(n.right)
    ensures InOrder(d, n, s)
  {
    hide Ordered, MayPrecede, O.Subnodes;
    forall i, j | 0 <= i < j < |s| ensures MayPrecede(d, n, s[i], s[j]) { RightAlone(d, n, s[i], s[j]); }
  }

  lemma BothSidesInOrder(d: Domain, n: Node, l: seq<Node>, r: seq<Node>)
    requires Ordered(n) && n.Inner? && InOrder(d, n.left, l) && InOrder(d, n.right, r)
    requires (forall m :: m in l ==> m in O.Subnodes(n.left)) && (forall m :: m in r ==> m in O.Subnodes(n.right))
    ensures InOrder(d, n, if d.ascending then l + r else r + l)
  {
    hide Ordered, InOrder, MayPrecede, O.Subnodes;
    InOrderLeft(d, n, l);
    InOrderRight(d, n, r);
    forall x, y | x in l && y in r ensures (MayPrecede(d, n, x, y) <==> d.ascending) && (MayPrecede(d, n, y, x) <==> !d.ascending) {
      AcrossSides(d, n, x, y);
    }
    if d.ascending { InOrderConcat(d, n, l, r); } else { InOrderConcat(d, n, r, l); }
  }

  lemma WithRoot(d: Domain, n: Node, below: seq<Node>)
    requires InOrder(d, n, below) && forall m :: m in below ==> m in O.Subnodes(n) && m != n
    ensures InOrder(d, n, if d.post then below + [n] else [n] + below)
  {
    hide InOrder, MayPrecede, O.Subnodes;
    AloneInOrder(d, n);
    forall y | y in below ensures (MayPrecede(d, n, n, y) <==> !d.post) && (MayPrecede(d, n, y, n) <==> d.post) { RootAndBelow(d, n, y); }
    if d.post { InOrderConcat(d, n, below, [n]); } else { InOrderConcat(d, n, [n], below); }
  }

  lemma AloneInOrder(d: Domain, n: Node)
    ensures InOrder(d, n, [n]) && InOrder(d, n, [])
  {
  }

  /** The nodes are shown in order, none of them twice. */
  lemma {:induction false} WalkInOrder(d: Domain, n: Node)
    requires Ordered(n)
    ensures InOrder(d, n, Walk(d, n))
  {
    hide InOrder, AfterStart, BeforeEnd, StartOrAfter, Ordered, O.Subnodes;
    AloneInOrder(d, n);
    if n.Inner? {
      OrderedSides(n);
      AloneInOrder(d, n.left);
      AloneInOrder(d, n.right);
      WalkInOrder(d, n.left);
      WalkInOrder(d, n.right);
      WalkStaysInside(d, n.left);
      WalkStaysInside(d, n.right);
      NotInWalk(d, n);
      var l, r := if AfterStart(d, n) then Walk(d, n.left) else [], if BeforeEnd(d, n) then Walk(d, n.right) else [];
      BothSidesInOrder(d, n, l, r);
      var below := if d.ascending then l + r else r + l;
      forall m | m in below ensures m in O.Subnodes(n) && m != n { SideIsBelow(n, m); }
      WithRoot(d, n, below);
    } else {
      LeafAlone(d, n);
    }
  }

  lemma LeafAlone(d: Domain, n: Node)
    requires n.Leaf?
    ensures Walk(d, n) == [n] || Walk(d, n) == []
  {
  }

  lemma SideIsBelow(n: Node, m: Node)
    requires n.Inner? && (m in O.Subnodes(n.left) || m in O.Subnodes(n.right))
    ensures m in O.Subnodes(n)
  {
  }

  /** Of two nodes of a tree exactly one may come first, so there is one order. */
  lemma {:induction false} OneOrder(d: Domain, n: Node, x: Node, y: Node)
    requires Ordered(n) && x in O.Subnodes(n) && y in O.Subnodes(n) && x != y
    ensures MayPrecede(d, n, x, y) <==> !MayPrecede(d, n, y, x)
  {
    hide MayPrecede, Ordered;
    if x == n { RootAndBelow(d, n, y); }
    else if y == n { RootAndBelow(d, n, x); }
    else {
      OrderedSides(n);
      if x in O.Subnodes(n.left) {
        if y in O.Subnodes(n.left) {
          OneOrder(d, n.left, x, y);
          LeftAlone(d, n, x, y);
          LeftAlone(d, n, y, x);
        } else {
          AcrossSides(d, n, x, y);
        }
      } else if y in O.Subnodes(n.left) {
        AcrossSides(d, n, y, x);
      } else {
        OneOrder(d, n.right, x, y);
        RightAlone(d, n, x, y);
        RightAlone(d, n, y, x);
      }
    }
  }

  // ---------- the whole tree ----------

  predicate Unbounded(d: Domain) { d.start.None? && d.end.None? }

  /** Without bounds every node is shown as often as it occurs in the tree. */
  lemma {:induction false} EveryNodeIsShown(d: Domain, n: Node, m: Node)
    requires Unbounded(d)
    ensures O.OccursIn(Walk(d, n), m) == O.Occurs(n, m)
  {
    OccursAlone(n, m);
    hide O.OccursIn;
    if n.Inner? {
      EveryNodeIsShown(d, n.left, m);
      EveryNodeIsShown(d, n.right, m);
      var l, r := Walk(d, n.left), Walk(d, n.right);
      O.OccursInConcat(l, r, m);
      O.OccursInConcat(r, l, m);
      var below := if d.ascending then l + r else r + l;
      O.OccursInConcat([n], below, m);
      O.OccursInConcat(below, [n], m);
    } else {
      assert Walk(d, n) == [n];
    }
  }

  lemma OccursAlone(n: Node, m: Node)
    ensures O.OccursIn([n], m) == (if n == m then 1 else 0) && O.OccursIn([], m) == 0
  {
    var one := [n];
    assert one[1..] == [];
  }

  /** A tree of k leaves has 2 * k - 1 nodes. */
  lemma {:induction false} NodesOfTree(d: Domain, n: Node)
    requires Unbounded(d)
    ensures |Walk(d, n)| == 2 * |Leaves(n)| - 1
  {
    if n.Inner? {
      NodesOfTree(d, n.left);
      NodesOfTree(d, n.right);
    }
  }
}
