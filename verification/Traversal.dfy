/**
  Traversing a tree in a range of keys: the recursive form, and the form with
  an explicit stack of delayed nodes.
 */
module Traversals {
  import opened Options
  import opened ByteStrings
  import opened AvlTree
  import opened Filters
  import opened RangeAnswer
  import RQ = RangeQuery

  datatype Domain = Domain(start: Option<Bytes>, end: Option<Bytes>, ascending: bool, inclusive: bool, post: bool)

  predicate AfterStart(d: Domain, n: Node) { d.start.None? || Lt(d.start.value, n.key) }

  predicate StartOrAfter(d: Domain, n: Node) { d.start.None? || Le(d.start.value, n.key) }

  predicate BeforeEnd(d: Domain, n: Node)
  {
    d.end.None? || (if d.inclusive then Le(n.key, d.end.value) else Lt(n.key, d.end.value))
  }

  /** Inner nodes that are entered, and leaves in the range, are shown to the callback. */
  predicate Shown(d: Domain, n: Node) { n.Inner? || (StartOrAfter(d, n) && BeforeEnd(d, n)) }

  /** The nodes in the order in which the recursive traversal shows them. */
  function Walk(d: Domain, n: Node): seq<Node>
  {
    var self := if Shown(d, n) then [n] else [];
    var below :=
      if n.Leaf? then []
      else
        var l := if AfterStart(d, n) then Walk(d, n.left) else [];
        var r := if BeforeEnd(d, n) then Walk(d, n.right) else [];
        if d.ascending then l + r else r + l;
    if d.post then below + self else self + below
  }

  /** The nodes up to and including the first at which the callback stops. */
  function UpTo(stop: Node -> bool, s: seq<Node>): seq<Node>
  {
    if s == [] then [] else if stop(s[0]) then [s[0]] else [s[0]] + UpTo(stop, s[1..])
  }

  predicate Stops(stop: Node -> bool, s: seq<Node>) { exists i :: 0 <= i < |s| && stop(s[i]) }

  lemma UpToConcat(stop: Node -> bool, a: seq<Node>, b: seq<Node>)
    ensures UpTo(stop, a + b) == if Stops(stop, a) then UpTo(stop, a) else a + UpTo(stop, b)
    ensures Stops(stop, a + b) <==> Stops(stop, a) || Stops(stop, b)
    ensures !Stops(stop, a) ==> UpTo(stop, a) == a
  {
    StopsConcat(stop, a, b);
    hide Stops, UpTo;
    if Stops(stop, a) {
      UpToStops(stop, a, b);
    } else {
      UpToGoesOn(stop, a, b);
      UpToGoesOn(stop, a, []);
      UpToNothing(stop);
      assert a + [] == a;
    }
  }

  lemma StopsConcat(stop: Node -> bool, a: seq<Node>, b: seq<Node>)
    ensures Stops(stop, a + b) <==> Stops(stop, a) || Stops(stop, b)
  {
    var s := a + b;
    if i :| 0 <= i < |a| && stop(a[i]) { assert stop(s[i]); }
    if i :| 0 <= i < |b| && stop(b[i]) { assert stop(s[|a| + i]); }
    if i :| 0 <= i < |s| && stop(s[i]) { assert if i < |a| then stop(a[i]) else stop(b[i - |a|]); }
  }

  lemma UpToNothing(stop: Node -> bool)
    ensures UpTo(stop, []) == []
  {
  }

  lemma {:induction false} UpToStops(stop: Node -> bool, a: seq<Node>, b: seq<Node>)
    requires Stops(stop, a)
    ensures UpTo(stop, a + b) == UpTo(stop, a)
  {
    var n, t := a[0], a[1..];
    assert a == [n] + t;
    Regroup([n], t, b);
    StopsCons(stop, n, t);
    hide Stops, UpTo;
    UpToCons(stop, n, t);
    UpToCons(stop, n, t + b);
    if !stop(n) { UpToStops(stop, t, b); }
  }

  lemma {:induction false} UpToGoesOn(stop: Node -> bool, a: seq<Node>, b: seq<Node>)
    requires !Stops(stop, a)
    ensures UpTo(stop, a + b) == a + UpTo(stop, b)
  {
    if a == [] {
      assert a + b == b && a + UpTo(stop, b) == UpTo(stop, b);
    } else {
      var n, t := [a[0]], a[1..];
      assert a == n + t;
      hide UpTo;
      Regroup(n, t, b);
      Regroup(n, t, UpTo(stop, b));
      StopsCons(stop, a[0], t);
      hide Stops;
      UpToCons(stop, a[0], t + b);
      UpToGoesOn(stop, t, b);
    }
  }

  lemma Regroup(a: seq<Node>, b: seq<Node>, c: seq<Node>)
    ensures (a + b) + c == a + (b + c)
  {
  }

  lemma UpToCons(stop: Node -> bool, n: Node, s: seq<Node>)
    ensures UpTo(stop, [n] + s) == if stop(n) then [n] else [n] + UpTo(stop, s)
  {
    assert ([n] + s)[1..] == s;
  }

  lemma StopsCons(stop: Node -> bool, n: Node, s: seq<Node>)
    ensures Stops(stop, [n] + s) <==> stop(n) || Stops(stop, s)
  {
    var t := [n] + s;
    if stop(n) { assert stop(t[0]); }
    if i :| 0 <= i < |s| && stop(s[i]) { assert stop(t[i + 1]); }
    if i :| 0 <= i < |t| && stop(t[i]) { if i > 0 { assert stop(s[i - 1]); } }
  }

  datatype Seen = Seen(nodes: seq<Node>, stopped: bool)

  const NOTHING := Seen([], false)

  /** The second part runs unless the first one stopped. */
  function Then(a: Seen, b: Seen): Seen { if a.stopped then a else Seen(a.nodes + b.nodes, b.stopped) }

  /** traverseInRange: the callback runs on each node shown, until it stops. */
  function TraverseInRange(d: Domain, n: Node, stop: Node -> bool): Seen
  {
    var self := if Shown(d, n) then Seen([n], stop(n)) else NOTHING;
    var below :=
      if n.Leaf? then NOTHING
      else
        var l := if AfterStart(d, n) then TraverseInRange(d, n.left, stop) else NOTHING;
        var r := if BeforeEnd(d, n) then TraverseInRange(d, n.right, stop) else NOTHING;
        if d.ascending then Then(l, r) else Then(r, l);
    if d.post then Then(below, self) else Then(self, below)
  }

  function Until(stop: Node -> bool, s: seq<Node>): Seen { Seen(UpTo(stop, s), Stops(stop, s)) }

  lemma ThenUntil(stop: Node -> bool, a: seq<Node>, b: seq<Node>)
    ensures Then(Until(stop, a), Until(stop, b)) == Until(stop, a + b)
  {
    UpToConcat(stop, a, b);
  }

  lemma UntilOne(stop: Node -> bool, n: Node)
    ensures Until(stop, [n]) == Seen([n], stop(n)) && Until(stop, []) == NOTHING
  {
    StopsCons(stop, n, []);
    var one := [n];
    assert one == one + [] && one[1..] == [] && UpTo(stop, []) == [];
    assert UpTo(stop, one) == one;
  }

  lemma UntilMore(stop: Node -> bool, seen: seq<Node>, n: Node, rest: seq<Node>)
    requires Until(stop, seen) == Seen(seen, false)
    ensures seen + ([n] + rest) == (seen + [n]) + rest
    ensures Until(stop, seen + [n]) == Seen(seen + [n], stop(n))
    ensures stop(n) ==> Until(stop, (seen + [n]) + rest) == Seen(seen + [n], true)
  {
    hide UpTo, Stops;
    UntilOne(stop, n);
    ThenUntil(stop, seen, [n]);
    ThenUntil(stop, seen + [n], rest);
  }

  /** The callback sees the walk up to the node at which it stops. */
  lemma {:induction false} TraverseSeesWalk(d: Domain, n: Node, stop: Node -> bool)
    ensures TraverseInRange(d, n, stop) == Until(stop, Walk(d, n))
  {
    hide AfterStart, BeforeEnd, StartOrAfter, Until, Then;
    UntilOne(stop, n);
    var self: seq<Node> := if Shown(d, n) then [n] else [];
    if n.Leaf? {
      ThenUntil(stop, self, []);
      ThenUntil(stop, [], self);
    } else {
      TraverseSeesWalk(d, n.left, stop);
      TraverseSeesWalk(d, n.right, stop);
      var l, r := if AfterStart(d, n) then Walk(d, n.left) else [], if BeforeEnd(d, n) then Walk(d, n.right) else [];
      var below := if d.ascending then l + r else r + l;
      ThenUntil(stop, l, r);
      ThenUntil(stop, r, l);
      ThenUntil(stop, self, below);
      ThenUntil(stop, below, self);
    }
  }

  // ---------- with an explicit stack ----------

  /** delayed: still to be expanded; otherwise to be returned as it is. */
  datatype Delayed = Delayed(node: Node, delayed: bool)

  function Weight(n: Node): nat { if n.Leaf? then 2 else 2 + Weight(n.left) + Weight(n.right) }

  /** The total weight on the stack. */
  function StackWeight(s: seq<Delayed>): nat
  {
    if s == [] then 0
    else StackWeight(s[..|s| - 1]) + (if s[|s| - 1].delayed then Weight(s[|s| - 1].node) else 1)
  }

  /** What the stack stands for, from its top. */
  function Todo(d: Domain, s: seq<Delayed>): seq<Node>
  {
    if s == [] then []
    else (if s[|s| - 1].delayed then Walk(d, s[|s| - 1].node) else [s[|s| - 1].node]) + Todo(d, s[..|s| - 1])
  }

  /** The children that are walked, the one to come first on top. */
  function Below(d: Domain, n: Node): seq<Delayed>
    requires n.Inner?
  {
    var l := if AfterStart(d, n) then [Delayed(n.left, true)] else [];
    var r := if BeforeEnd(d, n) then [Delayed(n.right, true)] else [];
    if d.ascending then r + l else l + r
  }

  /** The stack after an entry n is expanded: children and, in postorder, n itself below them. */
  function Expanded(d: Domain, n: Node): seq<Delayed>
  {
    (if d.post && Shown(d, n) then [Delayed(n, false)] else []) +
    (if n.Leaf? then [] else Below(d, n))
  }

  lemma TodoPush(d: Domain, s: seq<Delayed>, x: Delayed)
    ensures Todo(d, s + [x]) == (if x.delayed then Walk(d, x.node) else [x.node]) + Todo(d, s)
    ensures StackWeight(s + [x]) == StackWeight(s) + (if x.delayed then Weight(x.node) else 1)
  {
    assert (s + [x])[..|s + [x]| - 1] == s;
  }

  lemma {:induction false} TodoConcat(d: Domain, s: seq<Delayed>, t: seq<Delayed>)
    ensures Todo(d, s + t) == Todo(d, t) + Todo(d, s)
    ensures StackWeight(s + t) == StackWeight(s) + StackWeight(t)
    decreases |t|
  {
    hide Walk, Weight;
    if t == [] {
      assert s + t == s;
    } else {
      var init, x := t[..|t| - 1], t[|t| - 1];
      assert s + t == (s + init) + [x] && t == init + [x];
      TodoConcat(d, s, init);
      TodoPush(d, s + init, x);
      TodoPush(d, init, x);
      var w := if x.delayed then Walk(d, x.node) else [x.node];
      assert w + (Todo(d, init) + Todo(d, s)) == (w + Todo(d, init)) + Todo(d, s);
    }
  }

  lemma TodoOne(d: Domain, x: Delayed)
    ensures Todo(d, [x]) == (if x.delayed then Walk(d, x.node) else [x.node]) && Todo(d, []) == []
    ensures StackWeight([x]) == (if x.delayed then Weight(x.node) else 1) && StackWeight([]) == 0
  {
    assert [x][..0] == [];
  }

  /** Expanding a node stands for its walk, without the node itself if that is returned at once; the weight goes down. */
  lemma ExpandedTodo(d: Domain, n: Node)
    ensures Walk(d, n) == (if !d.post && Shown(d, n) then [n] else []) + Todo(d, Expanded(d, n))
    ensures StackWeight(Expanded(d, n)) < Weight(n)
  {
    hide AfterStart, BeforeEnd, Shown, Todo, StackWeight;
    var self := if d.post && Shown(d, n) then [Delayed(n, false)] else [];
    TodoOne(d, Delayed(n, false));
    if n.Inner? {
      TodoBelow(d, n);
      TodoConcat(d, self, Below(d, n));
    } else {
      assert Expanded(d, n) == self;
    }
  }

  lemma TodoBelow(d: Domain, n: Node)
    requires n.Inner?
    ensures var l := if AfterStart(d, n) then Walk(d, n.left) else [];
            var r := if BeforeEnd(d, n) then Walk(d, n.right) else [];
            Todo(d, Below(d, n)) == if d.ascending then l + r else r + l
    ensures StackWeight(Below(d, n)) <= Weight(n.left) + Weight(n.right)
  {
    hide AfterStart, BeforeEnd, Todo, StackWeight, Walk, Weight;
    TodoOne(d, Delayed(n.left, true));
    TodoOne(d, Delayed(n.right, true));
    var l, r := if AfterStart(d, n) then [Delayed(n.left, true)] else [], if BeforeEnd(d, n) then [Delayed(n.right, true)] else [];
    if d.ascending { TodoConcat(d, r, l); } else { TodoConcat(d, l, r); }
  }

  class Traversal {
    const d: Domain
    var stack: seq<Delayed>

    constructor (d: Domain, root: Node)
      ensures this.d == d && Todo(d, stack) == Walk(d, root)
    {
      this.d, stack := d, [Delayed(root, true)];
      TodoOne(d, Delayed(root, true));
    }

    /** Pushes what is to come after, or instead of, a delayed node. */
    method Expand(n: Node)
      modifies this`stack
      ensures stack == old(stack) + Expanded(d, n)
    {
      var after, before := AfterStart(d, n), BeforeEnd(d, n);
      if d.post && Shown(d, n) { stack := stack + [Delayed(n, false)]; }
      if n.Inner? {
        if d.ascending {
          if before { stack := stack + [Delayed(n.right, true)]; }
          if after { stack := stack + [Delayed(n.left, true)]; }
        } else {
          if after { stack := stack + [Delayed(n.left, true)]; }
          if before { stack := stack + [Delayed(n.right, true)]; }
        }
      }
    }

    /** Returns the first node that the stack stands for and leaves the others. */
    method Next() returns (r: Option<Node>)
      modifies this`stack
      ensures r == None ==> old(Todo(d, stack)) == [] && stack == []
      ensures r.Some? ==> old(Todo(d, stack)) == [r.value] + Todo(d, stack)
      decreases StackWeight(stack)
    {
      hide Shown, Walk, Weight, Expanded;
      if stack == [] { return None; }
      var rest, x := stack[..|stack| - 1], stack[|stack| - 1];
      assert stack == rest + [x];
      stack := rest;
      if !x.delayed { return Some(x.node); }
      Expand(x.node);
      ExpandedTodo(d, x.node);
      TodoConcat(d, rest, Expanded(d, x.node));
      if !d.post && Shown(d, x.node) { return Some(x.node); }
      r := Next();
    }
  }

  /** traverseInRange2 shows the callback what the recursive traversal does. */
  method TraverseInRange2(d: Domain, root: Node, stop: Node -> bool) returns (seen: seq<Node>, stopped: bool)
    ensures Seen(seen, stopped) == TraverseInRange(d, root, stop)
  {
    hide Walk, Todo, Until;
    TraverseSeesWalk(d, root, stop);
    ghost var walk := Walk(d, root);
    seen, stopped := [], false;
    UntilOne(stop, root);
    var t := new Traversal(d, root);
    var next := t.Next();
    ghost var left := if next.Some? then [next.value] + Todo(d, t.stack) else [];
    while next.Some?
      invariant t.d == d && left == (if next.Some? then [next.value] + Todo(d, t.stack) else [])
      invariant walk == seen + left && Until(stop, seen) == Seen(seen, false) && !stopped
      decreases |left|
    {
      UntilMore(stop, seen, next.value, Todo(d, t.stack));
      assert left[1..] == Todo(d, t.stack);
      seen := seen + [next.value];
      stopped := stop(next.value);
      if stopped { return; }
      next := t.Next();
      left := left[1..];
    }
    assert walk == seen;
  }

  // ---------- the leaves of a walk ----------

  function IsLeaf(): Node -> bool { (n: Node) => n.Leaf? }

  function OnlyLeaves(s: seq<Node>): seq<Node> { Filter(IsLeaf(), s) }

  function IsWanted(d: Domain): Node -> bool { (n: Node) => StartOrAfter(d, n) && BeforeEnd(d, n) }

  /** Those in the range. */
  function Wanted(d: Domain, s: seq<Node>): seq<Node> { Filter(IsWanted(d), s) }

  function Reverse(s: seq<Node>): seq<Node> { if s == [] then [] else Reverse(s[1..]) + [s[0]] }

  lemma {:induction false} ReverseConcat(a: seq<Node>, b: seq<Node>)
    ensures Reverse(a + b) == Reverse(b) + Reverse(a)
  {
    if a == [] { assert a + b == b; }
    else {
      ReverseConcat(a[1..], b);
      assert (a + b)[0] == a[0] && (a + b)[1..] == a[1..] + b;
    }
  }

  /** A side that is not entered has no leaf in the range. */
  lemma SkippedSides(d: Domain, n: Node)
    requires n.Inner? && Ordered(n)
    ensures !AfterStart(d, n) ==> Wanted(d, Leaves(n.left)) == []
    ensures !BeforeEnd(d, n) ==> Wanted(d, Leaves(n.right)) == []
  {
    hide Lt;
    LeavesRise(n.left);
    LeavesRise(n.right);
    SidesApart(n);
    OrderedBelow(n);
    var l, r := Leaves(n.left), Leaves(n.right);
    if !AfterStart(d, n) {
      forall i | 0 <= i < |l| ensures !StartOrAfter(d, l[i]) {
        assert l[i].key in Keys(n.left);
        LtTotal(n.key, d.start.value);
        if n.key != d.start.value { LtTransitive(l[i].key, n.key, d.start.value); }
      }
      FilterNone(IsWanted(d), l);
    }
    if !BeforeEnd(d, n) {
      forall i | 0 <= i < |r| ensures !BeforeEnd(d, r[i]) {
        assert r[i].key in Keys(n.right);
        BeyondEnd(d, n.key, r[i]);
      }
      FilterNone(IsWanted(d), r);
    }
  }

  lemma BeyondEnd(d: Domain, k: Bytes, m: Node)
    requires d.end.Some? && Le(k, m.key) && !(if d.inclusive then Le(k, d.end.value) else Lt(k, d.end.value))
    ensures !BeforeEnd(d, m)
  {
    hide Lt;
    var e := d.end.value;
    LtTotal(k, m.key);
    if k != m.key {
      if d.inclusive { LtTransitive(e, k, m.key); }
      else if Lt(m.key, e) { LtTransitive(k, m.key, e); }
    }
  }

  /** The leaves shown are the leaves in the range, in the order of the keys or in the opposite one. */
  lemma {:induction false} WalkLeaves(d: Domain, n: Node)
    requires Ordered(n)
    ensures OnlyLeaves(Walk(d, n)) == var w := Wanted(d, Leaves(n)); if d.ascending then w else Reverse(w)
  {
    hide StartOrAfter, BeforeEnd, AfterStart;
    if n.Leaf? {
      assert Leaves(n) == [n];
      LeafWalk(d, n);
    } else {
      WalkLeaves(d, n.left);
      WalkLeaves(d, n.right);
      SkippedSides(d, n);
      FilterConcat(IsWanted(d), Leaves(n.left), Leaves(n.right));
      ReverseConcat(Wanted(d, Leaves(n.left)), Wanted(d, Leaves(n.right)));
      var l, r := if AfterStart(d, n) then Walk(d, n.left) else [], if BeforeEnd(d, n) then Walk(d, n.right) else [];
      assert OnlyLeaves([]) == [] && Reverse([]) == [];
      FilterConcat(IsLeaf(), l, r);
      FilterConcat(IsLeaf(), r, l);
      InnerAside(d, n, if d.ascending then l + r else r + l);
    }
  }

  lemma LeafWalk(d: Domain, n: Node)
    requires n.Leaf?
    ensures OnlyLeaves(Walk(d, n)) == Wanted(d, [n]) == Reverse(Wanted(d, [n]))
  {
    hide StartOrAfter, BeforeEnd, AfterStart;
    var one := [n];
    FilterOne(IsLeaf(), n);
    FilterOne(IsWanted(d), n);
    assert one[1..] == [] && Reverse(one) == one;
    assert Wanted(d, one) == if Shown(d, n) then one else [];
    assert Walk(d, n) == if Shown(d, n) then one else [];
  }

  lemma InnerAside(d: Domain, n: Node, below: seq<Node>)
    requires n.Inner?
    ensures OnlyLeaves(below + [n]) == OnlyLeaves(below) == OnlyLeaves([n] + below)
  {
    FilterConcat(IsLeaf(), below, [n]);
    FilterConcat(IsLeaf(), [n], below);
    FilterOne(IsLeaf(), n);
  }

  // ---------- getRangeProof with either traversal ----------

  function FoldVisit(q: RQ.Query, a: RQ.Acc, s: seq<Node>): RQ.Acc
    requires a.pathCount >= -1
    decreases |s|
  {
    if s == [] || a.stopped then a else FoldVisit(q, RQ.Visit(q, a, s[0]), s[1..])
  }

  lemma {:induction false} FoldConcat(q: RQ.Query, a: RQ.Acc, s: seq<Node>, t: seq<Node>)
    requires a.pathCount >= -1
    ensures FoldVisit(q, a, s).pathCount >= -1
    ensures FoldVisit(q, a, s + t) == FoldVisit(q, FoldVisit(q, a, s), t)
    decreases |s|
  {
    hide RQ.Visit;
    if s == [] { assert s + t == t; }
    else if !a.stopped {
      FoldConcat(q, RQ.Visit(q, a, s[0]), s[1..], t);
      assert (s + t)[0] == s[0] && (s + t)[1..] == s[1..] + t;
    }
  }

  /** The callback of getRangeProof gets the same nodes from both traversals, so both build the same proof. */
  lemma {:induction false} RangeProofFolds(q: RQ.Query, start: Bytes, n: Node, a: RQ.Acc)
    requires a.pathCount >= -1 && !a.stopped
    ensures RQ.Traverse(q, start, n, a) == FoldVisit(q, a, Walk(Domain(Some(start), None, true, false, false), n))
  {
    hide RQ.Visit, Lt;
    var d := Domain(Some(start), None, true, false, false);
    var self := if Shown(d, n) then [n] else [];
    FoldOne(q, a, n);
    if n.Leaf? {
      assert Walk(d, n) == self;
    } else {
      var b := RQ.Visit(q, a, n);
      var l, r := if AfterStart(d, n) then Walk(d, n.left) else [], Walk(d, n.right);
      FoldConcat(q, a, self, l + r);
      FoldConcat(q, b, l, r);
      assert Walk(d, n) == self + (l + r);
      if !b.stopped {
        if AfterStart(d, n) { RangeProofFolds(q, start, n.left, b); }
        var c := FoldVisit(q, b, l);
        if !c.stopped { RangeProofFolds(q, start, n.right, c); }
      }
    }
  }

  lemma FoldOne(q: RQ.Query, a: RQ.Acc, n: Node)
    requires a.pathCount >= -1 && !a.stopped
    ensures FoldVisit(q, a, [n]) == RQ.Visit(q, a, n) && FoldVisit(q, a, []) == a
  {
    hide RQ.Visit;
    var one := [n];
    assert one[1..] == [];
  }
}
