/** The main results about getRangeProof. */
module RangeExact {
  import opened Options
  import opened ByteStrings
  import opened Successor
  import opened AvlTree
  import opened Orphans
  import opened Filters
  import opened RangeProofs
  import opened RangeQuery
  import opened ProofSoundness
  import opened ProofCompleteness
  import opened RangeAnswer

  /** No key lies between another key and its cpIncr. */
  ghost predicate NoneSkipped(n: Node)
  {
    forall a, b :: a in Keys(n) && b in Keys(n) && Lt(a, b) ==> Le(CpIncr(a), b)
  }

  lemma EqualWidthsSkipNone(n: Node, width: nat)
    requires forall k :: k in Keys(n) ==> |k| == width
    ensures NoneSkipped(n)
  {
    forall a, b | a in Keys(n) && b in Keys(n) && Lt(a, b) ensures Le(CpIncr(a), b) { AfterIsFromSuccessor(a, b); }
  }

  ghost predicate Spaced(s: seq<Node>) { forall i, j :: 0 <= i < j < |s| ==> Le(CpIncr(s[i].key), s[j].key) }

  /** With a limit, the leaf that reaches it is in the proof but not returned; `counted` leaves came before. */
  function Limited(s: seq<Node>, limit: nat, counted: nat): seq<Node>
  {
    if limit == 0 then s else if limit <= counted + 1 then [] else if |s| < limit - counted then s else s[..limit - 1 - counted]
  }

  lemma {:induction false} FeedFound(q: Query, a: Acc, ps: seq<Pair>, start: Option<Bytes>)
    requires AllLeaves(ps) && !a.stopped && Spaced(Nodes(ps))
    requires forall i :: 0 <= i < |ps| ==> InRange(start, None, ps[i].node.key)
    ensures Feed(q, a, ps).found == a.found + Limited(Select(start, q.end, Nodes(ps)), q.limit, |a.leaves| + 1)
    decreases |ps|
  {
    hide Lt, CpIncr, Spaced, Filter, Limited, TakeLeaf, KeyIn;
    if ps == [] {
      NothingSelected(start, q.end);
      NothingLimited(q.limit, |a.leaves| + 1);
      assert a.found + [] == a.found;
    } else {
      var n, rest, s := ps[0].node, ps[1..], Nodes(ps);
      var a' := a.(cur := ps[0].path);
      var b := TakeLeaf(q, a', n);
      assert s[1..] == Nodes(rest) && s == [n] + s[1..];
      SpacedTail(s);
      assert Feed(q, a, ps) == Feed(q, b, rest);
      if b.stopped {
        assert Feed(q, b, rest) == b;
        hide Nodes, Feed;
        StoppedFound(q, a', n, s[1..], start);
      } else {
        FeedFound(q, b, rest, start);
        hide Nodes, Feed;
        ContinuedFound(q, a', n, s[1..], start);
      }
    }
  }

  lemma NothingLimited(limit: nat, counted: nat)
    ensures Limited([], limit, counted) == []
  {
  }

  /** A leaf after which the callback goes on is returned. */
  lemma ContinuedFound(q: Query, a: Acc, n: Node, rest: seq<Node>, start: Option<Bytes>)
    requires n.Leaf? && !a.stopped && !TakeLeaf(q, a, n).stopped && InRange(start, None, n.key)
    ensures var b := TakeLeaf(q, a, n);
            |b.leaves| == |a.leaves| + 1 &&
            b.found + Limited(Select(start, q.end, rest), q.limit, |b.leaves| + 1) ==
            a.found + Limited(Select(start, q.end, [n] + rest), q.limit, |a.leaves| + 1)
  {
    hide Lt, CpIncr, Filter, Limited, Select;
    TakenOnwards(q, a, n);
    hide TakeLeaf;
    SelectCons(start, q.end, n, rest);
    var chosen := Select(start, q.end, rest);
    LimitedCons(n, chosen, q.limit, |a.leaves| + 1);
    Regroup(a.found, [n], Limited(chosen, q.limit, |a.leaves| + 2));
  }

  lemma TakenOnwards(q: Query, a: Acc, n: Node)
    requires !TakeLeaf(q, a, n).stopped
    ensures TakeLeaf(q, a, n).found == a.found + [n] && |TakeLeaf(q, a, n).leaves| == |a.leaves| + 1
    ensures (q.limit == 0 || q.limit > |a.leaves| + 2) && (q.end.Some? ==> Lt(n.key, q.end.value))
  {
    hide Lt, CpIncr;
    if q.end.Some? { LtTotal(q.end.value, n.key); }
  }

  lemma SelectCons(start: Option<Bytes>, end: Option<Bytes>, n: Node, rest: seq<Node>)
    requires InRange(start, end, n.key)
    ensures Select(start, end, [n] + rest) == [n] + Select(start, end, rest)
  {
    assert ([n] + rest)[1..] == rest;
    SelectFirst(start, end, [n] + rest);
  }

  lemma Regroup(a: seq<Node>, b: seq<Node>, c: seq<Node>)
    ensures (a + b) + c == a + (b + c)
  {
  }

  /** The leaf at which the callback stops: at the limit it is not returned, and at the end of the range nothing follows it. */
  lemma StoppedFound(q: Query, a: Acc, n: Node, rest: seq<Node>, start: Option<Bytes>)
    requires n.Leaf? && !a.stopped && TakeLeaf(q, a, n).stopped && InRange(start, None, n.key)
    requires forall i :: 0 <= i < |rest| ==> Le(CpIncr(n.key), rest[i].key)
    ensures TakeLeaf(q, a, n).found == a.found + Limited(Select(start, q.end, [n] + rest), q.limit, |a.leaves| + 1)
  {
    hide Lt, CpIncr, Filter;
    var s := [n] + rest;
    assert s[1..] == rest;
    SelectFirst(start, q.end, s);
    if q.limit > 0 && q.limit <= |a.leaves| + 2 {
      assert a.found + [] == a.found;
    } else if Le(q.end.value, n.key) {
      AboveSuccessor(n.key);
      AllAbove(start, q.end.value, rest, CpIncr(n.key));
      assert a.found + [] == a.found;
    } else {
      AllAbove(start, q.end.value, rest, CpIncr(n.key));
      assert [n] + [] == [n];
    }
  }

  lemma SelectFirst(start: Option<Bytes>, end: Option<Bytes>, s: seq<Node>)
    requires s != []
    ensures Select(start, end, s) == if InRange(start, end, s[0].key) then [s[0]] + Select(start, end, s[1..]) else Select(start, end, s[1..])
  {
    hide InRange;
  }

  lemma NothingSelected(start: Option<Bytes>, end: Option<Bytes>)
    ensures Select(start, end, []) == []
  {
  }

  lemma AboveSuccessor(a: Bytes)
    ensures Lt(a, CpIncr(a)) && forall e :: Le(e, a) ==> Le(e, CpIncr(a))
  {
    hide Lt, CpIncr;
    AfterIsFromSuccessor(a, a);
    LtIrreflexive(a);
    forall e | Le(e, a) ensures Le(e, CpIncr(a)) { if Lt(CpIncr(a), e) { LtTransitive(a, CpIncr(a), e); } }
  }

  /** Keys from `from` on are outside a range that ends at or before it. */
  lemma AllAbove(start: Option<Bytes>, end: Bytes, s: seq<Node>, from: Bytes)
    requires Le(end, from) && forall i :: 0 <= i < |s| ==> Le(from, s[i].key)
    ensures Select(start, Some(end), s) == []
  {
    hide Lt;
    forall i | 0 <= i < |s| ensures !InRange(start, Some(end), s[i].key) {
      if Lt(s[i].key, end) { LtTotal(end, from); if end != from { LtTransitive(s[i].key, end, from); } }
    }
    FilterNone(KeyIn(start, Some(end)), s);
  }

  lemma LimitedCons(n: Node, s: seq<Node>, limit: nat, counted: nat)
    requires limit == 0 || limit > counted + 1
    ensures Limited([n] + s, limit, counted) == [n] + Limited(s, limit, counted + 1)
  {
  }

  lemma SpacedTail(s: seq<Node>)
    requires s != [] && Spaced(s)
    ensures Spaced(s[1..]) && forall i :: 0 <= i < |s[1..]| ==> Le(CpIncr(s[0].key), s[1..][i].key)
  {
    hide Lt, CpIncr;
  }

  /** How many pairs the callback is given before it stops. */
  function Fed(q: Query, a: Acc, ps: seq<Pair>): (c: nat)
    requires AllLeaves(ps)
    ensures c <= |ps|
    decreases |ps|
  {
    if ps == [] || a.stopped then 0 else 1 + Fed(q, TakeLeaf(q, a.(cur := ps[0].path), ps[0].node), ps[1..])
  }

  /** The leaves and inner paths of the proof are those of the pairs given. */
  lemma {:induction false} FeedLists(q: Query, a: Acc, ps: seq<Pair>)
    requires AllLeaves(ps)
    ensures var r, c := Feed(q, a, ps), Fed(q, a, ps);
            r.leaves == a.leaves + Nodes(ps[..c]) && r.inners == a.inners + Paths(ps[..c])
    decreases |ps|
  {
    hide Lt, CpIncr;
    if ps == [] || a.stopped {
      assert Nodes(ps[..0]) == [] && Paths(ps[..0]) == [];
    } else {
      var b := TakeLeaf(q, a.(cur := ps[0].path), ps[0].node);
      FeedLists(q, b, ps[1..]);
      var c := Fed(q, b, ps[1..]);
      assert ps[..c + 1] == [ps[0]] + ps[1..][..c];
      FirstOut(ps[0], ps[1..][..c]);
    }
  }

  lemma FirstOut(p: Pair, ps: seq<Pair>)
    ensures Nodes([p] + ps) == [p.node] + Nodes(ps) && Paths([p] + ps) == [p.path] + Paths(ps)
  {
  }

  // ---------- the answer ----------

  /** A tree of the store under a hash function without collisions among its own nodes. */
  ghost predicate Provable(hash: HashFn, n: Node)
  {
    Ordered(n) && HeightsPositive(n) && NeverEmpty(hash) && NoClash(hash, TreePreimages(hash, n), TreePreimages(hash, n))
  }

  lemma {:induction false} HeightsBelow(n: Node, m: Node)
    requires HeightsPositive(n) && m in Subnodes(n)
    ensures HeightsPositive(m)
  {
    if n.Inner? && m != n {
      if m in Subnodes(n.left) { HeightsBelow(n.left, m); } else { HeightsBelow(n.right, m); }
    }
  }

  lemma HashesAreDistinct(hash: HashFn, n: Node)
    requires Provable(hash, n)
    ensures DistinctHashes(hash, n)
  {
    hide NodeHash, NoClash, TreePreimages, Ordered;
    forall a, b | a in Subnodes(n) && b in Subnodes(n) && NodeHash(hash, a) == NodeHash(hash, b) ensures MinKey(a) == MinKey(b) {
      HeightsBelow(n, a);
      HeightsBelow(n, b);
      forall k | k in Subnodes(a) ensures k in Subnodes(n) { SubtreeIn(n, a, k); }
      forall k | k in Subnodes(b) ensures k in Subnodes(n) { SubtreeIn(n, b, k); }
      SameHashSameKey(hash, n, a, b);
    }
  }

  function KeyOf(start: Option<Bytes>): Bytes { if start.Some? then start.value else [] }

  /** Keys after the first leaf, and only those, are traversed. */
  lemma FollowsFirst(n: Node, x: Bytes)
    requires NoneSkipped(n) && x in Keys(n)
    ensures Follows(x, CpIncr(x), n)
  {
    hide Lt, CpIncr;
    forall k | k in Keys(n) ensures Lt(x, k) <==> Le(CpIncr(x), k) {
      AboveSuccessor(x);
      if Le(CpIncr(x), k) { LtTotal(CpIncr(x), k); if CpIncr(x) != k { LtTransitive(x, CpIncr(x), k); } }
    }
  }

  /** The traversal of getRangeProof amounts to giving the callback the pairs after the first. */
  lemma TraversalFeeds(hash: HashFn, root: Node, key: Bytes, q: Query, found: seq<Node>)
    requires Provable(hash, root) && NoneSkipped(root)
    requires q.hash == hash && q.path == PathToLeaf(hash, root, key).path
    ensures var a := Acc(0, [], [], [], found, false);
            var p := PairsFrom(hash, root, Some(key));
            var r := Traverse(q, CpIncr(PathToLeaf(hash, root, key).node.key), root, a);
            var f := Feed(q, a.(pathCount := -1), p[1..]);
            r.inners == f.inners && r.leaves == f.leaves && r.found == f.found
  {
    hide Lt, CpIncr, Traverse, Feed, NoneSkipped, DistinctHashes, NoClash;
    var a := Acc(0, [], [], [], found, false);
    FirstLeafKey(hash, root, key);
    FollowsFirst(root, PathToLeaf(hash, root, key).node.key);
    HashesAreDistinct(hash, root);
    assert q.path[0..] == q.path;
    TraverseOnPath(q, CpIncr(PathToLeaf(hash, root, key).node.key), root, key, a);
    if |PairsFrom(hash, root, Some(key))| == 1 { assert PairsFrom(hash, root, Some(key))[1..] == []; FeedNothing(q, a.(pathCount := -1)); }
  }

  lemma FeedNothing(q: Query, a: Acc)
    ensures Feed(q, a, []) == a
  {
  }

  /** Leaves given to the callback after the first one. */
  function Given(hash: HashFn, root: Node, start: Option<Bytes>, end: Option<Bytes>, limit: nat): (c: nat)
    ensures c < |PairsFrom(hash, root, Some(KeyOf(start)))|
  {
    var p := PairsFrom(hash, root, Some(KeyOf(start)));
    if limit == 1 || (end.Some? && Le(end.value, CpIncr(p[0].node.key))) then 0
    else Fed(Query(hash, p[0].path, end, limit), Acc(-1, [], [], [], [], false), p[1..])
  }

  /** The proof holds a beginning of the pairs from the first leaf on. */
  lemma AnswerLists(hash: HashFn, root: Node, start: Option<Bytes>, end: Option<Bytes>, limit: nat)
    requires Provable(hash, root) && NoneSkipped(root)
    ensures var r, p, c := GetRange(hash, root, start, end, limit), PairsFrom(hash, root, Some(KeyOf(start))), Given(hash, root, start, end, limit);
            r.leftPath == p[0].path && r.first == p[0].node && r.leaves == Nodes(p[1..c + 1]) && r.inners == Paths(p[1..c + 1])
  {
    hide Lt, CpIncr, Traverse, Feed, NoneSkipped, NoClash, PathToLeaf, PairsFrom;
    var key := KeyOf(start);
    var p, c := PairsFrom(hash, root, Some(key)), Given(hash, root, start, end, limit);
    PathToLeafIsFirst(hash, root, key);
    var first := if InRange(start, end, p[0].node.key) then [p[0].node] else [];
    var q := Query(hash, p[0].path, end, limit);
    assert p[1..c + 1] == p[1..][..c];
    if limit == 1 || (end.Some? && Le(end.value, CpIncr(p[0].node.key))) {
      assert p[1..1] == [];
    } else {
      TraversalFeeds(hash, root, key, q, first);
      FeedLists(q, Acc(-1, [], [], [], first, false), p[1..]);
      FedIgnoresFound(q, Acc(-1, [], [], [], first, false), Acc(-1, [], [], [], [], false), p[1..]);
    }
  }

  lemma {:induction false} FedIgnoresFound(q: Query, a: Acc, b: Acc, ps: seq<Pair>)
    requires AllLeaves(ps) && a.stopped == b.stopped && |a.leaves| == |b.leaves|
    ensures Fed(q, a, ps) == Fed(q, b, ps)
    decreases |ps|
  {
    if ps != [] && !a.stopped {
      FedIgnoresFound(q, TakeLeaf(q, a.(cur := ps[0].path), ps[0].node), TakeLeaf(q, b.(cur := ps[0].path), ps[0].node), ps[1..]);
    }
  }

  lemma LeavesSpaced(root: Node)
    requires Ordered(root) && NoneSkipped(root)
    ensures Spaced(Leaves(root))
  {
    hide Lt, CpIncr, Ordered, Leaves;
    LeavesRise(root);
    var s := Leaves(root);
    forall i, j | 0 <= i < j < |s| ensures Le(CpIncr(s[i].key), s[j].key) {
      assert s[i].key in Keys(root) && s[j].key in Keys(root);
    }
  }

  lemma NodesSpaced(hash: HashFn, root: Node, key: Bytes)
    requires Ordered(root) && NoneSkipped(root)
    ensures Spaced(Nodes(PairsFrom(hash, root, Some(key))))
  {
    hide Lt, CpIncr, PairsFrom, Ordered, NoneSkipped, Leaves;
    PairsAreTail(hash, root, key);
    LeavesSpaced(root);
    var s, t := Leaves(root), Nodes(PairsFrom(hash, root, Some(key)));
    var d := |s| - |t|;
    assert forall i :: 0 <= i < |t| ==> t[i] == s[d + i];
  }

  /** What is returned, read off the leaves from the first one on. */
  lemma AnswerFound(hash: HashFn, root: Node, start: Option<Bytes>, end: Option<Bytes>, limit: nat)
    requires Provable(hash, root) && NoneSkipped(root)
    ensures var s := Nodes(PairsFrom(hash, root, Some(KeyOf(start))));
            GetRange(hash, root, start, end, limit).found ==
            Select(start, end, [s[0]]) + Limited(Select(start, end, s[1..]), limit, 1)
  {
    hide Lt, CpIncr, Traverse, Feed, NoneSkipped, NoClash, PathToLeaf, PairsFrom, Spaced, Filter;
    var key := KeyOf(start);
    var p := PairsFrom(hash, root, Some(key));
    var s := Nodes(p);
    PathToLeafIsFirst(hash, root, key);
    FilterOne(KeyIn(start, end), s[0]);
    NodesSpaced(hash, root, key);
    SpacedTail(s);
    assert s[1..] == Nodes(p[1..]);
    if limit == 1 {
    } else if end.Some? && Le(end.value, CpIncr(s[0].key)) {
      AllAbove(start, end.value, s[1..], CpIncr(s[0].key));
    } else {
      var q := Query(hash, p[0].path, end, limit);
      TraversalFeeds(hash, root, key, q, Select(start, end, [s[0]]));
      AfterFirstInRange(hash, root, start);
      FeedFound(q, Acc(-1, [], [], [], Select(start, end, [s[0]]), false), p[1..], start);
    }
  }

  lemma AfterFirstInRange(hash: HashFn, root: Node, start: Option<Bytes>)
    requires Ordered(root)
    ensures var p := PairsFrom(hash, root, Some(KeyOf(start))); forall i :: 0 < i < |p| ==> InRange(start, None, p[i].node.key)
  {
    hide Lt, PairsFrom;
    var key := KeyOf(start);
    var p := PairsFrom(hash, root, Some(key));
    PairsAreTail(hash, root, key);
    forall i | 0 < i < |p| ensures InRange(start, None, p[i].node.key) {
      assert Nodes(p)[i] == p[i].node;
      if Lt(p[i].node.key, key) { LtTransitive(key, p[i].node.key, key); LtIrreflexive(key); }
    }
  }

  /**
    The pairs returned are those of the range, in order. A limit cuts them
    short: the first leaf of the proof counts although it may lie before the
    range, and the leaf that reaches the limit is proved but not returned.
   */
  lemma RangeIsExact(hash: HashFn, root: Node, start: Option<Bytes>, end: Option<Bytes>, limit: nat)
    requires Provable(hash, root) && NoneSkipped(root)
    ensures var r, all := GetRange(hash, root, start, end, limit), Select(start, end, Leaves(root));
            (limit == 0 ==> r.found == all) &&
            (!InRange(start, end, r.first.key) ==> r.found == Limited(all, limit, 1)) &&
            (InRange(start, end, r.first.key) ==> all != [] && r.found == [r.first] + Limited(all[1..], limit, 1) && all[0] == r.first)
  {
    hide Lt, CpIncr, GetRange, NoneSkipped, NoClash, PathToLeaf, PairsFrom, Filter, InRange;
    AnswerFound(hash, root, start, end, limit);
    AnswerLists(hash, root, start, end, limit);
    var s := Nodes(PairsFrom(hash, root, Some(KeyOf(start))));
    FilterOne(KeyIn(start, end), s[0]);
    SelectTail(hash, root, start, end);
  }

  lemma SelectTail(hash: HashFn, root: Node, start: Option<Bytes>, end: Option<Bytes>)
    requires Ordered(root)
    ensures var s := Nodes(PairsFrom(hash, root, Some(KeyOf(start))));
            Select(start, end, Leaves(root)) == Select(start, end, [s[0]]) + Select(start, end, s[1..])
  {
    hide Lt, PairsFrom, Filter, Leaves, TailFrom;
    PairsAreTail(hash, root, KeyOf(start));
    SelectSplits(Leaves(root), Nodes(PairsFrom(hash, root, Some(KeyOf(start)))), start, end);
  }

  lemma SelectSplits(s: seq<Node>, t: seq<Node>, start: Option<Bytes>, end: Option<Bytes>)
    requires TailFrom(s, t, KeyOf(start))
    ensures Select(start, end, s) == Select(start, end, [t[0]]) + Select(start, end, t[1..])
  {
    hide Lt, Select;
    var before := s[..|s| - |t|];
    assert s == before + t && forall i :: 0 <= i < |before| ==> Lt(before[i].key, KeyOf(start));
    hide TailFrom;
    SelectAfter(before, t, start, end);
    SelectHead(t, start, end);
  }

  lemma SelectAfter(before: seq<Node>, t: seq<Node>, start: Option<Bytes>, end: Option<Bytes>)
    requires forall i :: 0 <= i < |before| ==> Lt(before[i].key, KeyOf(start))
    ensures Select(start, end, before + t) == Select(start, end, t)
  {
    NoneBefore(before, start, end);
    hide Lt, Filter, KeyIn;
    FilterSkips(KeyIn(start, end), before, t);
  }

  lemma SelectHead(t: seq<Node>, start: Option<Bytes>, end: Option<Bytes>)
    requires t != []
    ensures Select(start, end, t) == Select(start, end, [t[0]]) + Select(start, end, t[1..])
  {
    hide Filter, KeyIn;
    assert t == [t[0]] + t[1..];
    FilterConcat(KeyIn(start, end), [t[0]], t[1..]);
  }

  lemma NoneBefore(s: seq<Node>, start: Option<Bytes>, end: Option<Bytes>)
    requires forall i :: 0 <= i < |s| ==> Lt(s[i].key, KeyOf(start))
    ensures forall i :: 0 <= i < |s| ==> !KeyIn(start, end)(s[i])
  {
    hide Lt;
    if start.None? && s != [] {
      NotAllBelowEmpty(s);
      assert false;
    }
  }

  lemma NotAllBelowEmpty(s: seq<Node>)
    requires s != []
    ensures exists i :: 0 <= i < |s| && !Lt(s[i].key, [])
  {
    assert !Lt(s[0].key, []);
  }

  // ---------- the proof verifies ----------

  function LeavesOf(hash: HashFn, s: seq<Node>): (r: seq<ProofLeaf>)
    requires forall i :: 0 <= i < |s| ==> s[i].Leaf?
    ensures |r| == |s|
  {
    seq(|s|, i requires 0 <= i < |s| => LeafOf(hash, s[i]))
  }

  /** Every answer carries a proof of the root hash; its treeEnd flag says whether it reaches the last leaf of the tree. */
  lemma ProofVerifies(hash: HashFn, root: Node, start: Option<Bytes>, end: Option<Bytes>, limit: nat)
    requires Provable(hash, root) && NoneSkipped(root)
    ensures var r := GetRange(hash, root, start, end, limit);
            var held := [r.first] + r.leaves;
            (forall i :: 0 <= i < |held| ==> held[i].Leaf?) &&
            RootOf(hash, r.leftPath, r.inners, LeavesOf(hash, held)) ==
            Some((NodeHash(hash, root), held[|held| - 1] == Leaves(root)[|Leaves(root)| - 1]))
  {
    hide Lt, CpIncr, GetRange, NoneSkipped, NoClash, PairsFrom, NodeHash, ComputeHash;
    var r := GetRange(hash, root, start, end, limit);
    var held, key := [r.first] + r.leaves, KeyOf(start);
    var p, c := PairsFrom(hash, root, Some(key)), Given(hash, root, start, end, limit);
    AnswerLists(hash, root, start, end, limit);
    var ps := p[..c + 1];
    assert ps == [p[0]] + p[1..c + 1] && ps[1..] == p[1..c + 1];
    FirstOut(p[0], p[1..c + 1]);
    assert held == Nodes(ps);
    assert AllLeaves(ps);
    assert LeavesOf(hash, held) == ProofLeaves(hash, ps);
    PairsVerify(hash, root, Some(key), ps, true);
    LastHeld(hash, root, key, c);
  }

  lemma LastHeld(hash: HashFn, root: Node, key: Bytes, c: nat)
    requires Ordered(root) && c < |PairsFrom(hash, root, Some(key))|
    ensures var p := PairsFrom(hash, root, Some(key)); c + 1 == |p| <==> p[c].node == Leaves(root)[|Leaves(root)| - 1]
  {
    hide Lt, PairsFrom, Ordered, Leaves;
    var p, s := PairsFrom(hash, root, Some(key)), Leaves(root);
    HeldRises(hash, root, key);
    var t := Nodes(p);
    assert t[c] == p[c].node && t[|t| - 1] == s[|s| - 1];
    if c + 1 < |p| { LtIrreflexive(t[|t| - 1].key); }
  }

  lemma HeldRises(hash: HashFn, root: Node, key: Bytes)
    requires Ordered(root)
    ensures var s, t := Leaves(root), Nodes(PairsFrom(hash, root, Some(key))); Rising(t) && t[|t| - 1] == s[|s| - 1]
  {
    hide Lt, PairsFrom, Ordered, Leaves;
    PairsAreTail(hash, root, key);
    LeavesRise(root);
    var s, t := Leaves(root), Nodes(PairsFrom(hash, root, Some(key)));
    var d := |s| - |t|;
    assert forall i :: 0 <= i < |t| ==> t[i] == s[d + i];
  }

  /** The leaves of the proof are in order, so VerifyItem finds every returned pair. */
  lemma ItemsVerify(hash: HashFn, root: Node, start: Option<Bytes>, end: Option<Bytes>, limit: nat, m: Node)
    requires Provable(hash, root) && NoneSkipped(root)
    requires m in GetRange(hash, root, start, end, limit).found
    ensures var r := GetRange(hash, root, start, end, limit);
            m.Leaf? && m in [r.first] + r.leaves
    ensures var r := GetRange(hash, root, start, end, limit);
            var held := [r.first] + r.leaves;
            (forall i :: 0 <= i < |held| ==> held[i].Leaf?) &&
            Ascending(LeavesOf(hash, held)) && HasItem(LeavesOf(hash, held), m.key, hash(m.value))
  {
    hide Lt, CpIncr, NoneSkipped, NoClash, PairsFrom, GetRange, Provable;
    var r := GetRange(hash, root, start, end, limit);
    var held, key := [r.first] + r.leaves, KeyOf(start);
    var p, c := PairsFrom(hash, root, Some(key)), Given(hash, root, start, end, limit);
    AnswerLists(hash, root, start, end, limit);
    FoundIsHeld(hash, root, start, end, limit, m);
    assert Ordered(root) by { ProvableParts(hash, root); }
    HeldRises(hash, root, key);
    HeldInOrder(hash, p, c, held, m);
  }

  lemma ProvableParts(hash: HashFn, root: Node)
    requires Provable(hash, root)
    ensures Ordered(root) && NeverEmpty(hash)
  {
  }

  lemma HeldInOrder(hash: HashFn, p: seq<Pair>, c: nat, held: seq<Node>, m: Node)
    requires c < |p| && AllLeaves(p) && Rising(Nodes(p)) && held == [p[0].node] + Nodes(p[1..c + 1]) && m in held
    ensures forall i :: 0 <= i < |held| ==> held[i].Leaf?
    ensures m.Leaf? && Ascending(LeavesOf(hash, held)) && HasItem(LeavesOf(hash, held), m.key, hash(m.value))
  {
    hide Lt;
    assert forall i :: 0 <= i < |held| ==> held[i] == Nodes(p)[i];
    var i :| 0 <= i < |held| && held[i] == m;
    var ls := LeavesOf(hash, held);
    assert ls[i] == LeafOf(hash, m);
  }

  lemma FoundIsHeld(hash: HashFn, root: Node, start: Option<Bytes>, end: Option<Bytes>, limit: nat, m: Node)
    requires m in GetRange(hash, root, start, end, limit).found
    ensures var r := GetRange(hash, root, start, end, limit); m in [r.first] + r.leaves
  {
    hide Lt, CpIncr, Traverse, PathToLeaf;
    var p := PathToLeaf(hash, root, if start.Some? then start.value else []);
    var first := if InRange(start, end, p.node.key) then [p.node] else [];
    var q := Query(hash, p.path, end, limit);
    TraverseFound(q, CpIncr(p.node.key), root, Acc(0, [], [], [], first, false), m);
  }

  /** Whatever is returned is among the leaves recorded and lies from the start on. */
  lemma {:induction false} TraverseFound(q: Query, start: Bytes, n: Node, a: Acc, m: Node)
    requires a.pathCount >= -1
    ensures m in a.leaves ==> m in Traverse(q, start, n, a).leaves
    ensures m in Traverse(q, start, n, a).found ==> m in a.found || (m in Traverse(q, start, n, a).leaves && Le(start, m.key))
  {
    hide Lt, CpIncr, Diverged, NodeHash;
    var b := if n.Inner? || Le(start, n.key) then Visit(q, a, n) else a;
    if !b.stopped && n.Inner? {
      var c := if Lt(start, n.key) then Traverse(q, start, n.left, b) else b;
      if Lt(start, n.key) { TraverseFound(q, start, n.left, b, m); }
      if !c.stopped { TraverseFound(q, start, n.right, c, m); }
    }
  }

  // ---------- exactly when ranges are exact ----------

  predicate Askable(start: Option<Bytes>, end: Option<Bytes>) { start.None? || end.None? || Lt(start.value, end.value) }

  ghost predicate AlwaysExact(hash: HashFn, root: Node)
  {
    forall start, end :: Askable(start, end) ==> GetRange(hash, root, start, end, 0).found == Select(start, end, Leaves(root))
  }

  /** cpIncr is not the next byte string: ranges are exact for all bounds exactly when no key falls in the gap. */
  lemma ExactIffNoneSkipped(hash: HashFn, root: Node)
    requires Provable(hash, root)
    ensures AlwaysExact(hash, root) <==> NoneSkipped(root)
  {
    hide Lt, CpIncr, GetRange, Filter, Leaves, NoClash;
    if NoneSkipped(root) {
      forall start, end | Askable(start, end)
        ensures GetRange(hash, root, start, end, 0).found == Select(start, end, Leaves(root))
      {
        RangeIsExact(hash, root, start, end, 0);
      }
    }
    forall a, b | a in Keys(root) && b in Keys(root) && Lt(a, b) && Lt(b, CpIncr(a))
      ensures !AlwaysExact(hash, root)
    {
      assert Askable(Some(a), None);
      SkippedKeyIsLost(hash, root, a, b);
    }
  }

  /** Two leaves with keys [1] and [1, 0]; cpIncr of the first is [2]. */
  const GAP_TREE := Inner([1, 0], 1, 2, 1, Leaf([1], [7], 1), Leaf([1, 0], [8], 1))

  /** The range from [1] on returns the first pair and loses the second. */
  lemma GapExample(hash: HashFn)
    ensures Ordered(GAP_TREE) && CpIncr([1]) == [2]
    ensures Select(Some([1]), None, Leaves(GAP_TREE)) == [GAP_TREE.left, GAP_TREE.right]
    ensures GetRange(hash, GAP_TREE, Some([1]), None, 0).found == [GAP_TREE.left]
  {
    GapOrder();
    hide Lt, CpIncr, Filter, NodeHash;
    var n, l, r := GAP_TREE, GAP_TREE.left, GAP_TREE.right;
    FilterOne(KeyIn(Some([1]), None), l);
    FilterOne(KeyIn(Some([1]), None), r);
    FilterConcat(KeyIn(Some([1]), None), [l], [r]);
    assert Leaves(n) == [l] + [r];
    var p := PathToLeaf(hash, n, [1]);
    assert PathToLeaf(hash, l, [1]).node == l && p.node == l;
    var q, a := Query(hash, p.path, None, 0), Acc(0, [], [], [], [l], false);
    var b := Visit(q, a, n);
    assert b.found == [l] && !b.stopped;
    assert Traverse(q, [2], r, b) == b;
    assert Traverse(q, [2], n, a) == b;
  }

  lemma GapOrder()
    ensures CpIncr([1]) == [2] && Ordered(GAP_TREE)
    ensures Lt([1], [1, 0]) && !Lt([1], [1]) && !Lt([1, 0], [1]) && !Lt([2], [1, 0]) && Lt([1, 0], [2])
  {
  }

  lemma SkippedKeyIsLost(hash: HashFn, root: Node, a: Bytes, b: Bytes)
    requires Ordered(root) && a in Keys(root) && b in Keys(root) && Lt(a, b) && Lt(b, CpIncr(a))
    ensures GetRange(hash, root, Some(a), None, 0).found != Select(Some(a), None, Leaves(root))
  {
    hide Lt, CpIncr, Traverse, Filter, Leaves;
    LeavesRise(root);
    var s := Leaves(root);
    var i :| 0 <= i < |s| && s[i].key == b;
    var m := s[i];
    FilterHas(KeyIn(Some(a), None), s, m);
    if Lt(b, a) { LtTransitive(a, b, a); LtIrreflexive(a); }
    PathFinds(hash, root, a);
    LtIrreflexive(a);
    var p := PathToLeaf(hash, root, a);
    var r := Acc(0, [], [], [], [p.node], false);
    TraverseFound(Query(hash, p.path, None, 0), CpIncr(a), root, r, m);
  }
}
