/** Proofs of absence: what VerifyAbsence accepts of generated proofs, and GetWithProof. */
module RangeAbsence {
  import opened Options
  import opened ByteStrings
  import opened Successor
  import opened AvlTree
  import opened Orphans
  import opened RangeProofs
  import opened RangeQuery
  import opened ProofSoundness
  import opened ProofCompleteness
  import opened RangeAnswer
  import opened RangeExact

  /** A first path has no left hash exactly when it leads to the first leaf. */
  lemma {:induction false} LeftmostIsFirst(hash: HashFn, n: Node, key: Bytes)
    requires NeverEmpty(hash) && Ordered(n)
    ensures var p := PairsFrom(hash, n, Some(key));
            |p| <= |Leaves(n)| &&
            (IsLeftmost(p[0].path) <==> |p| == |Leaves(n)|) && (|p| < |Leaves(n)| ==> Le(p[0].node.key, key))
  {
    hide Lt, NodeHash, Prefixed;
    if n.Inner? {
      PairsOfAll(hash, n.right);
      if Lt(key, n.key) {
        var l := PairsFrom(hash, n.left, Some(key));
        LeftmostIsFirst(hash, n.left, key);
        assert Prefixed([PinLeft(hash, n)], l)[0] == Pair([PinLeft(hash, n)] + l[0].path, l[0].node) by { PrefixedHead([PinLeft(hash, n)], l); }
        LeftmostConcat(PinLeft(hash, n), l[0].path);
      } else {
        var r := PairsFrom(hash, n.right, Some(key));
        LeftmostIsFirst(hash, n.right, key);
        assert Prefixed([PinRight(hash, n)], r)[0] == Pair([PinRight(hash, n)] + r[0].path, r[0].node) by { PrefixedHead([PinRight(hash, n)], r); }
        LeftmostConcat(PinRight(hash, n), r[0].path);
        NodeHashNotEmpty(hash, n.left);
        PairsAreTail(hash, n.right, key);
        if |r| == |Leaves(n.right)| { FirstIsMin(hash, n.right, key); }
      }
    }
  }

  lemma PrefixedHead(path: Path, ps: seq<Pair>)
    requires ps != []
    ensures Prefixed(path, ps)[0] == Pair(path + ps[0].path, ps[0].node)
  {
  }

  lemma LeftmostConcat(pin: ProofInner, path: Path)
    ensures IsLeftmost([pin] + path) <==> |pin.left| == 0 && IsLeftmost(path)
  {
    var whole := [pin] + path;
    assert whole[0] == pin && whole[1..] == path;
    if IsLeftmost(whole) {
      forall i | 0 <= i < |path| ensures |path[i].left| == 0 { assert whole[i + 1] == path[i]; }
    }
  }

  lemma FirstIsMin(hash: HashFn, n: Node, key: Bytes)
    requires |PairsFrom(hash, n, Some(key))| == |Leaves(n)| && TailFrom(Leaves(n), Nodes(PairsFrom(hash, n, Some(key))), key)
    ensures PairsFrom(hash, n, Some(key))[0].node.key == MinKey(n)
  {
    hide Lt, PairsFrom;
    assert Leaves(n) == Nodes(PairsFrom(hash, n, Some(key)));
    LeavesStartAtMin(n);
  }

  lemma {:induction false} LeavesStartAtMin(n: Node)
    ensures Leaves(n)[0].key == MinKey(n)
  {
    if n.Inner? { LeavesStartAtMin(n.left); }
  }

  /** Between two neighbouring leaves, or after the last, there is no key. */
  lemma {:induction false} ScanFindsNoKey(s: seq<Node>, d: nat, leaves: seq<ProofLeaf>, i: nat, key: Bytes, treeEnd: bool, x: nat)
    requires Rising(s) && d + |leaves| <= |s| && 1 <= i <= |leaves| && (treeEnd ==> d + |leaves| == |s|) && x < |s|
    requires forall j :: 0 <= j < |leaves| ==> leaves[j].key == s[d + j].key
    requires Lt(s[d + i - 1].key, key) && Scan(leaves, i, key, treeEnd)
    ensures s[x].key != key
    decreases |leaves| - i
  {
    hide Lt;
    LtIrreflexive(key);
    if x <= d + i - 1 {
      if x < d + i - 1 { LtTransitive(s[x].key, s[d + i - 1].key, key); }
    } else if i < |leaves| {
      if Lt(key, leaves[i].key) {
        if x > d + i { LtTransitive(key, s[d + i].key, s[x].key); }
      } else {
        LtTotal(key, leaves[i].key);
        ScanFindsNoKey(s, d, leaves, i + 1, key, treeEnd, x);
      }
    }
  }

  /** The proof part of an answer, with the treeEnd flag that verification computes. */
  ghost predicate AcceptsAbsence(hash: HashFn, root: Node, r: Answer, key: Bytes)
  {
    var held := [r.first] + r.leaves;
    (forall i :: 0 <= i < |held| ==> held[i].Leaf?) &&
    var v := RootOf(hash, r.leftPath, r.inners, LeavesOf(hash, held));
    v.Some? && v.value.0 == NodeHash(hash, root) && ProvesAbsence(r.leftPath, LeavesOf(hash, held), v.value.1, key)
  }

  /** The leaves held are neighbours, from position d on. */
  ghost predicate Window(s: seq<Node>, held: seq<Node>, d: nat)
  {
    held != [] && d + |held| <= |s| && forall i :: 0 <= i < |held| ==> held[i] == s[d + i]
  }

  /** A proof holds neighbours, and the ends of its first path say where the first of them is. */
  lemma HeldWindow(hash: HashFn, root: Node, start: Option<Bytes>, end: Option<Bytes>, limit: nat)
    requires Provable(hash, root) && NoneSkipped(root)
    ensures var r, s, t := GetRange(hash, root, start, end, limit), Leaves(root), PairsFrom(hash, root, Some(KeyOf(start)));
            |t| <= |s| && Window(s, [r.first] + r.leaves, |s| - |t|) &&
            (IsLeftmost(r.leftPath) <==> |t| == |s|) && (IsRightmost(r.leftPath) <==> |t| == 1)
  {
    hide Lt, CpIncr, GetRange, PairsFrom, Ordered, NoClash, HeightsPositive, NoneSkipped, Leaves, Given, Window, IsLeftmost, IsRightmost, TailFrom;
    AnswerLists(hash, root, start, end, limit);
    PairsAreTail(hash, root, KeyOf(start));
    LeftmostIsFirst(hash, root, KeyOf(start));
    FirstPath(hash, root, Some(KeyOf(start)));
    BeginningIsWindow(Leaves(root), PairsFrom(hash, root, Some(KeyOf(start))), KeyOf(start), Given(hash, root, start, end, limit));
  }

  lemma BeginningIsWindow(s: seq<Node>, p: seq<Pair>, key: Bytes, c: nat)
    requires c < |p| && TailFrom(s, Nodes(p), key)
    ensures Window(s, [p[0].node] + Nodes(p[1..c + 1]), |s| - |p|)
  {
    hide Lt;
    var held := [p[0].node] + Nodes(p[1..c + 1]);
    forall i | 0 <= i < |held| ensures held[i] == s[|s| - |p| + i] {
      assert held[i] == p[i].node == Nodes(p)[i];
    }
  }

  /** VerifyAbsence on any generated proof accepts only keys that are absent. */
  lemma AbsenceIsSound(hash: HashFn, root: Node, start: Option<Bytes>, end: Option<Bytes>, limit: nat, key: Bytes)
    requires Provable(hash, root) && NoneSkipped(root) && AcceptsAbsence(hash, root, GetRange(hash, root, start, end, limit), key)
    ensures key !in Keys(root)
  {
    hide Lt, GetRange, PairsFrom, NoneSkipped, Leaves, RootOf, NodeHash, Provable, Window, Rising, KeysOf, ProvesAbsence, IsLeftmost, IsRightmost, LeavesOf;
    var r, s, t := GetRange(hash, root, start, end, limit), Leaves(root), PairsFrom(hash, root, Some(KeyOf(start)));
    var held := [r.first] + r.leaves;
    HeldWindow(hash, root, start, end, limit);
    ProofVerifies(hash, root, start, end, limit);
    ProvableParts(hash, root);
    LeavesRise(root);
    WindowProves(hash, s, held, |s| - |t|, r.leftPath, held[|held| - 1] == s[|s| - 1], key);
    if key in Keys(root) { KeyHasLeaf(s, Keys(root), key); }
  }

  lemma KeyHasLeaf(s: seq<Node>, keys: set<Bytes>, key: Bytes)
    requires KeysOf(s, keys) && key in keys
    ensures exists x :: 0 <= x < |s| && s[x].key == key
  {
  }

  lemma WindowProves(hash: HashFn, s: seq<Node>, held: seq<Node>, d: nat, path: Path, treeEnd: bool, key: Bytes)
    requires Rising(s) && Window(s, held, d) && (forall i :: 0 <= i < |held| ==> held[i].Leaf?)
    requires treeEnd == (held[|held| - 1] == s[|s| - 1])
    requires (IsLeftmost(path) ==> d == 0) && (IsRightmost(path) ==> d + 1 == |s|)
    requires ProvesAbsence(path, LeavesOf(hash, held), treeEnd, key)
    ensures forall x :: 0 <= x < |s| ==> s[x].key != key
  {
    hide Lt, Rising, ProvesAbsence, IsLeftmost, IsRightmost;
    if treeEnd { OnlyLastIsLast(s, d + |held| - 1); }
    forall x | 0 <= x < |s| ensures s[x].key != key {
      NoLeafHasKey(s, d, LeavesOf(hash, held), path, treeEnd, key, x);
    }
  }

  lemma OnlyLastIsLast(s: seq<Node>, i: nat)
    requires Rising(s) && i < |s| && s[i] == s[|s| - 1]
    ensures i == |s| - 1
  {
    hide Lt;
    LtIrreflexive(s[i].key);
  }

  lemma NoLeafHasKey(s: seq<Node>, d: nat, leaves: seq<ProofLeaf>, path: Path, treeEnd: bool, key: Bytes, x: nat)
    requires Rising(s) && leaves != [] && d + |leaves| <= |s| && (treeEnd ==> d + |leaves| == |s|) && x < |s|
    requires (forall j :: 0 <= j < |leaves| ==> leaves[j].key == s[d + j].key)
    requires (IsLeftmost(path) ==> d == 0) && (IsRightmost(path) ==> d + 1 == |s|)
    requires ProvesAbsence(path, leaves, treeEnd, key)
    ensures s[x].key != key
  {
    hide Lt, IsLeftmost, IsRightmost;
    LtIrreflexive(key);
    if Lt(key, leaves[0].key) {
      if x > 0 { LtTransitive(key, s[0].key, s[x].key); }
    } else {
      LtTotal(key, leaves[0].key);
      if IsRightmost(path) {
        if x < d { LtTransitive(s[x].key, s[d].key, key); }
      } else {
        ScanFindsNoKey(s, d, leaves, 1, key, treeEnd, x);
      }
    }
  }

  /** If the key lies before the leaves held, they start at the first leaf of s; if it lies behind them, they end at the last. */
  ghost predicate Encloses(s: seq<Node>, held: seq<Node>, key: Bytes)
    requires s != [] && held != []
  {
    (Lt(key, held[0].key) ==> held[0] == s[0]) && (Lt(held[|held| - 1].key, key) ==> held[|held| - 1] == s[|s| - 1])
  }

  /** A scan that meets neither the key nor the end of the leaves without a greater one. */
  lemma {:induction false} ScanSucceeds(leaves: seq<ProofLeaf>, i: nat, key: Bytes, treeEnd: bool)
    requires 1 <= i <= |leaves| && (forall j :: 0 <= j < |leaves| ==> leaves[j].key != key)
    requires Lt(leaves[|leaves| - 1].key, key) ==> treeEnd
    requires i == |leaves| ==> Lt(leaves[|leaves| - 1].key, key)
    ensures Scan(leaves, i, key, treeEnd)
    decreases |leaves| - i
  {
    hide Lt;
    if i < |leaves| && !Lt(key, leaves[i].key) {
      LtTotal(key, leaves[i].key);
      ScanSucceeds(leaves, i + 1, key, treeEnd);
    }
  }

  /** A scan succeeds past its last leaf only at the end of the tree. */
  lemma {:induction false} ScanPastEnd(leaves: seq<ProofLeaf>, i: nat, key: Bytes, treeEnd: bool)
    requires 1 <= i <= |leaves| && Ascending(leaves) && Scan(leaves, i, key, treeEnd) && Lt(leaves[|leaves| - 1].key, key)
    ensures treeEnd
    decreases |leaves| - i
  {
    hide Lt;
    if i < |leaves| {
      if Lt(key, leaves[i].key) {
        var last := leaves[|leaves| - 1].key;
        if i < |leaves| - 1 { LtTransitive(key, leaves[i].key, last); }
        LtTransitive(key, last, key);
        LtIrreflexive(key);
      } else {
        ScanPastEnd(leaves, i + 1, key, treeEnd);
      }
    }
  }

  lemma EnclosedIsProved(s: seq<Node>, held: seq<Node>, d: nat, leaves: seq<ProofLeaf>, path: Path, treeEnd: bool, key: Bytes)
    requires Rising(s) && Window(s, held, d) && |leaves| == |held| && (forall i :: 0 <= i < |held| ==> leaves[i].key == held[i].key)
    requires (IsLeftmost(path) <==> d == 0) && treeEnd == (held[|held| - 1] == s[|s| - 1])
    requires (forall x :: 0 <= x < |s| ==> s[x].key != key) && Encloses(s, held, key)
    ensures ProvesAbsence(path, leaves, treeEnd, key)
  {
    hide Lt, IsLeftmost, IsRightmost;
    assert forall j :: 0 <= j < |leaves| ==> leaves[j].key != key by {
      forall j | 0 <= j < |leaves| ensures leaves[j].key != key { assert held[j] == s[d + j]; }
    }
    if Lt(key, leaves[0].key) {
      if d > 0 { assert Lt(s[0].key, s[d].key); LtIrreflexive(s[0].key); }
    } else {
      LtTotal(key, leaves[0].key);
      ScanSucceeds(leaves, 1, key, treeEnd);
    }
  }

  lemma ProvedIsEnclosed(s: seq<Node>, held: seq<Node>, d: nat, leaves: seq<ProofLeaf>, path: Path, treeEnd: bool, key: Bytes)
    requires Rising(s) && Window(s, held, d) && |leaves| == |held| && (forall i :: 0 <= i < |held| ==> leaves[i].key == held[i].key)
    requires (IsLeftmost(path) <==> d == 0) && (IsRightmost(path) ==> d + 1 == |s|) && treeEnd == (held[|held| - 1] == s[|s| - 1])
    requires ProvesAbsence(path, leaves, treeEnd, key)
    ensures Encloses(s, held, key)
  {
    hide Lt, IsLeftmost, IsRightmost;
    assert Ascending(leaves) by {
      forall a, b | 0 <= a < b < |leaves| ensures Lt(leaves[a].key, leaves[b].key) { assert Lt(s[d + a].key, s[d + b].key); }
    }
    var last := leaves[|leaves| - 1].key;
    if Lt(key, leaves[0].key) {
      if Lt(last, key) {
        if |leaves| > 1 { LtTransitive(key, leaves[0].key, last); }
        LtTransitive(key, last, key);
        LtIrreflexive(key);
      }
    } else if Lt(last, key) {
      if IsRightmost(path) { assert |held| == 1; } else { ScanPastEnd(leaves, 1, key, treeEnd); }
    }
  }

  /**
    For every generated proof: VerifyAbsence accepts a key exactly if the key is absent and the leaves of the proof enclose it,
    reaching the first leaf of the tree if the key lies before them and the last if it lies behind them.
   */
  lemma AbsenceAcceptedIff(hash: HashFn, root: Node, start: Option<Bytes>, end: Option<Bytes>, limit: nat, key: Bytes)
    requires Provable(hash, root) && NoneSkipped(root)
    ensures var r := GetRange(hash, root, start, end, limit);
            AcceptsAbsence(hash, root, r, key) <==> key !in Keys(root) && Encloses(Leaves(root), [r.first] + r.leaves, key)
  {
    hide Lt, GetRange, PairsFrom, NoneSkipped, Leaves, RootOf, NodeHash, Provable, Window, Rising, KeysOf, ProvesAbsence, Encloses, IsLeftmost, IsRightmost;
    var r, s, t := GetRange(hash, root, start, end, limit), Leaves(root), PairsFrom(hash, root, Some(KeyOf(start)));
    var held := [r.first] + r.leaves;
    HeldWindow(hash, root, start, end, limit);
    ProofVerifies(hash, root, start, end, limit);
    var leaves, treeEnd := LeavesOf(hash, held), held[|held| - 1] == s[|s| - 1];
    ProvableParts(hash, root);
    LeavesRise(root);
    KeysOfLeaves(hash, held);
    hide LeavesOf, Keys;
    if AcceptsAbsence(hash, root, r, key) {
      AbsenceIsSound(hash, root, start, end, limit, key);
      ProvedIsEnclosed(s, held, |s| - |t|, leaves, r.leftPath, treeEnd, key);
    }
    if key !in Keys(root) && Encloses(s, held, key) {
      NoLeafOf(s, Keys(root), key);
      EnclosedIsProved(s, held, |s| - |t|, leaves, r.leftPath, treeEnd, key);
    }
  }

  lemma KeysOfLeaves(hash: HashFn, held: seq<Node>)
    requires forall i :: 0 <= i < |held| ==> held[i].Leaf?
    ensures forall i :: 0 <= i < |held| ==> LeavesOf(hash, held)[i].key == held[i].key
  {
  }

  lemma NoLeafOf(s: seq<Node>, keys: set<Bytes>, key: Bytes)
    requires KeysOf(s, keys) && key !in keys
    ensures forall x :: 0 <= x < |s| ==> s[x].key != key
  {
  }

  // ---------- GetWithProof ----------

  /** The range from the key to its cpIncr with a limit of two leaves. */
  function KeyRange(hash: HashFn, root: Node, key: Bytes): Answer
  {
    GetRange(hash, root, Some(key), Some(CpIncr(key)), 2)
  }

  function GetWithProof(hash: HashFn, root: Node, key: Bytes): Option<Bytes>
  {
    var r := KeyRange(hash, root, key);
    if r.found != [] && r.found[0].Leaf? && r.first.key == key then Some(r.found[0].value) else None
  }

  lemma {:induction false} FirstIsSubnode(hash: HashFn, n: Node, key: Bytes)
    ensures PathToLeaf(hash, n, key).node in Subnodes(n)
  {
    if n.Inner? { FirstIsSubnode(hash, n.left, key); FirstIsSubnode(hash, n.right, key); }
  }

  /** The value returned is that of the tree. */
  lemma GetWithProofIsGet(hash: HashFn, root: Node, key: Bytes)
    requires Provable(hash, root) && NoneSkipped(root)
    ensures GetWithProof(hash, root, key) == if key in Contents(root) then Some(Contents(root)[key]) else None
  {
    hide Lt, CpIncr, GetRange, PairsFrom, Ordered, NoClash, HeightsPositive, NoneSkipped, Leaves, Given, Contents, Select, Nodes, Paths;
    AnswerLists(hash, root, Some(key), Some(CpIncr(key)), 2);
    RangeIsExact(hash, root, Some(key), Some(CpIncr(key)), 2);
    PathToLeafIsFirst(hash, root, key);
    FirstIsSubnode(hash, root, key);
    var first := PathToLeaf(hash, root, key).node;
    LeafInContents(root, first);
    ContentsKeys(root);
    AboveSuccessor(key);
    LtIrreflexive(key);
    if key in Contents(root) { PathFinds(hash, root, key); }
  }

  /** For keys of the tree's width, the proof of GetWithProof is accepted as a proof of absence exactly when the key is absent. */
  lemma AbsenceIsExact(hash: HashFn, root: Node, key: Bytes)
    requires Provable(hash, root) && forall k :: k in Keys(root) ==> |k| == |key|
    ensures AcceptsAbsence(hash, root, KeyRange(hash, root, key), key) <==> key !in Keys(root)
  {
    hide Lt, CpIncr, GetRange, PairsFrom, NoClash, HeightsPositive, NoneSkipped, Leaves, RootOf, NodeHash, Ordered, ProvesAbsence, Window;
    EqualWidthsSkipNone(root, |key|);
    if AcceptsAbsence(hash, root, KeyRange(hash, root, key), key) {
      AbsenceIsSound(hash, root, Some(key), Some(CpIncr(key)), 2, key);
    } else {
      ProofVerifies(hash, root, Some(key), Some(CpIncr(key)), 2);
      if key !in Keys(root) { AbsentIsProved(hash, root, key); }
    }
  }

  lemma AbsentIsProved(hash: HashFn, root: Node, key: Bytes)
    requires Provable(hash, root) && NoneSkipped(root) && (forall k :: k in Keys(root) ==> |k| == |key|) && key !in Keys(root)
    ensures var r := KeyRange(hash, root, key);
            var held := [r.first] + r.leaves;
            (forall i :: 0 <= i < |held| ==> held[i].Leaf?) &&
            forall treeEnd :: ProvesAbsence(r.leftPath, LeavesOf(hash, held), treeEnd, key)
  {
    hide Lt, CpIncr, GetRange, ProvesAbsence, IsLeftmost, IsRightmost, LeavesOf, Provable, NoneSkipped;
    AnswerIsLeaves(hash, root, key);
    FirstIsNextTo(hash, root, key);
    NextToFirst(hash, KeyRange(hash, root, key), key);
  }

  lemma AnswerIsLeaves(hash: HashFn, root: Node, key: Bytes)
    requires Provable(hash, root) && NoneSkipped(root)
    ensures var r := KeyRange(hash, root, key); r.first.Leaf? && forall m :: m in r.leaves ==> m.Leaf?
  {
    hide Lt, CpIncr, GetRange, PairsFrom, NoneSkipped, Nodes, Paths, Given, Provable;
    AnswerLists(hash, root, Some(key), Some(CpIncr(key)), 2);
    NodesAreLeaves(PairsFrom(hash, root, Some(key))[1..Given(hash, root, Some(key), Some(CpIncr(key)), 2) + 1]);
  }

  lemma FirstIsNextTo(hash: HashFn, root: Node, key: Bytes)
    requires Provable(hash, root) && NoneSkipped(root) && (forall k :: k in Keys(root) ==> |k| == |key|) && key !in Keys(root)
    ensures var r := KeyRange(hash, root, key);
            r.first.Leaf? && r.first.key != key && (Lt(key, r.first.key) ==> IsLeftmost(r.leftPath)) &&
            (!Lt(key, r.first.key) ==> IsRightmost(r.leftPath) || (r.leaves != [] && Lt(key, r.leaves[0].key)))
  {
    hide Lt, CpIncr, GetRange, PairsFrom, NoneSkipped, PathToLeaf, IsLeftmost, IsRightmost, Nodes, Paths, Given, Provable;
    ProvableParts(hash, root);
    var p := PairsFrom(hash, root, Some(key));
    AnswerLists(hash, root, Some(key), Some(CpIncr(key)), 2);
    PathToLeafIsFirst(hash, root, key);
    FirstLeafKey(hash, root, key);
    FirstPath(hash, root, Some(key));
    LeftmostIsFirst(hash, root, key);
    hide Ordered, Keys;
    var x := p[0].node.key;
    if !Lt(key, x) && |p| > 1 {
      LtTotal(key, x);
      AfterIsFromSuccessor(x, key);
      SecondLeaf(hash, root, key);
    }
  }

  lemma SecondLeaf(hash: HashFn, root: Node, key: Bytes)
    requires Provable(hash, root) && NoneSkipped(root)
    requires |PairsFrom(hash, root, Some(key))| > 1 && Le(CpIncr(PairsFrom(hash, root, Some(key))[0].node.key), key)
    ensures var r := KeyRange(hash, root, key); r.leaves != [] && Lt(key, r.leaves[0].key)
  {
    hide Lt, CpIncr, GetRange, PairsFrom, NoClash, HeightsPositive, NoneSkipped, Given;
    var p := PairsFrom(hash, root, Some(key));
    AnswerLists(hash, root, Some(key), Some(CpIncr(key)), 2);
    StopsAfterOne(hash, root, key);
    AfterFirst(hash, root, key);
    assert Nodes(p[1..2])[0] == p[1].node;
  }

  lemma NodesAreLeaves(ps: seq<Pair>)
    requires AllLeaves(ps)
    ensures forall m :: m in Nodes(ps) ==> m.Leaf?
  {
  }

  lemma NextToFirst(hash: HashFn, r: Answer, key: Bytes)
    requires r.first.Leaf? && r.first.key != key && forall m :: m in r.leaves ==> m.Leaf?
    requires Lt(key, r.first.key) ==> IsLeftmost(r.leftPath)
    requires !Lt(key, r.first.key) ==> IsRightmost(r.leftPath) || (r.leaves != [] && Lt(key, r.leaves[0].key))
    ensures var held := [r.first] + r.leaves;
            (forall i :: 0 <= i < |held| ==> held[i].Leaf?) &&
            forall treeEnd :: ProvesAbsence(r.leftPath, LeavesOf(hash, held), treeEnd, key)
  {
    hide Lt, IsLeftmost, IsRightmost;
  }

  /** The first leaf after the one before the key reaches the limit. */
  lemma StopsAfterOne(hash: HashFn, root: Node, key: Bytes)
    requires |PairsFrom(hash, root, Some(key))| > 1 && Le(CpIncr(PairsFrom(hash, root, Some(key))[0].node.key), key)
    ensures Given(hash, root, Some(key), Some(CpIncr(key)), 2) == 1
  {
    hide Lt, CpIncr, PairsFrom;
    var p := PairsFrom(hash, root, Some(key));
    var c := CpIncr(p[0].node.key);
    AboveSuccessor(key);
    if Le(CpIncr(key), c) {
      LtTotal(c, key);
      if c != key { LtTransitive(c, key, CpIncr(key)); }
      assert false;
    }
    var q, a := Query(hash, p[0].path, Some(CpIncr(key)), 2), Acc(-1, [], [], [], [], false);
    var rest := p[1..];
    var b := TakeLeaf(q, a.(cur := rest[0].path), rest[0].node);
    assert b.stopped && Fed(q, b, rest[1..]) == 0;
  }

  lemma AfterFirst(hash: HashFn, root: Node, key: Bytes)
    requires Ordered(root) && |PairsFrom(hash, root, Some(key))| > 1
    ensures Lt(key, PairsFrom(hash, root, Some(key))[1].node.key)
  {
    hide PairsFrom;
    PairsAreTail(hash, root, key);
    assert Nodes(PairsFrom(hash, root, Some(key)))[1] == PairsFrom(hash, root, Some(key))[1].node;
  }
}
