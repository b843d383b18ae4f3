/**
  Exporting a tree as a stream of nodes in postorder, and the importer that
  rebuilds it with a stack of unresolved subtrees.
 */
module ExportImport {
  import opened Options
  import opened ByteStrings
  import opened AvlTree
  import opened Orphans
  import opened MerkleHash
  import T = Traversals

  const MAX_BATCH_SIZE := 10000

  datatype ExportNode = ExportNode(key: Option<Bytes>, value: Option<Bytes>, version: int, height: int)

  // ---------- export ----------

  function ToExport(n: Node): ExportNode
  {
    ExportNode(Some(n.key), if n.Leaf? then Some(n.value) else None, n.version, Height(n))
  }

  const WHOLE_POSTORDER := T.Domain(None, None, true, false, true)

  function AllToExport(s: seq<Node>): (r: seq<ExportNode>)
    ensures |r| == |s|
  {
    seq(|s|, i requires 0 <= i < |s| => ToExport(s[i]))
  }

  /** The stream of an Exporter that is read to its end. */
  function Export(root: Option<Node>): seq<ExportNode>
  {
    if root.None? then [] else AllToExport(T.Walk(WHOLE_POSTORDER, root.value))
  }

  lemma ExportInner(n: Node)
    ensures Export(Some(n)) == if n.Leaf? then [ToExport(n)] else Export(Some(n.left)) + Export(Some(n.right)) + [ToExport(n)]
  {
    hide T.AfterStart, T.BeforeEnd, T.StartOrAfter;
    EverythingShown(n);
  }

  lemma EverythingShown(n: Node)
    ensures T.AfterStart(WHOLE_POSTORDER, n) && T.BeforeEnd(WHOLE_POSTORDER, n) && T.StartOrAfter(WHOLE_POSTORDER, n)
  {
  }

  // ---------- import ----------

  datatype Outcome = Added(node: Node, children: nat) | Refused | Panics

  /** Importer.Add: the node it builds on top of the stack and how many subtrees that takes up. */
  function Build(version: int, stack: seq<Node>, x: ExportNode): Outcome
  {
    if x.version > version then Refused
    else if x.height == 0 then
      if x.key.None? || x.version <= 0 || x.value.None? then Refused else Added(Leaf(x.key.value, x.value.value, x.version), 0)
    else
      var s := |stack|;
      if s < 2 || Height(stack[s - 1]) >= x.height || Height(stack[s - 2]) >= x.height then Panics   // a child hash is missing
      else if x.key.None? || x.version <= 0 || x.height < 0 || x.value.Some? then Refused
      else
        var l, r := stack[s - 2], stack[s - 1];
        var n := Inner(x.key.value, x.height, Size(l) + Size(r), x.version, l, r);
        if n.size < 1 then Refused else Added(n, 2)
  }

  function Push(stack: seq<Node>, o: Outcome): seq<Node>
    requires o.Added? && o.children <= |stack|
  {
    stack[..|stack| - o.children] + [o.node]
  }

  /** Adding a stream, node after node; None if any of them is refused. */
  function AddAll(version: int, stack: seq<Node>, xs: seq<ExportNode>): Option<seq<Node>>
    decreases |xs|
  {
    if xs == [] then Some(stack)
    else
      var o := Build(version, stack, xs[0]);
      if !o.Added? || o.children > |stack| then None else AddAll(version, Push(stack, o), xs[1..])
  }

  /** A tree that an importer for this version can rebuild. */
  ghost predicate Importable(n: Node, version: int)
  {
    1 <= n.version <= version && Size(n) >= 1 &&
    (n.Inner? ==> n.height > Height(n.left) && n.height > Height(n.right) && n.height > 0 && n.size == Size(n.left) + Size(n.right) &&
                  Importable(n.left, version) && Importable(n.right, version))
  }

  /** Every tree of a store is importable at its own version or any later one. */
  lemma {:induction false} TreesAreImportable(n: Node, version: int)
    requires Avl(n) && forall m :: m in Subnodes(n) ==> 1 <= m.version <= version
    ensures Importable(n, version)
  {
    AvlHeight(n);
    assert n in Subnodes(n);
    if n.Inner? {
      AvlHeight(n.left);
      AvlHeight(n.right);
      TreesAreImportable(n.left, version);
      TreesAreImportable(n.right, version);
    }
  }

  lemma {:induction false} AddAllConcat(version: int, stack: seq<Node>, xs: seq<ExportNode>, ys: seq<ExportNode>)
    ensures AddAll(version, stack, xs + ys) == var r := AddAll(version, stack, xs); if r.None? then None else AddAll(version, r.value, ys)
    decreases |xs|
  {
    hide Build;
    if xs == [] { assert xs + ys == ys; }
    else {
      assert (xs + ys)[0] == xs[0] && (xs + ys)[1..] == xs[1..] + ys;
      var o := Build(version, stack, xs[0]);
      if o.Added? && o.children <= |stack| { AddAllConcat(version, Push(stack, o), xs[1..], ys); }
    }
  }

  lemma AddOne(version: int, stack: seq<Node>, x: ExportNode)
    ensures AddAll(version, stack, [x]) == var o := Build(version, stack, x); if !o.Added? || o.children > |stack| then None else Some(Push(stack, o))
  {
    hide Build;
    var one := [x];
    assert one[0] == x && one[1..] == [];
  }

  /** A node whose children are on top of the stack takes their place. */
  lemma BuildsNode(n: Node, version: int, stack: seq<Node>)
    requires Importable(n, version)
    ensures var s := if n.Leaf? then stack else stack + [n.left] + [n.right];
            AddAll(version, s, [ToExport(n)]) == Some(stack + [n])
  {
    var s := if n.Leaf? then stack else stack + [n.left] + [n.right];
    AddOne(version, s, ToExport(n));
    if n.Leaf? { assert stack[..|stack|] == stack; } else { assert s[..|s| - 2] == stack; }
  }

  /** On top of any stack, the stream of a tree adds that tree. */
  lemma {:induction false} ImportRebuilds(n: Node, version: int, stack: seq<Node>)
    requires Importable(n, version)
    ensures AddAll(version, stack, Export(Some(n))) == Some(stack + [n])
  {
    hide AddAll, Export, ToExport;
    ExportInner(n);
    BuildsNode(n, version, stack);
    if n.Inner? {
      var xl, xr := Export(Some(n.left)), Export(Some(n.right));
      ImportRebuilds(n.left, version, stack);
      ImportRebuilds(n.right, version, stack + [n.left]);
      AddAllConcat(version, stack, xl, xr);
      AddAllConcat(version, stack, xl + xr, [ToExport(n)]);
    }
  }

  function ExportStack(stack: seq<Node>): seq<ExportNode>
  {
    if stack == [] then [] else ExportStack(stack[..|stack| - 1]) + Export(Some(stack[|stack| - 1]))
  }

  ghost predicate AllImportable(stack: seq<Node>, version: int) { forall i :: 0 <= i < |stack| ==> Importable(stack[i], version) }

  lemma ExportStackPush(stack: seq<Node>, n: Node)
    ensures ExportStack(stack + [n]) == ExportStack(stack) + Export(Some(n))
  {
    assert (stack + [n])[..|stack + [n]| - 1] == stack;
  }

  lemma PushImportable(version: int, stack: seq<Node>, x: ExportNode)
    requires AllImportable(stack, version) && Build(version, stack, x).Added?
    ensures var o := Build(version, stack, x); o.children <= |stack| && AllImportable(Push(stack, o), version)
  {
  }

  /** What a node that is added does to the stack. */
  lemma BuildShape(version: int, stack: seq<Node>, x: ExportNode)
    requires Build(version, stack, x).Added?
    ensures var o := Build(version, stack, x);
            o.children <= |stack| && ToExport(o.node) == x &&
            if o.node.Leaf? then Push(stack, o) == stack + [o.node]
            else |stack| >= 2 && Push(stack, o) == stack[..|stack| - 2] + [o.node] &&
                 stack == stack[..|stack| - 2] + [o.node.left] + [o.node.right]
  {
    assert stack[..|stack|] == stack;
  }

  /** The stack stands for the stream so far. */
  lemma PushExports(version: int, stack: seq<Node>, x: ExportNode)
    requires Build(version, stack, x).Added?
    ensures var o := Build(version, stack, x); o.children <= |stack| && ExportStack(Push(stack, o)) == ExportStack(stack) + [x]
  {
    hide ExportStack, Export, Build, Push, ToExport;
    BuildShape(version, stack, x);
    var n := Build(version, stack, x).node;
    ExportInner(n);
    if n.Leaf? { ExportStackPush(stack, n); } else { ExportStackInner(stack[..|stack| - 2], n); }
  }

  lemma ExportStackInner(rest: seq<Node>, n: Node)
    requires n.Inner?
    ensures ExportStack(rest + [n]) == ExportStack(rest + [n.left] + [n.right]) + [ToExport(n)]
  {
    hide ExportStack, T.Walk, AllToExport, ToExport;
    ExportInner(n);
    ExportStackPush(rest, n.left);
    ExportStackPush(rest + [n.left], n.right);
    ExportStackPush(rest, n);
    var a, b, c, d := ExportStack(rest), Export(Some(n.left)), Export(Some(n.right)), [ToExport(n)];
    assert a + (b + c + d) == ((a + b) + c) + d;
  }

  /** Whatever stream is accepted is the export of the subtrees on the stack. */
  lemma {:induction false} AcceptedIsExport(version: int, stack: seq<Node>, xs: seq<ExportNode>)
    requires AllImportable(stack, version) && AddAll(version, stack, xs).Some?
    ensures var r := AddAll(version, stack, xs).value;
            AllImportable(r, version) && ExportStack(r) == ExportStack(stack) + xs
    decreases |xs|
  {
    hide Build, Push, ExportStack;
    if xs == [] {
      assert ExportStack(stack) + [] == ExportStack(stack);
    } else {
      var o := Build(version, stack, xs[0]);
      PushImportable(version, stack, xs[0]);
      PushExports(version, stack, xs[0]);
      AcceptedIsExport(version, Push(stack, o), xs[1..]);
      assert ExportStack(stack) + xs == (ExportStack(stack) + [xs[0]]) + xs[1..];
    }
  }

  /** A stream imports to a tree exactly when it is the export of that tree and the tree is importable. */
  lemma ImportsIffExported(version: int, xs: seq<ExportNode>, n: Node)
    ensures AddAll(version, [], xs) == Some([n]) <==> xs == Export(Some(n)) && Importable(n, version)
  {
    hide AddAll, T.Walk, AllToExport, Importable;
    if AddAll(version, [], xs) == Some([n]) {
      AcceptedIsExport(version, [], xs);
      ExportStackPush([], n);
      assert [] + [n] == [n] && ExportStack([]) == [] && [] + xs == xs;
      assert Importable([n][0], version);
    }
    if xs == Export(Some(n)) && Importable(n, version) {
      ImportRebuilds(n, version, []);
      assert [] + [n] == [n];
    }
  }

  // ---------- in place ----------

  class Importer {
    const version: int
    var stack: seq<Node>
    var batch: set<Node>
    var batchSize: nat
    var db: set<Node>                  // node records written so far
    var root: Option<Option<Hash>>     // the root record, once committed
    var open: bool

    constructor (version: int)
      ensures this.version == version && stack == [] && batch == {} && batchSize == 0 && db == {} && root == None && open
    {
      this.version := version;
      stack, batch, batchSize, db, root, open := [], {}, 0, {}, None, true;
    }

    /** Nothing changes unless the node is added; a batch is written out by the call that fills it, so fewer than 10000 records wait. */
    method Add(x: Option<ExportNode>) returns (o: Outcome)
      modifies this
      ensures o == if !old(open) || x.None? then Refused else Build(version, old(stack), x.value)
      ensures open == old(open) && root == old(root)
      ensures o.Added? ==> o.children <= |old(stack)| && stack == Push(old(stack), o) && db + batch == old(db) + old(batch) + {o.node}
      ensures !o.Added? ==> stack == old(stack) && db == old(db) && batch == old(batch) && batchSize == old(batchSize)
      ensures o.Added? && old(batchSize) < 9999 ==> db == old(db) && batchSize == old(batchSize) + 1
      ensures o.Added? && old(batchSize) >= 9999 ==> batch == {} && batchSize == 0
      ensures old(|batch| <= batchSize < 10000) ==> |batch| <= batchSize < 10000
    {
      if !open || x.None? { return Refused; }
      o := Build(version, stack, x.value);
      if !o.Added? { return; }
      batch := batch + {o.node};
      batchSize := batchSize + 1;
      if batchSize >= MAX_BATCH_SIZE {
        db, batch, batchSize := db + batch, {}, 0;
      }
      stack := stack[..|stack| - o.children] + [o.node];
    }

    method Commit() returns (ok: bool)
      modifies this
      ensures ok <==> old(open) && |old(stack)| <= 1
      ensures ok ==> db == old(db) + old(batch) && !open && root == Some(if old(stack) == [] then None else Some(HashOf(old(stack)[0])))
      ensures !ok ==> db == old(db) && root == old(root)
    {
      if !open || |stack| > 1 { return false; }
      root := Some(if stack == [] then None else Some(HashOf(stack[0])));
      db, batch, open := db + batch, {}, false;
      return true;
    }
  }

  /** Importing an exported tree never fails, and restores its nodes and its root hash. */
  method ExportThenImport(tree: Option<Node>, version: int) returns (imp: Importer, ok: bool)
    requires tree.Some? ==> Importable(tree.value, version)
    ensures ok && fresh(imp) && imp.root == Some(RootHash(tree)) && imp.db == SubnodesOf(tree)
  {
    imp := new Importer(version);
    var xs := Export(tree);
    ExportAccepted(tree, version);
    var i := 0;
    assert xs[0..] == xs;
    hide Build, Push, Export, AddAll, StackNodes, Importable;
    while i < |xs|
      invariant 0 <= i <= |xs| && fresh(imp) && imp.open && imp.version == version && imp.root == None
      invariant AddAll(version, imp.stack, xs[i..]) == Some(if tree.None? then [] else [tree.value])
      invariant AllImportable(imp.stack, version) && imp.db + imp.batch == StackNodes(imp.stack)
    {
      AddFirst(version, imp.stack, xs[i..]);
      assert xs[i..][0] == xs[i] && xs[i..][1..] == xs[i + 1..];
      PushImportable(version, imp.stack, xs[i]);
      PushNodes(version, imp.stack, xs[i]);
      var _ := imp.Add(Some(xs[i]));
      i := i + 1;
    }
    AddNothing(version, imp.stack);
    StackNodesOne(imp.stack);
    ok := imp.Commit();
  }

  lemma ExportAccepted(tree: Option<Node>, version: int)
    requires tree.Some? ==> Importable(tree.value, version)
    ensures AddAll(version, [], Export(tree)) == Some(if tree.None? then [] else [tree.value])
    ensures StackNodes([]) == {}
  {
    if tree.Some? {
      ImportRebuilds(tree.value, version, []);
      assert [] + [tree.value] == [tree.value];
    }
  }

  lemma AddFirst(version: int, stack: seq<Node>, xs: seq<ExportNode>)
    requires xs != [] && AddAll(version, stack, xs).Some?
    ensures var o := Build(version, stack, xs[0]);
            o.Added? && o.children <= |stack| && AddAll(version, stack, xs) == AddAll(version, Push(stack, o), xs[1..])
  {
  }

  lemma AddNothing(version: int, stack: seq<Node>)
    ensures AddAll(version, stack, []) == Some(stack)
  {
  }

  function StackNodes(stack: seq<Node>): set<Node>
  {
    if stack == [] then {} else StackNodes(stack[..|stack| - 1]) + Subnodes(stack[|stack| - 1])
  }

  lemma StackNodesOne(stack: seq<Node>)
    requires |stack| <= 1
    ensures StackNodes(stack) == if stack == [] then {} else Subnodes(stack[0])
  {
  }

  lemma PushNodes(version: int, stack: seq<Node>, x: ExportNode)
    requires Build(version, stack, x).Added? && Build(version, stack, x).children <= |stack|
    ensures var o := Build(version, stack, x); StackNodes(Push(stack, o)) == StackNodes(stack) + {o.node}
  {
    var o := Build(version, stack, x);
    if o.children == 0 {
      assert stack[..|stack|] == stack && Push(stack, o)[..|stack|] == stack;
    } else {
      var rest := stack[..|stack| - 2];
      assert Push(stack, o)[..|rest|] == rest;
      assert stack[..|stack| - 1][..|stack| - 2] == rest;
    }
  }
}
