/** What saving a branch saves: every new node once, and children before their parents. */
module SavedNodes {
  import opened AvlTree
  import opened BranchUpdate
  import O = Orphans
  import MH = MerkleHash
  import WO = WalkOrder

  /** A node in memory and all that is in memory below it. */
  function Parts(m: Mem): set<Mem> { {m} + if m.NewInner? then Parts(m.left) + Parts(m.right) else {} }

  /** The entries are the new nodes, each under its hash. */
  lemma {:induction false} SavedIffNew(m: Mem, e: Entry)
    ensures e in NewNodes(m) <==> e.node in Parts(m) && New(e.node) && e.hash == MemHash(e.node)
  {
    if m.NewInner? {
      SavedIffNew(m.left, e);
      SavedIffNew(m.right, e);
    }
  }

  ghost predicate HashesDiffer(s: seq<Entry>) { forall i, j :: 0 <= i < j < |s| ==> s[i].hash != s[j].hash }

  lemma DifferConcat(s: seq<Entry>, t: seq<Entry>)
    requires HashesDiffer(s) && HashesDiffer(t) && forall e, f :: e in s && f in t ==> e.hash != f.hash
    ensures HashesDiffer(s + t)
  {
    var u := s + t;
    forall i, j | 0 <= i < j < |u| ensures u[i].hash != u[j].hash {
      if j < |s| { assert u[i] == s[i] && u[j] == s[j]; }
      else if i >= |s| { assert u[i] == t[i - |s|] && u[j] == t[j - |s|]; }
      else { assert u[i] == s[i] && u[j] == t[j - |s|]; }
    }
  }

  lemma LeftIsNotRight(m: Mem, n: Node, e: Entry, f: Entry)
    requires m.NewInner? && Represents(m, n) && Ordered(n) && e in NewNodes(m.left) && f in NewNodes(m.right)
    ensures e.hash != f.hash
  {
    var k := EntryOfTree(m.left, n.left, e);
    var l := EntryOfTree(m.right, n.right, f);
    MH.SubnodesOrdered(n.left, k);
    MH.SubnodesOrdered(n.right, l);
    if e.hash == f.hash {
      MH.HashInjective(k, l);
      WO.SidesShareNothing(n, k);
    }
  }

  lemma BelowIsNotRoot(m: Mem, n: Node, e: Entry)
    requires m.NewInner? && Represents(m, n) && Ordered(n) && (e in NewNodes(m.left) || e in NewNodes(m.right))
    ensures e.hash != MemHash(m)
  {
    var k: Node;
    if e in NewNodes(m.left) { k := EntryOfTree(m.left, n.left, e); } else { k := EntryOfTree(m.right, n.right, e); }
    assert k in O.Subnodes(n) && n in O.Subnodes(n);
    MH.SubnodesOrdered(n, k);
    HashOfTree(m, n);
    if e.hash == MemHash(m) {
      MH.HashInjective(k, n);
      WO.NotBelowSelf(n, n);
    }
  }

  /** No hash, and so no node, is saved twice. */
  lemma {:induction false} SavedOnce(m: Mem, n: Node)
    requires Represents(m, n) && Ordered(n)
    ensures HashesDiffer(NewNodes(m))
  {
    if m.NewInner? {
      SavedOnce(m.left, n.left);
      SavedOnce(m.right, n.right);
      var l, r, root := NewNodes(m.left), NewNodes(m.right), [Entry(m, MemHash(m))];
      forall e, f | e in l && f in r ensures e.hash != f.hash { LeftIsNotRight(m, n, e, f); }
      forall e, f | e in l + r && f in root ensures e.hash != f.hash { BelowIsNotRoot(m, n, e); }
      hide NewNodes, HashesDiffer, MemHash;
      DifferConcat(l, r);
      RootAlone(root[0]);
      DifferConcat(l + r, root);
      InnerNodes(m);
    }
  }

  lemma RootAlone(e: Entry)
    ensures HashesDiffer([e])
  {
  }

  lemma InnerNodes(m: Mem)
    requires m.NewInner?
    ensures NewNodes(m) == NewNodes(m.left) + NewNodes(m.right) + [Entry(m, MemHash(m))]
  {
  }

  /** A new child is saved before its parent. */
  lemma {:induction false} ChildrenFirst(m: Mem, i: nat, c: Mem)
    requires i < |NewNodes(m)|
    requires var x := NewNodes(m)[i].node; x.NewInner? && (c == x.left || c == x.right) && New(c)
    ensures Entry(c, MemHash(c)) in NewNodes(m)[..i]
  {
    if m.NewInner? {
      InnerNodes(m);
      hide MemHash, NewNodes;
      var l, r, s := NewNodes(m.left), NewNodes(m.right), NewNodes(m);
      var e := Entry(c, MemHash(c));
      if i < |l| {
        assert s[i] == l[i] && s[..i] == l[..i];
        ChildrenFirst(m.left, i, c);
      } else if i < |l| + |r| {
        assert s[i] == r[i - |l|] && s[..i] == l + r[..i - |l|];
        ChildrenFirst(m.right, i - |l|, c);
      } else {
        assert s[i] == Entry(m, MemHash(m)) && s[..i] == l + r;
        PartOfItself(c);
        SavedIffNew(m.left, e);
        SavedIffNew(m.right, e);
      }
    }
  }

  lemma PartOfItself(m: Mem)
    ensures m in Parts(m)
  {
  }
}
