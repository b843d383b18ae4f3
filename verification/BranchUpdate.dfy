/**
  Hashing and saving the unsaved part of a tree: one after the other, and with
  goroutines that hash the two subtrees bottom up, send their nodes through a
  bounded channel to a collector and leave their results in the parent's fields.
 */
module BranchUpdate {
  import opened Options
  import opened ByteStrings
  import opened AvlTree
  import opened Orphans
  import opened MerkleHash

  const CHANNEL_SIZE := 1024

  /** A node in memory: not loaded, so that only its hash is known, or already saved, or new. */
  datatype Mem =
    | Unloaded(hash: Hash)
    | Saved(hash: Hash)
    | NewLeaf(key: Bytes, value: Bytes, version: int)
    | NewInner(key: Bytes, height: int, size: int, version: int, left: Mem, right: Mem)

  function MemHash(m: Mem): Hash
  {
    match m
    case Unloaded(hash) => hash
    case Saved(hash) => hash
    case NewLeaf(key, value, version) => LeafHash(version, key, value)
    case NewInner(_, height, size, version, left, right) => InnerHash(height, size, version, MemHash(left), MemHash(right))
  }

  predicate New(m: Mem) { m.NewLeaf? || m.NewInner? }

  /** A node as it is saved, under the hash it was given. */
  datatype Entry = Entry(node: Mem, hash: Hash)

  /** The new nodes, children first. */
  function NewNodes(m: Mem): seq<Entry>
  {
    match m
    case Unloaded(_) => []
    case Saved(_) => []
    case NewLeaf(_, _, _) => [Entry(m, MemHash(m))]
    case NewInner(_, _, _, _, left, right) => NewNodes(left) + NewNodes(right) + [Entry(m, MemHash(m))]
  }

  /** The tree that a node in memory stands for. */
  ghost predicate Represents(m: Mem, n: Node)
  {
    match m
    case Unloaded(hash) => hash == HashOf(n)
    case Saved(hash) => hash == HashOf(n)
    case NewLeaf(key, value, version) => n == Leaf(key, value, version)
    case NewInner(key, height, size, version, left, right) =>
      n.Inner? && n.key == key && n.height == height && n.size == size && n.version == version &&
      Represents(left, n.left) && Represents(right, n.right)
  }

  /** The hash is that of the tree. */
  lemma {:induction false} HashOfTree(m: Mem, n: Node)
    requires Represents(m, n)
    ensures MemHash(m) == HashOf(n)
  {
    if m.NewInner? {
      HashOfTree(m.left, n.left);
      HashOfTree(m.right, n.right);
    }
  }

  /** Every entry is a node of the tree under its hash. */
  lemma {:induction false} EntryOfTree(m: Mem, n: Node, e: Entry) returns (k: Node)
    requires Represents(m, n) && e in NewNodes(m)
    ensures k in Subnodes(n) && Represents(e.node, k) && e.hash == HashOf(k)
  {
    if m.NewInner? && e in NewNodes(m.left) {
      k := EntryOfTree(m.left, n.left, e);
    } else if m.NewInner? && e in NewNodes(m.right) {
      k := EntryOfTree(m.right, n.right, e);
    } else {
      k := n;
      HashOfTree(m, n);
    }
  }

  // ---------- one after the other ----------

  /** The pre-persist cache, with the order in which nodes came in. */
  class Cache {
    var saved: seq<Entry>

    constructor ()
      ensures saved == []
    {
      saved := [];
    }

    method UpdateBranch(m: Mem) returns (h: Hash)
      modifies this
      ensures h == MemHash(m) && saved == old(saved) + NewNodes(m)
      decreases m
    {
      if !New(m) {
        assert saved + [] == saved;
        return m.hash;
      }
      ghost var was := saved;
      if m.NewLeaf? {
        h := LeafHash(m.version, m.key, m.value);
      } else {
        var l := UpdateBranch(m.left);
        var r := UpdateBranch(m.right);
        h := InnerHash(m.height, m.size, m.version, l, r);
        assert was + NewNodes(m.left) + NewNodes(m.right) + [Entry(m, h)] == was + (NewNodes(m.left) + NewNodes(m.right) + [Entry(m, h)]);
      }
      saved := saved + [Entry(m, h)];
    }
  }

  // ---------- a goroutine ----------

  type InnerMem = m: Mem | m.NewInner?
    witness NewInner([], 1, 2, 1, Saved(LeafHash(1, [], [])), Saved(LeafHash(1, [], [])))

  /** The calls that wait for the hash of a left or of a right child. */
  datatype Stack = Bottom | InLeft(node: InnerMem, below: Stack) | InRight(node: InnerMem, leftHash: Hash, below: Stack)

  /** updateBranchRoutine: Off before it is started and after it is done. */
  datatype Thread =
    | Off
    | Calling(node: Mem, stack: Stack)
    | Sending(node: Mem, hash: Hash, stack: Stack)
    | Returning(hash: Hash, stack: Stack)
    | Storing(hash: Hash)

  datatype Msg = Item(entry: Entry) | Nil

  predicate Computes(t: Thread) { t.Calling? || (t.Returning? && !t.stack.Bottom?) }

  /** Enters a node, or goes on with the hash of a child. */
  function Compute(t: Thread): Thread
    requires Computes(t)
  {
    if t.Calling? then
      match t.node
      case Unloaded(hash) => Returning(hash, t.stack)
      case Saved(hash) => Returning(hash, t.stack)
      case NewLeaf(key, value, version) => Sending(t.node, LeafHash(version, key, value), t.stack)
      case NewInner(_, _, _, _, left, _) => Calling(left, InLeft(t.node, t.stack))
    else
      var n := t.stack.node;
      if t.stack.InLeft? then Calling(n.right, InRight(n, t.hash, t.stack.below))
      else Sending(n, InnerHash(n.height, n.size, n.version, t.stack.leftHash, t.hash), t.stack.below)
  }

  /** A hashed node is sent, and nil when the outermost call is about to return. */
  predicate Sends(t: Thread) { t.Sending? || (t.Returning? && t.stack.Bottom?) }

  function Message(t: Thread): Msg
    requires Sends(t)
  {
    if t.Sending? then Item(Entry(t.node, t.hash)) else Nil
  }

  function Sent(t: Thread): Thread
    requires Sends(t)
  {
    if t.Sending? then Returning(t.hash, t.stack) else Storing(t.hash)
  }

  // ---------- two goroutines and a collector ----------

  datatype Side = Left | Right

  /** Panicked: a send on a closed channel, or hashing with a child hash that is nil. */
  datatype Pc = Collecting | Closed | Finished(hash: Hash) | Panicked

  datatype State = State(
    pc: Pc,
    left: Thread,
    right: Thread,
    leftHash: Option<Hash>,      // the fields of the node itself
    rightHash: Option<Hash>,
    wg: int,
    chan: seq<(Side, Msg)>,
    got: seq<(Side, Msg)>,       // received so far
    nils: nat,
    saved: seq<Entry>)

  datatype Step = ComputeIn(side: Side) | SendFrom(side: Side) | StoreHash(side: Side) | Receive | Finish

  /** A child pointer that is not nil. */
  function Child(m: Mem, side: Side): Option<Mem>
  {
    if !m.NewInner? then None
    else
      var c := if side.Left? then m.left else m.right;
      if c.Unloaded? then None else Some(c)
  }

  function Needed(m: Mem): nat
  {
    (if Child(m, Left).None? then 0 else 1) + (if Child(m, Right).None? then 0 else 1)
  }

  /** The hash that the field of a side should hold. */
  function ChildHash(m: Mem, side: Side): Hash
    requires m.NewInner?
  {
    MemHash(if side.Left? then m.left else m.right)
  }

  /** The field of a child that is not loaded holds its hash; any other may hold nothing or that of an earlier child. */
  function Field(m: Mem, side: Side, stale: Option<Hash>): Option<Hash>
  {
    if m.NewInner? && Child(m, side).None? then Some(ChildHash(m, side)) else stale
  }

  function Start(c: Option<Mem>): Thread { if c.None? then Off else Calling(c.value, Bottom) }

  function Init(m: Mem, l: Option<Hash>, r: Option<Hash>): State
  {
    State(if !New(m) then Finished(m.hash) else if Needed(m) == 0 then Closed else Collecting,
          Start(Child(m, Left)), Start(Child(m, Right)), Field(m, Left, l), Field(m, Right, r), Needed(m), [], [], 0, [])
  }

  function ThreadOf(s: State, side: Side): Thread { if side.Left? then s.left else s.right }

  function WithThread(s: State, side: Side, t: Thread): State { if side.Left? then s.(left := t) else s.(right := t) }

  /** _hash: from the fields; it panics if a child hash is missing. */
  function HashNow(m: Mem, l: Option<Hash>, r: Option<Hash>): Option<Hash>
    requires New(m)
  {
    if m.NewLeaf? then Some(LeafHash(m.version, m.key, m.value))
    else if l.None? || r.None? then None
    else Some(InnerHash(m.height, m.size, m.version, l.value, r.value))
  }

  predicate Enabled(s: State, step: Step)
  {
    match step
    case ComputeIn(side) => Computes(ThreadOf(s, side))
    case SendFrom(side) => Sends(ThreadOf(s, side)) && |s.chan| < CHANNEL_SIZE
    case StoreHash(side) => ThreadOf(s, side).Storing?
    case Receive => s.pc.Collecting? && s.chan != []
    case Finish => s.pc.Closed? && s.wg == 0
  }

  function Do(m: Mem, s: State, step: Step): State
    requires Enabled(s, step)
  {
    match step
    case ComputeIn(side) => WithThread(s, side, Compute(ThreadOf(s, side)))
    case SendFrom(side) =>
      if !s.pc.Collecting? then s.(pc := Panicked)
      else WithThread(s, side, Sent(ThreadOf(s, side))).(chan := s.chan + [(side, Message(ThreadOf(s, side)))])
    case StoreHash(side) =>
      var h := Some(ThreadOf(s, side).hash);
      WithThread(if side.Left? then s.(leftHash := h) else s.(rightHash := h), side, Off).(wg := s.wg - 1)
    case Receive =>
      var x := s.chan[0];
      var t := s.(chan := s.chan[1..], got := s.got + [x]);
      if x.1.Nil? then t.(nils := s.nils + 1, pc := if s.nils + 1 == Needed(m) then Closed else Collecting)
      else t.(saved := s.saved + [x.1.entry])
    case Finish =>
      var h := if New(m) then HashNow(m, s.leftHash, s.rightHash) else None;
      if h.None? then s.(pc := Panicked) else s.(pc := Finished(h.value), saved := s.saved + [Entry(m, h.value)])
  }

  predicate Reaches(m: Mem, s: State, steps: seq<Step>, t: State)
    decreases |steps|
  {
    if steps == [] then s == t else Enabled(s, steps[0]) && Reaches(m, Do(m, s, steps[0]), steps[1..], t)
  }

  // ---------- what a goroutine has still to send and to return ----------

  function Items(s: seq<Entry>): (r: seq<Msg>)
    ensures |r| == |s|
  {
    seq(|s|, i requires 0 <= i < |s| => Item(s[i]))
  }

  /** The hash that the outermost call returns, once h is returned to the innermost. */
  function Up(stack: Stack, h: Hash): Hash
  {
    match stack
    case Bottom => h
    case InLeft(n, below) => Up(below, InnerHash(n.height, n.size, n.version, h, MemHash(n.right)))
    case InRight(n, l, below) => Up(below, InnerHash(n.height, n.size, n.version, l, h))
  }

  function Later(stack: Stack, h: Hash): seq<Msg>
  {
    match stack
    case Bottom => [Nil]
    case InLeft(n, below) =>
      var x := InnerHash(n.height, n.size, n.version, h, MemHash(n.right));
      Items(NewNodes(n.right)) + ([Item(Entry(n, x))] + Later(below, x))
    case InRight(n, l, below) =>
      var x := InnerHash(n.height, n.size, n.version, l, h);
      [Item(Entry(n, x))] + Later(below, x)
  }

  function Result(t: Thread): Hash
    requires !t.Off?
  {
    match t
    case Calling(n, stack) => Up(stack, MemHash(n))
    case Sending(_, h, stack) => Up(stack, h)
    case Returning(h, stack) => Up(stack, h)
    case Storing(h) => h
  }

  function Pending(t: Thread): seq<Msg>
  {
    match t
    case Calling(n, stack) => Items(NewNodes(n)) + Later(stack, MemHash(n))
    case Sending(n, h, stack) => [Item(Entry(n, h))] + Later(stack, h)
    case Returning(h, stack) => Later(stack, h)
    case _ => []
  }

  lemma ItemsConcat(a: seq<Entry>, b: seq<Entry>, c: seq<Msg>)
    ensures Items(a + b) + c == Items(a) + (Items(b) + c)
  {
  }

  /** Entering an inner node: its nodes are those on the left, those on the right, and the node. */
  lemma InnerItems(n: InnerMem, c: seq<Msg>)
    ensures Items(NewNodes(n)) + c == Items(NewNodes(n.left)) + (Items(NewNodes(n.right)) + ([Item(Entry(n, MemHash(n)))] + c))
  {
    var e := Entry(n, MemHash(n));
    ItemsConcat(NewNodes(n.left) + NewNodes(n.right), [e], c);
    ItemsConcat(NewNodes(n.left), NewNodes(n.right), Items([e]) + c);
    assert Items([e]) == [Item(e)];
  }

  /** Computing changes neither what will be sent nor what will be returned. */
  lemma ComputeKeepsPromise(t: Thread)
    requires Computes(t)
    ensures !Compute(t).Off? && Pending(Compute(t)) == Pending(t) && Result(Compute(t)) == Result(t)
  {
    hide Items;
    if t.Calling? && t.node.NewInner? {
      InnerItems(t.node, Later(t.stack, MemHash(t.node)));
    } else if t.Calling? && t.node.NewLeaf? {
      assert Items([Entry(t.node, MemHash(t.node))]) == [Item(Entry(t.node, MemHash(t.node)))] by { OneItem(Entry(t.node, MemHash(t.node))); }
    } else if t.Calling? {
      NoItems(Later(t.stack, MemHash(t.node)));
    }
  }

  lemma OneItem(e: Entry)
    ensures Items([e]) == [Item(e)]
  {
  }

  lemma NoItems(c: seq<Msg>)
    ensures Items([]) + c == c
  {
  }

  lemma SendingTakesFirst(t: Thread)
    requires Sends(t)
    ensures Pending(t) == [Message(t)] + Pending(Sent(t)) && Result(Sent(t)) == Result(t)
  {
  }

  lemma NothingPending(t: Thread)
    ensures Pending(t) == [] <==> t.Off? || t.Storing?
  {
  }

  // ---------- the invariant ----------

  /** The messages of one side, in order. */
  function Of(side: Side, s: seq<(Side, Msg)>): seq<Msg>
  {
    if s == [] then [] else if s[0].0 == side then [s[0].1] + Of(side, s[1..]) else Of(side, s[1..])
  }

  function Nils(s: seq<Msg>): nat { if s == [] then 0 else (if s[0].Nil? then 1 else 0) + Nils(s[1..]) }

  function NodesIn(s: seq<Msg>): multiset<Entry>
  {
    if s == [] then multiset{} else (if s[0].Nil? then multiset{} else multiset{s[0].entry}) + NodesIn(s[1..])
  }

  /** All that the goroutine of a child sends: the new nodes under their hashes, and nil. */
  function Messages(child: Option<Mem>): seq<Msg> { if child.None? then [] else Items(NewNodes(child.value)) + [Nil] }

  /** Sent and unsent messages of a side are what it has to send. */
  predicate SideOk(m: Mem, s: State, side: Side)
  {
    Of(side, s.got) + Of(side, s.chan) + Pending(ThreadOf(s, side)) == Messages(Child(m, side))
  }

  function HashField(s: State, side: Side): Option<Hash> { if side.Left? then s.leftHash else s.rightHash }

  /** A goroutine will store the child's hash; when there is none, or it is done, the field holds it. */
  predicate HashOk(m: Mem, s: State, side: Side)
  {
    var t := ThreadOf(s, side);
    if t.Off? then m.NewInner? ==> HashField(s, side) == Some(ChildHash(m, side))
    else m.NewInner? && Result(t) == ChildHash(m, side)
  }

  function Running(s: State): nat { (if s.left.Off? then 0 else 1) + (if s.right.Off? then 0 else 1) }

  /** The node itself, once it is saved. */
  function Own(m: Mem, s: State): multiset<Entry>
  {
    if New(m) && s.pc.Finished? then multiset{Entry(m, MemHash(m))} else multiset{}
  }

  predicate Counts(m: Mem, s: State)
  {
    s.nils == Nils(Of(Left, s.got)) + Nils(Of(Right, s.got)) &&
    multiset(s.saved) == NodesIn(Of(Left, s.got)) + NodesIn(Of(Right, s.got)) + Own(m, s)
  }

  predicate Inv(m: Mem, s: State)
  {
    SideOk(m, s, Left) && SideOk(m, s, Right) && HashOk(m, s, Left) && HashOk(m, s, Right) && s.wg == Running(s) &&
    !s.pc.Panicked? && Counts(m, s) && (New(m) || s.pc.Finished?) &&
    (if s.pc.Collecting? then s.nils < Needed(m) else s.nils == Needed(m)) &&
    (s.pc.Finished? ==> s.pc.hash == MemHash(m))
  }

  lemma {:induction false} OfMore(side: Side, s: seq<(Side, Msg)>, x: (Side, Msg))
    ensures Of(side, s + [x]) == if x.0 == side then Of(side, s) + [x.1] else Of(side, s)
  {
    if s == [] {
      assert s + [x] == [x] && [x][1..] == [];
    } else {
      assert (s + [x])[0] == s[0] && (s + [x])[1..] == s[1..] + [x];
      OfMore(side, s[1..], x);
    }
  }

  lemma {:induction false} CountsMore(s: seq<Msg>, x: Msg)
    ensures Nils(s + [x]) == Nils(s) + (if x.Nil? then 1 else 0)
    ensures NodesIn(s + [x]) == NodesIn(s) + (if x.Nil? then multiset{} else multiset{x.entry})
  {
    if s == [] {
      assert s + [x] == [x] && [x][1..] == [];
    } else {
      assert (s + [x])[0] == s[0] && (s + [x])[1..] == s[1..] + [x];
      CountsMore(s[1..], x);
    }
  }

  lemma {:induction false} ItemsCount(s: seq<Entry>)
    ensures Nils(Items(s)) == 0 && NodesIn(Items(s)) == multiset(s)
  {
    if s != [] {
      assert Items(s)[0] == Item(s[0]) && Items(s)[1..] == Items(s[1..]);
      ItemsCount(s[1..]);
      assert s == [s[0]] + s[1..];
    }
  }

  /** A goroutine sends nil once, at the end: a beginning of its messages holds the nil only if it is all of them. */
  lemma MessagesEnd(child: Option<Mem>, a: seq<Msg>, b: seq<Msg>)
    requires a + b == Messages(child)
    ensures Nils(a) == if child.None? || b != [] then 0 else 1
  {
    hide Items, NewNodes;
    if child.None? {
      assert a == [];
    } else {
      ItemsCount(NewNodes(child.value));
      NilAtEnd(Items(NewNodes(child.value)), a, b);
    }
  }

  lemma NilAtEnd(items: seq<Msg>, a: seq<Msg>, b: seq<Msg>)
    requires Nils(items) == 0 && a + b == items + [Nil]
    ensures Nils(a) == if b != [] then 0 else 1
  {
    hide Nils;
    CountsMore(items, Nil);
    if b == [] {
      assert a == items + [Nil];
    } else {
      assert a == (a + b)[..|a|] == items[..|a|];
      NoNilsBefore(items, |a|);
    }
  }

  lemma MessagesNodes(child: Option<Mem>)
    ensures NodesIn(Messages(child)) == if child.None? then multiset{} else multiset(NewNodes(child.value))
  {
    if child.Some? {
      ItemsCount(NewNodes(child.value));
      CountsMore(Items(NewNodes(child.value)), Nil);
    }
  }

  lemma {:induction false} NoNilsBefore(s: seq<Msg>, i: nat)
    requires i <= |s| && Nils(s) == 0
    ensures Nils(s[..i]) == 0
  {
    if i > 0 {
      assert s[..i][0] == s[0] && s[..i][1..] == s[1..][..i - 1];
      NoNilsBefore(s[1..], i - 1);
    }
  }

  /** One side: its nil is in exactly when nothing is left of it. */
  lemma SideNils(m: Mem, s: State, side: Side)
    requires SideOk(m, s, side)
    ensures Nils(Of(side, s.got)) ==
            if Child(m, side).None? || Of(side, s.chan) != [] || Pending(ThreadOf(s, side)) != [] then 0 else 1
    ensures Child(m, side).None? ==> Of(side, s.chan) == [] && Pending(ThreadOf(s, side)) == []
    ensures Of(side, s.chan) == [] && Pending(ThreadOf(s, side)) == [] ==> Of(side, s.got) == Messages(Child(m, side))
  {
    hide Messages, Nils, Of, Pending, Child;
    var a, b, c := Of(side, s.got), Of(side, s.chan), Pending(ThreadOf(s, side));
    assert a + (b + c) == a + b + c;
    if Child(m, side).None? { assert Messages(Child(m, side)) == [] by { NoMessages(Child(m, side)); } }
    MessagesEnd(Child(m, side), a, b + c);
    assert b + c == [] <==> b == [] && c == [];
    assert a + [] + [] == a;
  }

  lemma NoMessages(c: Option<Mem>)
    ensures c.None? ==> Messages(c) == []
  {
  }

  /** Once all nils are in, nothing is left to send or to receive. */
  lemma AllReceived(m: Mem, s: State)
    requires SideOk(m, s, Left) && SideOk(m, s, Right)
    requires Nils(Of(Left, s.got)) + Nils(Of(Right, s.got)) == Needed(m)
    ensures s.chan == [] && (s.left.Off? || s.left.Storing?) && (s.right.Off? || s.right.Storing?)
    ensures Of(Left, s.got) == Messages(Child(m, Left)) && Of(Right, s.got) == Messages(Child(m, Right))
  {
    hide Messages, Nils, Of, Pending, Child, SideOk;
    SideNils(m, s, Left);
    SideNils(m, s, Right);
    NothingPending(s.left);
    NothingPending(s.right);
    EmptySides(s.chan);
  }

  lemma EmptySides(s: seq<(Side, Msg)>)
    ensures s != [] ==> Of(Left, s) != [] || Of(Right, s) != []
  {
    if s != [] { assert s[0].0 == Left || s[0].0 == Right; }
  }

  // ---------- every step keeps it ----------

  lemma InitOk(m: Mem, l: Option<Hash>, r: Option<Hash>)
    ensures Inv(m, Init(m, l, r))
  {
    hide Items, NewNodes;
    var s := Init(m, l, r);
    assert [] + [] + Pending(s.left) == Messages(Child(m, Left)) && [] + [] + Pending(s.right) == Messages(Child(m, Right));
  }

  lemma ComputeKeeps(m: Mem, s: State, side: Side)
    requires Inv(m, s) && Enabled(s, ComputeIn(side))
    ensures Inv(m, Do(m, s, ComputeIn(side)))
  {
    hide Of, Nils, NodesIn, Messages, Pending, Result, Compute, Child, Needed;
    ComputeKeepsPromise(ThreadOf(s, side));
  }

  lemma SendKeeps(m: Mem, s: State, side: Side)
    requires Inv(m, s) && Enabled(s, SendFrom(side))
    ensures Inv(m, Do(m, s, SendFrom(side)))
  {
    hide SideOk, Of, Nils, NodesIn, Result, Pending, Needed;
    if !s.pc.Collecting? { AllReceived(m, s); }
    else {
      SendKeepsSide(m, s, side, Left);
      SendKeepsSide(m, s, side, Right);
      SendingTakesFirst(ThreadOf(s, side));
    }
  }

  lemma SendKeepsSide(m: Mem, s: State, side: Side, k: Side)
    requires s.pc.Collecting? && Enabled(s, SendFrom(side)) && SideOk(m, s, k)
    ensures SideOk(m, Do(m, s, SendFrom(side)), k)
  {
    hide Of, Messages, Pending;
    var t := ThreadOf(s, side);
    OfMore(k, s.chan, (side, Message(t)));
    if k == side {
      SendingTakesFirst(t);
      MoveOne(Of(side, s.got), Of(side, s.chan), Message(t), Pending(Sent(t)));
    }
  }

  lemma MoveOne(a: seq<Msg>, b: seq<Msg>, x: Msg, q: seq<Msg>)
    ensures a + (b + [x]) + q == a + b + ([x] + q)
  {
  }

  lemma StoreKeeps(m: Mem, s: State, side: Side)
    requires Inv(m, s) && Enabled(s, StoreHash(side))
    ensures Inv(m, Do(m, s, StoreHash(side)))
  {
    hide Of, Nils, NodesIn, Messages, Child, Needed;
  }

  lemma ReceiveKeepsSide(m: Mem, s: State, k: Side)
    requires Enabled(s, Receive) && SideOk(m, s, k)
    ensures SideOk(m, Do(m, s, Receive), k)
  {
    hide Of, Messages, Needed, Pending, Child;
    var x, t := s.chan[0], Do(m, s, Receive);
    assert t.got == s.got + [x] && t.chan == s.chan[1..] && ThreadOf(t, k) == ThreadOf(s, k);
    hide Do;
    OfMore(k, s.got, x);
    OfFirst(k, s.chan);
    if x.0 == k { TakeOne(Of(k, s.got), x.1, Of(k, s.chan[1..]), Pending(ThreadOf(s, k))); }
  }

  lemma TakeOne(a: seq<Msg>, x: Msg, b: seq<Msg>, q: seq<Msg>)
    ensures (a + [x]) + b + q == a + ([x] + b) + q
  {
    assert (a + [x]) + b == a + ([x] + b);
  }

  lemma ReceiveCounts(m: Mem, s: State)
    requires Counts(m, s) && Enabled(s, Receive)
    ensures Counts(m, Do(m, s, Receive))
  {
    hide Of, Nils, NodesIn, Needed;
    var x := s.chan[0];
    OfMore(Left, s.got, x);
    OfMore(Right, s.got, x);
    CountsMore(Of(x.0, s.got), x.1);
    var t := Do(m, s, Receive);
    var more := if x.1.Nil? then multiset{} else multiset{x.1.entry};
    assert Own(m, t) == Own(m, s) && multiset(t.saved) == multiset(s.saved) + more;
    hide Own, Do;
    Regroup(NodesIn(Of(Left, s.got)), NodesIn(Of(Right, s.got)), Own(m, s), more);
  }

  lemma Regroup(a: multiset<Entry>, b: multiset<Entry>, c: multiset<Entry>, x: multiset<Entry>)
    ensures a + b + c + x == (a + x) + b + c == a + (b + x) + c && a + multiset{} == a && b + multiset{} == b
  {
  }

  lemma ReceiveKeeps(m: Mem, s: State)
    requires Inv(m, s) && Enabled(s, Receive)
    ensures Inv(m, Do(m, s, Receive))
  {
    hide SideOk, Of, Nils, NodesIn, Result, Needed;
    ReceiveKeepsSide(m, s, Left);
    ReceiveKeepsSide(m, s, Right);
    ReceiveCounts(m, s);
    NilsBounded(m, Do(m, s, Receive));
  }

  lemma OfFirst(side: Side, s: seq<(Side, Msg)>)
    requires s != []
    ensures Of(side, s) == if s[0].0 == side then [s[0].1] + Of(side, s[1..]) else Of(side, s[1..])
  {
  }

  lemma NilsBounded(m: Mem, s: State)
    requires SideOk(m, s, Left) && SideOk(m, s, Right)
    ensures Nils(Of(Left, s.got)) + Nils(Of(Right, s.got)) <= Needed(m)
  {
    hide SideOk, Nils, Of, Pending, Child;
    SideNils(m, s, Left);
    SideNils(m, s, Right);
  }

  /** Waiting for the goroutines makes both fields hold the hashes of the children. */
  lemma FinishKeeps(m: Mem, s: State)
    requires Inv(m, s) && Enabled(s, Finish)
    ensures Inv(m, Do(m, s, Finish))
  {
    hide SideOk, Counts, Result, Needed;
    assert s.left.Off? && s.right.Off?;
    assert HashNow(m, s.leftHash, s.rightHash) == Some(MemHash(m));
    var t := Do(m, s, Finish);
    SameSide(m, s, t, Left);
    SameSide(m, s, t, Right);
    FinishCounts(m, s, t);
    hide Do, MemHash, HashNow;
    assert t.nils == s.nils;
  }

  lemma SameSide(m: Mem, s: State, t: State, side: Side)
    requires SideOk(m, s, side) && t.got == s.got && t.chan == s.chan && ThreadOf(t, side) == ThreadOf(s, side)
    ensures SideOk(m, t, side)
  {
    hide Of, Pending, Messages, Child;
  }

  lemma FinishCounts(m: Mem, s: State, t: State)
    requires Counts(m, s) && New(m) && !s.pc.Finished? && t.pc.Finished?
    requires t.got == s.got && t.nils == s.nils && t.saved == s.saved + [Entry(m, MemHash(m))]
    ensures Counts(m, t)
  {
    hide Of, Nils, NodesIn, MemHash;
    var e := multiset{Entry(m, MemHash(m))};
    assert multiset(t.saved) == multiset(s.saved) + e && Own(m, s) == multiset{} && Own(m, t) == e;
    hide Own;
  }

  lemma StepKeeps(m: Mem, s: State, step: Step)
    requires Inv(m, s) && Enabled(s, step)
    ensures Inv(m, Do(m, s, step))
  {
    hide Inv, Do;
    match step
    case ComputeIn(side) => ComputeKeeps(m, s, side);
    case SendFrom(side) => SendKeeps(m, s, side);
    case StoreHash(side) => StoreKeeps(m, s, side);
    case Receive => ReceiveKeeps(m, s);
    case Finish => FinishKeeps(m, s);
  }

  lemma {:induction false} RunKeeps(m: Mem, s: State, steps: seq<Step>, t: State)
    requires Inv(m, s) && Reaches(m, s, steps, t)
    ensures Inv(m, t)
    decreases |steps|
  {
    hide Inv, Enabled, Do;
    if steps != [] {
      StepKeeps(m, s, steps[0]);
      RunKeeps(m, Do(m, s, steps[0]), steps[1..], t);
    }
  }

  // ---------- main results ----------

  /** The collector has consumed every message when it closes the channel, and no goroutine sends afterwards. */
  lemma ClosedIsDrained(m: Mem, l: Option<Hash>, r: Option<Hash>, steps: seq<Step>, s: State)
    requires Reaches(m, Init(m, l, r), steps, s) && !s.pc.Collecting?
    ensures !s.pc.Panicked? && s.chan == [] && !Sends(s.left) && !Sends(s.right)
  {
    hide Reaches;
    InitOk(m, l, r);
    RunKeeps(m, Init(m, l, r), steps, s);
    NoMoreSends(m, s);
  }

  lemma NoMoreSends(m: Mem, s: State)
    requires Inv(m, s) && !s.pc.Collecting?
    ensures !s.pc.Panicked? && s.chan == [] && !Sends(s.left) && !Sends(s.right)
  {
    hide SideOk, HashOk, Of, Nils, NodesIn, Needed, Messages, Own;
    AllReceived(m, s);
  }

  /**
    Whatever the interleaving and whatever the fields held before, the hash that is computed from the
    stored child hashes is that of the sequential update, and each new node is saved once, under its hash.
   */
  lemma SameAsSequential(m: Mem, l: Option<Hash>, r: Option<Hash>, steps: seq<Step>, s: State)
    requires Reaches(m, Init(m, l, r), steps, s) && s.pc.Finished?
    ensures s.pc.hash == MemHash(m) && multiset(s.saved) == multiset(NewNodes(m))
  {
    hide Reaches;
    InitOk(m, l, r);
    RunKeeps(m, Init(m, l, r), steps, s);
    FinishedIsSequential(m, s);
  }

  lemma FinishedIsSequential(m: Mem, s: State)
    requires Inv(m, s) && s.pc.Finished?
    ensures s.pc.hash == MemHash(m) && multiset(s.saved) == multiset(NewNodes(m))
  {
    AllReceived(m, s);
    MessagesNodes(Child(m, Left));
    MessagesNodes(Child(m, Right));
    hide Messages, Nils, NodesIn, Of, SideOk;
    if m.NewInner? { assert NewNodes(m) == NewNodes(m.left) + NewNodes(m.right) + [Entry(m, MemHash(m))]; }
  }

  /** Until the update is finished some step can be taken. */
  lemma NeverStuck(m: Mem, l: Option<Hash>, r: Option<Hash>, steps: seq<Step>, s: State)
    requires Reaches(m, Init(m, l, r), steps, s) && !s.pc.Finished?
    ensures exists step :: Enabled(s, step)
  {
    hide Reaches;
    InitOk(m, l, r);
    RunKeeps(m, Init(m, l, r), steps, s);
    SomeStep(m, s);
  }

  lemma SomeStep(m: Mem, s: State)
    requires Inv(m, s) && !s.pc.Finished?
    ensures exists step :: Enabled(s, step)
  {
    hide SideOk, Of, Nils, NodesIn, Result, Needed;
    if s.chan != [] && s.pc.Collecting? {
      assert Enabled(s, Receive);
    } else {
      if s.chan != [] { AllReceived(m, s); }
      if s.left.Off? && s.right.Off? {
        if s.pc.Collecting? { NothingLeft(m, s); }
        assert Enabled(s, Finish);
      } else {
        ThreadMoves(s, if s.left.Off? then Right else Left);
      }
    }
  }

  lemma ThreadMoves(s: State, side: Side)
    requires s.chan == [] && !ThreadOf(s, side).Off?
    ensures exists step :: Enabled(s, step)
  {
    var t := ThreadOf(s, side);
    if Computes(t) { assert Enabled(s, ComputeIn(side)); }
    else if Sends(t) { assert Enabled(s, SendFrom(side)); }
    else { assert Enabled(s, StoreHash(side)); }
  }

  lemma NothingLeft(m: Mem, s: State)
    requires SideOk(m, s, Left) && SideOk(m, s, Right) && s.chan == [] && s.left.Off? && s.right.Off?
    ensures Nils(Of(Left, s.got)) + Nils(Of(Right, s.got)) == Needed(m)
  {
    SideNils(m, s, Left);
    SideNils(m, s, Right);
    hide SideOk, Nils;
  }

  // ---------- it ends ----------

  /** Steps until a call on the node returns; a send counts twice, because the message is also received. */
  function Effort(m: Mem): nat
  {
    match m
    case Unloaded(_) => 1
    case Saved(_) => 1
    case NewLeaf(_, _, _) => 3
    case NewInner(_, _, _, _, left, right) => Effort(left) + Effort(right) + 5
  }

  function StackEffort(stack: Stack): nat
  {
    match stack
    case Bottom => 3
    case InLeft(n, below) => Effort(n.right) + 4 + StackEffort(below)
    case InRight(_, _, below) => 3 + StackEffort(below)
  }

  function ThreadEffort(t: Thread): nat
  {
    match t
    case Off => 0
    case Calling(n, stack) => Effort(n) + StackEffort(stack)
    case Sending(_, _, stack) => 2 + StackEffort(stack)
    case Returning(_, stack) => StackEffort(stack)
    case Storing(_) => 1
  }

  function Measure(s: State): nat
  {
    ThreadEffort(s.left) + ThreadEffort(s.right) + |s.chan| + (if s.pc.Collecting? then 2 else if s.pc.Closed? then 1 else 0)
  }

  /** Every step brings the update nearer to its end. */
  lemma StepsDecrease(m: Mem, s: State, step: Step)
    requires Inv(m, s) && Enabled(s, step)
    ensures Measure(Do(m, s, step)) < Measure(s)
  {
    hide Inv, Needed, HashNow, ThreadEffort, Compute, Sent, Message;
    match step
    case ComputeIn(side) => ComputeIsEffort(ThreadOf(s, side));
    case SendFrom(side) =>
      if !s.pc.Collecting? { NoMoreSends(m, s); }
      SendIsEffort(ThreadOf(s, side));
    case StoreHash(side) => StoreIsEffort(ThreadOf(s, side));
    case _ =>
  }

  lemma ComputeIsEffort(t: Thread)
    requires Computes(t)
    ensures ThreadEffort(Compute(t)) < ThreadEffort(t)
  {
  }

  lemma SendIsEffort(t: Thread)
    requires Sends(t)
    ensures ThreadEffort(Sent(t)) + 2 <= ThreadEffort(t)
  {
  }

  lemma StoreIsEffort(t: Thread)
    requires t.Storing?
    ensures ThreadEffort(Off) < ThreadEffort(t)
  {
  }

  // ---------- both children at the same time ----------

  /** updateBranchMoreConcurrency runs updateBranchConcurrency on each child; Idle before and after. */
  datatype Branch = Idle | Busy(s: State)

  datatype TopPc = Waiting | Ready(hash: Hash) | Crashed

  /** The two updates share only the locked cache. */
  datatype TopState = TopState(
    pc: TopPc,
    left: Branch,
    right: Branch,
    leftHash: Option<Hash>,
    rightHash: Option<Hash>,
    wg: int,
    saved: seq<Entry>)

  datatype TopStep = Inside(side: Side, step: Step) | StoreBranch(side: Side) | Join

  function StartBranch(c: Option<Mem>, l: Option<Hash>, r: Option<Hash>): Branch
  {
    if c.None? then Idle else Busy(Init(c.value, l, r))
  }

  /** What the fields of the node and of its children held before. */
  datatype Stale = Stale(l: Option<Hash>, r: Option<Hash>, ll: Option<Hash>, lr: Option<Hash>, rl: Option<Hash>, rr: Option<Hash>)

  function TopInit(m: Mem, z: Stale): TopState
  {
    TopState(if New(m) then Waiting else Ready(m.hash),
             StartBranch(Child(m, Left), z.ll, z.lr), StartBranch(Child(m, Right), z.rl, z.rr),
             Field(m, Left, z.l), Field(m, Right, z.r), Needed(m), [])
  }

  function BranchOf(t: TopState, side: Side): Branch { if side.Left? then t.left else t.right }

  function WithBranch(t: TopState, side: Side, b: Branch): TopState { if side.Left? then t.(left := b) else t.(right := b) }

  predicate TopEnabled(m: Mem, t: TopState, step: TopStep)
  {
    match step
    case Inside(side, inner) => Child(m, side).Some? && BranchOf(t, side).Busy? && Enabled(BranchOf(t, side).s, inner)
    case StoreBranch(side) => BranchOf(t, side).Busy? && BranchOf(t, side).s.pc.Finished?
    case Join => t.pc.Waiting? && t.wg == 0
  }

  /** The entries that one step saves. */
  function NewlySaved(before: State, after: State): seq<Entry>
  {
    if |before.saved| <= |after.saved| then after.saved[|before.saved|..] else []
  }

  function TopDo(m: Mem, t: TopState, step: TopStep): TopState
    requires TopEnabled(m, t, step)
  {
    match step
    case Inside(side, inner) =>
      var s := BranchOf(t, side).s;
      var s' := Do(Child(m, side).value, s, inner);
      WithBranch(t, side, Busy(s')).(saved := t.saved + NewlySaved(s, s'), pc := if s'.pc.Panicked? then Crashed else t.pc)
    case StoreBranch(side) =>
      var h := Some(BranchOf(t, side).s.pc.hash);
      WithBranch(if side.Left? then t.(leftHash := h) else t.(rightHash := h), side, Idle).(wg := t.wg - 1)
    case Join =>
      var h := if New(m) then HashNow(m, t.leftHash, t.rightHash) else None;
      if h.None? then t.(pc := Crashed) else t.(pc := Ready(h.value), saved := t.saved + [Entry(m, h.value)])
  }

  predicate TopReaches(m: Mem, t: TopState, steps: seq<TopStep>, u: TopState)
    decreases |steps|
  {
    if steps == [] then t == u else TopEnabled(m, t, steps[0]) && TopReaches(m, TopDo(m, t, steps[0]), steps[1..], u)
  }

  function TopField(t: TopState, side: Side): Option<Hash> { if side.Left? then t.leftHash else t.rightHash }

  predicate BranchOk(m: Mem, t: TopState, side: Side)
  {
    var b := BranchOf(t, side);
    if b.Idle? then m.NewInner? ==> TopField(t, side) == Some(ChildHash(m, side))
    else Child(m, side).Some? && Inv(Child(m, side).value, b.s)
  }

  function SavedBy(c: Option<Mem>, b: Branch): multiset<Entry>
  {
    if b.Busy? then multiset(b.s.saved) else if c.None? then multiset{} else multiset(NewNodes(c.value))
  }

  function TopOwn(m: Mem, t: TopState): multiset<Entry>
  {
    if New(m) && t.pc.Ready? then multiset{Entry(m, MemHash(m))} else multiset{}
  }

  predicate TopSaved(m: Mem, t: TopState)
  {
    multiset(t.saved) == SavedBy(Child(m, Left), t.left) + SavedBy(Child(m, Right), t.right) + TopOwn(m, t)
  }

  function BusyBranches(t: TopState): nat { (if t.left.Idle? then 0 else 1) + (if t.right.Idle? then 0 else 1) }

  predicate TopInv(m: Mem, t: TopState)
  {
    BranchOk(m, t, Left) && BranchOk(m, t, Right) && t.wg == BusyBranches(t) && !t.pc.Crashed? && TopSaved(m, t) &&
    (New(m) || t.pc.Ready?) && (t.pc.Ready? ==> t.wg == 0 && t.pc.hash == MemHash(m))
  }

  lemma TopInitOk(m: Mem, z: Stale)
    ensures TopInv(m, TopInit(m, z))
  {
    hide Inv;
    if Child(m, Left).Some? { InitOk(Child(m, Left).value, z.ll, z.lr); }
    if Child(m, Right).Some? { InitOk(Child(m, Right).value, z.rl, z.rr); }
    assert m.NewInner? && Child(m, Left).None? ==> NewNodes(m.left) == [];
  }

  /** A step only appends to what is saved. */
  lemma SavedGrows(m: Mem, s: State, step: Step)
    requires Enabled(s, step)
    ensures var s' := Do(m, s, step); s'.saved == s.saved + NewlySaved(s, s')
  {
    hide Compute, Sent, Message, Needed, HashNow;
    var s' := Do(m, s, step);
    assert s.saved + [] == s.saved;
  }

  lemma InsideSaves(m: Mem, t: TopState, side: Side, step: Step)
    requires TopSaved(m, t) && TopEnabled(m, t, Inside(side, step)) && !Do(Child(m, side).value, BranchOf(t, side).s, step).pc.Panicked?
    ensures TopSaved(m, TopDo(m, t, Inside(side, step)))
  {
    hide Do, NewNodes, Child, NewlySaved, Enabled;
    var c, s := Child(m, side).value, BranchOf(t, side).s;
    SavedGrows(c, s, step);
    var s', u := Do(c, s, step), TopDo(m, t, Inside(side, step));
    var more := NewlySaved(s, s');
    assert TopOwn(m, u) == TopOwn(m, t);
    assert multiset(u.saved) == multiset(t.saved) + multiset(more);
    assert multiset(s'.saved) == multiset(s.saved) + multiset(more);
    hide TopOwn;
    Regroup(SavedBy(Child(m, Left), t.left), SavedBy(Child(m, Right), t.right), TopOwn(m, t), multiset(more));
  }

  lemma BusyKeeps(m: Mem, t: TopState, side: Side, s: State, u: TopState)
    requires TopInv(m, t) && BranchOf(t, side).Busy? && Child(m, side).Some? && Inv(Child(m, side).value, s)
    requires u == WithBranch(t, side, Busy(s)).(saved := u.saved) && TopSaved(m, u)
    ensures TopInv(m, u)
  {
    hide Inv, Child, TopSaved;
  }

  lemma InsideKeeps(m: Mem, t: TopState, side: Side, step: Step)
    requires TopInv(m, t) && TopEnabled(m, t, Inside(side, step))
    ensures TopInv(m, TopDo(m, t, Inside(side, step)))
  {
    hide Inv, Do, Child, NewlySaved, Enabled, TopSaved;
    var c, s := Child(m, side).value, BranchOf(t, side).s;
    StepKeeps(c, s, step);
    NotPanicked(c, Do(c, s, step));
    InsideSaves(m, t, side, step);
    BusyKeeps(m, t, side, Do(c, s, step), TopDo(m, t, Inside(side, step)));
  }

  lemma NotPanicked(m: Mem, s: State)
    requires Inv(m, s)
    ensures !s.pc.Panicked?
  {
  }

  lemma StoreBranchKeeps(m: Mem, t: TopState, side: Side)
    requires TopInv(m, t) && TopEnabled(m, t, StoreBranch(side))
    ensures TopInv(m, TopDo(m, t, StoreBranch(side)))
  {
    hide Inv, NewNodes;
    FinishedIsSequential(Child(m, side).value, BranchOf(t, side).s);
  }

  lemma JoinKeeps(m: Mem, t: TopState)
    requires TopInv(m, t) && TopEnabled(m, t, Join)
    ensures TopInv(m, TopDo(m, t, Join))
  {
    hide Inv, NewNodes, Child, SavedBy;
    assert t.left.Idle? && t.right.Idle?;
    assert HashNow(m, t.leftHash, t.rightHash) == Some(MemHash(m));
    var e := Entry(m, MemHash(m));
    var u := TopDo(m, t, Join);
    assert multiset(u.saved) == multiset(t.saved) + multiset{e};
    assert TopOwn(m, t) == multiset{} && TopOwn(m, u) == multiset{e};
    hide MemHash, HashNow, TopOwn;
  }

  lemma {:induction false} TopRunKeeps(m: Mem, t: TopState, steps: seq<TopStep>, u: TopState)
    requires TopInv(m, t) && TopReaches(m, t, steps, u)
    ensures TopInv(m, u)
    decreases |steps|
  {
    hide TopInv, TopEnabled, TopDo;
    if steps != [] {
      match steps[0] {
        case Inside(side, step) => InsideKeeps(m, t, side, step);
        case StoreBranch(side) => StoreBranchKeeps(m, t, side);
        case Join => JoinKeeps(m, t);
      }
      TopRunKeeps(m, TopDo(m, t, steps[0]), steps[1..], u);
    }
  }

  /** However the two concurrent updates interleave, the root's hash and what is saved are those of the sequential update. */
  lemma MoreConcurrencySameAsSequential(m: Mem, z: Stale, steps: seq<TopStep>, t: TopState)
    requires TopReaches(m, TopInit(m, z), steps, t)
    ensures !t.pc.Crashed?
    ensures t.pc.Ready? ==> t.pc.hash == MemHash(m) && multiset(t.saved) == multiset(NewNodes(m))
  {
    hide TopReaches, Inv;
    TopInitOk(m, z);
    TopRunKeeps(m, TopInit(m, z), steps, t);
    if m.NewInner? { assert NewNodes(m) == NewNodes(m.left) + NewNodes(m.right) + [Entry(m, MemHash(m))]; }
  }

  function BranchMeasure(b: Branch): nat { if b.Idle? then 0 else 1 + Measure(b.s) }

  function TopMeasure(t: TopState): nat
  {
    BranchMeasure(t.left) + BranchMeasure(t.right) + (if t.pc.Waiting? then 1 else 0)
  }

  /** Every step brings the whole update nearer to its end. */
  lemma MoreConcurrencyStepsDecrease(m: Mem, t: TopState, step: TopStep)
    requires TopInv(m, t) && TopEnabled(m, t, step)
    ensures TopMeasure(TopDo(m, t, step)) < TopMeasure(t)
  {
    hide Inv, Do, Enabled, Measure, NewlySaved, TopSaved, HashNow;
    if step.Inside? { StepsDecrease(Child(m, step.side).value, BranchOf(t, step.side).s, step.step); }
  }

  /** Until the root is hashed some step can be taken. */
  lemma MoreConcurrencyNeverStuck(m: Mem, z: Stale, steps: seq<TopStep>, t: TopState)
    requires TopReaches(m, TopInit(m, z), steps, t) && !t.pc.Ready?
    ensures exists step :: TopEnabled(m, t, step)
  {
    hide TopReaches, Inv;
    TopInitOk(m, z);
    TopRunKeeps(m, TopInit(m, z), steps, t);
    if t.left.Idle? && t.right.Idle? {
      assert TopEnabled(m, t, Join);
    } else {
      var side := if t.left.Idle? then Right else Left;
      var s := BranchOf(t, side).s;
      if s.pc.Finished? {
        assert TopEnabled(m, t, StoreBranch(side));
      } else {
        SomeStep(Child(m, side).value, s);
        var step :| Enabled(s, step);
        assert TopEnabled(m, t, Inside(side, step));
      }
    }
  }
}
