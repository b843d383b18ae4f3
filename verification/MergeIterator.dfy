/**
  The iterator that merges the fast nodes on disk with a set of changes, in
  either direction, and the sorted listing that it yields.
 */
module MergeIterator {
  import opened Options
  import opened ByteStrings
  import opened FastChanges

  datatype Pair = Pair(key: Bytes, node: FastNode)

  /** a comes before b in the direction of the iteration. */
  predicate Before(ascending: bool, a: Bytes, b: Bytes) { if ascending then Lt(a, b) else Lt(b, a) }

  lemma BeforeIsOrder(ascending: bool, a: Bytes, b: Bytes, c: Bytes)
    ensures !Before(ascending, a, a)
    ensures Before(ascending, a, b) || a == b || Before(ascending, b, a)
    ensures Before(ascending, a, b) && Before(ascending, b, c) ==> Before(ascending, a, c)
  {
    LtIsStrictTotalOrder();
    hide Lt;
  }

  // ---------- sorted listings ----------

  ghost predicate InOrder(ascending: bool, s: seq<Pair>)
  {
    forall i, j :: 0 <= i < j < |s| ==> Before(ascending, s[i].key, s[j].key)
  }

  /** s lists the fast nodes of d whose keys are in the range, in order. */
  ghost predicate Lists(ascending: bool, s: seq<Pair>, d: Fast, start: Option<Bytes>, end: Option<Bytes>)
  {
    InOrder(ascending, s) && forall p :: p in s <==> p.key in d && d[p.key] == p.node && InRange(start, end, p.key)
  }

  lemma {:induction false} ListingUnique(ascending: bool, s: seq<Pair>, t: seq<Pair>, d: Fast, start: Option<Bytes>, end: Option<Bytes>)
    requires Lists(ascending, s, d, start, end) && Lists(ascending, t, d, start, end)
    ensures s == t
  {
    hide Before, InRange;
    assert forall p :: p in s <==> p in t;
    SameElements(ascending, s, t);
  }

  lemma {:induction false} SameElements(ascending: bool, s: seq<Pair>, t: seq<Pair>)
    requires InOrder(ascending, s) && InOrder(ascending, t) && forall p :: p in s <==> p in t
    ensures s == t
    decreases |s|
  {
    hide Before;
    if s == [] {
      if t != [] {
        HasElement(t);
        assert false;
      }
    } else {
      assert s[0] in t;
      FirstIsFirst(ascending, s, t);
      forall p | p in s[1..] ensures p in t[1..] { NotFirst(ascending, s, p); assert p in t; }
      forall p | p in t[1..] ensures p in s[1..] { NotFirst(ascending, t, p); assert p in s; }
      SameElements(ascending, s[1..], t[1..]);
      assert s == [s[0]] + s[1..] && t == [t[0]] + t[1..];
    }
  }

  lemma HasElement(s: seq<Pair>)
    requires s != []
    ensures exists p :: p in s
  {
    assert s[0] in s;
  }

  lemma FirstIsFirst(ascending: bool, s: seq<Pair>, t: seq<Pair>)
    requires InOrder(ascending, s) && InOrder(ascending, t) && s != [] && t != [] && s[0] in t && t[0] in s
    ensures s[0] == t[0]
  {
    hide Before;
    BeforeIsOrder(ascending, s[0].key, t[0].key, s[0].key);
  }

  lemma NotFirst(ascending: bool, s: seq<Pair>, p: Pair)
    requires InOrder(ascending, s) && s != [] && p in s[1..]
    ensures p != s[0]
  {
    hide Before;
    BeforeIsOrder(ascending, p.key, p.key, p.key);
  }

  // ---------- the merge ----------

  function Merge(ascending: bool, disk: seq<Pair>, adds: seq<Pair>, removals: set<Bytes>): seq<Pair>
    decreases |disk| + |adds|
  {
    if disk == [] then adds
    else if disk[0].key in removals then Merge(ascending, disk[1..], adds, removals)
    else if adds == [] || Before(ascending, disk[0].key, adds[0].key) then [disk[0]] + Merge(ascending, disk[1..], adds, removals)
    else if disk[0].key == adds[0].key then [adds[0]] + Merge(ascending, disk[1..], adds[1..], removals)
    else [adds[0]] + Merge(ascending, disk, adds[1..], removals)
  }

  predicate HasKey(s: seq<Pair>, k: Bytes) { exists i :: 0 <= i < |s| && s[i].key == k }

  /** The merge holds the additions, and the disk nodes neither removed nor added again. */
  predicate Merged(p: Pair, disk: seq<Pair>, adds: seq<Pair>, removals: set<Bytes>)
  {
    p in adds || (p in disk && p.key !in removals && !HasKey(adds, p.key))
  }

  lemma {:induction false} MergeElements(ascending: bool, disk: seq<Pair>, adds: seq<Pair>, removals: set<Bytes>, p: Pair)
    requires InOrder(ascending, disk) && InOrder(ascending, adds)
    ensures p in Merge(ascending, disk, adds, removals) <==> Merged(p, disk, adds, removals)
    decreases |disk| + |adds|
  {
    hide Before;
    if disk == [] {
    } else if disk[0].key in removals {
      MergeElements(ascending, disk[1..], adds, removals, p);
    } else if adds == [] || Before(ascending, disk[0].key, adds[0].key) {
      MergeElements(ascending, disk[1..], adds, removals, p);
      if adds != [] { NoneBefore(ascending, disk[0].key, adds); }
    } else if disk[0].key == adds[0].key {
      MergeElements(ascending, disk[1..], adds[1..], removals, p);
      BothTails(ascending, disk, adds, removals, p);
    } else {
      MergeElements(ascending, disk, adds[1..], removals, p);
      BeforeIsOrder(ascending, disk[0].key, adds[0].key, p.key);
      AddTail(ascending, disk, adds, removals, p);
    }
  }

  lemma NoneBefore(ascending: bool, k: Bytes, s: seq<Pair>)
    requires InOrder(ascending, s) && s != [] && Before(ascending, k, s[0].key)
    ensures !HasKey(s, k)
  {
    hide Before;
    forall i | 0 <= i < |s| ensures s[i].key != k {
      BeforeIsOrder(ascending, k, s[0].key, s[i].key);
      BeforeIsOrder(ascending, s[i].key, k, s[0].key);
    }
  }

  lemma BothTails(ascending: bool, disk: seq<Pair>, adds: seq<Pair>, removals: set<Bytes>, p: Pair)
    requires InOrder(ascending, disk) && InOrder(ascending, adds) && disk != [] && adds != [] && disk[0].key == adds[0].key
    ensures Merged(p, disk, adds, removals) <==> p == adds[0] || Merged(p, disk[1..], adds[1..], removals)
  {
    hide Before;
    HasKeyTail(adds, p.key);
    if p in disk[1..] { KeyAfterFirst(ascending, disk, p); }
  }

  lemma AddTail(ascending: bool, disk: seq<Pair>, adds: seq<Pair>, removals: set<Bytes>, p: Pair)
    requires InOrder(ascending, disk) && InOrder(ascending, adds) && disk != [] && adds != [] && Before(ascending, adds[0].key, disk[0].key)
    ensures Merged(p, disk, adds, removals) <==> p == adds[0] || Merged(p, disk, adds[1..], removals)
  {
    hide Before;
    HasKeyTail(adds, p.key);
    NoneBefore(ascending, adds[0].key, disk);
    if p in disk { assert HasKey(disk, p.key); }
  }

  lemma HasKeyTail(s: seq<Pair>, k: Bytes)
    requires s != []
    ensures HasKey(s, k) <==> s[0].key == k || HasKey(s[1..], k)
  {
    if HasKey(s[1..], k) {
      var i :| 0 <= i < |s[1..]| && s[1..][i].key == k;
      assert s[i + 1].key == k;
    }
    if i :| 0 <= i < |s| && s[i].key == k && i > 0 { assert s[1..][i - 1].key == k; }
  }

  lemma KeyAfterFirst(ascending: bool, s: seq<Pair>, p: Pair)
    requires InOrder(ascending, s) && s != [] && p in s[1..]
    ensures p.key != s[0].key
  {
    hide Before;
    BeforeIsOrder(ascending, p.key, p.key, p.key);
  }

  ghost predicate Follow(ascending: bool, k: Bytes, s: seq<Pair>)
  {
    forall i :: 0 <= i < |s| ==> Before(ascending, k, s[i].key)
  }

  /** If k comes before all the given pairs it comes before all merged ones. */
  lemma {:induction false} MergeAfter(ascending: bool, disk: seq<Pair>, adds: seq<Pair>, removals: set<Bytes>, k: Bytes)
    requires Follow(ascending, k, disk) && Follow(ascending, k, adds)
    ensures Follow(ascending, k, Merge(ascending, disk, adds, removals))
    decreases |disk| + |adds|
  {
    hide Before;
    if disk != [] {
      if disk[0].key in removals {
        MergeAfter(ascending, disk[1..], adds, removals, k);
      } else if adds == [] {
        MergeAfter(ascending, disk[1..], adds, removals, k);
      } else if Before(ascending, disk[0].key, adds[0].key) {
        MergeAfter(ascending, disk[1..], adds, removals, k);
      } else if disk[0].key == adds[0].key {
        MergeAfter(ascending, disk[1..], adds[1..], removals, k);
      } else {
        MergeAfter(ascending, disk, adds[1..], removals, k);
      }
    }
  }

  lemma AllAfter(ascending: bool, k: Bytes, s: seq<Pair>)
    requires InOrder(ascending, s) && s != [] && Before(ascending, k, s[0].key)
    ensures Follow(ascending, k, s)
  {
    hide Before;
    forall i | 0 <= i < |s| ensures Before(ascending, k, s[i].key) { BeforeIsOrder(ascending, k, s[0].key, s[i].key); }
  }

  lemma ConsInOrder(ascending: bool, p: Pair, s: seq<Pair>)
    requires InOrder(ascending, s) && Follow(ascending, p.key, s)
    ensures InOrder(ascending, [p] + s)
  {
    hide Before;
  }

  lemma {:induction false} MergeInOrder(ascending: bool, disk: seq<Pair>, adds: seq<Pair>, removals: set<Bytes>)
    requires InOrder(ascending, disk) && InOrder(ascending, adds)
    ensures InOrder(ascending, Merge(ascending, disk, adds, removals))
    decreases |disk| + |adds|
  {
    hide Before;
    if disk == [] {
    } else if disk[0].key in removals {
      MergeInOrder(ascending, disk[1..], adds, removals);
    } else if adds == [] || Before(ascending, disk[0].key, adds[0].key) {
      MergeInOrder(ascending, disk[1..], adds, removals);
      if adds != [] { AllAfter(ascending, disk[0].key, adds); }
      MergeAfter(ascending, disk[1..], adds, removals, disk[0].key);
      ConsInOrder(ascending, disk[0], Merge(ascending, disk[1..], adds, removals));
    } else if disk[0].key == adds[0].key {
      MergeInOrder(ascending, disk[1..], adds[1..], removals);
      MergeAfter(ascending, disk[1..], adds[1..], removals, adds[0].key);
      ConsInOrder(ascending, adds[0], Merge(ascending, disk[1..], adds[1..], removals));
    } else {
      BeforeIsOrder(ascending, disk[0].key, adds[0].key, adds[0].key);
      MergeInOrder(ascending, disk, adds[1..], removals);
      AllAfter(ascending, adds[0].key, disk);
      MergeAfter(ascending, disk, adds[1..], removals, adds[0].key);
      ConsInOrder(ascending, adds[0], Merge(ascending, disk, adds[1..], removals));
    }
  }

  /** The merge of the two listings lists the changes applied to the disk. */
  lemma MergeLists(ascending: bool, disk: seq<Pair>, d: Fast, adds: seq<Pair>, c: Changes, start: Option<Bytes>, end: Option<Bytes>)
    requires Lists(ascending, disk, d, start, end) && Lists(ascending, adds, c.additions, start, end) && Disjoint(c)
    ensures Lists(ascending, Merge(ascending, disk, adds, c.removals), Apply(c, d), start, end)
  {
    hide Before, InRange;
    MergeInOrder(ascending, disk, adds, c.removals);
    var m, r := Merge(ascending, disk, adds, c.removals), Apply(c, d);
    forall p ensures p in m <==> p.key in r && r[p.key] == p.node && InRange(start, end, p.key) {
      MergeElements(ascending, disk, adds, c.removals, p);
      if InRange(start, end, p.key) { KeysListed(ascending, adds, c.additions, start, end, p.key); }
    }
  }

  lemma KeysListed(ascending: bool, s: seq<Pair>, d: Fast, start: Option<Bytes>, end: Option<Bytes>, k: Bytes)
    requires Lists(ascending, s, d, start, end) && InRange(start, end, k)
    ensures HasKey(s, k) <==> k in d
  {
    hide Before, InRange, InOrder;
    if k in d {
      assert Pair(k, d[k]) in s;
    }
    if i :| 0 <= i < |s| && s[i].key == k { assert s[i] in s; }
  }

  // ---------- the iterator ----------

  /** The additions at sorted keys. */
  function AddPairs(keys: seq<Bytes>, additions: Fast): (r: seq<Pair>)
    requires forall k :: k in keys ==> k in additions
    ensures |r| == |keys|
  {
    seq(|keys|, i requires 0 <= i < |keys| => Pair(keys[i], additions[keys[i]]))
  }

  ghost predicate SortedKeys(ascending: bool, s: seq<Bytes>)
  {
    forall i, j :: 0 <= i < j < |s| ==> Before(ascending, s[i], s[j])
  }

  /** sort.Slice on distinct keys. */
  method SortKeys(ascending: bool, keys: seq<Bytes>) returns (r: seq<Bytes>)
    requires forall i, j :: 0 <= i < j < |keys| ==> keys[i] != keys[j]
    ensures SortedKeys(ascending, r) && forall k :: k in r <==> k in keys
  {
    hide Before;
    r := [];
    for n := 0 to |keys|
      invariant SortedKeys(ascending, r) && forall k :: k in r <==> k in keys[..n]
    {
      assert keys[n] !in keys[..n];
      assert keys[..n + 1] == keys[..n] + [keys[n]];
      r := InsertKey(ascending, r, keys[n]);
    }
    assert keys[..|keys|] == keys;
  }

  method InsertKey(ascending: bool, s: seq<Bytes>, k: Bytes) returns (r: seq<Bytes>)
    requires SortedKeys(ascending, s) && k !in s
    ensures SortedKeys(ascending, r) && forall x :: x in r <==> x in s || x == k
  {
    hide Before;
    var i := 0;
    while i < |s| && Before(ascending, s[i], k)
      invariant 0 <= i <= |s|
      invariant forall j :: 0 <= j < i ==> Before(ascending, s[j], k)
    {
      i := i + 1;
    }
    r := s[..i] + [k] + s[i..];
    assert s == s[..i] + s[i..];
    forall j | i <= j < |s| ensures Before(ascending, k, s[j]) {
      BeforeIsOrder(ascending, s[i], k, k);
      BeforeIsOrder(ascending, k, s[i], s[j]);
    }
  }

  class UnsavedFastIterator {
    const ascending: bool
    const start: Option<Bytes>
    const end: Option<Bytes>
    const changes: Changes
    const fromDisk: seq<Pair>       // what the iterator over the disk delivers
    const unsavedToSort: seq<Bytes>
    var diskPos: nat
    var nextUnsavedIdx: nat
    var nextKey: Option<Bytes>
    var nextVal: Option<Bytes>
    ghost var current: Option<Pair>

    ghost predicate Ready()
      reads this
    {
      diskPos <= |fromDisk| && nextUnsavedIdx <= |unsavedToSort| && (forall k :: k in unsavedToSort ==> k in changes.additions)
    }

    /** The pairs still to come after the current one. */
    ghost function Rest(): seq<Pair>
      requires Ready()
      reads this
    {
      Merge(ascending, fromDisk[diskPos..], AddPairs(unsavedToSort[nextUnsavedIdx..], changes.additions), changes.removals)
    }

    ghost predicate HasCurrent(p: Pair)
      reads this
    {
      nextKey == Some(p.key) && nextVal == Some(p.node.value)
    }

    /** Moves to the next pair; at the end there is no current pair any more. */
    method Advance()
      requires Ready()
      modifies this`diskPos, this`nextUnsavedIdx, this`nextKey, this`nextVal
      ensures Ready()
      ensures old(Rest()) == [] ==> nextKey == None && nextVal == None && Rest() == []
      ensures old(Rest()) != [] ==> HasCurrent(old(Rest())[0]) && Rest() == old(Rest())[1..]
      ensures nextKey == None ==> diskPos == |fromDisk| && nextUnsavedIdx == |unsavedToSort|
      decreases |fromDisk| - diskPos
    {
      hide Before;
      if diskPos < |fromDisk| { assert fromDisk[diskPos..][0] == fromDisk[diskPos] && fromDisk[diskPos..][1..] == fromDisk[diskPos + 1..]; }
      if nextUnsavedIdx < |unsavedToSort| { AddPairsTail(unsavedToSort, nextUnsavedIdx, changes.additions); }
      if diskPos < |fromDisk| && nextUnsavedIdx < |unsavedToSort| {
        var diskKey := fromDisk[diskPos].key;
        if diskKey in changes.removals {
          diskPos := diskPos + 1;
          Advance();
          return;
        }
        var nextUnsavedKey := unsavedToSort[nextUnsavedIdx];
        if !Before(ascending, diskKey, nextUnsavedKey) {
          if diskKey == nextUnsavedKey { diskPos := diskPos + 1; }
          nextKey, nextVal := Some(nextUnsavedKey), Some(changes.additions[nextUnsavedKey].value);
          nextUnsavedIdx := nextUnsavedIdx + 1;
          return;
        }
        nextKey, nextVal := Some(diskKey), Some(fromDisk[diskPos].node.value);
        diskPos := diskPos + 1;
        return;
      }
      if diskPos < |fromDisk| {
        if fromDisk[diskPos].key in changes.removals {
          diskPos := diskPos + 1;
          Advance();
          return;
        }
        nextKey, nextVal := Some(fromDisk[diskPos].key), Some(fromDisk[diskPos].node.value);
        diskPos := diskPos + 1;
        return;
      }
      if nextUnsavedIdx < |unsavedToSort| {
        var nextUnsavedKey := unsavedToSort[nextUnsavedIdx];
        nextKey, nextVal := Some(nextUnsavedKey), Some(changes.additions[nextUnsavedKey].value);
        nextUnsavedIdx := nextUnsavedIdx + 1;
        return;
      }
      nextKey, nextVal := None, None;
    }

    ghost predicate Consistent()
      reads this
    {
      Ready() && (current.None? ==> nextKey == None && nextVal == None && diskPos == |fromDisk| && nextUnsavedIdx == |unsavedToSort|) &&
      (current.Some? ==> HasCurrent(current.value)) && forall p :: p in Remaining() ==> InRange(start, end, p.key)
    }

    /** The current pair and those to come. */
    ghost function Remaining(): seq<Pair>
      requires Ready()
      reads this
    {
      (if current.Some? then [current.value] else []) + Rest()
    }

    lemma CurrentIsFirst()
      requires Consistent() && Remaining() != [] && nextKey.Some? && nextVal.Some?
      ensures HasCurrent(Remaining()[0])
    {
      hide Merge, InRange;
    }

    method Next()
      requires Consistent()
      modifies this`diskPos, this`nextUnsavedIdx, this`nextKey, this`nextVal, this`current
      ensures Consistent()
      ensures Remaining() == if old(Remaining()) == [] then [] else old(Remaining())[1..]
    {
      ghost var rest, was := Rest(), Remaining();
      Advance();
      current := if rest == [] then None else Some(rest[0]);
      assert was != [] ==> Remaining() == was[1..];
      assert was == [] ==> Remaining() == [];
    }

    /** Valid exactly while there is a current pair. */
    method Valid() returns (ok: bool)
      requires Consistent()
      ensures ok <==> Remaining() != []
      ensures ok <==> nextKey.Some? && nextVal.Some?
    {
      if start.Some? && end.Some? && Le(end.value, start.value) {
        EmptyRange(start.value, end.value, Remaining());
        return false;
      }
      return diskPos < |fromDisk| || nextUnsavedIdx < |unsavedToSort| || (nextKey.Some? && nextVal.Some?);
    }

    constructor (ascending: bool, start: Option<Bytes>, end: Option<Bytes>, changes: Changes, fromDisk: seq<Pair>, unsavedToSort: seq<Bytes>)
      requires forall k :: k in unsavedToSort ==> k in changes.additions
      requires forall p :: p in Merge(ascending, fromDisk, AddPairs(unsavedToSort, changes.additions), changes.removals) ==> InRange(start, end, p.key)
      ensures Consistent()
      ensures Remaining() == Merge(ascending, fromDisk, AddPairs(unsavedToSort, changes.additions), changes.removals)
    {
      hide Merge, InRange, Before;
      this.ascending, this.start, this.end, this.changes, this.fromDisk, this.unsavedToSort := ascending, start, end, changes, fromDisk, unsavedToSort;
      diskPos, nextUnsavedIdx, nextKey, nextVal, current := 0, 0, None, None, None;
      new;
      assert fromDisk[0..] == fromDisk && unsavedToSort[0..] == unsavedToSort;
      ghost var rest := Rest();
      Advance();
      current := if rest == [] then None else Some(rest[0]);
    }
  }

  lemma EmptyRange(start: Bytes, end: Bytes, s: seq<Pair>)
    requires Le(end, start) && forall p :: p in s ==> InRange(Some(start), Some(end), p.key)
    ensures s == []
  {
    hide Lt;
    if s != [] {
      HasElement(s);
      var p :| p in s;
      LtTotal(end, start);
      if end != start { LtTransitive(p.key, end, start); }
      LtTotal(start, p.key);
      LtIrreflexive(p.key);
      assert false;
    }
  }

  /** The unsaved additions in the range, sorted; the iterator stands on the first pair. */
  method NewIterator(ascending: bool, start: Option<Bytes>, end: Option<Bytes>, changes: Changes, fromDisk: seq<Pair>, ghost d: Fast)
    returns (it: UnsavedFastIterator)
    requires Disjoint(changes) && Lists(ascending, fromDisk, d, start, end)
    ensures fresh(it) && it.Consistent()
    ensures Lists(ascending, it.Remaining(), Apply(changes, d), start, end)
    ensures var s := it.Remaining();
            && (forall i, j :: 0 <= i < j < |s| ==> if ascending then Lt(s[i].key, s[j].key) else Lt(s[j].key, s[i].key))
            && (forall p :: p in s ==> (start.None? || Le(start.value, p.key)) && (end.None? || Lt(p.key, end.value)))
            && (forall k :: k in Apply(changes, d) && (start.None? || Le(start.value, k)) && (end.None? || Lt(k, end.value)) ==>
                  Pair(k, Apply(changes, d)[k]) in s)
  {
    hide Before, InRange;
    var chosen: seq<Bytes> := [];
    var left := changes.additions.Keys;
    while left != {}
      invariant left <= changes.additions.Keys
      invariant forall k :: k in chosen <==> k in changes.additions && k !in left && InRange(start, end, k)
      invariant forall i, j :: 0 <= i < j < |chosen| ==> chosen[i] != chosen[j]
      decreases |left|
    {
      var k :| k in left;
      left := left - {k};
      if InRange(start, end, k) { chosen := chosen + [k]; }
    }
    var sorted := SortKeys(ascending, chosen);
    ghost var adds := AddPairs(sorted, changes.additions);
    AddsList(ascending, sorted, changes.additions, start, end);
    MergeLists(ascending, fromDisk, d, adds, changes, start, end);
    it := new UnsavedFastIterator(ascending, start, end, changes, fromDisk, sorted);
    ListingIs(ascending, it.Remaining(), Apply(changes, d), start, end);
  }

  /** A listing in plain words: keys in the direction, from start on and before end, with their values. */
  lemma ListingIs(ascending: bool, s: seq<Pair>, d: Fast, start: Option<Bytes>, end: Option<Bytes>)
    requires Lists(ascending, s, d, start, end)
    ensures forall i, j :: 0 <= i < j < |s| ==> if ascending then Lt(s[i].key, s[j].key) else Lt(s[j].key, s[i].key)
    ensures forall p :: p in s ==> (start.None? || Le(start.value, p.key)) && (end.None? || Lt(p.key, end.value))
    ensures forall k :: k in d && (start.None? || Le(start.value, k)) && (end.None? || Lt(k, end.value)) ==> Pair(k, d[k]) in s
  {
    hide Lt;
  }

  lemma AddsList(ascending: bool, keys: seq<Bytes>, additions: Fast, start: Option<Bytes>, end: Option<Bytes>)
    requires SortedKeys(ascending, keys) && forall k :: k in keys <==> k in additions && InRange(start, end, k)
    ensures Lists(ascending, AddPairs(keys, additions), additions, start, end)
  {
    hide Before, InRange;
    var s := AddPairs(keys, additions);
    forall p ensures p in s <==> p.key in additions && additions[p.key] == p.node && InRange(start, end, p.key) {
      if p in s {
        var i :| 0 <= i < |s| && s[i] == p;
        assert keys[i] in keys;
      }
      if p.key in additions && additions[p.key] == p.node && InRange(start, end, p.key) {
        var i :| 0 <= i < |keys| && keys[i] == p.key;
        assert s[i] == p;
      }
    }
  }

  /** How many pairs are visited: up to the one at which the callback stops. */
  function Visited(s: seq<Pair>, stop: (Bytes, Bytes) -> bool): (n: nat)
    ensures n <= |s|
  {
    if s == [] then 0 else if stop(s[0].key, s[0].node.value) then 1 else 1 + Visited(s[1..], stop)
  }

  /** Iterate: the listing in order until the callback stops. */
  method Iterate(it: UnsavedFastIterator, stop: (Bytes, Bytes) -> bool) returns (visited: seq<(Bytes, Bytes)>, stopped: bool)
    requires it.Consistent()
    modifies it
    ensures var all := old(it.Remaining());
            visited == Values(all[..Visited(all, stop)]) &&
            (stopped <==> exists i :: 0 <= i < |all| && stop(all[i].key, all[i].node.value))
  {
    hide Merge, InRange, Values, Visited;
    visited := [];
    ghost var all, i := it.Remaining(), 0;
    stopped := false;
    var ok := it.Valid();
    assert all[0..] == all && |Values(all[..0])| == 0;
    while ok
      invariant it.Consistent() && 0 <= i <= |all| && it.Remaining() == all[i..] && (ok <==> i < |all|) && (ok ==> it.nextKey.Some? && it.nextVal.Some?)
      invariant visited == Values(all[..i])
      invariant forall j :: 0 <= j < i ==> !stop(all[j].key, all[j].node.value)
      invariant Visited(all, stop) == i + Visited(all[i..], stop)
      decreases |all| - i
    {
      it.CurrentIsFirst();
      VisitedStep(all, i, stop);
      var key, val := it.nextKey.value, it.nextVal.value;
      visited := visited + [(key, val)];
      ValuesMore(all, i);
      if stop(key, val) {
        return visited, true;
      }
      it.Next();
      i := i + 1;
      ok := it.Valid();
    }
  }

  function Values(s: seq<Pair>): (r: seq<(Bytes, Bytes)>)
    ensures |r| == |s|
  {
    seq(|s|, i requires 0 <= i < |s| => (s[i].key, s[i].node.value))
  }

  lemma VisitedStep(s: seq<Pair>, i: nat, stop: (Bytes, Bytes) -> bool)
    requires i < |s|
    ensures s[i..] != [] && s[i..][0] == s[i] && s[i..][1..] == s[i + 1..]
    ensures Visited(s[i..], stop) == if stop(s[i].key, s[i].node.value) then 1 else 1 + Visited(s[i + 1..], stop)
  {
    assert s[i..][1..] == s[i + 1..];
  }

  lemma ValuesMore(s: seq<Pair>, i: nat)
    requires i < |s|
    ensures Values(s[..i + 1]) == Values(s[..i]) + [(s[i].key, s[i].node.value)]
  {
  }

  lemma AddPairsTail(keys: seq<Bytes>, i: nat, additions: Fast)
    requires i < |keys| && forall k :: k in keys ==> k in additions
    ensures AddPairs(keys[i..], additions)[0] == Pair(keys[i], additions[keys[i]])
    ensures AddPairs(keys[i..], additions)[1..] == AddPairs(keys[i + 1..], additions)
  {
  }
}
