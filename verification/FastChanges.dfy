/**
  Sets of fast-node changes: additions and removals, how two of them merge, and
  the change sets that are being written, kept by version.
 */
module FastChanges {
  import opened Options
  import opened ByteStrings

  /** The latest value of a key and the version that set it. */
  datatype FastNode = FastNode(value: Bytes, updated: int)

  type Fast = map<Bytes, FastNode>

  datatype Changes = Changes(additions: Fast, removals: set<Bytes>)

  const NO_CHANGES := Changes(map[], {})

  predicate Touches(c: Changes, k: Bytes) { k in c.additions || k in c.removals }

  predicate Disjoint(c: Changes) { c.additions.Keys !! c.removals }

  /** fastNodeChanges.get: nothing known, or known removed, or the node. */
  function Find(c: Changes, k: Bytes): Option<Option<FastNode>>
  {
    if k in c.additions then Some(Some(c.additions[k])) else if k in c.removals then Some(None) else None
  }

  function Add(c: Changes, k: Bytes, n: FastNode): Changes { Changes(c.additions[k := n], c.removals - {k}) }

  function Remove(c: Changes, k: Bytes): Changes { Changes(c.additions - {k}, c.removals + {k}) }

  /** What the changes make of the stored fast nodes. */
  function Apply(c: Changes, d: Fast): Fast { (d - c.removals) + c.additions }

  /** mergePrev: the older changes where the newer ones say nothing. */
  function MergePrev(c: Changes, prev: Changes): Changes
  {
    Changes(map k | k in c.additions.Keys + prev.additions.Keys && (k in c.additions || !Touches(c, k)) ::
              if k in c.additions then c.additions[k] else prev.additions[k],
            c.removals + (set k | k in prev.removals && !Touches(c, k) && k !in prev.additions))
  }

  /** mergeLater: the newer changes on top. */
  function MergeLater(c: Changes, later: Changes): Changes
  {
    Changes((c.additions + later.additions) - later.removals, (c.removals - later.additions.Keys) + later.removals)
  }

  lemma MergePrevFinds(c: Changes, prev: Changes, k: Bytes)
    ensures Find(MergePrev(c, prev), k) == if Touches(c, k) then Find(c, k) else Find(prev, k)
    ensures Disjoint(c) ==> Disjoint(MergePrev(c, prev))
  {
  }

  lemma MergeLaterFinds(c: Changes, later: Changes, k: Bytes)
    requires Disjoint(later)
    ensures Find(MergeLater(c, later), k) == if Touches(later, k) then Find(later, k) else Find(c, k)
    ensures Disjoint(c) ==> Disjoint(MergeLater(c, later))
  {
  }

  /** It does not matter which of the two change sets is the receiver. */
  lemma MergesAgree(older: Changes, newer: Changes)
    requires Disjoint(older) && Disjoint(newer)
    ensures MergePrev(newer, older) == MergeLater(older, newer)
  {
    var a, b := MergePrev(newer, older), MergeLater(older, newer);
    assert a.additions == b.additions && a.removals == b.removals;
  }

  /** Merging and then storing is storing one after the other. */
  lemma MergeApplies(older: Changes, newer: Changes, d: Fast)
    requires Disjoint(older) && Disjoint(newer)
    ensures Apply(MergeLater(older, newer), d) == Apply(newer, Apply(older, d))
  {
  }

  /** A change that is recorded and later stored is made to what would have been stored without it. */
  lemma AddApplies(c: Changes, k: Bytes, n: FastNode)
    ensures forall d: Fast :: Apply(Add(c, k, n), d) == Apply(c, d)[k := n]
  {
    forall d: Fast ensures Apply(Add(c, k, n), d) == Apply(c, d)[k := n] {
      assert Apply(Add(c, k, n), d).Keys == Apply(c, d)[k := n].Keys;
    }
  }

  lemma RemoveApplies(c: Changes, k: Bytes)
    ensures forall d: Fast :: Apply(Remove(c, k), d) == Apply(c, d) - {k}
  {
    forall d: Fast ensures Apply(Remove(c, k), d) == Apply(c, d) - {k} {
      assert Apply(Remove(c, k), d).Keys == (Apply(c, d) - {k}).Keys;
    }
  }

  // ---------- layers, the newest last ----------

  function FindIn(layers: seq<Changes>, k: Bytes): Option<Option<FastNode>>
  {
    if layers == [] then None
    else
      var f := Find(layers[|layers| - 1], k);
      if f.Some? then f else FindIn(layers[..|layers| - 1], k)
  }

  function Expand(c: Changes, layers: seq<Changes>): Changes
    decreases |layers|
  {
    if layers == [] then c else Expand(MergePrev(c, layers[|layers| - 1]), layers[..|layers| - 1])
  }

  function ApplyAll(layers: seq<Changes>, d: Fast): Fast
  {
    if layers == [] then d else Apply(layers[|layers| - 1], ApplyAll(layers[..|layers| - 1], d))
  }

  /** The expanded set knows what a search through the layers finds. */
  lemma {:induction false} ExpandFinds(c: Changes, layers: seq<Changes>, k: Bytes)
    ensures Find(Expand(c, layers), k) == if Touches(c, k) then Find(c, k) else FindIn(layers, k)
    ensures Disjoint(c) ==> Disjoint(Expand(c, layers))
    decreases |layers|
  {
    if layers != [] {
      MergePrevFinds(c, layers[|layers| - 1], k);
      ExpandFinds(MergePrev(c, layers[|layers| - 1]), layers[..|layers| - 1], k);
    }
  }

  /** A search through the layers and then the store finds what the store will hold once all layers are written. */
  lemma {:induction false} LayersFind(layers: seq<Changes>, d: Fast, k: Bytes)
    requires forall i :: 0 <= i < |layers| ==> Disjoint(layers[i])
    ensures var f, r := FindIn(layers, k), ApplyAll(layers, d);
            (if f.Some? then f.value else if k in d then Some(d[k]) else None) == if k in r then Some(r[k]) else None
    decreases |layers|
  {
    if layers != [] { LayersFind(layers[..|layers| - 1], d, k); }
  }

  // ---------- the loops, with the keys in `left` still to come ----------

  function Filled(c: Changes, nodes: Fast, left: set<Bytes>): Fast
  {
    c.additions + (map k | k in nodes && k !in left && !Touches(c, k) :: nodes[k])
  }

  lemma FilledStep(c: Changes, nodes: Fast, left: set<Bytes>, k: Bytes)
    requires k in left && k in nodes
    ensures k in Filled(c, nodes, left) <==> k in c.additions
    ensures Filled(c, nodes, left - {k}) == if Touches(c, k) then Filled(c, nodes, left) else Filled(c, nodes, left)[k := nodes[k]]
  {
  }

  lemma FilledEnds(c: Changes, nodes: Fast)
    ensures Filled(c, nodes, nodes.Keys) == c.additions
    ensures Filled(c, nodes, {}) == c.additions + (map k | k in nodes && !Touches(c, k) :: nodes[k])
  {
  }

  function Gathered(c: Changes, keys: set<Bytes>, left: set<Bytes>): set<Bytes>
  {
    c.removals + (set k | k in keys && k !in left && !Touches(c, k))
  }

  lemma GatheredStep(c: Changes, keys: set<Bytes>, left: set<Bytes>, k: Bytes)
    requires k in left && k in keys
    ensures k in Gathered(c, keys, left) <==> k in c.removals
    ensures Gathered(c, keys, left - {k}) == if Touches(c, k) then Gathered(c, keys, left) else Gathered(c, keys, left) + {k}
  {
  }

  lemma GatheredEnds(c: Changes, keys: set<Bytes>)
    ensures Gathered(c, keys, keys) == c.removals
    ensures Gathered(c, keys, {}) == c.removals + (set k | k in keys && !Touches(c, k))
  {
  }

  function AddedFrom(c: Changes, nodes: Fast, left: set<Bytes>): Changes
  {
    Changes(c.additions + (map k | k in nodes && k !in left :: nodes[k]), c.removals - (nodes.Keys - left))
  }

  lemma AddedStep(c: Changes, nodes: Fast, left: set<Bytes>, k: Bytes)
    requires k in left && k in nodes
    ensures AddedFrom(c, nodes, left - {k}) == Add(AddedFrom(c, nodes, left), k, nodes[k])
  {
    var a, b := AddedFrom(c, nodes, left - {k}), Add(AddedFrom(c, nodes, left), k, nodes[k]);
    assert a.additions == b.additions;
    assert a.removals == b.removals;
  }

  lemma AddedEnds(c: Changes, nodes: Fast)
    ensures AddedFrom(c, nodes, nodes.Keys) == c
    ensures AddedFrom(c, nodes, {}) == Changes(c.additions + nodes, c.removals - nodes.Keys)
  {
    assert AddedFrom(c, nodes, nodes.Keys).additions == c.additions;
    assert (map k | k in nodes && k !in {} :: nodes[k]) == nodes;
  }

  function RemovedFrom(c: Changes, keys: set<Bytes>, left: set<Bytes>): Changes
  {
    Changes(c.additions - (keys - left), c.removals + (keys - left))
  }

  lemma RemovedStep(c: Changes, keys: set<Bytes>, left: set<Bytes>, k: Bytes)
    requires k in left && k in keys
    ensures RemovedFrom(c, keys, left - {k}) == Remove(RemovedFrom(c, keys, left), k)
  {
    var a, b := RemovedFrom(c, keys, left - {k}), Remove(RemovedFrom(c, keys, left), k);
    assert keys - (left - {k}) == (keys - left) + {k};
    assert a.additions == b.additions;
    assert a.removals == b.removals;
  }

  lemma RemovedEnds(c: Changes, keys: set<Bytes>)
    ensures RemovedFrom(c, keys, keys) == c && RemovedFrom(c, keys, {}) == Changes(c.additions - keys, c.removals + keys)
  {
    assert keys - keys == {} && keys - {} == keys;
    assert c.additions - {} == c.additions;
  }

  // ---------- in place ----------

  class ChangeSet {
    var additions: Fast
    var removals: set<Bytes>

    function Now(): Changes
      reads this
    {
      Changes(additions, removals)
    }

    constructor ()
      ensures Now() == NO_CHANGES
    {
      additions, removals := map[], {};
    }

    method Get(k: Bytes) returns (found: bool, n: Option<FastNode>)
      ensures Find(Now(), k) == if found then Some(n) else None
    {
      if k in additions { return true, Some(additions[k]); }
      return k in removals, None;
    }

    method AddNode(k: Bytes, n: FastNode)
      modifies this
      ensures Now() == Add(old(Now()), k, n)
      ensures Find(Now(), k) == Some(Some(n)) && forall x :: x != k ==> Find(Now(), x) == Find(old(Now()), x)
      ensures old(Disjoint(Now())) ==> Disjoint(Now())
      ensures forall d: Fast :: Apply(Now(), d) == Apply(old(Now()), d)[k := n]
    {
      AddApplies(Now(), k, n);
      additions := additions[k := n];
      removals := removals - {k};
    }

    method RemoveKey(k: Bytes)
      modifies this
      ensures Now() == Remove(old(Now()), k)
      ensures Find(Now(), k) == Some(None) && forall x :: x != k ==> Find(Now(), x) == Find(old(Now()), x)
      ensures old(Disjoint(Now())) ==> Disjoint(Now())
      ensures forall d: Fast :: Apply(Now(), d) == Apply(old(Now()), d) - {k}
    {
      RemoveApplies(Now(), k);
      removals := removals + {k};
      additions := additions - {k};
    }

    method Clone() returns (c: ChangeSet)
      ensures fresh(c) && c.Now() == Now()
    {
      c := new ChangeSet();
      c.additions, c.removals := additions, removals;
    }

    method Reset()
      modifies this
      ensures Now() == NO_CHANGES
    {
      additions, removals := map[], {};
    }

    /** The keys come in no fixed order; the result does not depend on it. */
    method AddMissing(nodes: Fast)
      modifies this
      ensures removals == old(removals)
      ensures additions == old(additions) + (map k | k in nodes && !Touches(old(Now()), k) :: nodes[k])
    {
      hide Filled;
      ghost var was := Now();
      var left := nodes.Keys;
      FilledEnds(was, nodes);
      while left != {}
        invariant left <= nodes.Keys && removals == was.removals && additions == Filled(was, nodes, left)
        decreases |left|
      {
        var k :| k in left;
        FilledStep(was, nodes, left, k);
        left := left - {k};
        if k !in additions && k !in removals { additions := additions[k := nodes[k]]; }
      }
    }

    method RemoveMissing(keys: set<Bytes>)
      modifies this
      ensures additions == old(additions)
      ensures removals == old(removals) + (set k | k in keys && !Touches(old(Now()), k))
    {
      hide Gathered;
      ghost var was := Now();
      var left := keys;
      GatheredEnds(was, keys);
      while left != {}
        invariant left <= keys && additions == was.additions && removals == Gathered(was, keys, left)
        decreases |left|
      {
        var k :| k in left;
        GatheredStep(was, keys, left, k);
        left := left - {k};
        if k !in additions && k !in removals { removals := removals + {k}; }
      }
    }

    method MergePrevInto(prev: ChangeSet)
      requires prev != this
      modifies this
      ensures Now() == MergePrev(old(Now()), prev.Now())
    {
      AddMissing(prev.additions);
      RemoveMissing(prev.removals);
      ghost var r := MergePrev(old(Now()), prev.Now());
      assert additions == r.additions;
      assert removals == r.removals;
    }

    method AddAll(nodes: Fast)
      modifies this
      ensures additions == old(additions) + nodes && removals == old(removals) - nodes.Keys
    {
      hide AddedFrom;
      ghost var was := Now();
      var left := nodes.Keys;
      AddedEnds(was, nodes);
      while left != {}
        invariant left <= nodes.Keys && Now() == AddedFrom(was, nodes, left)
        decreases |left|
      {
        var k :| k in left;
        AddedStep(was, nodes, left, k);
        left := left - {k};
        AddNode(k, nodes[k]);
      }
    }

    method RemoveAll(keys: set<Bytes>)
      modifies this
      ensures additions == old(additions) - keys && removals == old(removals) + keys
    {
      hide RemovedFrom;
      ghost var was := Now();
      var left := keys;
      RemovedEnds(was, keys);
      while left != {}
        invariant left <= keys && Now() == RemovedFrom(was, keys, left)
        decreases |left|
      {
        var k :| k in left;
        RemovedStep(was, keys, left, k);
        left := left - {k};
        RemoveKey(k);
      }
    }

    method MergeLaterInto(later: ChangeSet)
      requires later != this
      modifies this
      ensures Now() == MergeLater(old(Now()), later.Now())
    {
      AddAll(later.additions);
      RemoveAll(later.removals);
    }
  }

  /** fastNodeChangesWithVersion: the change sets being written, oldest first. */
  class VersionedChanges {
    var versions: seq<int>
    var sets: map<int, Changes>

    /** Every version in flight has its change set; a search through the versions panics otherwise. */
    ghost predicate Valid()
      reads this
    {
      (forall i :: 0 <= i < |versions| ==> versions[i] in sets) && forall v :: v in sets ==> v in versions
    }

    ghost function Layers(): seq<Changes>
      requires Valid()
      reads this
    {
      var vs, m := versions, sets;
      seq(|vs|, i requires 0 <= i < |vs| => m[vs[i]])
    }

    constructor ()
      ensures Valid() && versions == []
    {
      versions, sets := [], map[];
    }

    /** If the version is in flight already, its change set is replaced in its earlier place too. */
    method Push(version: int, c: Changes)
      requires Valid()
      modifies this
      ensures Valid() && versions == old(versions) + [version] && |Layers()| == |old(versions)| + 1
      ensures Layers()[|old(versions)|] == c
      ensures forall i :: 0 <= i < |old(versions)| ==> Layers()[i] == if versions[i] == version then c else old(Layers())[i]
      ensures version !in old(versions) ==> Layers() == old(Layers()) + [c]
    {
      versions, sets := versions + [version], sets[version := c];
    }

    /** Only the oldest set is dropped; if its version is in flight twice, the other place has lost its change set. */
    method Drop(version: int)
      requires Valid()
      modifies this
      ensures if old(versions) != [] && old(versions[0]) == version then versions == old(versions)[1..] else versions == old(versions)
      ensures Valid() <==> versions == old(versions) || version !in versions
      ensures Valid() ==> Layers() == if versions == old(versions) then old(Layers()) else old(Layers())[1..]
    {
      if |versions| < 1 || version != versions[0] { return; }
      versions, sets := versions[1..], sets - {version};
    }

    method Get(k: Bytes) returns (r: Option<Option<FastNode>>)
      requires Valid()
      ensures r == FindIn(Layers(), k)
    {
      var i := |versions|;
      assert Layers()[..i] == Layers();
      while i > 0
        invariant 0 <= i <= |versions|
        invariant FindIn(Layers(), k) == FindIn(Layers()[..i], k)
      {
        i := i - 1;
        assert Layers()[..i + 1][..i] == Layers()[..i];
        var f := Find(sets[versions[i]], k);
        if f.Some? { return f; }
      }
      return None;
    }

    method ExpandFrom(changes: Changes) returns (r: Changes)
      requires Valid()
      ensures r == Expand(changes, Layers())
    {
      hide MergePrev;
      r := changes;
      var i := |versions|;
      ghost var layers := Layers();
      assert layers[..i] == layers;
      while i > 0
        invariant 0 <= i <= |versions| && Valid() && Layers() == layers
        invariant Expand(changes, layers) == Expand(r, layers[..i])
      {
        i := i - 1;
        ExpandLast(r, layers[..i + 1]);
        assert layers[..i + 1][..i] == layers[..i];
        r := MergeCopy(r, sets[versions[i]]);
      }
    }
  }

  lemma ExpandLast(c: Changes, layers: seq<Changes>)
    requires layers != []
    ensures Expand(c, layers) == Expand(MergePrev(c, layers[|layers| - 1]), layers[..|layers| - 1])
  {
    hide MergePrev;
  }

  /** Merging older changes into a copy. */
  method MergeCopy(c: Changes, older: Changes) returns (r: Changes)
    ensures r == MergePrev(c, older)
  {
    var ret := new ChangeSet();
    var prev := new ChangeSet();
    ret.additions, ret.removals := c.additions, c.removals;
    prev.additions, prev.removals := older.additions, older.removals;
    ret.MergePrevInto(prev);
    r := ret.Now();
  }
}
