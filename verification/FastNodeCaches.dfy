/** The LRU cache of fast nodes: a map and a queue, the least recently used node first. */
module FastNodeCaches {
  import opened Options
  import opened ByteStrings
  import opened FastChanges

  predicate NoRepeats(s: seq<Bytes>) { forall i, j :: 0 <= i < j < |s| ==> s[i] != s[j] }

  function Without(s: seq<Bytes>, k: Bytes): seq<Bytes>
  {
    if s == [] then [] else if s[0] == k then s[1..] else [s[0]] + Without(s[1..], k)
  }

  lemma {:induction false} WithoutRemoves(s: seq<Bytes>, k: Bytes)
    requires NoRepeats(s)
    ensures NoRepeats(Without(s, k)) && forall x :: x in Without(s, k) <==> x in s && x != k
    ensures |Without(s, k)| == if k in s then |s| - 1 else |s|
  {
    if s != [] && s[0] != k {
      assert s == [s[0]] + s[1..];
      WithoutRemoves(s[1..], k);
      var t := Without(s[1..], k);
      assert s[0] !in s[1..] && s[0] !in t;
      var r := Without(s, k);
      assert r == [s[0]] + t;
      forall i, j | 0 <= i < j < |r| ensures r[i] != r[j] { assert r[j] == t[j - 1] && t[j - 1] in t; }
    } else if s != [] {
      forall i | 0 <= i < |s[1..]| ensures s[1..][i] != k { assert s[1..][i] == s[i + 1]; }
    }
  }

  /** When a key was used last; -1 if never. */
  function LastUse(uses: seq<Bytes>, k: Bytes): int
  {
    if uses == [] then -1 else if uses[|uses| - 1] == k then |uses| - 1 else LastUse(uses[..|uses| - 1], k)
  }

  lemma LastUseMore(uses: seq<Bytes>, k: Bytes, x: Bytes)
    ensures LastUse(uses + [k], x) == if x == k then |uses| else LastUse(uses, x)
  {
    assert (uses + [k])[..|uses|] == uses;
  }

  lemma {:induction false} LastUseBefore(uses: seq<Bytes>, x: Bytes)
    ensures LastUse(uses, x) < |uses|
  {
    if uses != [] && uses[|uses| - 1] != x { LastUseBefore(uses[..|uses| - 1], x); }
  }

  /** The queue runs from the least to the most recently used key. */
  predicate ByLastUse(queue: seq<Bytes>, uses: seq<Bytes>)
  {
    forall i, j :: 0 <= i < j < |queue| ==> LastUse(uses, queue[i]) < LastUse(uses, queue[j])
  }

  /** Taking a key out keeps the order of the others. */
  lemma {:induction false} WithoutByLastUse(s: seq<Bytes>, k: Bytes, uses: seq<Bytes>)
    requires ByLastUse(s, uses)
    ensures ByLastUse(Without(s, k), uses) && forall x :: x in Without(s, k) ==> x in s
  {
    if s != [] {
      if s[0] != k {
        WithoutByLastUse(s[1..], k, uses);
        var t := Without(s[1..], k);
        forall j | 0 <= j < |t| ensures LastUse(uses, s[0]) < LastUse(uses, t[j]) {
          assert t[j] in s[1..];
          var i :| 0 <= i < |s[1..]| && s[1..][i] == t[j];
          assert s[i + 1] == t[j];
        }
      }
    }
  }

  /** A key that is used goes to the end. */
  lemma UsedGoesLast(s: seq<Bytes>, k: Bytes, uses: seq<Bytes>)
    requires ByLastUse(s, uses) && k !in s
    ensures ByLastUse(s + [k], uses + [k])
  {
    hide LastUse;
    var q := s + [k];
    forall i, j | 0 <= i < j < |q| ensures LastUse(uses + [k], q[i]) < LastUse(uses + [k], q[j]) {
      LastUseMore(uses, k, q[i]);
      LastUseMore(uses, k, q[j]);
      LastUseBefore(uses, q[i]);
    }
  }

  /** What one cache operation may leave of the nodes: the new one, and old ones unchanged. */
  predicate Forgets(before: Fast, after: Fast) { forall k :: k in after ==> k in before && after[k] == before[k] }

  class FastNodeCache {
    const size: nat
    var items: Fast
    var queue: seq<Bytes>
    ghost var uses: seq<Bytes>   // the keys cached or found, in order

    ghost predicate Valid()
      reads this
    {
      NoRepeats(queue) && |queue| <= size && (forall k :: k in queue <==> k in items) && ByLastUse(queue, uses)
    }

    constructor (size: nat)
      ensures Valid() && items == map[] && this.size == size && uses == []
    {
      this.size, items, queue, uses := size, map[], [], [];
    }

    method Uncache(k: Bytes)
      requires Valid()
      modifies this`items, this`queue
      ensures Valid() && items == old(items) - {k}
    {
      WithoutRemoves(queue, k);
      WithoutByLastUse(queue, k, uses);
      if k in items {
        queue := Without(queue, k);
        items := items - {k};
      }
    }

    /** The node is cached, if anything can be; what is pushed out was used before everything else. */
    method Cache(k: Bytes, n: FastNode)
      requires Valid()
      modifies this
      ensures Valid() && uses == old(uses) + [k] && Forgets(old(items)[k := n], items) && (size > 0 ==> k in items)
      ensures |old(items)| < size || k in old(items) ==> items == old(items)[k := n]
      ensures k in old(items) ==> queue == Without(old(queue), k) + [k]
      ensures k !in old(items) ==> queue == if |old(items)| < size then old(queue) + [k] else (old(queue) + [k])[1..]
      ensures |old(items)| == size > 0 && k !in old(items) ==>
                exists e :: e in old(items) && items == old(items)[k := n] - {e} &&
                            forall x :: x in old(items) && x != e ==> LastUse(old(uses), e) < LastUse(old(uses), x)
    {
      hide ByLastUse, Without, NoRepeats, LastUse;
      QueueIsItems();
      if k in items {
        MoveLast(k);
        items := items[k := n];
      } else {
        ghost var before, used := queue, uses;
        Enqueue(k, n);
        if |queue| > size {
          DropOldest();
          if size > 0 { OldestIsFirst(before, used); }
        }
      }
    }

    /** MoveToBack. */
    method MoveLast(k: Bytes)
      requires Valid() && k in items
      modifies this`queue, this`uses
      ensures Valid() && uses == old(uses) + [k] && queue == Without(old(queue), k) + [k]
    {
      WithoutRemoves(queue, k);
      WithoutByLastUse(queue, k, uses);
      UsedGoesLast(Without(queue, k), k, uses);
      queue, uses := Without(queue, k) + [k], uses + [k];
    }

    method Enqueue(k: Bytes, n: FastNode)
      requires Valid() && k !in items
      modifies this
      ensures uses == old(uses) + [k] && queue == old(queue) + [k] && items == old(items)[k := n]
      ensures NoRepeats(queue) && (forall x :: x in queue <==> x in items) && ByLastUse(queue, uses)
    {
      UsedGoesLast(queue, k, uses);
      queue, items, uses := queue + [k], items[k := n], uses + [k];
    }

    /** The loop of cacheFastNode: one round at most, because the cache was not over its size before. */
    method DropOldest()
      requires NoRepeats(queue) && |queue| == size + 1 && (forall k :: k in queue <==> k in items) && ByLastUse(queue, uses)
      modifies this`items, this`queue
      ensures Valid() && queue == old(queue)[1..] && items == old(items) - {old(queue)[0]}
    {
      while |queue| > size
        invariant size <= |queue| <= size + 1 && NoRepeats(queue) && (forall k :: k in queue <==> k in items) && ByLastUse(queue, uses)
        invariant if |queue| == size + 1 then queue == old(queue) && items == old(items)
                  else queue == old(queue)[1..] && items == old(items) - {old(queue)[0]}
        decreases |queue|
      {
        var oldest := queue[0];
        queue := queue[1..];
        items := items - {oldest};
      }
    }

    lemma QueueIsItems()
      requires Valid()
      ensures |queue| == |items|
    {
      SizeOfKeys(queue, items.Keys);
      assert |items.Keys| == |items|;
    }

    /** A hit counts as a use if the caller wants it promoted. */
    method Get(k: Bytes, promote: bool) returns (n: Option<FastNode>)
      requires Valid()
      modifies this`queue, this`uses
      ensures Valid() && n == (if k in items then Some(items[k]) else None)
      ensures uses == if k in items && promote then old(uses) + [k] else old(uses)
      ensures queue == if k in items && promote then Without(old(queue), k) + [k] else old(queue)
    {
      if k !in items { return None; }
      if promote { MoveLast(k); }
      return Some(items[k]);
    }
  }

  lemma {:induction false} SizeOfKeys(s: seq<Bytes>, keys: set<Bytes>)
    requires NoRepeats(s) && forall k :: k in s <==> k in keys
    ensures |s| == |keys|
  {
    if s == [] {
      assert keys == {};
    } else {
      assert s == [s[0]] + s[1..];
      SizeOfKeys(s[1..], keys - {s[0]});
    }
  }

  lemma OldestIsFirst(queue: seq<Bytes>, uses: seq<Bytes>)
    requires queue != [] && ByLastUse(queue, uses)
    ensures forall x :: x in queue && x != queue[0] ==> LastUse(uses, queue[0]) < LastUse(uses, x)
  {
    hide LastUse;
  }
}
