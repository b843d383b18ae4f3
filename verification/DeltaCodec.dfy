/**
  The amino form of state deltas: records are written field by field, each with
  a key byte, and read back by one loop that dispatches on the field number.
 */
module DeltaCodec {
  import opened Options
  import opened ByteStrings
  import opened Wire
  import MI = MergeIterator

  const TWO_63 := 0x8000_0000_0000_0000
  const TWO_64 := 0x1_0000_0000_0000_0000

  type Int64 = x: int | -0x8000_0000_0000_0000 <= x < 0x8000_0000_0000_0000
  type Int8 = x: int | -128 <= x < 128

  function ToUint64(x: Int64): nat { if x < 0 then x + TWO_64 else x }

  /** The conversion to int64 keeps the low 64 bits. */
  function ToInt64(n: nat): Int64
  {
    var m := n % TWO_64;
    if m < TWO_63 then m else m - TWO_64
  }

  // ---------- the records ----------

  /** A nil byte slice and an empty one are the same here. */
  datatype NodeJson = NodeJson(key: Bytes, value: Bytes, hash: Bytes, leftHash: Bytes, rightHash: Bytes,
                               version: Int64, size: Int64, height: Int8, persisted: bool, prePersisted: bool)

  const ZERO_NODE := NodeJson([], [], [], [], [], 0, 0, 0, false, false)

  datatype NodeJsonImp = NodeJsonImp(key: Bytes, node: Option<NodeJson>)

  datatype CommitOrphansImp = CommitOrphansImp(key: Bytes, commitValue: Int64)

  datatype TreeDelta = TreeDelta(nodes: seq<Option<NodeJsonImp>>, orphans: seq<Option<NodeJson>>, commitOrphans: seq<Option<CommitOrphansImp>>)

  datatype TreeDeltaMapImp = TreeDeltaMapImp(key: Bytes, tree: Option<TreeDelta>)

  type TreeDeltaMap = map<Bytes, Option<TreeDelta>>

  // ---------- writing ----------

  const BYTE_LENGTH := 2

  function FieldKey(pos: nat, typ: nat): Byte
    requires pos < 16 && typ < 8
  {
    8 * pos + typ
  }

  function BytesField(pos: nat, v: Bytes): Bytes
    requires pos < 16
  {
    [FieldKey(pos, BYTE_LENGTH)] + ByteSlice(v)
  }

  /** An empty string is not written at all. */
  function OptBytes(pos: nat, v: Bytes): Bytes
    requires pos < 16
  {
    if v == [] then [] else BytesField(pos, v)
  }

  function OptInt64(pos: nat, v: Int64): Bytes
    requires pos < 16
  {
    if v == 0 then [] else [FieldKey(pos, 0)] + Uvarint(ToUint64(v))
  }

  function OptInt8(pos: nat, v: Int8): Bytes
    requires pos < 16
  {
    if v == 0 then [] else [FieldKey(pos, 0)] + Varint(v)
  }

  function OptBool(pos: nat, v: bool): Bytes
    requires pos < 16
  {
    if v then [FieldKey(pos, 0), 1] else []
  }

  function MarshalNode(n: NodeJson): Bytes
  {
    OptBytes(1, n.key) + (OptBytes(2, n.value) + (OptBytes(3, n.hash) + (OptBytes(4, n.leftHash) + (OptBytes(5, n.rightHash) +
    (OptInt64(6, n.version) + (OptInt64(7, n.size) + (OptInt8(8, n.height) + (OptBool(9, n.persisted) + (OptBool(10, n.prePersisted) + [])))))))))
  }

  function MarshalNodeImp(n: NodeJsonImp): Bytes
  {
    OptBytes(1, n.key) + ((if n.node.None? then [] else BytesField(2, MarshalNode(n.node.value))) + [])
  }

  function MarshalCommitOrphan(c: CommitOrphansImp): Bytes
  {
    OptBytes(1, c.key) + (OptInt64(2, c.commitValue) + [])
  }

  /** A list element is written even if it is nil; then its data is empty. */
  function MarshalAll<T>(pos: nat, marshal: T -> Bytes, s: seq<Option<T>>): Bytes
    requires pos < 16
  {
    if s == [] then [] else BytesField(pos, if s[0].None? then [] else marshal(s[0].value)) + MarshalAll(pos, marshal, s[1..])
  }

  function MarshalTree(t: TreeDelta): Bytes
  {
    MarshalAll(1, MarshalNodeImp, t.nodes) + (MarshalAll(2, MarshalNode, t.orphans) + (MarshalAll(3, MarshalCommitOrphan, t.commitOrphans) + []))
  }

  function MarshalMapImp(e: TreeDeltaMapImp): Bytes
  {
    OptBytes(1, e.key) + ((if e.tree.None? then [] else BytesField(2, MarshalTree(e.tree.value))) + [])
  }

  /** The entries in the order of the given keys. */
  function MarshalEntries(m: TreeDeltaMap, keys: seq<Bytes>): Bytes
    requires forall k :: k in keys ==> k in m
  {
    if keys == [] then [] else BytesField(1, MarshalMapImp(TreeDeltaMapImp(keys[0], m[keys[0]]))) + MarshalEntries(m, keys[1..])
  }

  // ---------- reading ----------

  datatype Result<T> = Ok(value: T) | Error | Panic

  /** The start of a field: its number, the data after the key and length, and the two variables that survive from field to field. */
  datatype Head = Head(pos: nat, data: Bytes, sub: Bytes, len: nat) | NoHead

  function ReadHead(d: Bytes, sub: Bytes, len: nat): (h: Head)
    requires d != []
    ensures h.Head? ==> |h.data| < |d|
  {
    if d[0] >= 128 then NoHead
    else
      var pos, typ, data := d[0] / 8, d[0] % 8, d[1..];
      if typ != BYTE_LENGTH then Head(pos, data, sub, len)
      else
        var r := DecodeUvarint(data);
        if r.None? then Head(pos, data, [], 0)          // the error is dropped and the length is 0
        else if |r.value.1| < r.value.0 then NoHead     // not enough data
        else Head(pos, r.value.1, r.value.1[..r.value.0], r.value.0)
  }

  /** What one field does to the record, and how much of the data it takes up. */
  datatype Got<R> = Got(rec: R, len: nat) | Bad | Crash

  function Loop<R>(step: (R, Head) -> Got<R>, rec: R, data: Bytes, sub: Bytes, len: nat): Result<R>
    decreases |data|
  {
    if len > |data| then Panic
    else
      var d := data[len..];
      if d == [] then Ok(rec)
      else
        var h := ReadHead(d, sub, len);
        if h.NoHead? then Error
        else
          match step(rec, h)
          case Got(r, l) => Loop(step, r, h.data, h.sub, l)
          case Bad => Error
          case Crash => Panic
  }

  function Unmarshal<R>(step: (R, Head) -> Got<R>, zero: R, data: Bytes): Result<R> { Loop(step, zero, data, [], 0) }

  /** The loop that all UnmarshalFromAmino methods share. */
  method UnmarshalFromAmino<R>(step: (R, Head) -> Got<R>, zero: R, input: Bytes) returns (r: Result<R>)
    ensures r == Unmarshal(step, zero, input)
  {
    var rec, data, sub, dataLen := zero, input, [], 0;
    while true
      invariant Unmarshal(step, zero, input) == Loop(step, rec, data, sub, dataLen)
      decreases |data|
    {
      if dataLen > |data| { return Panic; }
      var d := data[dataLen..];
      if d == [] { return Ok(rec); }
      var h := ReadHead(d, sub, dataLen);
      if h.NoHead? { return Error; }
      match step(rec, h) {
        case Got(r', l) => rec, data, sub, dataLen := r', h.data, h.sub, l;
        case Bad => return Error;
        case Crash => return Panic;
      }
    }
  }

  /** A number of at most 64 bits in at most ten bytes. */
  function DecodeUint64(data: Bytes): (r: Option<(nat, Bytes)>)
    ensures r.Some? ==> |r.value.1| < |data|
  {
    var r := DecodeUvarint(data);
    if r.None? || r.value.0 >= TWO_64 || |data| - |r.value.1| > 10 then None else r
  }

  /** A number and the bytes it takes. */
  function ReadInt64(data: Bytes): Option<(Int64, nat)>
  {
    var r := DecodeUint64(data);
    if r.None? then None else Some((ToInt64(r.value.0), |data| - |r.value.1|))
  }

  function ReadInt8(data: Bytes): Option<(Int8, nat)>
  {
    var r := DecodeUint64(data);
    if r.None? then None
    else
      var v := Unzigzag(r.value.0);
      if -128 <= v < 128 then Some((v, |data| - |r.value.1|)) else None
  }

  function NodeField(n: NodeJson, h: Head): Got<NodeJson>
  {
    if h.NoHead? then Bad
    else match h.pos
      case 1 => Got(n.(key := h.sub), h.len)
      case 2 => Got(n.(value := h.sub), h.len)
      case 3 => Got(n.(hash := h.sub), h.len)
      case 4 => Got(n.(leftHash := h.sub), h.len)
      case 5 => Got(n.(rightHash := h.sub), h.len)
      case 6 => (var v := ReadInt64(h.data); if v.None? then Bad else Got(n.(version := v.value.0), v.value.1))
      case 7 => (var v := ReadInt64(h.data); if v.None? then Bad else Got(n.(size := v.value.0), v.value.1))
      case 8 => (var v := ReadInt8(h.data); if v.None? then Bad else Got(n.(height := v.value.0), v.value.1))
      case 9 => if h.data == [] then Crash else if h.data[0] > 1 then Bad else Got(n.(persisted := h.data[0] == 1), 1)
      case 10 => if h.data == [] then Crash else if h.data[0] > 1 then Bad else Got(n.(prePersisted := h.data[0] == 1), 1)
      case _ => Bad
  }

  function UnmarshalNode(data: Bytes): Result<NodeJson> { Unmarshal(NodeField, ZERO_NODE, data) }

  function Lifted<T, R>(r: Result<T>, len: nat, f: T -> R): Got<R>
  {
    match r case Ok(v) => Got(f(v), len) case Error => Bad case Panic => Crash
  }

  function NodeImpField(n: NodeJsonImp, h: Head): Got<NodeJsonImp>
  {
    if h.NoHead? then Bad
    else match h.pos
      case 1 => Got(n.(key := h.sub), h.len)
      case 2 => Lifted(UnmarshalNode(h.sub), h.len, v => n.(node := Some(v)))
      case _ => Bad
  }

  function UnmarshalNodeImp(data: Bytes): Result<NodeJsonImp> { Unmarshal(NodeImpField, NodeJsonImp([], None), data) }

  function CommitOrphanField(c: CommitOrphansImp, h: Head): Got<CommitOrphansImp>
  {
    if h.NoHead? then Bad
    else match h.pos
      case 1 => Got(c.(key := h.sub), h.len)
      case 2 => (var v := ReadInt64(h.data); if v.None? then Bad else Got(c.(commitValue := v.value.0), v.value.1))
      case _ => Bad
  }

  function UnmarshalCommitOrphan(data: Bytes): Result<CommitOrphansImp> { Unmarshal(CommitOrphanField, CommitOrphansImp([], 0), data) }

  /** Empty data is a nil element. */
  function Element<T>(unmarshal: Bytes -> Result<T>, sub: Bytes): Result<Option<T>>
  {
    if sub == [] then Ok(None) else match unmarshal(sub) case Ok(v) => Ok(Some(v)) case Error => Error case Panic => Panic
  }

  function TreeField(t: TreeDelta, h: Head): Got<TreeDelta>
  {
    if h.NoHead? then Bad
    else match h.pos
      case 1 => Lifted(Element(UnmarshalNodeImp, h.sub), h.len, v => t.(nodes := t.nodes + [v]))
      case 2 => Lifted(Element(UnmarshalNode, h.sub), h.len, v => t.(orphans := t.orphans + [v]))
      case 3 => Lifted(Element(UnmarshalCommitOrphan, h.sub), h.len, v => t.(commitOrphans := t.commitOrphans + [v]))
      case _ => Bad
  }

  function UnmarshalTree(data: Bytes): Result<TreeDelta> { Unmarshal(TreeField, TreeDelta([], [], []), data) }

  function MapImpField(e: TreeDeltaMapImp, h: Head): Got<TreeDeltaMapImp>
  {
    if h.NoHead? then Bad
    else match h.pos
      case 1 => Got(e.(key := h.sub), h.len)
      case 2 => Lifted(UnmarshalTree(h.sub), h.len, v => e.(tree := Some(v)))
      case _ => Bad
  }

  function UnmarshalMapImp(data: Bytes): Result<TreeDeltaMapImp> { Unmarshal(MapImpField, TreeDeltaMapImp([], None), data) }

  function MapField(m: TreeDeltaMap, h: Head): Got<TreeDeltaMap>
  {
    if h.NoHead? || h.pos != 1 then Bad else Lifted(UnmarshalMapImp(h.sub), h.len, (e: TreeDeltaMapImp) => m[e.key := e.tree])
  }

  function UnmarshalMap(data: Bytes): Result<TreeDeltaMap> { Unmarshal(MapField, map[], data) }

  // ---------- one field at a time ----------

  /** From here on the loop ends with this result, whatever is left over from the field before. */
  ghost predicate Ends<R>(step: (R, Head) -> Got<R>, rec: R, rest: Bytes, r: Result<R>)
  {
    forall used: Bytes, sub: Bytes :: Loop(step, rec, used + rest, sub, |used|) == r
  }

  lemma EndsEmpty<R>(step: (R, Head) -> Got<R>, rec: R)
    ensures Ends(step, rec, [], Ok(rec))
  {
    forall used: Bytes, sub: Bytes ensures Loop(step, rec, used + [], sub, |used|) == Ok(rec) {
      assert (used + [])[|used|..] == [];
    }
  }

  lemma EndsStart<R>(step: (R, Head) -> Got<R>, rec: R, rest: Bytes, r: Result<R>)
    requires Ends(step, rec, rest, r)
    ensures Unmarshal(step, rec, rest) == r
  {
    var none: Bytes := [];
    assert Loop(step, rec, none + rest, none, |none|) == r;
    assert none + rest == rest;
  }

  lemma BytesHead(pos: nat, v: Bytes, rest: Bytes, sub: Bytes, len: nat)
    requires pos < 16
    ensures BytesField(pos, v) + rest != [] && ReadHead(BytesField(pos, v) + rest, sub, len) == Head(pos, v + rest, v, |v|)
  {
    var d := BytesField(pos, v) + rest;
    assert d[0] == 8 * pos + 2;
    assert d[1..] == Uvarint(|v|) + (v + rest);
    UvarintRoundTrip(|v|, v + rest);
    assert (v + rest)[..|v|] == v;
  }

  lemma EndsBytes<R>(step: (R, Head) -> Got<R>, rec: R, rec': R, pos: nat, v: Bytes, rest: Bytes, r: Result<R>)
    requires pos < 16 && step(rec, Head(pos, v + rest, v, |v|)) == Got(rec', |v|) && Ends(step, rec', rest, r)
    ensures Ends(step, rec, BytesField(pos, v) + rest, r)
  {
    hide BytesField, ReadHead;
    forall used: Bytes, sub: Bytes ensures Loop(step, rec, used + (BytesField(pos, v) + rest), sub, |used|) == r {
      BytesHead(pos, v, rest, sub, |used|);
      assert (used + (BytesField(pos, v) + rest))[|used|..] == BytesField(pos, v) + rest;
      assert Loop(step, rec', v + rest, v, |v|) == r;
    }
  }

  /** A field without a length: the step finds its end itself. */
  lemma LoopOnce<R>(step: (R, Head) -> Got<R>, rec: R, data: Bytes, sub: Bytes, len: nat, h: Head, rec': R, len': nat)
    requires len < |data| && h.Head? && ReadHead(data[len..], sub, len) == h && step(rec, h) == Got(rec', len')
    ensures Loop(step, rec, data, sub, len) == Loop(step, rec', h.data, h.sub, len')
  {
  }

  lemma EndsPlain<R>(step: (R, Head) -> Got<R>, rec: R, rec': R, pos: nat, v: Bytes, rest: Bytes, r: Result<R>)
    requires pos < 16 && (forall sub: Bytes, len: nat :: step(rec, Head(pos, v + rest, sub, len)) == Got(rec', |v|)) && Ends(step, rec', rest, r)
    ensures Ends(step, rec, [FieldKey(pos, 0)] + v + rest, r)
  {
    hide Loop;
    var d := [FieldKey(pos, 0)] + v + rest;
    assert d[0] == 8 * pos && d[1..] == v + rest;
    forall used: Bytes, sub: Bytes ensures Loop(step, rec, used + d, sub, |used|) == r {
      assert (used + d)[|used|..] == d;
      LoopOnce(step, rec, used + d, sub, |used|, Head(pos, v + rest, sub, |used|), rec', |v|);
      assert Loop(step, rec', v + rest, sub, |v|) == r;
    }
  }

  lemma EndsOptBytes<R>(step: (R, Head) -> Got<R>, rec: R, rec': R, pos: nat, v: Bytes, rest: Bytes, r: Result<R>)
    requires pos < 16 && (v == [] ==> rec == rec') && step(rec, Head(pos, v + rest, v, |v|)) == Got(rec', |v|) && Ends(step, rec', rest, r)
    ensures Ends(step, rec, OptBytes(pos, v) + rest, r)
  {
    hide BytesField, Ends;
    if v == [] { assert OptBytes(pos, v) + rest == rest; } else { EndsBytes(step, rec, rec', pos, v, rest, r); }
  }

  lemma Uint64RoundTrip(n: nat, rest: Bytes)
    requires n < TWO_64
    ensures DecodeUint64(Uvarint(n) + rest) == Some((n, rest))
  {
    hide Uvarint, DecodeUvarint;
    UvarintRoundTrip(n, rest);
    UvarintLength(n, 10);
  }

  function Power128(k: nat): nat { if k == 0 then 1 else 128 * Power128(k - 1) }

  /** Seven bits a byte. */
  lemma {:induction false} UvarintLength(n: nat, k: nat)
    requires n < Power128(k) && k > 0
    ensures |Uvarint(n)| <= k
  {
    if n >= 128 { UvarintLength(n / 128, k - 1); }
  }

  lemma Int64RoundTrip(v: Int64, rest: Bytes)
    ensures ReadInt64(Uvarint(ToUint64(v)) + rest) == Some((v, |Uvarint(ToUint64(v))|))
  {
    hide Uvarint, DecodeUint64, ToInt64;
    Uint64RoundTrip(ToUint64(v), rest);
    Int64IsKept(v);
  }

  lemma Int64IsKept(v: Int64)
    ensures ToInt64(ToUint64(v)) == v
  {
  }

  lemma EndsOptInt64<R>(step: (R, Head) -> Got<R>, rec: R, rec': R, pos: nat, v: Int64, rest: Bytes, r: Result<R>)
    requires pos < 16 && (v == 0 ==> rec == rec') && Ends(step, rec', rest, r)
    requires forall data: Bytes, sub: Bytes, len: nat, n: nat :: ReadInt64(data) == Some((v, n)) ==> step(rec, Head(pos, data, sub, len)) == Got(rec', n)
    ensures Ends(step, rec, OptInt64(pos, v) + rest, r)
  {
    hide Ends, Uvarint, ReadInt64;
    if v == 0 {
      assert OptInt64(pos, v) + rest == rest;
    } else {
      Int64RoundTrip(v, rest);
      EndsPlain(step, rec, rec', pos, Uvarint(ToUint64(v)), rest, r);
    }
  }

  lemma EndsOptInt8<R>(step: (R, Head) -> Got<R>, rec: R, rec': R, pos: nat, v: Int8, rest: Bytes, r: Result<R>)
    requires pos < 16 && (v == 0 ==> rec == rec') && Ends(step, rec', rest, r)
    requires forall data: Bytes, sub: Bytes, len: nat, n: nat :: ReadInt8(data) == Some((v, n)) ==> step(rec, Head(pos, data, sub, len)) == Got(rec', n)
    ensures Ends(step, rec, OptInt8(pos, v) + rest, r)
  {
    hide Ends, Uvarint;
    if v == 0 {
      assert OptInt8(pos, v) + rest == rest;
    } else {
      Uint64RoundTrip(Zigzag(v), rest);
      assert ReadInt8(Varint(v) + rest) == Some((v, |Varint(v)|));
      EndsPlain(step, rec, rec', pos, Varint(v), rest, r);
    }
  }

  lemma EndsOptBool<R>(step: (R, Head) -> Got<R>, rec: R, rec': R, pos: nat, v: bool, rest: Bytes, r: Result<R>)
    requires pos < 16 && (!v ==> rec == rec') && Ends(step, rec', rest, r)
    requires forall data: Bytes, sub: Bytes, len: nat :: data != [] && data[0] == 1 && v ==> step(rec, Head(pos, data, sub, len)) == Got(rec', 1)
    ensures Ends(step, rec, OptBool(pos, v) + rest, r)
  {
    hide Ends;
    if v {
      var one: Bytes := [1];
      assert OptBool(pos, v) == [FieldKey(pos, 0)] + one;
      EndsPlain(step, rec, rec', pos, one, rest, r);
    } else {
      assert OptBool(pos, v) + rest == rest;
    }
  }

  // ---------- round trips ----------

  lemma NodeRoundTrip(n: NodeJson)
    ensures UnmarshalNode(MarshalNode(n)) == Ok(n)
  {
    hide Ends, Loop, ReadInt64, ReadInt8, OptBytes, OptInt64, OptInt8, OptBool;
    var r := Ok(n);
    var n1 := ZERO_NODE.(key := n.key);
    var n2 := n1.(value := n.value);
    var n3 := n2.(hash := n.hash);
    var n4 := n3.(leftHash := n.leftHash);
    var n5 := n4.(rightHash := n.rightHash);
    var n6 := n5.(version := n.version);
    var n7 := n6.(size := n.size);
    var n8 := n7.(height := n.height);
    var n9 := n8.(persisted := n.persisted);
    assert n9.(prePersisted := n.prePersisted) == n;
    EndsEmpty(NodeField, n);
    var e10 := OptBool(10, n.prePersisted) + [];
    EndsOptBool(NodeField, n9, n, 10, n.prePersisted, [], r);
    var e9 := OptBool(9, n.persisted) + e10;
    EndsOptBool(NodeField, n8, n9, 9, n.persisted, e10, r);
    var e8 := OptInt8(8, n.height) + e9;
    EndsOptInt8(NodeField, n7, n8, 8, n.height, e9, r);
    var e7 := OptInt64(7, n.size) + e8;
    EndsOptInt64(NodeField, n6, n7, 7, n.size, e8, r);
    var e6 := OptInt64(6, n.version) + e7;
    EndsOptInt64(NodeField, n5, n6, 6, n.version, e7, r);
    var e5 := OptBytes(5, n.rightHash) + e6;
    EndsOptBytes(NodeField, n4, n5, 5, n.rightHash, e6, r);
    var e4 := OptBytes(4, n.leftHash) + e5;
    EndsOptBytes(NodeField, n3, n4, 4, n.leftHash, e5, r);
    var e3 := OptBytes(3, n.hash) + e4;
    EndsOptBytes(NodeField, n2, n3, 3, n.hash, e4, r);
    var e2 := OptBytes(2, n.value) + e3;
    EndsOptBytes(NodeField, n1, n2, 2, n.value, e3, r);
    EndsOptBytes(NodeField, ZERO_NODE, n1, 1, n.key, e2, r);
    EndsStart(NodeField, ZERO_NODE, MarshalNode(n), r);
  }

  lemma NodeImpRoundTrip(n: NodeJsonImp)
    ensures UnmarshalNodeImp(MarshalNodeImp(n)) == Ok(n)
  {
    hide Ends, Loop, OptBytes, BytesField, UnmarshalNode, MarshalNode;
    var zero := NodeJsonImp([], None);
    var n1 := zero.(key := n.key);
    EndsEmpty(NodeImpField, n);
    var e2 := (if n.node.None? then [] else BytesField(2, MarshalNode(n.node.value))) + [];
    if n.node.Some? {
      NodeRoundTrip(n.node.value);
      EndsBytes(NodeImpField, n1, n, 2, MarshalNode(n.node.value), [], Ok(n));
    } else {
      assert e2 == [] && n1 == n;
    }
    EndsOptBytes(NodeImpField, zero, n1, 1, n.key, e2, Ok(n));
    EndsStart(NodeImpField, zero, MarshalNodeImp(n), Ok(n));
  }

  lemma CommitOrphanRoundTrip(c: CommitOrphansImp)
    ensures UnmarshalCommitOrphan(MarshalCommitOrphan(c)) == Ok(c)
  {
    hide Ends, Loop, OptBytes, OptInt64, ReadInt64;
    var zero := CommitOrphansImp([], 0);
    var c1 := zero.(key := c.key);
    EndsEmpty(CommitOrphanField, c);
    EndsOptInt64(CommitOrphanField, c1, c, 2, c.commitValue, [], Ok(c));
    EndsOptBytes(CommitOrphanField, zero, c1, 1, c.key, OptInt64(2, c.commitValue) + [], Ok(c));
    EndsStart(CommitOrphanField, zero, MarshalCommitOrphan(c), Ok(c));
  }

  // ---------- lists and the map ----------

  const ZERO_NODE_IMP := NodeJsonImp([], None)
  const ZERO_COMMIT_ORPHAN := CommitOrphansImp([], 0)

  /** A zero record in a list is written as empty data and read back as nil. */
  function NilZero<T(==)>(zero: T, x: Option<T>): Option<T> { if x == Some(zero) then None else x }

  function NilZeros<T(==)>(zero: T, s: seq<Option<T>>): (r: seq<Option<T>>)
    ensures |r| == |s|
  {
    seq(|s|, i requires 0 <= i < |s| => NilZero(zero, s[i]))
  }

  function Data<T>(marshal: T -> Bytes, x: Option<T>): Bytes { if x.None? then [] else marshal(x.value) }

  lemma NodeElement(x: Option<NodeJson>)
    ensures Element(UnmarshalNode, Data(MarshalNode, x)) == Ok(NilZero(ZERO_NODE, x))
  {
    hide Loop, OptBytes, MarshalNode;
    if x.Some? { NodeRoundTrip(x.value); ZeroesAreEmpty(); }
  }

  lemma NodeImpElement(x: Option<NodeJsonImp>)
    ensures Element(UnmarshalNodeImp, Data(MarshalNodeImp, x)) == Ok(NilZero(ZERO_NODE_IMP, x))
  {
    hide Loop, OptBytes, MarshalNodeImp;
    if x.Some? { NodeImpRoundTrip(x.value); ZeroesAreEmpty(); }
  }

  lemma CommitOrphanElement(x: Option<CommitOrphansImp>)
    ensures Element(UnmarshalCommitOrphan, Data(MarshalCommitOrphan, x)) == Ok(NilZero(ZERO_COMMIT_ORPHAN, x))
  {
    hide Loop, OptBytes, MarshalCommitOrphan;
    if x.Some? { CommitOrphanRoundTrip(x.value); ZeroesAreEmpty(); }
  }

  lemma ZeroesAreEmpty()
    ensures MarshalNode(ZERO_NODE) == [] && MarshalNodeImp(ZERO_NODE_IMP) == [] && MarshalCommitOrphan(ZERO_COMMIT_ORPHAN) == []
    ensures UnmarshalNode([]) == Ok(ZERO_NODE) && UnmarshalNodeImp([]) == Ok(ZERO_NODE_IMP) && UnmarshalCommitOrphan([]) == Ok(ZERO_COMMIT_ORPHAN)
  {
  }

  lemma {:induction false} EndsNodes(t: TreeDelta, s: seq<Option<NodeJsonImp>>, rest: Bytes, r: Result<TreeDelta>)
    requires Ends(TreeField, t.(nodes := t.nodes + NilZeros(ZERO_NODE_IMP, s)), rest, r)
    ensures Ends(TreeField, t, MarshalAll(1, MarshalNodeImp, s) + rest, r)
    decreases |s|
  {
    hide Ends, Loop, BytesField, MarshalNodeImp, Element, UnmarshalNodeImp;
    if s == [] {
      assert t.nodes + NilZeros(ZERO_NODE_IMP, s) == t.nodes && MarshalAll(1, MarshalNodeImp, s) + rest == rest;
    } else {
      var x := NilZero(ZERO_NODE_IMP, s[0]);
      var t', more := t.(nodes := t.nodes + [x]), MarshalAll(1, MarshalNodeImp, s[1..]);
      assert t.nodes + NilZeros(ZERO_NODE_IMP, s) == t'.nodes + NilZeros(ZERO_NODE_IMP, s[1..]);
      EndsNodes(t', s[1..], rest, r);
      NodeImpElement(s[0]);
      EndsBytes(TreeField, t, t', 1, Data(MarshalNodeImp, s[0]), more + rest, r);
      assert MarshalAll(1, MarshalNodeImp, s) + rest == BytesField(1, Data(MarshalNodeImp, s[0])) + (more + rest);
    }
  }

  lemma {:induction false} EndsOrphans(t: TreeDelta, s: seq<Option<NodeJson>>, rest: Bytes, r: Result<TreeDelta>)
    requires Ends(TreeField, t.(orphans := t.orphans + NilZeros(ZERO_NODE, s)), rest, r)
    ensures Ends(TreeField, t, MarshalAll(2, MarshalNode, s) + rest, r)
    decreases |s|
  {
    hide Ends, Loop, BytesField, MarshalNode, Element, UnmarshalNode;
    if s == [] {
      assert t.orphans + NilZeros(ZERO_NODE, s) == t.orphans && MarshalAll(2, MarshalNode, s) + rest == rest;
    } else {
      var x := NilZero(ZERO_NODE, s[0]);
      var t', more := t.(orphans := t.orphans + [x]), MarshalAll(2, MarshalNode, s[1..]);
      assert t.orphans + NilZeros(ZERO_NODE, s) == t'.orphans + NilZeros(ZERO_NODE, s[1..]);
      EndsOrphans(t', s[1..], rest, r);
      NodeElement(s[0]);
      EndsBytes(TreeField, t, t', 2, Data(MarshalNode, s[0]), more + rest, r);
      assert MarshalAll(2, MarshalNode, s) + rest == BytesField(2, Data(MarshalNode, s[0])) + (more + rest);
    }
  }

  lemma {:induction false} EndsCommitOrphans(t: TreeDelta, s: seq<Option<CommitOrphansImp>>, rest: Bytes, r: Result<TreeDelta>)
    requires Ends(TreeField, t.(commitOrphans := t.commitOrphans + NilZeros(ZERO_COMMIT_ORPHAN, s)), rest, r)
    ensures Ends(TreeField, t, MarshalAll(3, MarshalCommitOrphan, s) + rest, r)
    decreases |s|
  {
    hide Ends, Loop, BytesField, MarshalCommitOrphan, Element, UnmarshalCommitOrphan;
    if s == [] {
      assert t.commitOrphans + NilZeros(ZERO_COMMIT_ORPHAN, s) == t.commitOrphans && MarshalAll(3, MarshalCommitOrphan, s) + rest == rest;
    } else {
      var x := NilZero(ZERO_COMMIT_ORPHAN, s[0]);
      var t', more := t.(commitOrphans := t.commitOrphans + [x]), MarshalAll(3, MarshalCommitOrphan, s[1..]);
      assert t.commitOrphans + NilZeros(ZERO_COMMIT_ORPHAN, s) == t'.commitOrphans + NilZeros(ZERO_COMMIT_ORPHAN, s[1..]);
      EndsCommitOrphans(t', s[1..], rest, r);
      CommitOrphanElement(s[0]);
      EndsBytes(TreeField, t, t', 3, Data(MarshalCommitOrphan, s[0]), more + rest, r);
      assert MarshalAll(3, MarshalCommitOrphan, s) + rest == BytesField(3, Data(MarshalCommitOrphan, s[0])) + (more + rest);
    }
  }

  /** The delta as it is read back. */
  function Canonical(t: TreeDelta): TreeDelta
  {
    TreeDelta(NilZeros(ZERO_NODE_IMP, t.nodes), NilZeros(ZERO_NODE, t.orphans), NilZeros(ZERO_COMMIT_ORPHAN, t.commitOrphans))
  }

  lemma TreeRoundTrip(t: TreeDelta)
    ensures UnmarshalTree(MarshalTree(t)) == Ok(Canonical(t))
  {
    hide Ends, Loop, MarshalAll, NilZeros;
    var r, zero := Ok(Canonical(t)), TreeDelta([], [], []);
    var t1 := zero.(nodes := [] + NilZeros(ZERO_NODE_IMP, t.nodes));
    var t2 := t1.(orphans := [] + NilZeros(ZERO_NODE, t.orphans));
    var t3 := t2.(commitOrphans := [] + NilZeros(ZERO_COMMIT_ORPHAN, t.commitOrphans));
    assert t3 == Canonical(t);
    EndsEmpty(TreeField, t3);
    var e3 := MarshalAll(3, MarshalCommitOrphan, t.commitOrphans) + [];
    EndsCommitOrphans(t2, t.commitOrphans, [], r);
    var e2 := MarshalAll(2, MarshalNode, t.orphans) + e3;
    EndsOrphans(t1, t.orphans, e3, r);
    EndsNodes(zero, t.nodes, e2, r);
    EndsStart(TreeField, zero, MarshalTree(t), r);
  }

  function CanonicalValue(v: Option<TreeDelta>): Option<TreeDelta> { if v.None? then None else Some(Canonical(v.value)) }

  lemma MapImpRoundTrip(e: TreeDeltaMapImp)
    ensures UnmarshalMapImp(MarshalMapImp(e)) == Ok(e.(tree := CanonicalValue(e.tree)))
  {
    hide Ends, Loop, OptBytes, BytesField, UnmarshalTree, MarshalTree, Canonical;
    var zero, last := TreeDeltaMapImp([], None), e.(tree := CanonicalValue(e.tree));
    var e1 := zero.(key := e.key);
    EndsEmpty(MapImpField, last);
    var f2 := (if e.tree.None? then [] else BytesField(2, MarshalTree(e.tree.value))) + [];
    if e.tree.Some? {
      TreeRoundTrip(e.tree.value);
      EndsBytes(MapImpField, e1, last, 2, MarshalTree(e.tree.value), [], Ok(last));
    } else {
      assert f2 == [] && e1 == last;
    }
    EndsOptBytes(MapImpField, zero, e1, 1, e.key, f2, Ok(last));
    EndsStart(MapImpField, zero, MarshalMapImp(e), Ok(last));
  }

  function CanonicalMap(m: TreeDeltaMap): TreeDeltaMap { map k | k in m :: CanonicalValue(m[k]) }

  function Entries(m: TreeDeltaMap, keys: seq<Bytes>): TreeDeltaMap { map k | k in keys && k in m :: CanonicalValue(m[k]) }

  lemma {:induction false} EndsEntries(m: TreeDeltaMap, got: TreeDeltaMap, keys: seq<Bytes>, r: Result<TreeDeltaMap>)
    requires forall k :: k in keys ==> k in m
    requires r == Ok(got + Entries(m, keys))
    ensures Ends(MapField, got, MarshalEntries(m, keys), r)
    decreases |keys|
  {
    hide Ends, Loop, BytesField, MarshalMapImp, UnmarshalMapImp, CanonicalValue;
    if keys == [] {
      assert got + Entries(m, keys) == got;
      EndsEmpty(MapField, got);
    } else {
      var e := TreeDeltaMapImp(keys[0], m[keys[0]]);
      var got' := got[keys[0] := CanonicalValue(m[keys[0]])];
      assert got + Entries(m, keys) == got' + Entries(m, keys[1..]) by {
        assert keys == [keys[0]] + keys[1..];
      }
      EndsEntries(m, got', keys[1..], r);
      MapImpRoundTrip(e);
      EndsBytes(MapField, got, got', 1, MarshalMapImp(e), MarshalEntries(m, keys[1..]), r);
    }
  }

  /** Whatever the order of the keys, the map is read back with zero list elements turned into nil. */
  lemma MapRoundTrip(m: TreeDeltaMap, keys: seq<Bytes>)
    requires forall k :: k in keys <==> k in m
    ensures UnmarshalMap(MarshalEntries(m, keys)) == Ok(CanonicalMap(m))
  {
    hide Ends, Loop, MarshalEntries, CanonicalValue;
    var r := Ok(CanonicalMap(m));
    assert map[] + Entries(m, keys) == CanonicalMap(m);
    EndsEntries(m, map[], keys, r);
    EndsStart(MapField, map[], MarshalEntries(m, keys), r);
  }

  ghost predicate NoZero<T>(zero: T, s: seq<Option<T>>) { forall i :: 0 <= i < |s| ==> s[i] != Some(zero) }

  ghost predicate NoZeroElements(t: TreeDelta)
  {
    NoZero(ZERO_NODE_IMP, t.nodes) && NoZero(ZERO_NODE, t.orphans) && NoZero(ZERO_COMMIT_ORPHAN, t.commitOrphans)
  }

  lemma NilZerosKeeps<T>(zero: T, s: seq<Option<T>>)
    ensures NilZeros(zero, s) == s <==> NoZero(zero, s)
  {
    if NilZeros(zero, s) == s {
      forall i | 0 <= i < |s| ensures s[i] != Some(zero) { assert NilZeros(zero, s)[i] == s[i]; }
    }
  }

  /** Unmarshal undoes Marshal exactly on the maps whose lists hold no zero record. */
  lemma RoundTripIffNoZero(m: TreeDeltaMap, keys: seq<Bytes>)
    requires forall k :: k in keys <==> k in m
    ensures UnmarshalMap(MarshalEntries(m, keys)) == Ok(m) <==> forall k :: k in m && m[k].Some? ==> NoZeroElements(m[k].value)
  {
    hide UnmarshalMap, MarshalEntries, NilZeros, NoZero;
    MapRoundTrip(m, keys);
    forall k | k in m && m[k].Some? ensures Canonical(m[k].value) == m[k].value <==> NoZeroElements(m[k].value) {
      var t := m[k].value;
      NilZerosKeeps(ZERO_NODE_IMP, t.nodes);
      NilZerosKeeps(ZERO_NODE, t.orphans);
      NilZerosKeeps(ZERO_COMMIT_ORPHAN, t.commitOrphans);
    }
    hide Canonical, NoZeroElements;
    if CanonicalMap(m) == m {
      forall k | k in m && m[k].Some? ensures NoZeroElements(m[k].value) { assert CanonicalMap(m)[k] == m[k]; }
    }
  }

  // ---------- writing in place ----------

  lemma {:induction false} MarshalAllMore<T>(pos: nat, marshal: T -> Bytes, s: seq<Option<T>>, x: Option<T>)
    requires pos < 16
    ensures MarshalAll(pos, marshal, s + [x]) == MarshalAll(pos, marshal, s) + BytesField(pos, Data(marshal, x))
  {
    hide BytesField;
    if s == [] {
      var one := [x];
      assert s + [x] == one && one[1..] == [];
    } else {
      var t := s + [x];
      assert t[0] == s[0] && t[1..] == s[1..] + [x];
      MarshalAllMore(pos, marshal, s[1..], x);
    }
  }

  method WriteAll<T>(buf: Bytes, pos: nat, marshal: T -> Bytes, s: seq<Option<T>>) returns (r: Bytes)
    requires pos < 16
    ensures r == buf + MarshalAll(pos, marshal, s)
  {
    hide BytesField;
    r := buf;
    for i := 0 to |s|
      invariant r == buf + MarshalAll(pos, marshal, s[..i])
    {
      MarshalAllMore(pos, marshal, s[..i], s[i]);
      assert s[..i + 1] == s[..i] + [s[i]];
      var data := if s[i].None? then [] else marshal(s[i].value);
      r := r + BytesField(pos, data);
    }
    assert s[..|s|] == s;
  }

  method MarshalTreeDelta(t: TreeDelta) returns (r: Bytes)
    ensures r == MarshalTree(t)
  {
    hide MarshalAll;
    r := WriteAll([], 1, MarshalNodeImp, t.nodes);
    r := WriteAll(r, 2, MarshalNode, t.orphans);
    r := WriteAll(r, 3, MarshalCommitOrphan, t.commitOrphans);
    var a, b, c := MarshalAll(1, MarshalNodeImp, t.nodes), MarshalAll(2, MarshalNode, t.orphans), MarshalAll(3, MarshalCommitOrphan, t.commitOrphans);
    assert [] + a + b + c == a + (b + (c + []));
  }

  ghost predicate IsSortedKeys(m: TreeDeltaMap, keys: seq<Bytes>)
  {
    (forall i, j :: 0 <= i < j < |keys| ==> Lt(keys[i], keys[j])) && forall k :: k in keys <==> k in m
  }

  method SortedKeysOf(m: TreeDeltaMap) returns (keys: seq<Bytes>)
    ensures IsSortedKeys(m, keys)
  {
    hide Lt;
    keys := [];
    var left := m.Keys;
    while left != {}
      invariant left <= m.Keys && (forall k :: k in keys <==> k in m && k !in left)
      invariant forall i, j :: 0 <= i < j < |keys| ==> keys[i] != keys[j]
      decreases |left|
    {
      var k :| k in left;
      keys, left := keys + [k], left - {k};
    }
    keys := MI.SortKeys(true, keys);
  }

  /** The keys are collected in any order and sorted, so the bytes do not depend on the order of the map. */
  method MarshalTreeDeltaMap(m: TreeDeltaMap) returns (r: Bytes)
    ensures exists keys :: IsSortedKeys(m, keys) && r == MarshalEntries(m, keys)
  {
    hide BytesField, MarshalMapImp, Lt;
    var keys := SortedKeysOf(m);
    r := [];
    var i := 0;
    assert keys[0..] == keys;
    while i < |keys|
      invariant 0 <= i <= |keys|
      invariant MarshalEntries(m, keys) == r + MarshalEntries(m, keys[i..])
    {
      assert keys[i..][0] == keys[i] && keys[i..][1..] == keys[i + 1..];
      r := r + BytesField(1, MarshalMapImp(TreeDeltaMapImp(keys[i], m[keys[i]])));
      i := i + 1;
    }
    assert IsSortedKeys(m, keys) && r == MarshalEntries(m, keys);
  }

  function AsPairs(keys: seq<Bytes>): (r: seq<MI.Pair>)
    ensures |r| == |keys|
  {
    seq(|keys|, i requires 0 <= i < |keys| => MI.Pair(keys[i], MI.FastChanges.FastNode([], 0)))
  }

  lemma SortedKeysUnique(m: TreeDeltaMap, a: seq<Bytes>, b: seq<Bytes>)
    requires IsSortedKeys(m, a) && IsSortedKeys(m, b)
    ensures a == b
  {
    hide Lt;
    var p, q := AsPairs(a), AsPairs(b);
    forall x ensures x in p <==> x in q {
      PairsOfKeys(a, x);
      PairsOfKeys(b, x);
    }
    MI.SameElements(true, p, q);
    forall i | 0 <= i < |a| ensures a[i] == b[i] { assert p[i].key == q[i].key; }
  }

  lemma PairsOfKeys(keys: seq<Bytes>, x: MI.Pair)
    ensures x in AsPairs(keys) <==> x.key in keys && x.node == MI.FastChanges.FastNode([], 0)
  {
    if x in AsPairs(keys) {
      var i :| 0 <= i < |keys| && AsPairs(keys)[i] == x;
      assert keys[i] in keys;
    }
    if x.key in keys && x.node == MI.FastChanges.FastNode([], 0) {
      var i :| 0 <= i < |keys| && keys[i] == x.key;
      assert AsPairs(keys)[i] == x;
    }
  }
}
