/**
  The messages that state deltas are written as, field by field, and what reading makes of
  any message of the right field types.
 */
module DeltaWire {
  import opened Options
  import opened ByteStrings
  import opened Wire
  import opened WireForm
  import DC = DeltaCodec

  // ---------- the fields of each record ----------

  /** An empty string is left out. */
  function DataIf(pos: nat, v: Bytes): seq<Field> { if v == [] then [] else [Field(pos, Data(v))] }

  /** A zero is left out. */
  function NumberIf(pos: nat, n: nat): seq<Field> { if n == 0 then [] else [Field(pos, Number(n))] }

  /** The 64 bits of a two's complement number. */
  function Unsigned(v: DC.Int64): nat { if v < 0 then v + 18446744073709551616 else v }

  function NodeFields(n: DC.NodeJson): seq<Field>
  {
    DataIf(1, n.key) + (DataIf(2, n.value) + (DataIf(3, n.hash) + (DataIf(4, n.leftHash) + (DataIf(5, n.rightHash) +
    (NumberIf(6, Unsigned(n.version)) + (NumberIf(7, Unsigned(n.size)) +
    (NumberIf(8, if n.height < 0 then -2 * n.height - 1 else 2 * n.height) +
    (NumberIf(9, if n.persisted then 1 else 0) + (NumberIf(10, if n.prePersisted then 1 else 0) + [])))))))))
  }

  function NodeImpFields(n: DC.NodeJsonImp): seq<Field>
  {
    DataIf(1, n.key) + if n.node.None? then [] else [Field(2, Data(DC.MarshalNode(n.node.value)))]
  }

  function CommitOrphanFields(c: DC.CommitOrphansImp): seq<Field> { DataIf(1, c.key) + (NumberIf(2, Unsigned(c.commitValue)) + []) }

  /** One field for every element, with empty data for nil. */
  function ListFields<T>(pos: nat, marshal: T -> Bytes, s: seq<Option<T>>): (r: seq<Field>)
    ensures |r| == |s|
  {
    seq(|s|, i requires 0 <= i < |s| => Field(pos, Data(if s[i].None? then [] else marshal(s[i].value))))
  }

  function TreeFields(t: DC.TreeDelta): seq<Field>
  {
    ListFields(1, DC.MarshalNodeImp, t.nodes) + (ListFields(2, DC.MarshalNode, t.orphans) + (ListFields(3, DC.MarshalCommitOrphan, t.commitOrphans) + []))
  }

  function MapImpFields(e: DC.TreeDeltaMapImp): seq<Field>
  {
    DataIf(1, e.key) + if e.tree.None? then [] else [Field(2, Data(DC.MarshalTree(e.tree.value)))]
  }

  function EntryFields(m: DC.TreeDeltaMap, keys: seq<Bytes>): (r: seq<Field>)
    requires forall k :: k in keys ==> k in m
    ensures |r| == |keys|
  {
    seq(|keys|, i requires 0 <= i < |keys| => Field(1, Data(DC.MarshalMapImp(DC.TreeDeltaMapImp(keys[i], m[keys[i]])))))
  }

  // ---------- what is written ----------

  lemma OptBytesThen(pos: nat, v: Bytes, rest: Bytes, more: seq<Field>)
    requires pos < 16 && MessageForm(rest, more)
    ensures MessageForm(DC.OptBytes(pos, v) + rest, DataIf(pos, v) + more)
  {
    hide MessageForm, FieldForm, ByteSlice;
    if v == [] {
      assert DC.OptBytes(pos, v) + rest == rest && DataIf(pos, v) + more == more;
    } else {
      DataForm(DC.FieldKey(pos, DC.BYTE_LENGTH), pos, v);
      MessageCons(DC.BytesField(pos, v), Field(pos, Data(v)), rest, more);
    }
  }

  lemma OptNumberThen(part: Bytes, key: Byte, pos: nat, n: nat, rest: Bytes, more: seq<Field>)
    requires key == 8 * pos && MessageForm(rest, more) && part == if n == 0 then [] else [key] + Uvarint(n)
    ensures MessageForm(part + rest, NumberIf(pos, n) + more)
  {
    hide MessageForm, FieldForm, Uvarint;
    if n == 0 {
      assert part + rest == rest && NumberIf(pos, n) + more == more;
    } else {
      NumberForm(key, pos, n);
      MessageCons(part, Field(pos, Number(n)), rest, more);
    }
  }

  lemma OptInt64Then(pos: nat, v: DC.Int64, rest: Bytes, more: seq<Field>)
    requires pos < 16 && MessageForm(rest, more)
    ensures MessageForm(DC.OptInt64(pos, v) + rest, NumberIf(pos, Unsigned(v)) + more)
  {
    hide MessageForm, NumberIf, Uvarint;
    OptNumberThen(DC.OptInt64(pos, v), DC.FieldKey(pos, 0), pos, Unsigned(v), rest, more);
  }

  lemma OptInt8Then(pos: nat, v: DC.Int8, n: nat, rest: Bytes, more: seq<Field>)
    requires pos < 16 && MessageForm(rest, more) && n == if v < 0 then -2 * v - 1 else 2 * v
    ensures MessageForm(DC.OptInt8(pos, v) + rest, NumberIf(pos, n) + more)
  {
    hide MessageForm, NumberIf, Uvarint;
    OptNumberThen(DC.OptInt8(pos, v), DC.FieldKey(pos, 0), pos, n, rest, more);
  }

  lemma OptBoolThen(pos: nat, v: bool, n: nat, rest: Bytes, more: seq<Field>)
    requires pos < 16 && MessageForm(rest, more) && n == if v then 1 else 0
    ensures MessageForm(DC.OptBool(pos, v) + rest, NumberIf(pos, n) + more)
  {
    hide MessageForm, NumberIf;
    assert Uvarint(1) == [1];
    OptNumberThen(DC.OptBool(pos, v), DC.FieldKey(pos, 0), pos, n, rest, more);
  }

  lemma NodeForm(n: DC.NodeJson)
    ensures MessageForm(DC.MarshalNode(n), NodeFields(n))
  {
    hide MessageForm, NumberIf, DataIf, Unsigned, DC.OptBytes, DC.OptInt64, DC.OptInt8, DC.OptBool;
    NoFields();
    var h, p, q := if n.height < 0 then -2 * n.height - 1 else 2 * n.height, if n.persisted then 1 else 0, if n.prePersisted then 1 else 0;
    var b10, f10 := DC.OptBool(10, n.prePersisted) + [], NumberIf(10, q) + [];
    OptBoolThen(10, n.prePersisted, q, [], []);
    var b9, f9 := DC.OptBool(9, n.persisted) + b10, NumberIf(9, p) + f10;
    OptBoolThen(9, n.persisted, p, b10, f10);
    var b8, f8 := DC.OptInt8(8, n.height) + b9, NumberIf(8, h) + f9;
    OptInt8Then(8, n.height, h, b9, f9);
    var b7, f7 := DC.OptInt64(7, n.size) + b8, NumberIf(7, Unsigned(n.size)) + f8;
    OptInt64Then(7, n.size, b8, f8);
    var b6, f6 := DC.OptInt64(6, n.version) + b7, NumberIf(6, Unsigned(n.version)) + f7;
    OptInt64Then(6, n.version, b7, f7);
    var b5, f5 := DC.OptBytes(5, n.rightHash) + b6, DataIf(5, n.rightHash) + f6;
    OptBytesThen(5, n.rightHash, b6, f6);
    var b4, f4 := DC.OptBytes(4, n.leftHash) + b5, DataIf(4, n.leftHash) + f5;
    OptBytesThen(4, n.leftHash, b5, f5);
    var b3, f3 := DC.OptBytes(3, n.hash) + b4, DataIf(3, n.hash) + f4;
    OptBytesThen(3, n.hash, b4, f4);
    var b2, f2 := DC.OptBytes(2, n.value) + b3, DataIf(2, n.value) + f3;
    OptBytesThen(2, n.value, b3, f3);
    OptBytesThen(1, n.key, b2, f2);
  }

  lemma NoFields()
    ensures MessageForm([], [])
  {
  }

  lemma SubMessage(pos: nat, v: Bytes, rest: Bytes, more: seq<Field>)
    requires pos < 16 && MessageForm(rest, more)
    ensures MessageForm(DC.BytesField(pos, v) + rest, [Field(pos, Data(v))] + more)
  {
    hide MessageForm, FieldForm, ByteSlice;
    DataForm(DC.FieldKey(pos, DC.BYTE_LENGTH), pos, v);
    MessageCons(DC.BytesField(pos, v), Field(pos, Data(v)), rest, more);
  }

  lemma NodeImpForm(n: DC.NodeJsonImp)
    ensures MessageForm(DC.MarshalNodeImp(n), NodeImpFields(n))
  {
    hide MessageForm, DataIf, DC.OptBytes, DC.BytesField, DC.MarshalNode;
    NoFields();
    if n.node.None? {
      var none: Bytes := [];
      assert none + [] == none;
      OptBytesThen(1, n.key, [], []);
    } else {
      var v := DC.MarshalNode(n.node.value);
      SubMessage(2, v, [], []);
      assert [Field(2, Data(v))] + [] == [Field(2, Data(v))];
      OptBytesThen(1, n.key, DC.BytesField(2, v) + [], [Field(2, Data(v))]);
    }
  }

  lemma CommitOrphanForm(c: DC.CommitOrphansImp)
    ensures MessageForm(DC.MarshalCommitOrphan(c), CommitOrphanFields(c))
  {
    hide MessageForm, DataIf, NumberIf, DC.OptBytes, DC.OptInt64;
    NoFields();
    OptInt64Then(2, c.commitValue, [], []);
    OptBytesThen(1, c.key, DC.OptInt64(2, c.commitValue) + [], NumberIf(2, Unsigned(c.commitValue)) + []);
  }

  lemma {:induction false} ListForm<T>(pos: nat, marshal: T -> Bytes, s: seq<Option<T>>)
    requires pos < 16
    ensures MessageForm(DC.MarshalAll(pos, marshal, s), ListFields(pos, marshal, s))
    decreases |s|
  {
    hide MessageForm, DC.BytesField;
    if s == [] {
      NoFields();
      assert ListFields(pos, marshal, s) == [];
    } else {
      var v := if s[0].None? then [] else marshal(s[0].value);
      ListForm(pos, marshal, s[1..]);
      SubMessage(pos, v, DC.MarshalAll(pos, marshal, s[1..]), ListFields(pos, marshal, s[1..]));
      assert ListFields(pos, marshal, s) == [Field(pos, Data(v))] + ListFields(pos, marshal, s[1..]);
    }
  }

  lemma TreeForm(t: DC.TreeDelta)
    ensures MessageForm(DC.MarshalTree(t), TreeFields(t))
  {
    hide MessageForm, ListFields, DC.MarshalAll;
    NoFields();
    ListForm(1, DC.MarshalNodeImp, t.nodes);
    ListForm(2, DC.MarshalNode, t.orphans);
    ListForm(3, DC.MarshalCommitOrphan, t.commitOrphans);
    var a, b, c := DC.MarshalAll(1, DC.MarshalNodeImp, t.nodes), DC.MarshalAll(2, DC.MarshalNode, t.orphans), DC.MarshalAll(3, DC.MarshalCommitOrphan, t.commitOrphans);
    var f, g, h := ListFields(1, DC.MarshalNodeImp, t.nodes), ListFields(2, DC.MarshalNode, t.orphans), ListFields(3, DC.MarshalCommitOrphan, t.commitOrphans);
    MessageConcat(c, h, [], []);
    MessageConcat(b, g, c + [], h + []);
    MessageConcat(a, f, b + (c + []), g + (h + []));
  }

  lemma MapImpForm(e: DC.TreeDeltaMapImp)
    ensures MessageForm(DC.MarshalMapImp(e), MapImpFields(e))
  {
    hide MessageForm, DataIf, DC.OptBytes, DC.BytesField, DC.MarshalTree;
    NoFields();
    if e.tree.None? {
      var none: Bytes := [];
      assert none + [] == none;
      OptBytesThen(1, e.key, [], []);
    } else {
      var v := DC.MarshalTree(e.tree.value);
      SubMessage(2, v, [], []);
      assert [Field(2, Data(v))] + [] == [Field(2, Data(v))];
      OptBytesThen(1, e.key, DC.BytesField(2, v) + [], [Field(2, Data(v))]);
    }
  }

  lemma {:induction false} MapForm(m: DC.TreeDeltaMap, keys: seq<Bytes>)
    requires forall k :: k in keys ==> k in m
    ensures MessageForm(DC.MarshalEntries(m, keys), EntryFields(m, keys))
    decreases |keys|
  {
    hide MessageForm, DC.BytesField, DC.MarshalMapImp;
    if keys == [] {
      NoFields();
      assert EntryFields(m, keys) == [];
    } else {
      var v := DC.MarshalMapImp(DC.TreeDeltaMapImp(keys[0], m[keys[0]]));
      MapForm(m, keys[1..]);
      SubMessage(1, v, DC.MarshalEntries(m, keys[1..]), EntryFields(m, keys[1..]));
      assert EntryFields(m, keys) == [Field(1, Data(v))] + EntryFields(m, keys[1..]);
    }
  }

  // ---------- canonical messages ----------

  /** The fields are in ascending order, each at most once, and none says what its absence says. */
  ghost predicate Ascending(fields: seq<Field>, above: nat)
  {
    fields == [] ||
    (fields[0].pos > above && fields[0].content != Number(0) && fields[0].content != Data([]) && Ascending(fields[1..], fields[0].pos))
  }

  lemma {:induction false} AscendingAbove(fields: seq<Field>, above: nat, below: nat)
    requires Ascending(fields, above) && below <= above
    ensures Ascending(fields, below)
  {
  }

  lemma AscendingIf(pos: nat, part: seq<Field>, more: seq<Field>, above: nat)
    requires above < pos && Ascending(more, pos)
    requires part == [] || (|part| == 1 && part[0].pos == pos && part[0].content != Number(0) && part[0].content != Data([]))
    ensures Ascending(part + more, above)
  {
    if part == [] {
      assert part + more == more;
      AscendingAbove(more, pos, above);
    } else {
      assert (part + more)[1..] == more;
    }
  }

  lemma AscendNumber(pos: nat, n: nat, more: seq<Field>, above: nat)
    requires above < pos && Ascending(more, pos)
    ensures Ascending(NumberIf(pos, n) + more, above)
  {
    hide Ascending;
    AscendingIf(pos, NumberIf(pos, n), more, above);
  }

  lemma AscendData(pos: nat, v: Bytes, more: seq<Field>, above: nat)
    requires above < pos && Ascending(more, pos)
    ensures Ascending(DataIf(pos, v) + more, above)
  {
    hide Ascending;
    AscendingIf(pos, DataIf(pos, v), more, above);
  }

  lemma NothingAscends(above: nat)
    ensures Ascending([], above)
  {
  }

  lemma NodeFieldsAscend(n: DC.NodeJson)
    ensures Ascending(NodeFields(n), 0)
  {
    hide Ascending, Unsigned, NumberIf, DataIf;
    var h, p, q := if n.height < 0 then -2 * n.height - 1 else 2 * n.height, if n.persisted then 1 else 0, if n.prePersisted then 1 else 0;
    NothingAscends(10);
    var f10 := NumberIf(10, q) + [];
    AscendNumber(10, q, [], 9);
    var f9 := NumberIf(9, p) + f10;
    AscendNumber(9, p, f10, 8);
    var f8 := NumberIf(8, h) + f9;
    AscendNumber(8, h, f9, 7);
    var f7 := NumberIf(7, Unsigned(n.size)) + f8;
    AscendNumber(7, Unsigned(n.size), f8, 6);
    var f6 := NumberIf(6, Unsigned(n.version)) + f7;
    AscendNumber(6, Unsigned(n.version), f7, 5);
    var f5 := DataIf(5, n.rightHash) + f6;
    AscendData(5, n.rightHash, f6, 4);
    var f4 := DataIf(4, n.leftHash) + f5;
    AscendData(4, n.leftHash, f5, 3);
    var f3 := DataIf(3, n.hash) + f4;
    AscendData(3, n.hash, f4, 2);
    var f2 := DataIf(2, n.value) + f3;
    AscendData(2, n.value, f3, 1);
    AscendData(1, n.key, f2, 0);
  }

  // ---------- examples ----------

  /** Every field of a node: version 300 takes two bytes, height 3 is written as 6. */
  lemma NodeBytes()
    ensures DC.MarshalNode(DC.NodeJson([11], [12], [13], [14], [15], 300, 9, 3, true, true)) ==
            [0x0A, 1, 11, 0x12, 1, 12, 0x1A, 1, 13, 0x22, 1, 14, 0x2A, 1, 15, 0x30, 0xAC, 0x02, 0x38, 9, 0x40, 6, 0x48, 1, 0x50, 1]
  {
    var n := DC.NodeJson([11], [12], [13], [14], [15], 300, 9, 3, true, true);
    StringBytes(11, 12, 13, 14, 15, NumberPart(n));
    NumberBytes(n);
    hide DC.OptBytes;
  }

  function NumberPart(n: DC.NodeJson): Bytes
  {
    DC.OptInt64(6, n.version) + (DC.OptInt64(7, n.size) + (DC.OptInt8(8, n.height) + (DC.OptBool(9, n.persisted) + (DC.OptBool(10, n.prePersisted) + []))))
  }

  lemma StringBytes(a: Byte, b: Byte, c: Byte, d: Byte, e: Byte, rest: Bytes)
    ensures DC.OptBytes(1, [a]) + (DC.OptBytes(2, [b]) + (DC.OptBytes(3, [c]) + (DC.OptBytes(4, [d]) + (DC.OptBytes(5, [e]) + rest)))) ==
            [0x0A, 1, a, 0x12, 1, b, 0x1A, 1, c, 0x22, 1, d, 0x2A, 1, e] + rest
  {
    var e5 := DC.OptBytes(5, [e]) + rest;
    var e4 := DC.OptBytes(4, [d]) + e5;
    var e3 := DC.OptBytes(3, [c]) + e4;
    var e2 := DC.OptBytes(2, [b]) + e3;
    OneByte(5, 0x2A, e, rest);
    OneByte(4, 0x22, d, e5);
    OneByte(3, 0x1A, c, e4);
    OneByte(2, 0x12, b, e3);
    OneByte(1, 0x0A, a, e2);
    hide DC.OptBytes;
    assert e3 == [0x1A, 1, c, 0x22, 1, d, 0x2A, 1, e] + rest;
  }

  lemma OneByte(pos: nat, key: Byte, v: Byte, rest: Bytes)
    requires pos < 16 && key == 8 * pos + 2
    ensures DC.OptBytes(pos, [v]) + rest == [key, 1, v] + rest
  {
    assert Uvarint(1) == [1];
  }

  lemma NumberBytes(n: DC.NodeJson)
    requires n.version == 300 && n.size == 9 && n.height == 3 && n.persisted && n.prePersisted
    ensures NumberPart(n) == [0x30, 0xAC, 0x02, 0x38, 9, 0x40, 6, 0x48, 1, 0x50, 1]
  {
    assert Uvarint(300) == [0xAC, 0x02] by { assert Uvarint(2) == [2]; }
    assert Uvarint(6) == [6] && Uvarint(9) == [9];
    hide Uvarint;
    assert DC.OptInt64(6, 300) == [0x30, 0xAC, 0x02] && DC.OptInt64(7, 9) == [0x38, 9] && DC.OptInt8(8, 3) == [0x40, 6];
    assert DC.OptBool(9, true) == [0x48, 1] && DC.OptBool(10, true) == [0x50, 1];
  }

  lemma CommitOrphanBytes()
    ensures DC.MarshalCommitOrphan(DC.CommitOrphansImp([7], 0)) == [0x0A, 1, 7]
    ensures DC.MarshalCommitOrphan(DC.CommitOrphansImp([7], 5)) == [0x0A, 1, 7, 0x10, 5]
  {
  }

  lemma NodeImpBytes()
    ensures DC.MarshalNodeImp(DC.NodeJsonImp([7], Some(DC.ZERO_NODE.(value := [9])))) == [0x0A, 1, 7, 0x12, 3, 0x12, 1, 9]
  {
    assert DC.MarshalNode(DC.ZERO_NODE.(value := [9])) == [0x12, 1, 9];
  }

  /** A tree with one element in each list, the last one nil. */
  lemma TreeBytes()
    ensures DC.MarshalTree(DC.TreeDelta([Some(DC.NodeJsonImp([7], None))], [Some(DC.ZERO_NODE.(hash := [8]))], [None])) ==
            [0x0A, 3, 0x0A, 1, 7, 0x12, 3, 0x1A, 1, 8, 0x1A, 0]
  {
    var a, b := DC.NodeJsonImp([7], None), DC.ZERO_NODE.(hash := [8]);
    assert DC.MarshalNodeImp(a) == [0x0A, 1, 7] && DC.MarshalNode(b) == [0x1A, 1, 8];
    hide DC.MarshalNodeImp, DC.MarshalNode, DC.MarshalCommitOrphan;
    OneElement(1, DC.MarshalNodeImp, Some(a));
    OneElement(2, DC.MarshalNode, Some(b));
    OneElement(3, DC.MarshalCommitOrphan, None);
    ListBytes();
    hide DC.MarshalAll, DC.BytesField;
  }

  lemma ListBytes()
    ensures DC.BytesField(1, [0x0A, 1, 7]) == [0x0A, 3, 0x0A, 1, 7]
    ensures DC.BytesField(2, [0x1A, 1, 8]) == [0x12, 3, 0x1A, 1, 8]
    ensures DC.BytesField(3, []) == [0x1A, 0]
  {
    assert Uvarint(3) == [3] && Uvarint(0) == [0];
  }

  lemma OneElement<T>(pos: nat, marshal: T -> Bytes, x: Option<T>)
    requires pos < 16
    ensures DC.MarshalAll(pos, marshal, [x]) == DC.BytesField(pos, if x.None? then [] else marshal(x.value))
  {
    var s := [x];
    assert s[1..] == [];
  }

  lemma MapBytes()
    ensures DC.MarshalMapImp(DC.TreeDeltaMapImp([7], None)) == [0x0A, 1, 7]
    ensures DC.MarshalEntries(map[[7] := None], [[7]]) == [0x0A, 3, 0x0A, 1, 7]
    ensures DC.MarshalMapImp(DC.TreeDeltaMapImp([], Some(DC.TreeDelta([None], [], [])))) == [0x12, 2, 0x0A, 0]
  {
    var m: DC.TreeDeltaMap, keys: seq<Bytes> := map[[7] := None], [[7]];
    assert DC.MarshalMapImp(DC.TreeDeltaMapImp([7], None)) == [0x0A, 1, 7];
    assert keys[1..] == [];
    var t := DC.TreeDelta([None], [], []);
    OneElement(1, DC.MarshalNodeImp, None);
    assert DC.MarshalTree(t) == [0x0A, 0];
  }
}
