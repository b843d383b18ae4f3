/**
  What the readers of state deltas make of any message, whatever the order of its fields and
  however often one occurs: each field sets what its number says, the last one counts, and a
  field of any other number is an error.
 */
module DeltaReading {
  import opened Options
  import opened ByteStrings
  import opened Wire
  import opened WireForm
  import DC = DeltaCodec

  // ---------- any record ----------

  type Reader<!R> = (R, Field) -> DC.Result<R>

  /** The fields one after the other; the first that cannot be read ends it. */
  function ReadAll<R>(read: Reader<R>, rec: R, fields: seq<Field>): DC.Result<R>
  {
    if fields == [] then DC.Ok(rec)
    else match read(rec, fields[0])
      case Ok(r) => ReadAll(read, r, fields[1..])
      case Error => DC.Error
      case Panic => DC.Panic
  }

  /** The start of a field as the loop sees it: of a number it has read only the key. */
  function HeadOf(f: Field, rest: Bytes, sub: Bytes, len: nat): DC.Head
  {
    match f.content
    case Data(v) => DC.Head(f.pos, v + rest, v, |v|)
    case Number(n) => DC.Head(f.pos, Uvarint(n) + rest, sub, len)
  }

  function Size(f: Field): nat { match f.content case Data(v) => |v| case Number(n) => |Uvarint(n)| }

  function Stepped<R>(r: DC.Result<R>, len: nat): DC.Got<R>
  {
    match r case Ok(v) => DC.Got(v, len) case Error => DC.Bad case Panic => DC.Crash
  }

  /** The step of the loop does to a record what the reader says. */
  ghost predicate Follows<R(!new)>(step: (R, DC.Head) -> DC.Got<R>, read: Reader<R>, typed: Field -> bool)
  {
    && (forall rec, f, rest, sub, len :: typed(f) ==> step(rec, HeadOf(f, rest, sub, len)) == Stepped(read(rec, f), Size(f)))
    && (forall rec, f :: typed(f) && f.pos >= 16 ==> read(rec, f) == DC.Error)
  }

  /** The bytes before what the step reads. */
  function Prefix(f: Field): Bytes
    requires f.pos < 16
  {
    match f.content
    case Data(v) => [8 * f.pos + 2] + Uvarint(|v|)
    case Number(n) => [8 * f.pos]
  }

  function Body(f: Field): Bytes { match f.content case Data(v) => v case Number(n) => Uvarint(n) }

  lemma FieldSplits(bz: Bytes, f: Field)
    requires FieldForm(bz, f) && f.pos < 16
    ensures bz == Prefix(f) + Body(f)
  {
    hide FieldForm, Uvarint;
    match f.content
    case Number(n) => NumberFieldIs(bz, f.pos, n);
    case Data(v) => DataFieldIs(bz, f.pos, v);
  }

  lemma WrittenBytes(key: Byte, pos: nat, v: Bytes, rest: Bytes)
    requires pos < 16 && key == 8 * pos + 2
    ensures DC.BytesField(pos, v) + rest == [key] + (Uvarint(|v|) + (v + rest))
  {
    hide Uvarint;
    assert DC.FieldKey(pos, DC.BYTE_LENGTH) == key;
    assert DC.BytesField(pos, v) == [key] + ByteSlice(v);
    Regroup([key], ByteSlice(v), rest);
    assert ByteSlice(v) == Uvarint(|v|) + v;
    hide ByteSlice, DC.BytesField;
    Regroup(Uvarint(|v|), v, rest);
  }

  lemma DataHead(key: Byte, pos: nat, v: Bytes, rest: Bytes, sub: Bytes, len: nat)
    requires pos < 16 && key == 8 * pos + 2
    ensures DC.ReadHead([key] + (Uvarint(|v|) + (v + rest)), sub, len) == DC.Head(pos, v + rest, v, |v|)
  {
    hide DC.ReadHead, Uvarint, DC.BytesField;
    DC.BytesHead(pos, v, rest, sub, len);
    WrittenBytes(key, pos, v, rest);
  }

  lemma HeadIsRead(f: Field, rest: Bytes, sub: Bytes, len: nat)
    requires f.pos < 16
    ensures DC.ReadHead(Prefix(f) + (Body(f) + rest), sub, len) == HeadOf(f, rest, sub, len)
  {
    hide Uvarint, DecodeUvarint;
    match f.content
    case Number(n) =>
      var d := [8 * f.pos] + (Uvarint(n) + rest);
      assert d[0] == 8 * f.pos && d[1..] == Uvarint(n) + rest;
    case Data(v) =>
      hide DC.ReadHead;
      DataHead(8 * f.pos + 2, f.pos, v, rest, sub, len);
      Regroup([8 * f.pos + 2], Uvarint(|v|), v + rest);
  }

  /** A field number above 15 does not fit the one key byte. */
  lemma BigHead(bz: Bytes, f: Field, rest: Bytes, sub: Bytes, len: nat)
    requires FieldForm(bz, f) && f.pos >= 16
    ensures bz + rest != [] && DC.ReadHead(bz + rest, sub, len) == DC.NoHead
  {
  }

  /** One turn of the loop. */
  lemma FieldLoop<R(!new)>(step: (R, DC.Head) -> DC.Got<R>, read: Reader<R>, typed: Field -> bool, rec: R, f: Field, rest: Bytes, used: Bytes, sub: Bytes)
    requires Follows(step, read, typed) && typed(f) && f.pos < 16
    ensures var h := HeadOf(f, rest, sub, |used|);
            h.data == Body(f) + rest &&
            DC.Loop(step, rec, used + (Prefix(f) + (Body(f) + rest)), sub, |used|) ==
            match read(rec, f) case Ok(r) => DC.Loop(step, r, Body(f) + rest, h.sub, |Body(f)|) case Error => DC.Error case Panic => DC.Panic
  {
    hide DC.ReadHead;
    var d := Prefix(f) + (Body(f) + rest);
    assert d != [] && (used + d)[|used|..] == d;
    HeadIsRead(f, rest, sub, |used|);
    hide Prefix;
    assert step(rec, HeadOf(f, rest, sub, |used|)) == Stepped(read(rec, f), Size(f));
  }

  lemma LoopEnds<R(!new)>(step: (R, DC.Head) -> DC.Got<R>, read: Reader<R>, typed: Field -> bool, rec: R, f: Field, rest: Bytes, r: DC.Result<R>, used: Bytes, sub: Bytes)
    requires Follows(step, read, typed) && typed(f) && f.pos < 16
    requires match read(rec, f) case Ok(rec') => DC.Ends(step, rec', rest, r) case Error => r == DC.Error case Panic => r == DC.Panic
    ensures DC.Loop(step, rec, used + (Prefix(f) + (Body(f) + rest)), sub, |used|) == r
  {
    hide Prefix, Body, Follows, DC.Loop;
    FieldLoop(step, read, typed, rec, f, rest, used, sub);
    var h, o := HeadOf(f, rest, sub, |used|), read(rec, f);
    if o.Ok? { assert DC.Loop(step, o.value, Body(f) + rest, h.sub, |Body(f)|) == r; }
  }

  lemma BigLoop<R>(step: (R, DC.Head) -> DC.Got<R>, rec: R, bz: Bytes, f: Field, rest: Bytes, used: Bytes, sub: Bytes)
    requires FieldForm(bz, f) && f.pos >= 16
    ensures DC.Loop(step, rec, used + (bz + rest), sub, |used|) == DC.Error
  {
    BigHead(bz, f, rest, sub, |used|);
    hide FieldForm, DC.ReadHead;
    assert (used + (bz + rest))[|used|..] == bz + rest;
  }

  lemma FieldEnds<R(!new)>(step: (R, DC.Head) -> DC.Got<R>, read: Reader<R>, typed: Field -> bool, rec: R, bz: Bytes, f: Field, rest: Bytes, r: DC.Result<R>)
    requires Follows(step, read, typed) && typed(f) && FieldForm(bz, f)
    requires match read(rec, f) case Ok(rec') => DC.Ends(step, rec', rest, r) case Error => r == DC.Error case Panic => r == DC.Panic
    ensures DC.Ends(step, rec, bz + rest, r)
  {
    if f.pos >= 16 {
      assert r == DC.Error;
      hide FieldForm, DC.Loop, Follows;
      forall used: Bytes, sub: Bytes ensures DC.Loop(step, rec, used + (bz + rest), sub, |used|) == r {
        BigLoop(step, rec, bz, f, rest, used, sub);
      }
    } else {
      FieldSplits(bz, f);
      hide FieldForm, DC.Loop, Follows, Prefix, Body;
      assert Prefix(f) + (Body(f) + rest) == bz + rest;
      forall used: Bytes, sub: Bytes ensures DC.Loop(step, rec, used + (bz + rest), sub, |used|) == r {
        LoopEnds(step, read, typed, rec, f, rest, r, used, sub);
      }
    }
  }

  lemma {:induction false} MessageEnds<R(!new)>(step: (R, DC.Head) -> DC.Got<R>, read: Reader<R>, typed: Field -> bool, rec: R, bz: Bytes, fields: seq<Field>)
    requires Follows(step, read, typed) && MessageForm(bz, fields) && forall f :: f in fields ==> typed(f)
    ensures DC.Ends(step, rec, bz, ReadAll(read, rec, fields))
    decreases |fields|
  {
    hide Follows, FieldForm, DC.Ends;
    if fields == [] {
      DC.EndsEmpty(step, rec);
    } else {
      var first, rest := FirstField(bz, fields);
      hide MessageForm;
      var r := read(rec, fields[0]);
      if r.Ok? { MessageEnds(step, read, typed, r.value, rest, fields[1..]); }
      FieldEnds(step, read, typed, rec, first, fields[0], rest, ReadAll(read, rec, fields));
    }
  }

  lemma MessageIsRead<R(!new)>(step: (R, DC.Head) -> DC.Got<R>, read: Reader<R>, typed: Field -> bool, zero: R, bz: Bytes, fields: seq<Field>)
    requires Follows(step, read, typed) && MessageForm(bz, fields) && forall f :: f in fields ==> typed(f)
    ensures DC.Unmarshal(step, zero, bz) == ReadAll(read, zero, fields)
  {
    hide Follows, MessageForm, DC.Ends, DC.Unmarshal;
    MessageEnds(step, read, typed, zero, bz, fields);
    DC.EndsStart(step, zero, bz, ReadAll(read, zero, fields));
  }

  /** Data that is shorter than its length says is refused. */
  lemma TruncatedIsRefused<R>(step: (R, DC.Head) -> DC.Got<R>, zero: R, pos: nat, n: nat, v: Bytes)
    requires pos < 16 && |v| < n
    ensures DC.Unmarshal(step, zero, [8 * pos + 2] + Uvarint(n) + v) == DC.Error
  {
    var bz := [8 * pos + 2] + Uvarint(n) + v;
    assert bz[0..] == bz && bz[1..] == Uvarint(n) + v;
    UvarintRoundTrip(n, v);
  }

  // ---------- numbers ----------

  lemma NumberIsRead(n: nat, rest: Bytes)
    ensures DC.DecodeUint64(Uvarint(n) + rest) == if n < 18446744073709551616 then Some((n, rest)) else None
  {
    if n < 18446744073709551616 { DC.Uint64RoundTrip(n, rest); } else { UvarintRoundTrip(n, rest); }
  }

  /** The low 64 bits as a two's complement number. */
  function Signed64(n: nat): DC.Int64
    requires n < 18446744073709551616
  {
    if n < 9223372036854775808 then n else n - 18446744073709551616
  }

  /** 0, -1, 1, -2, 2, ... */
  function Signed8(n: nat): DC.Int8
    requires n < 256
  {
    if n % 2 == 0 then n / 2 else -(n / 2) - 1
  }

  lemma Int64IsRead(n: nat, rest: Bytes)
    ensures DC.ReadInt64(Uvarint(n) + rest) == if n < 18446744073709551616 then Some((Signed64(n), |Uvarint(n)|)) else None
  {
    hide DC.DecodeUint64, Uvarint;
    NumberIsRead(n, rest);
  }

  lemma Int8IsRead(n: nat, rest: Bytes)
    ensures DC.ReadInt8(Uvarint(n) + rest) == if n < 256 then Some((Signed8(n), |Uvarint(n)|)) else None
  {
    hide DC.DecodeUint64, Uvarint;
    NumberIsRead(n, rest);
  }

  lemma BoolIsRead(n: nat, rest: Bytes)
    ensures (Uvarint(n) + rest)[0] == if n < 128 then n else 128 + n % 128
    ensures n < 128 ==> |Uvarint(n)| == 1
  {
  }

  // ---------- nodes ----------

  predicate NodeTyped(f: Field) { (1 <= f.pos <= 5 ==> f.content.Data?) && (6 <= f.pos <= 10 ==> f.content.Number?) }

  function ReadNode(n: DC.NodeJson, f: Field): DC.Result<DC.NodeJson>
  {
    match f
    case Field(1, Data(v)) => DC.Ok(n.(key := v))
    case Field(2, Data(v)) => DC.Ok(n.(value := v))
    case Field(3, Data(v)) => DC.Ok(n.(hash := v))
    case Field(4, Data(v)) => DC.Ok(n.(leftHash := v))
    case Field(5, Data(v)) => DC.Ok(n.(rightHash := v))
    case Field(6, Number(i)) => if i < 18446744073709551616 then DC.Ok(n.(version := Signed64(i))) else DC.Error
    case Field(7, Number(i)) => if i < 18446744073709551616 then DC.Ok(n.(size := Signed64(i))) else DC.Error
    case Field(8, Number(i)) => if i < 256 then DC.Ok(n.(height := Signed8(i))) else DC.Error
    case Field(9, Number(i)) => if i <= 1 then DC.Ok(n.(persisted := i == 1)) else DC.Error
    case Field(10, Number(i)) => if i <= 1 then DC.Ok(n.(prePersisted := i == 1)) else DC.Error
    case _ => DC.Error
  }

  lemma NodeStep(n: DC.NodeJson, f: Field, rest: Bytes, sub: Bytes, len: nat)
    requires NodeTyped(f)
    ensures DC.NodeField(n, HeadOf(f, rest, sub, len)) == Stepped(ReadNode(n, f), Size(f))
  {
    hide DC.ReadInt64, DC.ReadInt8, Uvarint;
    if f.content.Number? {
      Int64IsRead(f.content.n, rest);
      Int8IsRead(f.content.n, rest);
      BoolIsRead(f.content.n, rest);
    }
  }

  lemma NodeIsRead(bz: Bytes, fields: seq<Field>)
    requires MessageForm(bz, fields) && forall f :: f in fields ==> NodeTyped(f)
    ensures DC.UnmarshalNode(bz) == ReadAll(ReadNode, DC.ZERO_NODE, fields)
  {
    hide MessageForm, DC.Unmarshal, DC.NodeField, HeadOf, Stepped, Size;
    forall rec: DC.NodeJson, f: Field, rest: Bytes, sub: Bytes, len: nat | NodeTyped(f)
      ensures DC.NodeField(rec, HeadOf(f, rest, sub, len)) == Stepped(ReadNode(rec, f), Size(f)) {
      NodeStep(rec, f, rest, sub, len);
    }
    MessageIsRead(DC.NodeField, ReadNode, NodeTyped, DC.ZERO_NODE, bz, fields);
  }

  // ---------- the other records ----------

  function Within<T, R>(r: DC.Result<T>, f: T -> R): DC.Result<R>
  {
    match r case Ok(v) => DC.Ok(f(v)) case Error => DC.Error case Panic => DC.Panic
  }

  /** All fields that are read hold data. */
  predicate DataUpTo(last: nat, f: Field) { 1 <= f.pos <= last ==> f.content.Data? }

  predicate PairTyped(f: Field) { DataUpTo(2, f) }

  function ReadNodeImp(n: DC.NodeJsonImp, f: Field): DC.Result<DC.NodeJsonImp>
  {
    match f
    case Field(1, Data(v)) => DC.Ok(n.(key := v))
    case Field(2, Data(v)) => Within(DC.UnmarshalNode(v), x => n.(node := Some(x)))
    case _ => DC.Error
  }

  lemma NodeImpIsRead(bz: Bytes, fields: seq<Field>)
    requires MessageForm(bz, fields) && forall f :: f in fields ==> PairTyped(f)
    ensures DC.UnmarshalNodeImp(bz) == ReadAll(ReadNodeImp, DC.NodeJsonImp([], None), fields)
  {
    hide MessageForm, DC.Unmarshal, DC.UnmarshalNode, Uvarint;
    MessageIsRead(DC.NodeImpField, ReadNodeImp, PairTyped, DC.NodeJsonImp([], None), bz, fields);
  }

  predicate CommitOrphanTyped(f: Field) { (f.pos == 1 ==> f.content.Data?) && (f.pos == 2 ==> f.content.Number?) }

  function ReadCommitOrphan(c: DC.CommitOrphansImp, f: Field): DC.Result<DC.CommitOrphansImp>
  {
    match f
    case Field(1, Data(v)) => DC.Ok(c.(key := v))
    case Field(2, Number(i)) => if i < 18446744073709551616 then DC.Ok(c.(commitValue := Signed64(i))) else DC.Error
    case _ => DC.Error
  }

  lemma CommitOrphanIsRead(bz: Bytes, fields: seq<Field>)
    requires MessageForm(bz, fields) && forall f :: f in fields ==> CommitOrphanTyped(f)
    ensures DC.UnmarshalCommitOrphan(bz) == ReadAll(ReadCommitOrphan, DC.CommitOrphansImp([], 0), fields)
  {
    hide MessageForm, DC.Unmarshal, DC.ReadInt64, Uvarint;
    forall rec: DC.CommitOrphansImp, f: Field, rest: Bytes, sub: Bytes, len: nat | CommitOrphanTyped(f)
      ensures DC.CommitOrphanField(rec, HeadOf(f, rest, sub, len)) == Stepped(ReadCommitOrphan(rec, f), Size(f)) {
      if f.content.Number? { Int64IsRead(f.content.n, rest); }
    }
    MessageIsRead(DC.CommitOrphanField, ReadCommitOrphan, CommitOrphanTyped, DC.CommitOrphansImp([], 0), bz, fields);
  }

  /** Each field adds one element to its list; empty data is nil. */
  function ReadElement<T>(r: DC.Result<T>, v: Bytes): DC.Result<Option<T>> { if v == [] then DC.Ok(None) else Within(r, x => Some(x)) }

  predicate TreeTyped(f: Field) { DataUpTo(3, f) }

  function ReadTree(t: DC.TreeDelta, f: Field): DC.Result<DC.TreeDelta>
  {
    match f
    case Field(1, Data(v)) => Within(ReadElement(DC.UnmarshalNodeImp(v), v), x => t.(nodes := t.nodes + [x]))
    case Field(2, Data(v)) => Within(ReadElement(DC.UnmarshalNode(v), v), x => t.(orphans := t.orphans + [x]))
    case Field(3, Data(v)) => Within(ReadElement(DC.UnmarshalCommitOrphan(v), v), x => t.(commitOrphans := t.commitOrphans + [x]))
    case _ => DC.Error
  }

  lemma TreeIsRead(bz: Bytes, fields: seq<Field>)
    requires MessageForm(bz, fields) && forall f :: f in fields ==> TreeTyped(f)
    ensures DC.UnmarshalTree(bz) == ReadAll(ReadTree, DC.TreeDelta([], [], []), fields)
  {
    hide MessageForm, DC.Unmarshal, DC.UnmarshalNode, DC.UnmarshalNodeImp, DC.UnmarshalCommitOrphan, Uvarint;
    MessageIsRead(DC.TreeField, ReadTree, TreeTyped, DC.TreeDelta([], [], []), bz, fields);
  }

  function ReadMapImp(e: DC.TreeDeltaMapImp, f: Field): DC.Result<DC.TreeDeltaMapImp>
  {
    match f
    case Field(1, Data(v)) => DC.Ok(e.(key := v))
    case Field(2, Data(v)) => Within(DC.UnmarshalTree(v), x => e.(tree := Some(x)))
    case _ => DC.Error
  }

  lemma MapImpIsRead(bz: Bytes, fields: seq<Field>)
    requires MessageForm(bz, fields) && forall f :: f in fields ==> PairTyped(f)
    ensures DC.UnmarshalMapImp(bz) == ReadAll(ReadMapImp, DC.TreeDeltaMapImp([], None), fields)
  {
    hide MessageForm, DC.Unmarshal, DC.UnmarshalTree, Uvarint;
    MessageIsRead(DC.MapImpField, ReadMapImp, PairTyped, DC.TreeDeltaMapImp([], None), bz, fields);
  }

  predicate MapTyped(f: Field) { DataUpTo(1, f) }

  function ReadMap(m: DC.TreeDeltaMap, f: Field): DC.Result<DC.TreeDeltaMap>
  {
    match f
    case Field(1, Data(v)) => Within(DC.UnmarshalMapImp(v), (e: DC.TreeDeltaMapImp) => m[e.key := e.tree])
    case _ => DC.Error
  }

  lemma MapIsRead(bz: Bytes, fields: seq<Field>)
    requires MessageForm(bz, fields) && forall f :: f in fields ==> MapTyped(f)
    ensures DC.UnmarshalMap(bz) == ReadAll(ReadMap, map[], fields)
  {
    hide MessageForm, DC.Unmarshal, DC.UnmarshalMapImp, Uvarint;
    MessageIsRead(DC.MapField, ReadMap, MapTyped, map[], bz, fields);
  }
}
