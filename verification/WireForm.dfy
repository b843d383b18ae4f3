/**
  What the bytes look like, stated apart from the code that writes them: base 128
  numbers, the fields of Protocol Buffers messages, and the unkeyed layout of node
  records and node hashes.
 */
module WireForm {
  import opened Options
  import opened ByteStrings
  import opened Wire

  // ---------- base 128 numbers ----------

  function Sum128(bz: Bytes): nat { if bz == [] then 0 else bz[0] % 128 + 128 * Sum128(bz[1..]) }

  /** Seven bits a byte, least significant first; the high bit is set on all bytes but the last; no leading zero. */
  ghost predicate IsVarint(bz: Bytes, n: nat)
  {
    && bz != []
    && (forall i :: 0 <= i < |bz| - 1 ==> bz[i] >= 128)
    && bz[|bz| - 1] < 128
    && (|bz| > 1 ==> bz[|bz| - 1] > 0)
    && Sum128(bz) == n
  }

  lemma {:induction false} UvarintIsVarint(n: nat)
    ensures IsVarint(Uvarint(n), n) && (n > 0 ==> Uvarint(n)[|Uvarint(n)| - 1] > 0)
  {
    if n >= 128 {
      var rest := Uvarint(n / 128);
      UvarintIsVarint(n / 128);
      var bz := Uvarint(n);
      assert bz == [128 + n % 128] + rest && bz[1..] == rest;
      assert bz[|bz| - 1] == rest[|rest| - 1];
      forall i | 0 <= i < |bz| - 1 ensures bz[i] >= 128 { if i > 0 { assert bz[i] == rest[i - 1]; } }
    } else {
      assert Uvarint(n)[1..] == [];
    }
  }

  lemma VarintTail(bz: Bytes, n: nat)
    requires IsVarint(bz, n) && |bz| > 1
    ensures IsVarint(bz[1..], Sum128(bz[1..])) && bz[|bz| - 1] == bz[1..][|bz| - 2] > 0
    ensures 128 <= bz[0] && n == bz[0] - 128 + 128 * Sum128(bz[1..])
  {
    var rest := bz[1..];
    assert rest[|rest| - 1] == bz[|bz| - 1];
    assert forall i :: 0 <= i < |rest| - 1 ==> rest[i] == bz[i + 1];
  }

  /** There is one such form. */
  lemma {:induction false} VarintIsUvarint(bz: Bytes, n: nat)
    requires IsVarint(bz, n)
    ensures bz == Uvarint(n) && (bz[|bz| - 1] > 0 ==> n > 0)
  {
    if |bz| == 1 {
      assert bz[1..] == [];
    } else {
      VarintTail(bz, n);
      hide IsVarint, Sum128;
      VarintIsUvarint(bz[1..], Sum128(bz[1..]));
      Quotient(bz[0] - 128, Sum128(bz[1..]), n);
      assert bz == [bz[0]] + bz[1..];
    }
  }

  lemma Quotient(a: nat, m: nat, n: nat)
    requires a < 128 && m > 0 && n == a + 128 * m
    ensures n >= 128 && n / 128 == m && n % 128 == a
  {
  }

  // ---------- messages ----------

  datatype Content = Number(n: nat) | Data(bytes: Bytes)

  datatype Field = Field(pos: nat, content: Content)

  /** A key byte, 8 * pos for a number and 8 * pos + 2 for data, and then the number, or the length and the data. */
  ghost predicate FieldForm(bz: Bytes, f: Field)
  {
    match f.content
    case Number(n) => bz != [] && bz[0] == 8 * f.pos && IsVarint(bz[1..], n)
    case Data(v) =>
      bz != [] && bz[0] == 8 * f.pos + 2 && |bz| > |v| && bz[|bz| - |v|..] == v && IsVarint(bz[1..|bz| - |v|], |v|)
  }

  /** The fields one after the other. */
  ghost predicate MessageForm(bz: Bytes, fields: seq<Field>)
  {
    if fields == [] then bz == []
    else exists k :: 0 <= k <= |bz| && FieldForm(bz[..k], fields[0]) && MessageForm(bz[k..], fields[1..])
  }

  lemma NumberFieldIs(bz: Bytes, pos: nat, n: nat)
    requires FieldForm(bz, Field(pos, Number(n)))
    ensures bz != [] && bz[0] == 8 * pos && bz == [bz[0]] + Uvarint(n)
  {
    VarintIsUvarint(bz[1..], n);
    hide IsVarint, Uvarint;
  }

  lemma DataFieldIs(bz: Bytes, pos: nat, v: Bytes)
    requires FieldForm(bz, Field(pos, Data(v)))
    ensures bz != [] && bz[0] == 8 * pos + 2 && bz == [bz[0]] + Uvarint(|v|) + v
  {
    var k := |bz| - |v|;
    VarintIsUvarint(bz[1..k], |v|);
    hide IsVarint, Uvarint;
    ThreeParts(bz, k);
  }

  lemma ThreeParts(bz: Bytes, k: nat)
    requires 1 <= k <= |bz|
    ensures bz == [bz[0]] + bz[1..k] + bz[k..]
  {
  }

  lemma FieldIsUnique(a: Bytes, b: Bytes, f: Field)
    requires FieldForm(a, f) && FieldForm(b, f)
    ensures a == b
  {
    hide FieldForm, Uvarint;
    match f.content
    case Number(n) =>
      NumberFieldIs(a, f.pos, n);
      NumberFieldIs(b, f.pos, n);
    case Data(v) =>
      DataFieldIs(a, f.pos, v);
      DataFieldIs(b, f.pos, v);
  }

  lemma FirstField(bz: Bytes, fields: seq<Field>) returns (a: Bytes, b: Bytes)
    requires MessageForm(bz, fields) && fields != []
    ensures bz == a + b && FieldForm(a, fields[0]) && MessageForm(b, fields[1..])
  {
    hide FieldForm;
    var k :| 0 <= k <= |bz| && FieldForm(bz[..k], fields[0]) && MessageForm(bz[k..], fields[1..]);
    a, b := bz[..k], bz[k..];
  }

  /** The fields determine the bytes. */
  lemma {:induction false} MessageIsUnique(a: Bytes, b: Bytes, fields: seq<Field>)
    requires MessageForm(a, fields) && MessageForm(b, fields)
    ensures a == b
    decreases |fields|
  {
    if fields != [] {
      var a1, a2 := FirstField(a, fields);
      var b1, b2 := FirstField(b, fields);
      hide FieldForm, MessageForm;
      FieldIsUnique(a1, b1, fields[0]);
      MessageIsUnique(a2, b2, fields[1..]);
    }
  }

  lemma MessageCons(a: Bytes, f: Field, b: Bytes, fields: seq<Field>)
    requires FieldForm(a, f) && MessageForm(b, fields)
    ensures MessageForm(a + b, [f] + fields)
  {
    hide FieldForm;
    var bz, all := a + b, [f] + fields;
    assert bz[..|a|] == a && bz[|a|..] == b && all[0] == f && all[1..] == fields;
  }

  lemma {:induction false} MessageConcat(a: Bytes, fields: seq<Field>, b: Bytes, more: seq<Field>)
    requires MessageForm(a, fields) && MessageForm(b, more)
    ensures MessageForm(a + b, fields + more)
    decreases |fields|
  {
    hide FieldForm;
    if fields == [] {
      assert a + b == b && fields + more == more;
    } else {
      var first, rest := FirstField(a, fields);
      MessageConcat(rest, fields[1..], b, more);
      hide MessageForm;
      MessageCons(first, fields[0], rest + b, fields[1..] + more);
      Regroup(first, rest, b);
      Regroup([fields[0]], fields[1..], more);
      assert [fields[0]] + fields[1..] == fields;
    }
  }

  lemma Regroup<T>(a: seq<T>, b: seq<T>, c: seq<T>)
    ensures a + (b + c) == (a + b) + c
  {
  }

  lemma NumberForm(key: Byte, pos: nat, n: nat)
    requires key == 8 * pos
    ensures FieldForm([key] + Uvarint(n), Field(pos, Number(n)))
  {
    UvarintIsVarint(n);
    assert ([key] + Uvarint(n))[1..] == Uvarint(n);
  }

  lemma DataForm(key: Byte, pos: nat, v: Bytes)
    requires key == 8 * pos + 2
    ensures FieldForm([key] + ByteSlice(v), Field(pos, Data(v)))
  {
    UvarintIsVarint(|v|);
    var bz := [key] + ByteSlice(v);
    assert bz[|bz| - |v|..] == v && bz[1..|bz| - |v|] == Uvarint(|v|);
  }

  // ---------- layouts without keys ----------

  /** A signed number is written in zigzag form: 0, -1, 1, -2, 2, ... as 0, 1, 2, 3, 4, ... */
  datatype Part = Signed(i: int) | Slice(bytes: Bytes)

  ghost predicate PartForm(bz: Bytes, p: Part)
  {
    match p
    case Signed(i) => IsVarint(bz, if i < 0 then -2 * i - 1 else 2 * i)
    case Slice(v) => |bz| > |v| && bz[|bz| - |v|..] == v && IsVarint(bz[..|bz| - |v|], |v|)
  }

  ghost predicate Layout(bz: Bytes, parts: seq<Part>)
  {
    if parts == [] then bz == []
    else exists k :: 0 <= k <= |bz| && PartForm(bz[..k], parts[0]) && Layout(bz[k..], parts[1..])
  }

  lemma LayoutCons(a: Bytes, p: Part, b: Bytes, parts: seq<Part>)
    requires PartForm(a, p) && Layout(b, parts)
    ensures Layout(a + b, [p] + parts)
  {
    hide PartForm;
    var bz, all := a + b, [p] + parts;
    assert bz[..|a|] == a && bz[|a|..] == b && all[0] == p && all[1..] == parts;
  }

  lemma SignedForm(i: int)
    ensures PartForm(Varint(i), Signed(i))
  {
    UvarintIsVarint(Zigzag(i));
  }

  lemma SliceForm(v: Bytes)
    ensures PartForm(ByteSlice(v), Slice(v))
  {
    UvarintIsVarint(|v|);
    var bz := ByteSlice(v);
    assert bz[|bz| - |v|..] == v && bz[..|bz| - |v|] == Uvarint(|v|);
  }

  lemma PartIsUnique(a: Bytes, b: Bytes, p: Part)
    requires PartForm(a, p) && PartForm(b, p)
    ensures a == b
  {
    match p
    case Signed(i) =>
      var n := if i < 0 then -2 * i - 1 else 2 * i;
      VarintIsUvarint(a, n);
      VarintIsUvarint(b, n);
    case Slice(v) =>
      VarintIsUvarint(a[..|a| - |v|], |v|);
      VarintIsUvarint(b[..|b| - |v|], |v|);
      assert a == a[..|a| - |v|] + a[|a| - |v|..] && b == b[..|b| - |v|] + b[|b| - |v|..];
  }

  lemma FirstPart(bz: Bytes, parts: seq<Part>) returns (a: Bytes, b: Bytes)
    requires Layout(bz, parts) && parts != []
    ensures bz == a + b && PartForm(a, parts[0]) && Layout(b, parts[1..])
  {
    hide PartForm;
    var k :| 0 <= k <= |bz| && PartForm(bz[..k], parts[0]) && Layout(bz[k..], parts[1..]);
    a, b := bz[..k], bz[k..];
  }

  /** The parts determine the bytes. */
  lemma {:induction false} LayoutIsUnique(a: Bytes, b: Bytes, parts: seq<Part>)
    requires Layout(a, parts) && Layout(b, parts)
    ensures a == b
    decreases |parts|
  {
    if parts != [] {
      var a1, a2 := FirstPart(a, parts);
      var b1, b2 := FirstPart(b, parts);
      hide PartForm, Layout;
      PartIsUnique(a1, b1, parts[0]);
      LayoutIsUnique(a2, b2, parts[1..]);
    }
  }
}
