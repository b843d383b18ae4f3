/** Node records as bytes: writeBytes and MakeNode. */
module NodeRecords {
  import opened Options
  import opened ByteStrings
  import opened Wire

  /** A leaf has a value, an inner node the hashes of its children. */
  datatype Body = Value(value: Bytes) | Children(left: Bytes, right: Bytes)

  datatype Record = Record(height: int, size: int, version: int, key: Bytes, body: Body)

  /** Leaves are told from inner nodes by their height, which is an int8. */
  predicate Valid(r: Record) { -128 <= r.height < 128 && (r.height == 0 <==> r.body.Value?) }

  function WriteBytes(r: Record): Bytes
  {
    Varint(r.height) + (Varint(r.size) + (Varint(r.version) + (ByteSlice(r.key) +
    (if r.body.Value? then ByteSlice(r.body.value) + [] else ByteSlice(r.body.left) + (ByteSlice(r.body.right) + [])))))
  }

  /** What follows the record is ignored. */
  function MakeNode(buf: Bytes): Option<Record>
  {
    var h := DecodeVarint(buf);
    if h.None? || !(-128 <= h.value.0 < 128) then None
    else
      var s := DecodeVarint(h.value.1);
      if s.None? then None
      else
        var v := DecodeVarint(s.value.1);
        if v.None? then None
        else
          var k := DecodeByteSlice(v.value.1);
          if k.None? then None
          else
            var a := DecodeByteSlice(k.value.1);
            if a.None? then None
            else if h.value.0 == 0 then Some(Record(0, s.value.0, v.value.0, k.value.0, Value(a.value.0)))
            else
              var b := DecodeByteSlice(a.value.1);
              if b.None? then None
              else Some(Record(h.value.0, s.value.0, v.value.0, k.value.0, Children(a.value.0, b.value.0)))
  }

  /** A record is read back whatever follows it. */
  lemma RecordRoundTrip(r: Record, rest: Bytes)
    requires Valid(r)
    ensures MakeNode(WriteBytes(r) + rest) == Some(r)
  {
    hide Varint, ByteSlice, DecodeVarint, DecodeByteSlice;
    var tail := if r.body.Value? then ByteSlice(r.body.value) + rest else ByteSlice(r.body.left) + (ByteSlice(r.body.right) + rest);
    BytesThen(r, rest);
    VarintRoundTrip(r.height, Varint(r.size) + (Varint(r.version) + (ByteSlice(r.key) + tail)));
    VarintRoundTrip(r.size, Varint(r.version) + (ByteSlice(r.key) + tail));
    VarintRoundTrip(r.version, ByteSlice(r.key) + tail);
    ByteSliceRoundTrip(r.key, tail);
    if r.body.Value? {
      ByteSliceRoundTrip(r.body.value, rest);
    } else {
      ByteSliceRoundTrip(r.body.left, ByteSlice(r.body.right) + rest);
      ByteSliceRoundTrip(r.body.right, rest);
    }
  }

  lemma BytesThen(r: Record, rest: Bytes)
    ensures WriteBytes(r) + rest ==
            Varint(r.height) + (Varint(r.size) + (Varint(r.version) + (ByteSlice(r.key) +
            (if r.body.Value? then ByteSlice(r.body.value) + rest else ByteSlice(r.body.left) + (ByteSlice(r.body.right) + rest)))))
  {
    hide Varint, ByteSlice;
  }
}
