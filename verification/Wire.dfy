/**
  Base 128 varints, zigzag integers and length-prefixed byte strings, as node
  hashes, node records and tree deltas use them.
 */
module Wire {
  import opened Options
  import opened ByteStrings

  /** Unsigned varint: seven bits a byte, least significant first, high bit set on all but the last. */
  function Uvarint(n: nat): (bz: Bytes)
    ensures bz != []
  {
    if n < 128 then [n] else [128 + n % 128] + Uvarint(n / 128)
  }

  /** Value and what follows it; None if the input ends inside the number. */
  function DecodeUvarint(bz: Bytes): (r: Option<(nat, Bytes)>)
    ensures r.Some? ==> |r.value.1| < |bz|
  {
    if bz == [] then None
    else if bz[0] < 128 then Some((bz[0], bz[1..]))
    else
      var r := DecodeUvarint(bz[1..]);
      if r.None? then None else Some((bz[0] - 128 + 128 * r.value.0, r.value.1))
  }

  function Zigzag(i: int): nat { if i >= 0 then 2 * i else -2 * i - 1 }

  function Unzigzag(n: nat): int { if n % 2 == 0 then n / 2 else -(n / 2) - 1 }

  function Varint(i: int): Bytes { Uvarint(Zigzag(i)) }

  function DecodeVarint(bz: Bytes): Option<(int, Bytes)>
  {
    var r := DecodeUvarint(bz);
    if r.None? then None else Some((Unzigzag(r.value.0), r.value.1))
  }

  function ByteSlice(s: Bytes): Bytes { Uvarint(|s|) + s }

  function DecodeByteSlice(bz: Bytes): Option<(Bytes, Bytes)>
  {
    var r := DecodeUvarint(bz);
    if r.None? || |r.value.1| < r.value.0 then None
    else Some((r.value.1[..r.value.0], r.value.1[r.value.0..]))
  }

  /** A varint is read back with exactly what followed it: no encoding is a prefix of another. */
  lemma {:induction false} UvarintRoundTrip(n: nat, rest: Bytes)
    ensures DecodeUvarint(Uvarint(n) + rest) == Some((n, rest))
  {
    var bz := Uvarint(n) + rest;
    if n < 128 {
      assert bz[1..] == rest;
    } else {
      UvarintRoundTrip(n / 128, rest);
      assert bz[1..] == Uvarint(n / 128) + rest;
    }
  }

  lemma VarintRoundTrip(i: int, rest: Bytes)
    ensures DecodeVarint(Varint(i) + rest) == Some((i, rest))
  {
    UvarintRoundTrip(Zigzag(i), rest);
  }

  lemma ByteSliceRoundTrip(s: Bytes, rest: Bytes)
    ensures DecodeByteSlice(ByteSlice(s) + rest) == Some((s, rest))
  {
    assert ByteSlice(s) + rest == Uvarint(|s|) + (s + rest);
    UvarintRoundTrip(|s|, s + rest);
    assert (s + rest)[..|s|] == s && (s + rest)[|s|..] == rest;
  }
}
