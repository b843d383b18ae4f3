/** The bytes of node records, of node hashes and of the checks of proofs, part by part. */
module NodeLayout {
  import opened Options
  import opened ByteStrings
  import opened Wire
  import opened WireForm
  import opened AvlTree
  import NR = NodeRecords
  import RP = RangeProofs

  /** A record holds height, size, version and key, and then the value of a leaf or the hashes of both children. */
  lemma RecordLayout(r: NR.Record)
    ensures Layout(NR.WriteBytes(r), [Signed(r.height), Signed(r.size), Signed(r.version), Slice(r.key)] +
                                     (if r.body.Value? then [Slice(r.body.value)] else [Slice(r.body.left), Slice(r.body.right)]))
  {
    hide Varint, ByteSlice, PartForm, Layout;
    NoParts();
    if r.body.Value? {
      SliceForm(r.body.value);
      LayoutCons(ByteSlice(r.body.value), Slice(r.body.value), [], []);
      FourThen(r, ByteSlice(r.body.value) + [], [Slice(r.body.value)] + []);
      assert [Slice(r.body.value)] + [] == [Slice(r.body.value)];
    } else {
      SliceForm(r.body.left);
      SliceForm(r.body.right);
      LayoutCons(ByteSlice(r.body.right), Slice(r.body.right), [], []);
      LayoutCons(ByteSlice(r.body.left), Slice(r.body.left), ByteSlice(r.body.right) + [], [Slice(r.body.right)] + []);
      FourThen(r, ByteSlice(r.body.left) + (ByteSlice(r.body.right) + []), [Slice(r.body.left)] + ([Slice(r.body.right)] + []));
      assert [Slice(r.body.left)] + ([Slice(r.body.right)] + []) == [Slice(r.body.left), Slice(r.body.right)];
    }
  }

  lemma NoParts()
    ensures Layout([], [])
  {
  }

  lemma FourThen(r: NR.Record, bytes: Bytes, parts: seq<Part>)
    requires Layout(bytes, parts)
    ensures Layout(Varint(r.height) + (Varint(r.size) + (Varint(r.version) + (ByteSlice(r.key) + bytes))),
                   [Signed(r.height), Signed(r.size), Signed(r.version), Slice(r.key)] + parts)
  {
    hide Varint, ByteSlice, PartForm, Layout;
    SliceForm(r.key);
    LayoutCons(ByteSlice(r.key), Slice(r.key), bytes, parts);
    ThreeThen(r.height, r.size, r.version, ByteSlice(r.key) + bytes, [Slice(r.key)] + parts);
    assert [Signed(r.height), Signed(r.size), Signed(r.version)] + ([Slice(r.key)] + parts) ==
           [Signed(r.height), Signed(r.size), Signed(r.version), Slice(r.key)] + parts;
  }

  lemma ThreeThen(a: int, b: int, c: int, bytes: Bytes, parts: seq<Part>)
    requires Layout(bytes, parts)
    ensures Layout(Varint(a) + (Varint(b) + (Varint(c) + bytes)), [Signed(a), Signed(b), Signed(c)] + parts)
  {
    hide Varint, PartForm, Layout;
    SignedForm(a);
    SignedForm(b);
    SignedForm(c);
    LayoutCons(Varint(c), Signed(c), bytes, parts);
    LayoutCons(Varint(b), Signed(b), Varint(c) + bytes, [Signed(c)] + parts);
    LayoutCons(Varint(a), Signed(a), Varint(b) + (Varint(c) + bytes), [Signed(b)] + ([Signed(c)] + parts));
    assert [Signed(a)] + ([Signed(b)] + ([Signed(c)] + parts)) == [Signed(a), Signed(b), Signed(c)] + parts;
  }

  lemma PreimageLayout(height: int, size: int, version: int, a: Bytes, b: Bytes)
    ensures Layout(RP.Preimage(height, size, version, a, b), [Signed(height), Signed(size), Signed(version), Slice(a), Slice(b)])
  {
    hide Varint, ByteSlice, PartForm, Layout;
    NoParts();
    SliceForm(a);
    SliceForm(b);
    LayoutCons(ByteSlice(b), Slice(b), [], []);
    LayoutCons(ByteSlice(a), Slice(a), ByteSlice(b) + [], [Slice(b)] + []);
    ThreeThen(height, size, version, ByteSlice(a) + (ByteSlice(b) + []), [Slice(a)] + ([Slice(b)] + []));
    assert [Signed(height), Signed(size), Signed(version)] + ([Slice(a)] + ([Slice(b)] + [])) ==
           [Signed(height), Signed(size), Signed(version), Slice(a), Slice(b)];
  }

  /** A leaf is hashed with height 0, size 1, its key and the hash of its value; an inner node with the hashes of its children and without its key. */
  lemma HashLayout(hash: RP.HashFn, n: Node)
    ensures RP.NodeHash(hash, n) == hash(RP.NodePreimage(hash, n))
    ensures Layout(RP.NodePreimage(hash, n),
                   if n.Leaf? then [Signed(0), Signed(1), Signed(n.version), Slice(n.key), Slice(hash(n.value))]
                   else [Signed(n.height), Signed(n.size), Signed(n.version), Slice(RP.NodeHash(hash, n.left)), Slice(RP.NodeHash(hash, n.right))])
  {
    hide RP.Preimage, Layout;
    if n.Leaf? { PreimageLayout(0, 1, n.version, n.key, hash(n.value)); }
    else { PreimageLayout(n.height, n.size, n.version, RP.NodeHash(hash, n.left), RP.NodeHash(hash, n.right)); }
  }

  /** A leaf of version 300 with key [1] and value [7, 8]: height 0, size 1, the version in two bytes, and two length-prefixed strings. */
  lemma RecordBytes()
    ensures NR.WriteBytes(NR.Record(0, 1, 300, [1], NR.Value([7, 8]))) == [0x00, 0x02, 0xD8, 0x04, 0x01, 1, 0x02, 7, 8]
  {
    assert Uvarint(600) == [0xD8, 0x04] by { assert Uvarint(4) == [4]; }
  }
}
