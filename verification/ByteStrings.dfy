/**
  Byte strings and the order that bytes.Compare puts on them.
  Keys, values and hashes of the tree are all of this type.
 */
module ByteStrings {
  import opened Options

  type Byte = x: int | 0 <= x < 256
  type Bytes = seq<Byte>

  /** bytes.Compare(a, b) < 0: lexicographic, a proper prefix comes first. */
  predicate Lt(a: Bytes, b: Bytes)
  {
    if b == [] then false
    else if a == [] then true
    else if a[0] != b[0] then a[0] < b[0]
    else Lt(a[1..], b[1..])
  }

  /** bytes.Compare(a, b) <= 0. */
  predicate Le(a: Bytes, b: Bytes)
  {
    !Lt(b, a)
  }

  /** The half-open range of keys [start, end), without a bound where it is nil. */
  predicate InRange(start: Option<Bytes>, end: Option<Bytes>, key: Bytes)
  {
    (start.None? || Le(start.value, key)) && (end.None? || Lt(key, end.value))
  }

  /** a and b agree on their first k bytes, and then a ends or has the smaller byte. */
  ghost predicate FirstDiffers(a: Bytes, b: Bytes, k: nat)
  {
    k <= |a| && k < |b| && a[..k] == b[..k] && (k < |a| ==> a[k] < b[k])
  }

  lemma FirstByte(a: Bytes, b: Bytes, k: nat)
    requires FirstDiffers(a, b, k)
    ensures k == 0 || (a != [] && b != [] && a[0] == b[0])
  {
    if k > 0 { assert a[0] == a[..k][0] == b[..k][0]; }
  }

  lemma {:induction false} LtIsLexicographic(a: Bytes, b: Bytes)
    ensures Lt(a, b) <==> exists k: nat :: FirstDiffers(a, b, k)
  {
    if a != [] && b != [] && a[0] == b[0] {
      LtIsLexicographic(a[1..], b[1..]);
      if k: nat :| FirstDiffers(a[1..], b[1..], k) {
        assert a[..k + 1] == [a[0]] + a[1..][..k] && b[..k + 1] == [b[0]] + b[1..][..k];
        assert FirstDiffers(a, b, k + 1);
      }
      if k: nat :| FirstDiffers(a, b, k) {
        assert k > 0 && a[1..][..k - 1] == a[..k][1..] && b[1..][..k - 1] == b[..k][1..];
        assert FirstDiffers(a[1..], b[1..], k - 1);
      }
    } else {
      if Lt(a, b) { assert FirstDiffers(a, b, 0); }
      forall k: nat | FirstDiffers(a, b, k) ensures k == 0 { FirstByte(a, b, k); }
    }
  }

  lemma {:induction false} LtIrreflexive(a: Bytes)
    ensures !Lt(a, a)
  {
    if a != [] { LtIrreflexive(a[1..]); }
  }

  lemma {:induction false} LtTransitive(a: Bytes, b: Bytes, c: Bytes)
    requires Lt(a, b) && Lt(b, c)
    ensures Lt(a, c)
  {
    if a != [] && a[0] == b[0] == c[0] { LtTransitive(a[1..], b[1..], c[1..]); }
  }

  lemma {:induction false} LtTotal(a: Bytes, b: Bytes)
    ensures Lt(a, b) || a == b || Lt(b, a)
  {
    if a != [] && b != [] && a[0] == b[0] {
      LtTotal(a[1..], b[1..]);
      if a[1..] == b[1..] { assert a == [a[0]] + a[1..] && b == [b[0]] + b[1..]; }
    }
  }

  /** bytes.Compare is a strict total order; stated once for all byte strings. */
  lemma LtIsStrictTotalOrder()
    ensures forall a: Bytes :: !Lt(a, a)
    ensures forall a: Bytes, b: Bytes, c: Bytes {:trigger Lt(a, b), Lt(b, c)} :: Lt(a, b) && Lt(b, c) ==> Lt(a, c)
    ensures forall a: Bytes, b: Bytes {:trigger Lt(a, b)} {:trigger Lt(b, a)} :: Lt(a, b) || a == b || Lt(b, a)
  {
    forall a: Bytes ensures !Lt(a, a) { LtIrreflexive(a); }
    forall a: Bytes, b: Bytes, c: Bytes | Lt(a, b) && Lt(b, c) ensures Lt(a, c) { LtTransitive(a, b, c); }
    forall a: Bytes, b: Bytes ensures Lt(a, b) || a == b || Lt(b, a) { LtTotal(a, b); }
  }
}
