/**
  cpIncr: the next byte string of the same width. Range queries step with it, so
  they are about trees whose keys all have one width.
 */
module Successor {
  import opened Options
  import opened ByteStrings

  /** Big-endian increment; None when every byte is 0xFF (or there is none). */
  function Incremented(bz: Bytes): (r: Option<Bytes>)
    ensures r.Some? ==> |r.value| == |bz|
  {
    if bz == [] then None
    else
      var init, last := bz[..|bz| - 1], bz[|bz| - 1];
      if last < 255 then Some(init + [last + 1])
      else
        var r := Incremented(init);
        if r.None? then None else Some(r.value + [0])
  }

  function CpIncr(bz: Bytes): Bytes
  {
    if bz == [] then [0]
    else
      var r := Incremented(bz);
      if r.Some? then r.value else bz + [0]
  }

  function Extend(o: Option<Bytes>, tail: Bytes): Option<Bytes>
  {
    if o.None? then None else Some(o.value + tail)
  }

  /** Where a byte is 255 the carry moves one place to the left. */
  lemma Carry(bz: Bytes, i: nat, tail: Bytes)
    requires i < |bz|
    ensures Extend(Incremented(bz[..i + 1]), tail) ==
            if bz[i] < 255 then Some(bz[..i] + [bz[i] + 1] + tail) else Extend(Incremented(bz[..i]), [0] + tail)
  {
    var before := bz[..i + 1];
    assert before[..|before| - 1] == bz[..i] && before[|before| - 1] == bz[i];
    var r := Incremented(bz[..i]);
    if r.Some? { assert (r.value + [0]) + tail == r.value + ([0] + tail); }
  }

  /** The source's loop over the copy, from the last byte to the first. */
  method CpIncrLoop(bz: Bytes) returns (ret: Bytes)
    ensures ret == CpIncr(bz)
  {
    ret := bz;
    var i := |bz| - 1;
    ghost var tail: Bytes := [];
    assert bz[..|bz|] == bz;
    assert Incremented(bz).Some? ==> Incremented(bz).value + tail == Incremented(bz).value;
    while i >= 0
      invariant -1 <= i < |bz| && |tail| == |bz| - 1 - i && (bz != [] ==> i >= 0)
      invariant ret == bz[..i + 1] + tail
      invariant Incremented(bz) == Extend(Incremented(bz[..i + 1]), tail)
    {
      Carry(bz, i, tail);
      if ret[i] < 255 {
        ret := ret[i := ret[i] + 1];
        assert ret == bz[..i] + [bz[i] + 1] + tail;
        return;
      }
      ret := ret[i := 0];
      tail := [0] + tail;
      assert ret == bz[..i] + tail;
      if i == 0 {
        assert bz[..0] == [];
        return bz + [0];
      }
      i := i - 1;
    }
    return [0];
  }

  lemma {:induction false} LtByLast(a: Bytes, x: Byte, b: Bytes, y: Byte)
    requires |a| == |b|
    ensures Lt(a + [x], b + [y]) <==> Lt(a, b) || (a == b && x < y)
  {
    if a != [] {
      assert (a + [x])[1..] == a[1..] + [x] && (b + [y])[1..] == b[1..] + [y];
      LtByLast(a[1..], x, b[1..], y);
      if a[0] == b[0] && a[1..] == b[1..] { assert a == [a[0]] + a[1..] && b == [b[0]] + b[1..]; }
    } else {
      assert a + [x] == [x] && b + [y] == [y];
      assert [x][1..] == [] && [y][1..] == [];
    }
  }

  lemma {:induction false} PrefixIsBelow(b: Bytes, a: Bytes)
    requires |b| == |a|
    ensures Lt(b, a + [0]) || Lt(a, b)
  {
    if a != [] {
      assert (a + [0])[1..] == a[1..] + [0];
      PrefixIsBelow(b[1..], a[1..]);
    }
  }

  /** Among strings of one width nothing lies between bz and its increment. */
  lemma {:induction false} NothingBetween(a: Bytes, b: Bytes)
    requires |a| == |b|
    ensures var r := Incremented(a); if r.Some? then Lt(a, b) <==> Le(r.value, b) else !Lt(a, b)
  {
    if a != [] {
      var i, p := a[..|a| - 1], a[|a| - 1];
      var j, q := b[..|b| - 1], b[|b| - 1];
      assert a == i + [p] && b == j + [q];
      LtByLast(i, p, j, q);
      NothingBetween(i, j);
      LtTotal(i, j); LtIrreflexive(i);
      if Lt(i, j) && Lt(j, i) { LtTransitive(i, j, i); }
      if p < 255 {
        LtByLast(j, q, i, p + 1);
      } else if Incremented(i).Some? {
        LtByLast(j, q, Incremented(i).value, 0);
      }
    }
  }

  /** For keys of one width, "after a" and "from cpIncr(a) on" are the same. */
  lemma AfterIsFromSuccessor(a: Bytes, b: Bytes)
    requires |a| == |b|
    ensures Lt(a, b) <==> Le(CpIncr(a), b)
  {
    NothingBetween(a, b);
    PrefixIsBelow(b, a);
  }
}
