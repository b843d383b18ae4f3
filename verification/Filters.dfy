/** Keeping the elements of a sequence that satisfy a condition. */
module Filters {
  function Filter<T>(p: T -> bool, s: seq<T>): seq<T>
  {
    if s == [] then [] else if p(s[0]) then [s[0]] + Filter(p, s[1..]) else Filter(p, s[1..])
  }

  lemma {:induction false} FilterConcat<T>(p: T -> bool, a: seq<T>, b: seq<T>)
    ensures Filter(p, a + b) == Filter(p, a) + Filter(p, b)
  {
    if a == [] {
      assert a + b == b;
    } else {
      var s := a + b;
      assert s[0] == a[0] && s[1..] == a[1..] + b;
      FilterConcat(p, a[1..], b);
      var y, z := Filter(p, a[1..]), Filter(p, b);
      assert ([a[0]] + y) + z == [a[0]] + (y + z);
    }
  }

  lemma FilterOne<T>(p: T -> bool, x: T)
    ensures Filter(p, [x]) == if p(x) then [x] else []
  {
    var one := [x];
    assert one[1..] == [] && Filter(p, []) == [];
  }

  lemma {:induction false} FilterNone<T>(p: T -> bool, s: seq<T>)
    requires forall i :: 0 <= i < |s| ==> !p(s[i])
    ensures Filter(p, s) == []
  {
    if s != [] { FilterNone(p, s[1..]); }
  }

  lemma FilterSkips<T>(p: T -> bool, a: seq<T>, b: seq<T>)
    requires forall i :: 0 <= i < |a| ==> !p(a[i])
    ensures Filter(p, a + b) == Filter(p, b)
  {
    FilterNone(p, a);
    FilterConcat(p, a, b);
  }

  lemma {:induction false} FilterHas<T>(p: T -> bool, s: seq<T>, x: T)
    ensures x in Filter(p, s) <==> x in s && p(x)
  {
    if s != [] {
      assert s == [s[0]] + s[1..];
      FilterHas(p, s[1..], x);
    }
  }
}
