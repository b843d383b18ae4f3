/**
  DeleteVersions sorts the versions it is given and groups them into runs of
  consecutive numbers: a map from the first version of a run to its length.
 */
module Intervals {
  /** Sorted, with repetitions. */
  ghost predicate NonDecreasing(vs: seq<int>)
  {
    forall i, j :: 0 <= i < j < |vs| ==> vs[i] <= vs[j]
  }

  predicate InRun(intervals: map<int, int>, f: int, v: int)
    requires f in intervals
  {
    f <= v < f + intervals[f]
  }

  /** Some run takes the version. */
  predicate Takes(intervals: map<int, int>, v: int)
  {
    exists f :: f in intervals && InRun(intervals, f, v)
  }

  // ---------- sorting ----------

  function Insert(sorted: seq<int>, v: int): seq<int>
  {
    if sorted == [] || v <= sorted[0] then [v] + sorted else [sorted[0]] + Insert(sorted[1..], v)
  }

  function Sorted(vs: seq<int>): seq<int>
  {
    if vs == [] then [] else Insert(Sorted(vs[..|vs| - 1]), vs[|vs| - 1])
  }

  lemma {:induction false} InsertAdds(sorted: seq<int>, v: int)
    ensures multiset(Insert(sorted, v)) == multiset(sorted) + multiset{v}
  {
    if sorted != [] {
      assert sorted == [sorted[0]] + sorted[1..];
      if v > sorted[0] { InsertAdds(sorted[1..], v); }
    }
  }

  lemma {:induction false} InsertSorted(sorted: seq<int>, v: int)
    requires NonDecreasing(sorted)
    ensures NonDecreasing(Insert(sorted, v))
  {
    if sorted != [] {
      if v > sorted[0] {
        InsertSorted(sorted[1..], v);
        InsertAbove(sorted[1..], v, sorted[0]);
        LeastFirst(sorted[0], Insert(sorted[1..], v));
      } else {
        LeastFirst(v, sorted);
      }
    }
  }

  lemma LeastFirst(x: int, s: seq<int>)
    requires NonDecreasing(s) && forall i :: 0 <= i < |s| ==> x <= s[i]
    ensures NonDecreasing([x] + s)
  {
  }

  lemma {:induction false} InsertAbove(sorted: seq<int>, v: int, low: int)
    requires low <= v && forall i :: 0 <= i < |sorted| ==> low <= sorted[i]
    ensures forall i :: 0 <= i < |Insert(sorted, v)| ==> low <= Insert(sorted, v)[i]
  {
    if sorted != [] && v > sorted[0] { InsertAbove(sorted[1..], v, low); }
  }

  /** Sorting gives a non-decreasing list with the same versions, each as often as before. */
  lemma {:induction false} SortedSorts(vs: seq<int>)
    ensures NonDecreasing(Sorted(vs)) && multiset(Sorted(vs)) == multiset(vs)
  {
    hide Insert;
    if vs != [] {
      var n := |vs| - 1;
      SortedSorts(vs[..n]);
      InsertSorted(Sorted(vs[..n]), vs[n]);
      InsertAdds(Sorted(vs[..n]), vs[n]);
      assert vs == vs[..n] + [vs[n]];
    }
  }

  lemma {:induction false} InsertAt(sorted: seq<int>, v: int, k: nat)
    requires k <= |sorted| && (forall j :: 0 <= j < k ==> sorted[j] < v) && (k < |sorted| ==> v <= sorted[k])
    ensures Insert(sorted, v) == sorted[..k] + [v] + sorted[k..]
  {
    if k > 0 {
      InsertAt(sorted[1..], v, k - 1);
      assert sorted[..k] == [sorted[0]] + sorted[1..][..k - 1] && sorted[1..][k - 1..] == sorted[k..];
    }
  }

  /** sort.Slice; versions may be repeated. */
  method Sort(vs: seq<int>) returns (sorted: seq<int>)
    ensures NonDecreasing(sorted) && multiset(sorted) == multiset(vs)
    ensures sorted == Sorted(vs)
  {
    sorted := [];
    var i := 0;
    while i < |vs|
      invariant 0 <= i <= |vs| && sorted == Sorted(vs[..i])
    {
      var k := 0;
      while k < |sorted| && sorted[k] < vs[i]
        invariant 0 <= k <= |sorted|
        invariant forall j :: 0 <= j < k ==> sorted[j] < vs[i]
      {
        k := k + 1;
      }
      InsertAt(sorted, vs[i], k);
      assert vs[..i + 1][..i] == vs[..i];
      sorted := sorted[..k] + [vs[i]] + sorted[k..];
      i := i + 1;
    }
    assert vs[..i] == vs;
    SortedSorts(vs);
  }

  // ---------- grouping ----------

  function NextFrom(v: int, from: int, intervals: map<int, int>): int
  {
    if v - from != (if from in intervals then intervals[from] else 0) then v else from
  }

  function Counted(f: int, intervals: map<int, int>): map<int, int>
  {
    intervals[f := (if f in intervals then intervals[f] else 0) + 1]
  }

  /** One pass over the versions; a missing map entry reads as zero. */
  function SplitFrom(vs: seq<int>, from: int, intervals: map<int, int>): map<int, int>
  {
    if vs == [] then intervals
    else
      var f := NextFrom(vs[0], from, intervals);
      SplitFrom(vs[1..], f, Counted(f, intervals))
  }

  /** The runs of a list of versions. */
  function Runs(vs: seq<int>): map<int, int> { SplitFrom(Sorted(vs), 0, map[]) }

  /** Runs start at given versions and are not empty. */
  lemma {:induction false} SplitStarts(vs: seq<int>, from: int, intervals: map<int, int>, f: int)
    requires (from in intervals || from == 0) && (forall g :: g in intervals ==> intervals[g] >= 1)
    ensures var r := SplitFrom(vs, from, intervals); f in r ==> r[f] >= 1 && (f in intervals || f in vs)
    decreases |vs|
  {
    if vs != [] {
      var g := NextFrom(vs[0], from, intervals);
      SplitStarts(vs[1..], g, Counted(g, intervals), f);
      assert vs[0] in vs && forall v :: v in vs[1..] ==> v in vs;
    }
  }

  lemma RunsStart(vs: seq<int>, f: int)
    requires f in Runs(vs)
    ensures f in vs && Runs(vs)[f] >= 1
  {
    hide SplitFrom;
    SplitStarts(Sorted(vs), 0, map[], f);
    SortedSorts(vs);
    assert f in multiset(Sorted(vs));
  }

  /** The loop of DeleteVersions. */
  method Split(vs: seq<int>) returns (intervals: map<int, int>)
    ensures intervals == SplitFrom(vs, 0, map[])
    ensures NonDecreasing(vs) ==> (TakesExactly(intervals, vs) <==> NoneExtra(vs))
  {
    intervals := map[];
    var from := 0;
    var i := 0;
    assert vs[0..] == vs;
    while i < |vs|
      invariant 0 <= i <= |vs|
      invariant SplitFrom(vs[i..], from, intervals) == SplitFrom(vs, 0, map[])
    {
      var v := vs[i];
      if v - from != (if from in intervals then intervals[from] else 0) {
        from := v;
      }
      intervals := intervals[from := (if from in intervals then intervals[from] else 0) + 1];
      assert vs[i..][1..] == vs[i + 1..];
      i := i + 1;
    }
    if NonDecreasing(vs) { SplitExact(vs); }
  }

  method SortAndSplit(vs: seq<int>) returns (intervals: map<int, int>)
    ensures intervals == Runs(vs)
  {
    var sorted := Sort(vs);
    intervals := Split(sorted);
  }

  // ---------- exactly when the runs are right ----------

  /** The runs together hold the versions of vs and no other. */
  ghost predicate TakesExactly(intervals: map<int, int>, vs: seq<int>)
  {
    forall v :: v in vs <==> Takes(intervals, v)
  }

  function Below(given: multiset<int>, w: int): set<int> { set v | v in given && v < w }

  lemma BelowShrinks(given: multiset<int>, w: int)
    ensures w - 1 in given ==> Below(given, w - 1) < Below(given, w)
  {
    if w - 1 in given { assert w - 1 in Below(given, w); }
  }

  /**
    How often w is counted in the run that starts at w: each time it is given, except that the first
    time it goes to the run before it if that run ends just below w.
   */
  function Own(given: multiset<int>, w: int): int
    decreases Below(given, w)
  {
    BelowShrinks(given, w);
    var times: int := given[w];
    if w - 1 in given && Own(given, w - 1) <= 1 then times - 1 else times
  }

  /** Whatever is counted n times in its own run is followed by n - 1 versions that are also given. */
  predicate NoneExtra(vs: seq<int>)
  {
    forall w, u :: w in vs && w <= u < w + Own(multiset(vs), w) ==> u in vs
  }

  /** A further version, not below the others, changes only its own count. */
  lemma {:induction false} OwnGrows(given: multiset<int>, v: int, w: int)
    requires w <= v && forall u :: u in given ==> u <= v
    ensures Own(given + multiset{v}, w) == Own(given, w) + (if w == v then 1 else 0)
    decreases Below(given, w)
  {
    if w - 1 in given {
      BelowShrinks(given, w);
      OwnGrows(given, v, w - 1);
    }
  }

  lemma OwnNotNegative(given: multiset<int>, w: int)
    requires w in given
    ensures Own(given, w) >= 0
  {
  }

  /** The run that is being extended ends at the last version, unless that was repeated. */
  ghost predicate Current(r: map<int, int>, from: int, done: seq<int>)
  {
    if done == [] then from == 0 && r == map[]
    else
      var last := done[|done| - 1];
      from in r &&
      if Own(multiset(done), last) >= 1 then from == last && r[last] == Own(multiset(done), last)
      else Own(multiset(done), from) == 1 && from + r[from] == last + 1
  }

  /** The run of w, if it has one, after the versions in `done`. */
  ghost predicate RunOk(r: map<int, int>, done: seq<int>, w: int)
  {
    var own := Own(multiset(done), w);
    (w in r <==> w in done && own >= 1) &&
    (w in r ==> r[w] >= own && (own >= 2 ==> r[w] == own) && (own == 1 ==> forall u :: InRun(r, w, u) ==> u in done))
  }

  ghost predicate Tracks(r: map<int, int>, done: seq<int>)
  {
    (forall w :: RunOk(r, done, w)) && forall v :: v in done ==> Takes(r, v)
  }

  /** Taking what was asked for and nothing else is then a matter of the counts. */
  lemma TracksExact(r: map<int, int>, done: seq<int>)
    requires Tracks(r, done)
    ensures TakesExactly(r, done) <==> NoneExtra(done)
  {
    hide Own;
    if TakesExactly(r, done) {
      forall w, u | w in done && w <= u < w + Own(multiset(done), w) ensures u in done {
        assert RunOk(r, done, w);
        assert w in r && InRun(r, w, u);
        assert Takes(r, u);
      }
    }
    if NoneExtra(done) {
      forall v ensures v in done <==> Takes(r, v) {
        if Takes(r, v) {
          var f :| f in r && InRun(r, f, v);
          assert RunOk(r, done, f);
        }
      }
    }
  }

  ghost predicate Appends(done: seq<int>, v: int)
  {
    forall u :: u in done ==> u <= v
  }

  /** What appending v does to the count of w. */
  lemma Appended(done: seq<int>, v: int, w: int)
    requires Appends(done, v) && w <= v
    ensures Own(multiset(done + [v]), w) == Own(multiset(done), w) + (if w == v then 1 else 0)
  {
    assert multiset(done + [v]) == multiset(done) + multiset{v};
    assert forall u :: u in multiset(done) ==> u in done;
    OwnGrows(multiset(done), v, w);
  }

  lemma NotGiven(done: seq<int>, v: int)
    ensures v !in done ==> Own(multiset(done), v) <= 0
  {
    assert v in multiset(done) ==> v in done;
  }

  /** Runs other than the one that is counted stay right. */
  lemma OtherRunOk(r: map<int, int>, done: seq<int>, f: int, v: int, w: int)
    requires RunOk(r, done, w) && Appends(done, v) && w != f && w != v
    ensures RunOk(Counted(f, r), done + [v], w)
  {
    if w < v { Appended(done, v, w); }
    hide Own;
    if w in r { assert forall u :: InRun(Counted(f, r), w, u) ==> InRun(r, w, u); }
  }

  lemma CountedTakes(r: map<int, int>, f: int, v: int, done: seq<int>)
    requires (forall u :: u in done ==> Takes(r, u)) && (f in r ==> r[f] >= 0) && f <= v <= f + (if f in r then r[f] else 0)
    ensures forall u :: u in done + [v] ==> Takes(Counted(f, r), u)
  {
    var r' := Counted(f, r);
    forall u | u in done + [v] ensures Takes(r', u) {
      if u in done {
        var g :| g in r && InRun(r, g, u);
        assert g in r' && InRun(r', g, u);
      } else {
        assert f in r' && InRun(r', f, v);
      }
    }
  }

  /** A version that does not continue the current run: it starts one, or is counted once more in its own. */
  lemma OwnRunGrows(r: map<int, int>, done: seq<int>, v: int)
    requires Tracks(r, done) && Appends(done, v)
    requires v in r ==> r[v] == Own(multiset(done), v)
    requires Own(multiset(done), v) >= 0
    ensures Tracks(Counted(v, r), done + [v])
    ensures Own(multiset(done + [v]), v) >= 1 && Counted(v, r)[v] == Own(multiset(done + [v]), v)
  {
    assert RunOk(r, done, v);
    OwnRunOk(r, done, v);
    hide Own, Takes, RunOk, Counted;
    forall w ensures RunOk(Counted(v, r), done + [v], w) {
      if w != v {
        assert RunOk(r, done, w);
        OtherRunOk(r, done, v, v, w);
      }
    }
    CountedTakes(r, v, v, done);
  }

  lemma OwnRunOk(r: map<int, int>, done: seq<int>, v: int)
    requires RunOk(r, done, v) && Appends(done, v) && Own(multiset(done), v) >= 0 && (v in r ==> r[v] == Own(multiset(done), v))
    ensures RunOk(Counted(v, r), done + [v], v)
    ensures Own(multiset(done + [v]), v) >= 1 && Counted(v, r)[v] == Own(multiset(done + [v]), v)
  {
    Appended(done, v, v);
    NotGiven(done, v);
    hide Own;
    assert v in done + [v];
    if v !in r { assert forall u :: InRun(Counted(v, r), v, u) ==> u == v; }
  }

  /** A version that continues the current run. */
  lemma RunContinues(r: map<int, int>, from: int, done: seq<int>, v: int)
    requires Tracks(r, done) && Appends(done, v) && from in r && from < v && from + r[from] == v
    requires Own(multiset(done), from) == 1 && Own(multiset(done), v) == -1
    ensures Tracks(Counted(from, r), done + [v])
    ensures Own(multiset(done + [v]), v) == 0 && Own(multiset(done + [v]), from) == 1
  {
    Appended(done, v, v);
    Appended(done, v, from);
    hide Own, Takes;
    var r' := Counted(from, r);
    assert RunOk(r, done, v) && RunOk(r, done, from);
    forall w ensures RunOk(r', done + [v], w) {
      if w == from {
        forall u | InRun(r', from, u) ensures u in done + [v] { if u != v { assert InRun(r, from, u); } }
      } else if w != v {
        assert RunOk(r, done, w);
        OtherRunOk(r, done, from, v, w);
      }
    }
    CountedTakes(r, from, v, done);
  }

  /** The current run leaves a gap that will not be closed. */
  ghost predicate Gap(done: seq<int>, v: int)
  {
    done != [] && v > done[|done| - 1] + 1 && Own(multiset(done), done[|done| - 1]) >= 2
  }

  lemma OwnOfNew(done: seq<int>, v: int)
    requires done != [] && Appends(done, v) && v > done[|done| - 1] && forall u :: u in done ==> u <= done[|done| - 1]
    ensures var last := done[|done| - 1];
            Own(multiset(done), v) == if v == last + 1 && Own(multiset(done), last) <= 1 then -1 else 0
  {
    assert v in multiset(done) ==> v in done;
    assert v - 1 in multiset(done) ==> v - 1 in done;
    assert done[|done| - 1] in multiset(done);
  }

  lemma SplitStep(r: map<int, int>, from: int, done: seq<int>, v: int)
    requires Tracks(r, done) && Current(r, from, done) && Appends(done, v) && !Gap(done, v)
    requires done != [] ==> forall u :: u in done ==> u <= done[|done| - 1]
    ensures var f := NextFrom(v, from, r); Tracks(Counted(f, r), done + [v]) && Current(Counted(f, r), f, done + [v])
  {
    var f := NextFrom(v, from, r);
    hide Tracks;
    if done == [] {
      assert multiset(done)[v] == 0 && v - 1 !in multiset(done);
      OwnRunGrows(r, done, v);
    } else {
      var last := done[|done| - 1];
      assert last in multiset(done) && last in done;
      OwnNotNegative(multiset(done), last);
      StartsGiven(r, from, done);
      hide Own;
      if v == last {
        LastRun(r, done, v);
        OwnRunGrows(r, done, v);
      } else {
        OwnOfNew(done, v);
        if v == last + 1 && Own(multiset(done), last) <= 1 {
          RunContinues(r, from, done, v);
        } else {
          LastRun(r, done, v);
          OwnRunGrows(r, done, v);
        }
      }
    }
  }

  lemma StartsGiven(r: map<int, int>, from: int, done: seq<int>)
    requires Tracks(r, done) && from in r
    ensures from in done && r[from] >= 1
  {
    hide Own;
    assert RunOk(r, done, from);
  }

  lemma LastRun(r: map<int, int>, done: seq<int>, v: int)
    requires Tracks(r, done)
    ensures v in r <==> v in done && Own(multiset(done), v) >= 1
  {
    hide Own;
    assert RunOk(r, done, v);
  }

  /** Runs never shrink. */
  lemma {:induction false} SplitGrows(vs: seq<int>, from: int, r: map<int, int>, f: int)
    requires f in r
    ensures var s := SplitFrom(vs, from, r); f in s && s[f] >= r[f]
    decreases |vs|
  {
    if vs != [] {
      var g := NextFrom(vs[0], from, r);
      SplitGrows(vs[1..], g, Counted(g, r), f);
    }
  }

  /** At a gap the runs take a version that is not given, and go on taking it. */
  lemma GapIsExtra(vs: seq<int>, from: int, r: map<int, int>, done: seq<int>)
    requires vs != [] && NonDecreasing(done + vs) && Tracks(r, done) && Gap(done, vs[0])
    ensures !TakesExactly(SplitFrom(vs, from, r), done + vs) && !NoneExtra(done + vs)
  {
    var last := done[|done| - 1];
    assert last in multiset(done) && last in done;
    GapStays(done, vs);
    hide Own, SplitFrom;
    assert RunOk(r, done, last);
    SplitGrows(vs, from, r, last);
    var s := SplitFrom(vs, from, r);
    assert InRun(s, last, last + 1);
    assert Takes(s, last + 1);
  }

  lemma GapStays(done: seq<int>, vs: seq<int>)
    requires vs != [] && NonDecreasing(done + vs) && Gap(done, vs[0])
    ensures var last := done[|done| - 1];
            last in done + vs && last + 1 !in done + vs && Own(multiset(done + vs), last) == Own(multiset(done), last)
  {
    var last := done[|done| - 1];
    var all := done + vs;
    assert last == all[|done| - 1];
    forall i | 0 <= i < |all| ensures all[i] != last + 1 {
      if i < |done| - 1 { assert all[i] <= all[|done| - 1]; }
      if i > |done| { assert all[|done|] <= all[i]; }
    }
    forall v | v in vs ensures last < v {
      var i :| 0 <= i < |vs| && vs[i] == v;
      assert all[|done| + i] == v && (i > 0 ==> all[|done|] <= all[|done| + i]);
    }
    MoreAbove(done, vs, last);
  }

  /** Versions above w do not change the count of w. */
  lemma {:induction false} MoreAbove(done: seq<int>, vs: seq<int>, w: int)
    requires NonDecreasing(done + vs) && forall v :: v in vs ==> w < v
    ensures Own(multiset(done + vs), w) == Own(multiset(done), w)
    decreases |vs|
  {
    hide Own;
    if vs == [] {
      assert done + vs == done;
    } else {
      NoneAbove(done, vs);
      assert w < vs[0] by { assert vs[0] in vs; }
      Appended(done, vs[0], w);
      assert done + vs == (done + [vs[0]]) + vs[1..];
      assert forall v :: v in vs[1..] ==> v in vs;
      MoreAbove(done + [vs[0]], vs[1..], w);
    }
  }

  lemma NoneAbove(done: seq<int>, vs: seq<int>)
    requires vs != [] && NonDecreasing(done + vs)
    ensures Appends(done, vs[0]) && (done != [] ==> forall u :: u in done ==> u <= done[|done| - 1])
  {
    var all := done + vs;
    forall i | 0 <= i < |done| ensures done[i] <= vs[0] && done[i] <= done[|done| - 1] {
      assert all[i] == done[i] && all[|done|] == vs[0] && all[|done| - 1] == done[|done| - 1];
    }
  }

  lemma {:induction false} SplitTracks(vs: seq<int>, from: int, r: map<int, int>, done: seq<int>)
    requires NonDecreasing(done + vs) && Tracks(r, done) && Current(r, from, done)
    ensures TakesExactly(SplitFrom(vs, from, r), done + vs) <==> NoneExtra(done + vs)
    decreases |vs|
  {
    hide Tracks, Current, Gap, TakesExactly, NoneExtra, NonDecreasing;
    if vs == [] {
      assert done + vs == done;
      TracksExact(r, done);
    } else if Gap(done, vs[0]) {
      GapIsExtra(vs, from, r, done);
    } else {
      NoneAbove(done, vs);
      SplitStep(r, from, done, vs[0]);
      assert done + vs == (done + [vs[0]]) + vs[1..];
      var f := NextFrom(vs[0], from, r);
      SplitTracks(vs[1..], f, Counted(f, r), done + [vs[0]]);
    }
  }

  lemma SplitExact(vs: seq<int>)
    requires NonDecreasing(vs)
    ensures TakesExactly(SplitFrom(vs, 0, map[]), vs) <==> NoneExtra(vs)
  {
    assert [] + vs == vs;
    assert Tracks(map[], []) && Current(map[], 0, []);
    SplitTracks(vs, 0, map[], []);
  }

  /**
    The runs hold exactly the versions that were given if and only if each version that is counted
    n times in its own run is followed by n - 1 versions that are given too.
   */
  lemma RunsExactIff(vs: seq<int>)
    ensures TakesExactly(Runs(vs), vs) <==> NoneExtra(vs)
  {
    hide SplitFrom, Sorted;
    SortedSorts(vs);
    SplitExact(Sorted(vs));
    SameVersions(Sorted(vs), vs);
  }

  lemma SameVersions(a: seq<int>, b: seq<int>)
    requires multiset(a) == multiset(b)
    ensures NoneExtra(a) <==> NoneExtra(b)
    ensures forall r :: TakesExactly(r, a) <==> TakesExactly(r, b)
  {
    hide Own;
    assert forall v :: (v in a <==> v in multiset(a)) && (v in b <==> v in multiset(b));
  }

  /** In particular when no version is repeated. */
  lemma DistinctIsExact(vs: seq<int>)
    requires forall v :: v in vs ==> multiset(vs)[v] == 1
    ensures TakesExactly(Runs(vs), vs)
  {
    hide TakesExactly, Runs;
    forall w, u | w in vs && w <= u < w + Own(multiset(vs), w) ensures u in vs { assert u == w; }
    RunsExactIff(vs);
  }

  /** Given version 3 twice, the runs also hold version 4; with 4 given too they are right. */
  lemma RepeatedVersionTakesTheNext()
    ensures Runs([3, 3]) == map[3 := 2] && Takes(Runs([3, 3]), 4) && 4 !in [3, 3]
    ensures Runs([3, 3, 4]) == map[3 := 2, 4 := 1] && TakesExactly(Runs([3, 3, 4]), [3, 3, 4])
  {
    assert Sorted([3]) == [3] by { assert [3][..0] == []; }
    assert Sorted([3, 3]) == [3, 3] by { assert [3, 3][..1] == [3]; }
    assert Sorted([3, 3, 4]) == [3, 3, 4] by {
      assert [3, 3, 4][..2] == [3, 3];
      InsertAt([3, 3], 4, 2);
    }
    var r := map[3 := 2];
    assert SplitFrom([3, 3], 0, map[]) == SplitFrom([3], 3, map[3 := 1]) == SplitFrom([], 3, r) == r;
    assert InRun(r, 3, 4);
    assert SplitFrom([3, 3, 4], 0, map[]) == SplitFrom([3, 4], 3, map[3 := 1]) == SplitFrom([4], 3, r) == SplitFrom([], 4, r[4 := 1]);
    var q := map[3 := 2, 4 := 1];
    assert InRun(q, 3, 3) && InRun(q, 4, 4);
  }
}
