/**
  Adding and removing liquidity in an automated market maker. Amounts are
  decimals with 18 places, held as integers scaled by 10^18.
 */
module Liquidity {
  import opened Options

  const P: nat := 1_000_000_000_000_000_000

  /** 2^315: a decimal of more than 255 + 60 bits panics. */
  const LIMIT: nat := 0x8000000000_0000000000_0000000000_0000000000_0000000000_0000000000_0000000000_000000000

  // ---------- truncating arithmetic ----------

  /** Product and quotient of natural numbers by repeated addition and subtraction; TimesIsProduct and QuotientIsDiv tie them to * and /. */
  function Times(a: nat, b: nat): nat { if a == 0 then 0 else b + Times(a - 1, b) }

  function Quotient(x: nat, d: nat): nat
    requires d > 0
    decreases x
  {
    if x < d then 0 else 1 + Quotient(x - d, d)
  }

  lemma {:induction false} TimesIsProduct(a: nat, b: nat)
    ensures Times(a, b) == a * b
  {
    if a > 0 {
      TimesIsProduct(a - 1, b);
      Distribute(a - 1, 1, b);
    }
  }

  lemma {:induction false} QuotientIsDiv(x: nat, d: nat)
    requires d > 0
    ensures Quotient(x, d) == x / d
    decreases x
  {
    if x >= d {
      QuotientIsDiv(x - d, d);
      DivBounds(x - d, d);
      Distribute((x - d) / d, 1, d);
      DivIs(x, d, (x - d) / d + 1);
    } else {
      DivIs(x, d, 0);
    }
  }

  function Checked(x: nat): Option<nat> { if x >= LIMIT then None else Some(x) }

  function MulTruncate(a: nat, b: nat): Option<nat> { Checked(Quotient(Times(a, b), P)) }

  function QuoTruncate(a: nat, b: nat): Option<nat>
  {
    if b == 0 then None else Checked(Quotient(Quotient(Times(Times(a, P), P), b), P))
  }

  lemma TruncatingOperations(a: nat, b: nat)
    ensures MulTruncate(a, b) == Checked(a * b / P)
    ensures QuoTruncate(a, b) == if b == 0 then None else Checked(a * P * P / b / P)
  {
    TimesIsProduct(a, b);
    QuotientIsDiv(a * b, P);
    TimesIsProduct(a, P);
    TimesIsProduct(a * P, P);
    if b > 0 {
      QuotientIsDiv(a * P * P, b);
      QuotientIsDiv(a * P * P / b, P);
    }
  }

  /** common.MulAndQuo; None is a panic. The auxiliary decimal is 10^18, that is P * P in scaled form. */
  function MulAndQuo(a: nat, b: nat, c: nat): Option<nat>
  {
    var x := MulTruncate(a, P * P);
    if x.None? then None
    else
      var y := MulTruncate(x.value, b);
      if y.None? then None
      else
        var z := QuoTruncate(y.value, c);
        if z.None? then None else QuoTruncate(z.value, P * P)
  }

  lemma DivIs(x: nat, d: nat, q: nat)
    requires d > 0 && q * d <= x < q * d + d
    ensures x / d == q
  {
    var k := x / d;
    DivBounds(x, d);
    assert (q + 1) * d == q * d + d && (k + 1) * d == k * d + d;
    MulLtCancel(k, q + 1, d);
    MulLtCancel(q, k + 1, d);
  }

  lemma MulLtCancel(a: nat, b: nat, d: nat)
    requires a * d < b * d
    ensures a < b
  {
    if b <= a { MulLe(b, a, d); }
  }

  lemma MulLe(a: nat, b: nat, d: nat)
    requires a <= b
    ensures a * d <= b * d
  {
  }

  /** x / d is the whole number of times d goes into x. */
  lemma DivBounds(x: nat, d: nat)
    requires d > 0
    ensures x / d * d <= x < x / d * d + d
  {
  }

  lemma DivOfMultiple(x: nat, d: nat)
    requires d > 0
    ensures x * d / d == x
  {
    DivIs(x * d, d, x);
  }

  lemma DivTwice(x: nat, c: nat, d: nat)
    requires c > 0 && d > 0
    ensures c * d > 0 && x / c / d == x / (c * d)
  {
    var y := x / c;
    var q := y / d;
    DivBounds(x, c);
    DivBounds(y, d);
    Positive(c, d);
    TwoSteps(x, c, d, y, q);
    DivIs(x, c * d, q);
  }

  lemma TwoSteps(x: nat, c: nat, d: nat, y: nat, q: nat)
    requires y * c <= x < y * c + c && q * d <= y < q * d + d
    ensures q * (c * d) <= x < q * (c * d) + c * d
  {
    var qd := q * d;
    MulLe(qd, y, c);
    MulLe(y + 1, qd + d, c);
    Distribute(y, 1, c);
    Distribute(qd, d, c);
    Regroup(q, d, c);
  }

  lemma Distribute(a: nat, b: nat, c: nat)
    ensures (a + b) * c == a * c + b * c
  {
  }

  lemma Regroup(a: nat, b: nat, c: nat)
    ensures (a * b) * c == a * (c * b)
  {
  }

  lemma Positive(a: nat, b: nat)
    requires a > 0 && b > 0
    ensures a * b > 0
  {
  }

  lemma DivCancel(x: nat, c: nat, d: nat)
    requires c > 0 && d > 0
    ensures x * d / c / d == x / c
  {
    DivTwice(x * d, c, d);
    DivTwice(x * d, d, c);
    DivOfMultiple(x, d);
    assert c * d == d * c;
  }

  /** The product divided once, rounded down. */
  function Floor(a: nat, b: nat, c: nat): nat
    requires c > 0
  {
    Quotient(Times(a, b), c)
  }

  lemma FloorIsExact(a: nat, b: nat, c: nat)
    requires c > 0
    ensures Floor(a, b, c) == a * b / c
  {
    TimesIsProduct(a, b);
    QuotientIsDiv(a * b, c);
  }

  /** An intermediate result that does not fit. */
  predicate Overflows(a: nat, b: nat, c: nat)
    requires c > 0
  {
    Times(a, P) >= LIMIT || Times(a, b) >= LIMIT || Floor(Times(a, b), P, c) >= LIMIT
  }

  lemma ScaledUp(a: nat)
    ensures MulTruncate(a, P * P) == Checked(Times(a, P))
  {
    TruncatingOperations(a, P * P);
    TimesIsProduct(a, P);
    assert a * (P * P) == (a * P) * P;
    DivOfMultiple(a * P, P);
  }

  lemma ScaledProduct(a: nat, b: nat)
    ensures MulTruncate(Times(a, P), b) == Checked(Times(a, b))
  {
    TruncatingOperations(a * P, b);
    TimesIsProduct(a, P);
    TimesIsProduct(a, b);
    hide MulTruncate, Times;
    Swap(a, P, b);
    DivOfMultiple(a * b, P);
  }

  lemma ScaledQuotient(x: nat, c: nat)
    requires c > 0
    ensures QuoTruncate(x, c) == Checked(Floor(x, P, c))
  {
    TruncatingOperations(x, c);
    FloorIsExact(x, P, c);
    assert x * P * P == (x * P) * P;
    DivCancel(x * P, c, P);
  }

  lemma ScaledDown(x: nat, c: nat)
    requires c > 0
    ensures QuoTruncate(Floor(x, P, c), P * P) == Checked(x / c) && x / c <= Floor(x, P, c)
  {
    FloorIsExact(x, P, c);
    var y := x * P / c;
    TruncatingOperations(y, P * P);
    assert y * P * P == y * (P * P);
    DivOfMultiple(y, P * P);
    DivCancel(x, c, P);
    SmallerQuotient(x, c);
  }

  /** MulAndQuo is the exact quotient rounded down, unless it divides by zero or an intermediate result is too large. */
  lemma MulAndQuoIsFloor(a: nat, b: nat, c: nat)
    ensures MulAndQuo(a, b, c) == if c == 0 || Overflows(a, b, c) then None else Some(Floor(a, b, c))
  {
    ScaledUp(a);
    ScaledProduct(a, b);
    TimesIsProduct(a, b);
    if c > 0 {
      ScaledQuotient(Times(a, b), c);
      ScaledDown(Times(a, b), c);
      FloorIsExact(a, b, c);
    }
    hide MulTruncate, Times, Floor;
  }

  lemma SmallerQuotient(x: nat, c: nat)
    requires c > 0
    ensures x / c <= x * P / c
  {
    QuotientGrows(x, x * P, c);
  }

  lemma QuotientGrows(x: nat, y: nat, c: nat)
    requires c > 0 && x <= y
    ensures x / c <= y / c
  {
    DivBounds(x, c);
    DivBounds(y, c);
    MultiplesGrow(x, y, c, x / c, y / c);
  }

  lemma MultiplesGrow(x: nat, y: nat, c: nat, k: nat, m: nat)
    requires k * c <= x <= y < m * c + c
    ensures k <= m
  {
    Distribute(m, 1, c);
    MulLtCancel(k, m + 1, c);
  }

  // ---------- the handlers ----------

  datatype Pool = Pool(base: nat, quote: nat, supply: nat)

  /** Done: the new pool, and what was paid in or out of each coin and of the pool token. */
  datatype Outcome = Done(pool: Pool, base: nat, quote: nat, share: nat) | Failed | Panicked

  function AddLiquidity(p: Pool, quote: nat, maxBase: nat, minLiquidity: nat): Outcome
  {
    if p.quote == 0 && p.base == 0 then Deposit(p, maxBase, quote, P, maxBase, minLiquidity)
    else if p.base > 0 && p.quote > 0 then
      var b := MulAndQuo(quote, p.base, p.quote);
      if b.None? then Panicked
      else if p.supply == 0 then Failed
      else
        var l := MulAndQuo(quote, p.supply, p.quote);
        if l.None? then Panicked
        else if l.value == 0 then Failed
        else Deposit(p, if b.value == 0 then 1 else b.value, quote, l.value, maxBase, minLiquidity)
    else Failed
  }

  function Deposit(p: Pool, base: nat, quote: nat, liquidity: nat, maxBase: nat, minLiquidity: nat): Outcome
  {
    if base > maxBase || liquidity < minLiquidity then Failed
    else if p.quote + quote >= LIMIT || p.base + base >= LIMIT then Panicked
    else Done(Pool(p.base + base, p.quote + quote, p.supply + liquidity), base, quote, liquidity)
  }

  function RemoveLiquidity(p: Pool, liquidity: nat, minBase: nat, minQuote: nat): Outcome
  {
    if p.supply < liquidity then Failed
    else
      var b, q := MulAndQuo(p.base, liquidity, p.supply), MulAndQuo(p.quote, liquidity, p.supply);
      if b.None? || q.None? then Panicked
      else if b.value < minBase || q.value < minQuote then Failed
      else if b.value > p.base || q.value > p.quote then Panicked   // a negative coin amount
      else Done(Pool(p.base - b.value, p.quote - q.value, p.supply - liquidity), b.value, q.value, liquidity)
  }

  /** Nothing or something of all three. */
  predicate PoolOk(p: Pool)
  {
    (p.base == 0 && p.quote == 0 && p.supply == 0) || (p.base > 0 && p.quote > 0 && p.supply > 0)
  }

  /** A share of a reserve is not more than the reserve, and less of it for a smaller share. */
  lemma ShareOfReserve(r: nat, l: nat, s: nat)
    requires 0 < s && l <= s
    ensures Floor(r, l, s) <= r && (l == s ==> Floor(r, l, s) == r) && (l < s && r > 0 ==> Floor(r, l, s) < r)
  {
    FloorIsExact(r, l, s);
    hide Floor;
    DivBounds(r * l, s);
    assert r * l <= r * s by { assert l * r <= s * r by { MulLe(l, s, r); } }
    assert (r + 1) * s == r * s + s;
    MulLtCancel(r * l / s, r + 1, s);
    if l == s { DivOfMultiple(r, s); }
    if l < s && r > 0 {
      assert r * s - r * l == r * (s - l);
      Positive(r, s - l);
      MulLtCancel(r * l / s, r, s);
    }
  }

  /** A reserve never goes negative. */
  lemma RemoveNeverOverdraws(p: Pool, liquidity: nat)
    requires 0 < p.supply && liquidity <= p.supply
    ensures Floor(p.base, liquidity, p.supply) <= p.base && Floor(p.quote, liquidity, p.supply) <= p.quote
  {
    ShareOfReserve(p.base, liquidity, p.supply);
    ShareOfReserve(p.quote, liquidity, p.supply);
  }

  lemma RemoveDone(p: Pool, liquidity: nat, minBase: nat, minQuote: nat)
    requires RemoveLiquidity(p, liquidity, minBase, minQuote).Done?
    ensures 0 < p.supply && liquidity <= p.supply
    ensures var o := RemoveLiquidity(p, liquidity, minBase, minQuote);
            o.base == Floor(p.base, liquidity, p.supply) && o.quote == Floor(p.quote, liquidity, p.supply) && o.share == liquidity &&
            o.pool.base + o.base == p.base && o.pool.quote + o.quote == p.quote && o.pool.supply + liquidity == p.supply
  {
    hide MulAndQuo, Floor, Overflows;
    MulAndQuoIsFloor(p.base, liquidity, p.supply);
    MulAndQuoIsFloor(p.quote, liquidity, p.supply);
  }

  lemma AddDone(p: Pool, quote: nat, maxBase: nat, minLiquidity: nat)
    requires AddLiquidity(p, quote, maxBase, minLiquidity).Done?
    ensures var o := AddLiquidity(p, quote, maxBase, minLiquidity);
            o.quote == quote && o.pool == Pool(p.base + o.base, p.quote + quote, p.supply + o.share) &&
            if p.quote == 0 then p.base == 0 && o.base == maxBase && o.share == P
            else o.share == Floor(quote, p.supply, p.quote) && o.share > 0 && p.base > 0 && p.supply > 0 &&
                 o.base == (if Floor(quote, p.base, p.quote) == 0 then 1 else Floor(quote, p.base, p.quote))
  {
    hide MulAndQuo, Floor, Overflows;
    if p.quote > 0 {
      MulAndQuoIsFloor(quote, p.base, p.quote);
      MulAndQuoIsFloor(quote, p.supply, p.quote);
    }
  }

  datatype Op = Add(quote: nat, maxBase: nat, minLiquidity: nat) | Remove(liquidity: nat, minBase: nat, minQuote: nat)

  /** What ValidateBasic lets through. */
  predicate Valid(op: Op) { match op case Add(q, b, _) => q > 0 && b > 0 case Remove(l, _, _) => l > 0 }

  /** A failed or panicking message leaves the pool as it was. */
  function Step(p: Pool, op: Op): Pool
  {
    var o := match op case Add(q, b, l) => AddLiquidity(p, q, b, l) case Remove(l, b, q) => RemoveLiquidity(p, l, b, q);
    if o.Done? then o.pool else p
  }

  lemma StepKeeps(p: Pool, op: Op)
    requires PoolOk(p) && Valid(op)
    ensures PoolOk(Step(p, op))
  {
    hide AddLiquidity, RemoveLiquidity, Floor;
    match op {
      case Add(q, b, l) => if AddLiquidity(p, q, b, l).Done? { AddDone(p, q, b, l); }
      case Remove(l, b, q) =>
        if RemoveLiquidity(p, l, b, q).Done? {
          RemoveDone(p, l, b, q);
          ShareOfReserve(p.base, l, p.supply);
          ShareOfReserve(p.quote, l, p.supply);
        }
    }
  }

  function Run(p: Pool, ops: seq<Op>): Pool
    decreases |ops|
  {
    if ops == [] then p else Run(Step(p, ops[0]), ops[1..])
  }

  /** Over all runs the supply is zero exactly when both reserves are. */
  lemma {:induction false} SupplyZeroIffReservesZero(p: Pool, ops: seq<Op>)
    requires PoolOk(p) && forall i :: 0 <= i < |ops| ==> Valid(ops[i])
    ensures PoolOk(Run(p, ops))
    ensures var r := Run(p, ops); (r.supply == 0 <==> r.base == 0 && r.quote == 0) && (r.base == 0 <==> r.quote == 0)
    decreases |ops|
  {
    hide Step;
    if ops != [] {
      StepKeeps(p, ops[0]);
      SupplyZeroIffReservesZero(Step(p, ops[0]), ops[1..]);
    }
  }

  // ---------- what a share is worth ----------

  /** r' / s' >= r / s. */
  predicate NotLowered(r: nat, s: nat, r': nat, s': nat) { r * s' <= r' * s }

  lemma RemovedPart(r: nat, l: nat, s: nat)
    requires 0 < s && l <= s
    ensures Floor(r, l, s) <= r && NotLowered(r, s, r - Floor(r, l, s), s - l)
  {
    ShareOfReserve(r, l, s);
    FloorIsExact(r, l, s);
    hide Floor;
    DivBounds(r * l, s);
    var x := r * l / s;
    assert (r - x) * s == r * s - x * s && r * (s - l) == r * s - r * l;
  }

  /** Removing liquidity never lowers either reserve per share. */
  lemma RemoveKeepsShareValue(p: Pool, l: nat, minBase: nat, minQuote: nat)
    requires RemoveLiquidity(p, l, minBase, minQuote).Done?
    ensures var t := RemoveLiquidity(p, l, minBase, minQuote).pool;
            NotLowered(p.base, p.supply, t.base, t.supply) && NotLowered(p.quote, p.supply, t.quote, t.supply)
  {
    hide RemoveLiquidity, Floor, NotLowered;
    RemoveDone(p, l, minBase, minQuote);
    RemovedPart(p.base, l, p.supply);
    RemovedPart(p.quote, l, p.supply);
  }

  /** Adding liquidity never lowers the quote reserve per share. */
  lemma AddKeepsQuoteValue(p: Pool, quote: nat, maxBase: nat, minLiquidity: nat)
    requires PoolOk(p) && AddLiquidity(p, quote, maxBase, minLiquidity).Done?
    ensures var t := AddLiquidity(p, quote, maxBase, minLiquidity).pool; NotLowered(p.quote, p.supply, t.quote, t.supply)
  {
    hide AddLiquidity, Floor;
    AddDone(p, quote, maxBase, minLiquidity);
    if p.quote > 0 {
      var l := Floor(quote, p.supply, p.quote);
      FloorIsExact(quote, p.supply, p.quote);
      DivBounds(quote * p.supply, p.quote);
      assert p.quote * (p.supply + l) == p.quote * p.supply + l * p.quote;
      assert (p.quote + quote) * p.supply == p.quote * p.supply + quote * p.supply;
    }
  }

  /**
    Whether adding `quote` keeps the base reserve per share: the first deposit does, and so does one whose base is
    rounded up to one unit; otherwise what is rounded off the base must weigh no more than what is rounded off the share.
   */
  predicate BaseKept(p: Pool, quote: nat)
  {
    p.quote == 0 || quote * p.base < p.quote ||
    p.supply * (quote * p.base % p.quote) <= p.base * (quote * p.supply % p.quote)
  }

  /** Adding does not lower the base reserve per share exactly then, and one more unit of base would always make up for it. */
  lemma AddAndBaseValue(p: Pool, quote: nat, maxBase: nat, minLiquidity: nat)
    requires PoolOk(p) && AddLiquidity(p, quote, maxBase, minLiquidity).Done?
    ensures var t := AddLiquidity(p, quote, maxBase, minLiquidity).pool;
            (NotLowered(p.base, p.supply, t.base, t.supply) <==> BaseKept(p, quote)) &&
            NotLowered(p.base, p.supply, t.base + 1, t.supply)
  {
    hide AddLiquidity, Floor, BaseKept;
    AddDone(p, quote, maxBase, minLiquidity);
    var o := AddLiquidity(p, quote, maxBase, minLiquidity);
    PaidForShare(p.base, p.supply, o.base, o.share);
    PaidForShare(p.base, p.supply, o.base + 1, o.share);
    if p.quote > 0 {
      BaseBound(p.base, p.quote, quote, p.supply, o.share, o.base);
      Commute(o.base + 1, p.supply);
      PaidIffKept(p, quote, o.base, o.share);
    } else {
      FirstIsKept(p, quote);
    }
  }

  lemma PaidForShare(B: nat, s: nat, b: nat, l: nat)
    ensures NotLowered(B, s, B + b, s + l) <==> B * l <= b * s
  {
    Distribute(s, l, B);
    Distribute(B, b, s);
    Commute(B, s + l);
    Commute(B, s);
    Commute(B, l);
  }

  lemma FirstIsKept(p: Pool, quote: nat)
    requires p.quote == 0
    ensures BaseKept(p, quote)
  {
  }

  /** The base paid in is worth the share minted. */
  lemma PaidIffKept(p: Pool, quote: nat, b: nat, l: nat)
    requires p.quote > 0 && p.supply > 0 && l == Floor(quote, p.supply, p.quote)
    requires b == if Floor(quote, p.base, p.quote) == 0 then 1 else Floor(quote, p.base, p.quote)
    ensures p.base * l <= b * p.supply <==> BaseKept(p, quote)
  {
    hide Floor;
    FloorIsExact(quote, p.supply, p.quote);
    FloorIsExact(quote, p.base, p.quote);
    var x, y, Q := quote * p.base, quote * p.supply, p.quote;
    DivBounds(x, Q);
    if x < Q {
      DivIs(x, Q, 0);
      BaseBound(p.base, Q, quote, p.supply, l, 0);
    } else {
      AtLeastOnce(x, Q);
      QuotientAndRest(x, Q);
      QuotientAndRest(y, Q);
      WeighRests(p.base, Q, quote, p.supply, l, b, x % Q, y % Q);
    }
  }

  lemma AtLeastOnce(x: nat, d: nat)
    requires 0 < d <= x
    ensures x / d >= 1
  {
    QuotientGrows(d, x, d);
    DivIs(d, d, 1);
  }

  lemma QuotientAndRest(x: nat, d: nat)
    requires d > 0
    ensures x == x / d * d + x % d
  {
  }

  lemma WeighRests(B: nat, Q: nat, q: nat, s: nat, l: nat, b: nat, rb: nat, rs: nat)
    requires Q > 0 && q * B == b * Q + rb && q * s == l * Q + rs
    ensures B * l <= b * s <==> s * rb <= B * rs
  {
    Distribute(l * Q, rs, B);
    Distribute(b * Q, rb, s);
    Swap(q, B, s);
    Swap(l, Q, B);
    Swap(b, Q, s);
    Commute(l, B);
    Commute(rs, B);
    Commute(rb, s);
    var X, Y := B * l, b * s;
    assert X * Q + B * rs == Y * Q + s * rb;
    if X <= Y { MulLe(X, Y, Q); } else { MulLt(Y, X, Q); }
  }

  /**
    A run of messages to an empty pair that leaves reserves of 3 base and 2 quote with 2 shares. Adding one unit of
    quote then lowers the base per share from 3/2 to 4/3.
   */
  lemma BaseValueFalls()
    ensures Run(Pool(0, 0, 0), [Add(P, 3 * (P / 2), 0), Remove(P - 2, 0, 0)]) == Pool(3, 2, 2) && !BaseKept(Pool(3, 2, 2), 1)
    ensures var o := AddLiquidity(Pool(3, 2, 2), 1, 1, 0); o == Done(Pool(4, 3, 3), 1, 1, 1) && !NotLowered(3, 2, o.pool.base, o.pool.supply)
  {
    hide MulAndQuo, AddLiquidity, RemoveLiquidity;
    var a, b := Add(P, 3 * (P / 2), 0), Remove(P - 2, 0, 0);
    FirstDeposit();
    MostIsRemoved();
    RunOfTwo(Pool(0, 0, 0), a, b);
    SmallDeposit();
  }

  lemma RunOfTwo(p: Pool, a: Op, b: Op)
    ensures Run(p, [a, b]) == Step(Step(p, a), b)
  {
    hide Step;
    assert [a, b][1..] == [b] && [b][1..] == [];
    assert Run(Step(p, a), [b]) == Run(Step(Step(p, a), b), []);
  }

  lemma FirstDeposit()
    ensures Step(Pool(0, 0, 0), Add(P, 3 * (P / 2), 0)) == Pool(3 * (P / 2), P, P)
  {
    hide MulAndQuo;
  }

  lemma MostIsRemoved()
    ensures Step(Pool(3 * (P / 2), P, P), Remove(P - 2, 0, 0)) == Pool(3, 2, 2)
  {
    hide MulAndQuo;
    SmallQuotient(3 * (P / 2), P - 2, P, 3 * (P / 2) - 3);
    SmallQuotient(P, P - 2, P, P - 2);
  }

  lemma SmallDeposit()
    ensures AddLiquidity(Pool(3, 2, 2), 1, 1, 0) == Done(Pool(4, 3, 3), 1, 1, 1)
  {
    hide MulAndQuo;
    SmallQuotient(1, 3, 2, 1);
    SmallQuotient(1, 2, 2, 1);
  }

  /** Amounts up to two whole coins are far from the limit. */
  lemma SmallQuotient(a: nat, b: nat, c: nat, q: nat)
    requires c > 0 && a <= 2 * P && b <= 2 * P && a * b / c == q && a * b <= 4 * P * P && a * b * P <= 4 * P * P * P
    ensures MulAndQuo(a, b, c) == Some(q)
  {
    hide MulAndQuo, Floor;
    MulAndQuoIsFloor(a, b, c);
    FloorIsExact(a, b, c);
    TimesIsProduct(a, P);
    TimesIsProduct(a, b);
    FloorIsExact(a * b, P, c);
    QuotientBelow(a * b * P, c);
    MulLe(a, 2 * P, P);
  }

  lemma QuotientBelow(x: nat, c: nat)
    requires c > 0
    ensures x / c <= x
  {
    DivBounds(x, c);
    MulLe(1, c, x / c);
    Commute(x / c, c);
  }

  /** If r * l < (x + 1) * s + l then the share l of r + x among s + l is not more than x. */
  lemma NotMoreThanPaid(r: nat, x: nat, s: nat, l: nat)
    requires s + l > 0 && r * l < (x + 1) * s + l
    ensures Floor(r + x, l, s + l) <= x
  {
    var d := s + l;
    FloorIsExact(r + x, l, d);
    hide Floor;
    DivBounds((r + x) * l, d);
    Distribute(r, x, l);
    Distribute(s, l, x + 1);
    Distribute(x, 1, l);
    assert (x + 1) * d == d * (x + 1) && (x + 1) * s == s * (x + 1) && (x + 1) * l == l * (x + 1);
    MulLtCancel((r + x) * l / d, x + 1, d);
  }

  /** Adding and then removing the minted share never returns more of either coin than was paid in. */
  lemma AddThenRemove(p: Pool, quote: nat, maxBase: nat, minLiquidity: nat)
    requires PoolOk(p) && quote > 0 && maxBase > 0
    requires var a := AddLiquidity(p, quote, maxBase, minLiquidity); a.Done? && RemoveLiquidity(a.pool, a.share, 0, 0).Done?
    ensures var a := AddLiquidity(p, quote, maxBase, minLiquidity);
            var r := RemoveLiquidity(a.pool, a.share, 0, 0);
            r.base <= a.base && r.quote <= a.quote
  {
    hide AddLiquidity, RemoveLiquidity, Floor;
    var a := AddLiquidity(p, quote, maxBase, minLiquidity);
    AddDone(p, quote, maxBase, minLiquidity);
    RemoveDone(a.pool, a.share, 0, 0);
    if p.quote == 0 {
      ShareOfReserve(a.base, a.share, a.pool.supply);
      ShareOfReserve(quote, a.share, a.pool.supply);
    } else {
      QuoteBound(p.quote, quote, p.supply, a.share);
      NotMoreThanPaid(p.quote, quote, p.supply, a.share);
      BaseBound(p.base, p.quote, quote, p.supply, a.share, a.base);
      NotMoreThanPaid(p.base, a.base, p.supply, a.share);
    }
  }

  lemma QuoteBound(Q: nat, q: nat, s: nat, l: nat)
    requires Q > 0 && s > 0 && l == Floor(q, s, Q)
    ensures Q * l < (q + 1) * s + l
  {
    FloorIsExact(q, s, Q);
    hide Floor;
    DivBounds(q * s, Q);
    assert Q * l == l * Q && (q + 1) * s == q * s + s;
  }

  lemma BaseBound(B: nat, Q: nat, q: nat, s: nat, l: nat, b: nat)
    requires Q > 0 && s > 0 && l == Floor(q, s, Q) && b >= Floor(q, B, Q)
    ensures B * l < (b + 1) * s
  {
    FloorIsExact(q, s, Q);
    FloorIsExact(q, B, Q);
    BaseBoundExact(B, Q, q, s, l, b);
  }

  lemma BaseBoundExact(B: nat, Q: nat, q: nat, s: nat, l: nat, b: nat)
    requires Q > 0 && s > 0 && l == q * s / Q && b >= q * B / Q
    ensures B * l < (b + 1) * s
  {
    DivBounds(q * s, Q);
    BelowNext(q * B, Q, b);
    ChainBound(B, Q, q, s, l, b + 1);
  }

  lemma BelowNext(x: nat, d: nat, b: nat)
    requires d > 0 && b >= x / d
    ensures x < (b + 1) * d
  {
    DivBounds(x, d);
    BelowMultiple(x, d, x / d, b);
  }

  lemma BelowMultiple(x: nat, d: nat, k: nat, b: nat)
    requires x < k * d + d && k <= b
    ensures x < (b + 1) * d
  {
    Distribute(k, 1, d);
    MulLe(k + 1, b + 1, d);
  }

  lemma ChainBound(B: nat, Q: nat, q: nat, s: nat, l: nat, c: nat)
    requires s > 0 && l * Q <= q * s && q * B < c * Q
    ensures B * l < c * s
  {
    var x := (l * B) * Q;
    var y := (q * B) * s;
    var z := (c * s) * Q;
    assert x <= y by {
      MulLe(l * Q, q * s, B);
      Swap(l, Q, B);
      Swap(q, s, B);
    }
    assert y < z by {
      MulLt(q * B, c * Q, s);
      Swap(c, Q, s);
    }
    MulLtCancel(l * B, c * s, Q);
    Commute(l, B);
  }

  lemma MulLt(a: nat, b: nat, d: nat)
    requires a < b && d > 0
    ensures a * d < b * d
  {
  }

  lemma Commute(a: nat, b: nat)
    ensures a * b == b * a
  {
  }

  lemma Swap(a: nat, b: nat, c: nat)
    ensures (a * b) * c == (a * c) * b
  {
  }

  // ---------- when a message succeeds ----------

  /** 10^18, and five times 63 bits. */
  lemma Constants()
    ensures P == 1_000_000 * 1_000_000 * 1_000_000
    ensures var w := 0x8000_0000_0000_0000; LIMIT == w * w * w * w * w
  {
  }

  /** a * b / c can be worked out: no decimal on the way has more than 315 bits. */
  predicate Fits(a: nat, b: nat, c: nat)
    requires c > 0
  {
    a * P < LIMIT && a * b < LIMIT && a * b * P / c < LIMIT
  }

  lemma OverflowsUnlessFits(a: nat, b: nat, c: nat)
    requires c > 0
    ensures Overflows(a, b, c) <==> !Fits(a, b, c)
  {
    TimesIsProduct(a, P);
    TimesIsProduct(a, b);
    hide Floor, Times;
    FloorIsExact(a * b, P, c);
  }

  /** The base to pay in: all that is offered for the first deposit, then as much per quote as the pool holds, at least one unit. */
  function BaseDue(p: Pool, quote: nat, maxBase: nat): nat
  {
    if p.quote == 0 then maxBase else if quote * p.base < p.quote then 1 else quote * p.base / p.quote
  }

  /** The pool tokens minted: one whole token for the first deposit, then the sender's part of the supply. */
  function SharesDue(p: Pool, quote: nat): nat { if p.quote == 0 then P else quote * p.supply / p.quote }

  predicate AddSucceeds(p: Pool, quote: nat, maxBase: nat, minLiquidity: nat)
  {
    && ((p.base == 0 && p.quote == 0) ||
        (p.base > 0 && p.quote > 0 && p.supply > 0 && Fits(quote, p.base, p.quote) && Fits(quote, p.supply, p.quote)))
    && 0 < SharesDue(p, quote)
    && minLiquidity <= SharesDue(p, quote)
    && BaseDue(p, quote, maxBase) <= maxBase
    && p.base + BaseDue(p, quote, maxBase) < LIMIT
    && p.quote + quote < LIMIT
  }

  lemma DueIsFloor(p: Pool, quote: nat, maxBase: nat)
    requires p.quote > 0
    ensures BaseDue(p, quote, maxBase) == if Floor(quote, p.base, p.quote) == 0 then 1 else Floor(quote, p.base, p.quote)
    ensures SharesDue(p, quote) == Floor(quote, p.supply, p.quote)
  {
    FloorIsExact(quote, p.base, p.quote);
    FloorIsExact(quote, p.supply, p.quote);
    hide Floor;
    if quote * p.base < p.quote { DivIs(quote * p.base, p.quote, 0); } else { AtLeastOnce(quote * p.base, p.quote); }
  }

  /** When liquidity is added, and that then not more base is paid in than offered and not less is minted than asked for. */
  lemma AddSucceedsIff(p: Pool, quote: nat, maxBase: nat, minLiquidity: nat)
    ensures var o := AddLiquidity(p, quote, maxBase, minLiquidity);
            && (o.Done? <==> AddSucceeds(p, quote, maxBase, minLiquidity))
            && (o.Done? ==> o.base == BaseDue(p, quote, maxBase) && o.share == SharesDue(p, quote) && o.quote == quote &&
                            o.base <= maxBase && o.share >= minLiquidity && o.pool == Pool(p.base + o.base, p.quote + quote, p.supply + o.share))
  {
    hide MulAndQuo, Floor, Overflows, Fits;
    if p.quote > 0 {
      DueIsFloor(p, quote, maxBase);
      hide BaseDue, SharesDue;
      MulAndQuoIsFloor(quote, p.base, p.quote);
      MulAndQuoIsFloor(quote, p.supply, p.quote);
      OverflowsUnlessFits(quote, p.base, p.quote);
      OverflowsUnlessFits(quote, p.supply, p.quote);
    }
  }

  predicate RemoveSucceeds(p: Pool, liquidity: nat, minBase: nat, minQuote: nat)
  {
    && 0 < p.supply && liquidity <= p.supply
    && Fits(p.base, liquidity, p.supply) && Fits(p.quote, liquidity, p.supply)
    && minBase <= p.base * liquidity / p.supply && minQuote <= p.quote * liquidity / p.supply
  }

  /** When liquidity is removed, and that then not less of either coin is paid out than asked for. */
  lemma RemoveSucceedsIff(p: Pool, liquidity: nat, minBase: nat, minQuote: nat)
    ensures var o := RemoveLiquidity(p, liquidity, minBase, minQuote);
            && (o.Done? <==> RemoveSucceeds(p, liquidity, minBase, minQuote))
            && (o.Done? ==> o.base == p.base * liquidity / p.supply && o.quote == p.quote * liquidity / p.supply && o.share == liquidity &&
                            o.base >= minBase && o.quote >= minQuote && o.base <= p.base && o.quote <= p.quote &&
                            o.pool == Pool(p.base - o.base, p.quote - o.quote, p.supply - liquidity))
  {
    hide MulAndQuo, Floor, Overflows, Fits;
    if p.supply > 0 && liquidity <= p.supply {
      MulAndQuoIsFloor(p.base, liquidity, p.supply);
      MulAndQuoIsFloor(p.quote, liquidity, p.supply);
      OverflowsUnlessFits(p.base, liquidity, p.supply);
      OverflowsUnlessFits(p.quote, liquidity, p.supply);
      FloorIsExact(p.base, liquidity, p.supply);
      FloorIsExact(p.quote, liquidity, p.supply);
      RemoveNeverOverdraws(p, liquidity);
    } else if liquidity <= p.supply {
      MulAndQuoIsFloor(p.base, liquidity, p.supply);
    }
  }

  // ---------- in place ----------

  /** The sender's coins and pool tokens. */
  class Purse {
    var base: nat
    var quote: nat
    var share: nat
  }

  /** The stored pair and the supply of its pool token. A message that fails is rolled back as a whole. */
  class SwapTokenPair {
    var base: nat
    var quote: nat
    var supply: nat

    function Now(): Pool
      reads this
    {
      Pool(base, quote, supply)
    }

    /** What the sender pays the pool receives, and what is minted the sender receives. */
    method HandleAddLiquidity(from: Purse, quoteAmount: nat, maxBase: nat, minLiquidity: nat) returns (ok: bool)
      modifies this, from
      ensures var o := AddLiquidity(old(Now()), quoteAmount, maxBase, minLiquidity);
              (ok <==> o.Done? && o.base <= old(from.base) && o.quote <= old(from.quote)) && (ok ==> Now() == o.pool)
      ensures ok <==> AddSucceeds(old(Now()), quoteAmount, maxBase, minLiquidity) &&
                      BaseDue(old(Now()), quoteAmount, maxBase) <= old(from.base) && quoteAmount <= old(from.quote)
      ensures ok ==> old(from.base) - from.base == BaseDue(old(Now()), quoteAmount, maxBase) <= maxBase
      ensures ok ==> from.share - old(from.share) == SharesDue(old(Now()), quoteAmount) >= minLiquidity
      ensures ok ==> old(from.quote) - from.quote == quoteAmount
      ensures base + from.base == old(base + from.base) && quote + from.quote == old(quote + from.quote)
      ensures supply + old(from.share) == old(supply) + from.share
      ensures !ok ==> Now() == old(Now()) && from.share == old(from.share)
    {
      hide MulAndQuo, AddSucceeds, BaseDue, SharesDue;
      AddSucceedsIff(Now(), quoteAmount, maxBase, minLiquidity);
      var baseTokens, liquidity := 0, 0;
      if quote == 0 && base == 0 {
        baseTokens, liquidity := maxBase, P;
      } else if base > 0 && quote > 0 {
        var b := MulAndQuo(quoteAmount, base, quote);
        if b.None? { return false; }
        baseTokens := b.value;
        if baseTokens == 0 { baseTokens := 1; }
        if supply == 0 { return false; }
        var l := MulAndQuo(quoteAmount, supply, quote);
        if l.None? || l.value == 0 { return false; }
        liquidity := l.value;
      } else {
        return false;
      }
      if baseTokens > maxBase || liquidity < minLiquidity { return false; }
      if baseTokens > from.base || quoteAmount > from.quote { return false; }
      if quote + quoteAmount >= LIMIT || base + baseTokens >= LIMIT { return false; }
      from.base, from.quote := from.base - baseTokens, from.quote - quoteAmount;
      base, quote := base + baseTokens, quote + quoteAmount;
      supply, from.share := supply + liquidity, from.share + liquidity;
      return true;
    }

    method HandleRemoveLiquidity(to: Purse, liquidity: nat, minBase: nat, minQuote: nat) returns (ok: bool)
      modifies this, to
      ensures var o := RemoveLiquidity(old(Now()), liquidity, minBase, minQuote);
              (ok <==> o.Done? && liquidity <= old(to.share)) && (ok ==> Now() == o.pool)
      ensures ok <==> RemoveSucceeds(old(Now()), liquidity, minBase, minQuote) && liquidity <= old(to.share)
      ensures ok ==> to.base - old(to.base) == old(base) * liquidity / old(supply) >= minBase
      ensures ok ==> to.quote - old(to.quote) == old(quote) * liquidity / old(supply) >= minQuote
      ensures ok ==> old(to.share) - to.share == liquidity
      ensures base + to.base == old(base + to.base) && quote + to.quote == old(quote + to.quote)
      ensures supply + old(to.share) == old(supply) + to.share
      ensures !ok ==> Now() == old(Now()) && to.share == old(to.share)
    {
      hide MulAndQuo, RemoveSucceeds;
      RemoveSucceedsIff(Now(), liquidity, minBase, minQuote);
      if supply < liquidity { return false; }
      var b, q := MulAndQuo(base, liquidity, supply), MulAndQuo(quote, liquidity, supply);
      if b.None? || q.None? { return false; }
      if b.value < minBase || q.value < minQuote { return false; }
      if b.value > base || q.value > quote || liquidity > to.share { return false; }
      to.base, to.quote := to.base + b.value, to.quote + q.value;
      base, quote := base - b.value, quote - q.value;
      supply, to.share := supply - liquidity, to.share - liquidity;
      return true;
    }
  }
}
