// Lookahead cache partitioning: buckets go, in chunks, to the partition that saves the most misses
// per bucket. Marginal utilities are exact rationals here where the source divides doubles.

module MissCurves {
  import opened Arith

  // curve[b] is the number of misses of a partition with b buckets, a 32-bit count.
  type Curve = seq<nat>

  // The source subtracts 32-bit counts: a curve that rises wraps around.
  function ExtraHits(c: Curve, alloc: nat, i: nat): nat
    requires alloc + i < |c|
  {
    (c[alloc] - c[alloc + i]) % TWO32
  }

  function Mu(c: Curve, alloc: nat, i: nat): real
    requires i > 0 && alloc + i < |c|
  {
    ExtraHits(c, alloc, i) as real / i as real
  }

  // So a partition that would miss more with one bucket more looks better than any that would miss
  // less.
  lemma RisingLooksBest(c: Curve, a: nat, d: Curve, b: nat, i: nat)
    requires a + 1 < |c| && c[a] < c[a + 1] < TWO32 / 2
    requires i > 0 && b + i < |d| && d[b + i] <= d[b] < TWO32 / 2
    ensures Mu(d, b, i) < Mu(c, a, 1)
  {
    var more: int := c[a];
    more := more - c[a + 1];
    ModUnique(more, -1, TWO32 + more, TWO32);
    SmallRem(d[b] - d[b + i], TWO32);
    AtLeastOnce(ExtraHits(d, b, i) as real, i as real);
    DivLe(ExtraHits(d, b, i) as real, ExtraHits(d, b, i) as real, i as real);
  }

  lemma AtLeastOnce(x: real, i: real)
    requires x >= 0.0 && i >= 1.0
    ensures x <= i * x
  {
    assert (i - 1.0) * x >= 0.0;
  }

  // Non-increasing and convex from lo to hi: each bucket saves no more than the one before.
  ghost predicate Convex(c: Curve, lo: nat, hi: nat) {
    && hi < |c| && (forall b | 0 <= b < |c| :: c[b] < TWO32)
    && (forall b | lo <= b < hi :: c[b + 1] <= c[b])
    && forall b | lo < b < hi :: Gain(c, b) <= Gain(c, b - 1)
  }

  // What one more bucket saves.
  function Gain(c: Curve, b: nat): int
    requires b + 1 < |c|
  {
    var before: int := c[b];
    before - c[b + 1]
  }

  lemma {:induction false} GainsFall(c: Curve, lo: nat, hi: nat, a: nat, b: nat)
    requires Convex(c, lo, hi) && lo <= a <= b < hi
    ensures Gain(c, b) <= Gain(c, a)
  {
    if a < b { GainsFall(c, lo, hi, a, b - 1); }
  }

  // i buckets together save at most i times what the first one does.
  lemma {:induction false} FirstBucketBest(c: Curve, lo: nat, hi: nat, a: nat, i: nat)
    requires Convex(c, lo, hi) && lo <= a && 0 < i && a + i <= hi
    ensures 0 <= c[a] - c[a + i] <= i * Gain(c, a)
  {
    if i > 1 {
      FirstBucketBest(c, lo, hi, a, i - 1);
      GainsFall(c, lo, hi, a, a + i - 1);
      assert i * Gain(c, a) == (i - 1) * Gain(c, a) + Gain(c, a);
    }
  }

  // On a convex curve no chunk beats a single bucket.
  lemma OneAtATime(c: Curve, lo: nat, hi: nat, a: nat, i: nat)
    requires Convex(c, lo, hi) && lo <= a && 0 < i && a + i <= hi
    ensures Mu(c, a, 1) == Gain(c, a) as real && Mu(c, a, i) <= Mu(c, a, 1)
  {
    FirstBucketBest(c, lo, hi, a, i);
    var x, y := c[a] - c[a + i], Gain(c, a);
    assert ExtraHits(c, a, i) == x && ExtraHits(c, a, 1) == y;
    assert x as real <= (i * y) as real == i as real * y as real;
    DivLe(x as real, y as real, i as real);
  }

  lemma DivLe(x: real, y: real, i: real)
    requires i > 0.0 && x <= i * y
    ensures x / i <= y
  {
  }

  function Sum(s: seq<nat>): nat {
    if s == [] then 0 else Sum(s[..|s| - 1]) + s[|s| - 1]
  }

  lemma {:induction false} SumUpdate(s: seq<nat>, p: nat, v: nat)
    requires p < |s|
    ensures Sum(s[p := v]) == Sum(s) - s[p] + v
  {
    var n := |s| - 1;
    if p == n {
      assert s[p := v][..n] == s[..n];
    } else {
      assert s[p := v][..n] == s[..n][p := v];
      SumUpdate(s[..n], p, v);
    }
  }

  lemma {:induction false} SumConst(s: seq<nat>, v: nat)
    requires forall p | 0 <= p < |s| :: s[p] == v
    ensures Sum(s) == |s| * v
  {
    if s != [] {
      SumConst(s[..|s| - 1], v);
      assert |s| * v == (|s| - 1) * v + v;
    }
  }

  // A forbidden partition stays at the minimum.
  ghost predicate Distribution(d: seq<nat>, minAlloc: nat, extra: nat, forbidden: seq<bool>) {
    && |d| == |forbidden|
    && (forall p | 0 <= p < |d| :: minAlloc <= d[p] <= minAlloc + extra && (forbidden[p] ==> d[p] == minAlloc))
    && Sum(d) == |d| * minAlloc + extra
  }

  function Misses(curves: seq<Curve>, d: seq<nat>): nat
    requires |d| == |curves| && forall p | 0 <= p < |d| :: d[p] < |curves[p]|
  {
    if d == [] then 0
    else
      var n := |d| - 1;
      Misses(curves[..n], d[..n]) + curves[n][d[n]]
  }

  // price is a level that every bucket given out is worth and no further one is.
  ghost predicate Priced(c: Curve, a: nat, lo: nat, hi: nat, price: int) {
    && lo <= a <= hi < |c|
    && (a > lo ==> Gain(c, a - 1) >= price)
    && (a < hi ==> Gain(c, a) <= price)
  }

  // At a price, no other number of buckets is better after paying for them.
  lemma {:induction false} PricedIsBest(c: Curve, a: nat, d: nat, lo: nat, hi: nat, price: int)
    requires Convex(c, lo, hi) && Priced(c, a, lo, hi, price) && lo <= d <= hi
    ensures c[a] - c[d] <= price * (d - a)
    decreases if d < a then a - d else d - a
  {
    if d < a {
      PricedIsBest(c, a, d + 1, lo, hi, price);
      GainsFall(c, lo, hi, d, a - 1);
      assert price * (d + 1 - a) == price * (d - a) + price;
    } else if d > a {
      PricedIsBest(c, a, d - 1, lo, hi, price);
      GainsFall(c, lo, hi, a, d - 1);
      assert price * (d - 1 - a) == price * (d - a) - price;
    }
  }

  ghost predicate OnePriced(c: Curve, a: nat, d: nat, lo: nat, hi: nat, price: int) {
    Convex(c, lo, hi) && lo <= a <= hi && lo <= d <= hi && (a == d || Priced(c, a, lo, hi, price))
  }

  ghost predicate AllPriced(curves: seq<Curve>, a: seq<nat>, d: seq<nat>, lo: nat, hi: nat, price: int) {
    |a| == |d| == |curves| && forall p | 0 <= p < |a| :: OnePriced(curves[p], a[p], d[p], lo, hi, price)
  }

  // What going from a to d costs at the price.
  function Cost(a: seq<nat>, d: seq<nat>, price: int): int
    requires |a| == |d|
  {
    if a == [] then 0
    else
      var n := |a| - 1;
      Cost(a[..n], d[..n], price) + price * (d[n] as int - a[n] as int)
  }

  lemma {:induction false} CostIs(a: seq<nat>, d: seq<nat>, price: int)
    requires |a| == |d|
    ensures Cost(a, d, price) == price * (Sum(d) as int - Sum(a) as int)
  {
    if a != [] {
      var n := |a| - 1;
      CostIs(a[..n], d[..n], price);
      MulDistributes(Sum(d[..n]) as int - Sum(a[..n]) as int, d[n] as int - a[n] as int, price);
    }
  }

  lemma EqualSumsCostNothing(a: seq<nat>, d: seq<nat>, price: int)
    requires |a| == |d| && Sum(a) == Sum(d)
    ensures Cost(a, d, price) == 0
  {
    CostIs(a, d, price);
  }

  lemma {:induction false} PricedTotals(curves: seq<Curve>, a: seq<nat>, d: seq<nat>, lo: nat, hi: nat, price: int)
    requires AllPriced(curves, a, d, lo, hi, price)
    ensures Misses(curves, a) - Misses(curves, d) <= Cost(a, d, price)
  {
    if a != [] {
      var n := |a| - 1;
      AllPricedPrefix(curves, a, d, lo, hi, price);
      PricedTotals(curves[..n], a[..n], d[..n], lo, hi, price);
      assert OnePriced(curves[n], a[n], d[n], lo, hi, price);
      OnePricedCost(curves[n], a[n], d[n], lo, hi, price);
    }
  }

  lemma OnePricedCost(c: Curve, a: nat, d: nat, lo: nat, hi: nat, price: int)
    requires OnePriced(c, a, d, lo, hi, price)
    ensures c[a] - c[d] <= price * (d - a)
  {
    if a != d { PricedIsBest(c, a, d, lo, hi, price); }
  }

  lemma AllPricedPrefix(curves: seq<Curve>, a: seq<nat>, d: seq<nat>, lo: nat, hi: nat, price: int)
    requires AllPriced(curves, a, d, lo, hi, price) && a != []
    ensures AllPriced(curves[..|a| - 1], a[..|a| - 1], d[..|a| - 1], lo, hi, price)
  {
  }
}

module Lookahead {
  import opened Arith
  import opened MissCurves

  method GetMaxMarginalUtility(c: Curve, partAlloc: nat, balance: nat) returns (maxMu: real, maxMuAlloc: nat)
    requires partAlloc + balance < |c|
    ensures balance == 0 ==> maxMu == -1.0 && maxMuAlloc == 0
    ensures balance > 0 ==> 0 < maxMuAlloc <= balance && maxMu == Mu(c, partAlloc, maxMuAlloc) >= 0.0
    ensures forall i | 0 < i <= balance :: Mu(c, partAlloc, i) <= maxMu
    ensures forall i | 0 < i < maxMuAlloc :: Mu(c, partAlloc, i) < maxMu
  {
    maxMu := -1.0;
    maxMuAlloc := 0;
    for i := 1 to balance + 1
      invariant maxMuAlloc < i
      invariant i == 1 ==> maxMu == -1.0
      invariant i > 1 ==> 0 < maxMuAlloc && maxMu == Mu(c, partAlloc, maxMuAlloc) >= 0.0
      invariant forall j | 0 < j < i :: Mu(c, partAlloc, j) <= maxMu
      invariant forall j | 0 < j < maxMuAlloc :: Mu(c, partAlloc, j) < maxMu
    {
      var mu := Mu(c, partAlloc, i);
      MuNonNegative(c, partAlloc, i);
      if mu > maxMu {
        maxMu := mu;
        maxMuAlloc := i;
      }
    }
  }

  lemma MuNonNegative(c: Curve, alloc: nat, i: nat)
    requires i > 0 && alloc + i < |c|
    ensures Mu(c, alloc, i) >= 0.0
  {
  }

  // Where the allocation stands: what has been handed out, and nothing to a forbidden partition.
  ghost predicate HandedOut(a: seq<nat>, minAlloc: nat, extra: nat, balance: nat, forbidden: seq<bool>) {
    balance <= extra && Distribution(a, minAlloc, extra - balance, forbidden)
  }

  ghost predicate AllConvex(curves: seq<Curve>, lo: nat, hi: nat) {
    forall p | 0 <= p < |curves| :: Convex(curves[p], lo, hi)
  }

  ghost predicate PricedOpen(curves: seq<Curve>, a: seq<nat>, lo: nat, hi: nat, forbidden: seq<bool>, price: int) {
    && |a| == |curves| == |forbidden|
    && forall p | 0 <= p < |a| && !forbidden[p] :: Priced(curves[p], a[p], lo, hi, price)
  }

  ghost predicate NoBetter(curves: seq<Curve>, a: seq<nat>, d: seq<nat>) {
    && |a| == |d| == |curves|
    && (forall p | 0 <= p < |curves| :: a[p] < |curves[p]| && d[p] < |curves[p]|)
    && Misses(curves, a) <= Misses(curves, d)
  }

  // No other distribution of the extra buckets has fewer misses.
  ghost predicate Optimal(curves: seq<Curve>, a: seq<nat>, minAlloc: nat, extra: nat, forbidden: seq<bool>) {
    forall d | Distribution(d, minAlloc, extra, forbidden) :: NoBetter(curves, a, d)
  }

  lemma AllPricedFrom(curves: seq<Curve>, a: seq<nat>, d: seq<nat>, minAlloc: nat, extra: nat, forbidden: seq<bool>,
                      price: int)
    requires |curves| == |forbidden|
    requires Distribution(a, minAlloc, extra, forbidden) && Distribution(d, minAlloc, extra, forbidden)
    requires AllConvex(curves, minAlloc, minAlloc + extra)
    requires PricedOpen(curves, a, minAlloc, minAlloc + extra, forbidden, price)
    ensures AllPriced(curves, a, d, minAlloc, minAlloc + extra, price)
  {
    forall p | 0 <= p < |a| ensures OnePriced(curves[p], a[p], d[p], minAlloc, minAlloc + extra, price) {
      assert forbidden[p] ==> a[p] == d[p];
    }
  }

  lemma PricedBeats(curves: seq<Curve>, a: seq<nat>, d: seq<nat>, minAlloc: nat, extra: nat, forbidden: seq<bool>,
                    price: int)
    requires |curves| == |forbidden|
    requires Distribution(a, minAlloc, extra, forbidden) && Distribution(d, minAlloc, extra, forbidden)
    requires AllConvex(curves, minAlloc, minAlloc + extra)
    requires PricedOpen(curves, a, minAlloc, minAlloc + extra, forbidden, price)
    ensures Misses(curves, a) <= Misses(curves, d)
  {
    AllPricedFrom(curves, a, d, minAlloc, extra, forbidden, price);
    PricedTotals(curves, a, d, minAlloc, minAlloc + extra, price);
    EqualSumsCostNothing(a, d, price);
  }

  lemma PricedIsOptimal(curves: seq<Curve>, a: seq<nat>, minAlloc: nat, extra: nat, forbidden: seq<bool>, price: int)
    requires |curves| == |forbidden| && Distribution(a, minAlloc, extra, forbidden)
    requires AllConvex(curves, minAlloc, minAlloc + extra)
    requires PricedOpen(curves, a, minAlloc, minAlloc + extra, forbidden, price)
    ensures Optimal(curves, a, minAlloc, extra, forbidden)
  {
    forall d | Distribution(d, minAlloc, extra, forbidden) ensures NoBetter(curves, a, d) {
      PricedBeats(curves, a, d, minAlloc, extra, forbidden, price);
    }
  }

  // One round: the partition p with the best gain gets one bucket; its gain is the new price.
  lemma RoundKeepsPrice(curves: seq<Curve>, a: seq<nat>, lo: nat, hi: nat, forbidden: seq<bool>, price: int, p: nat)
    requires AllConvex(curves, lo, hi) && PricedOpen(curves, a, lo, hi, forbidden, price)
    requires p < |a| && !forbidden[p] && a[p] < hi
    requires forall q | 0 <= q < |a| && !forbidden[q] && a[q] < hi :: Gain(curves[q], a[q]) <= Gain(curves[p], a[p])
    ensures PricedOpen(curves, a[p := a[p] + 1], lo, hi, forbidden, Gain(curves[p], a[p]))
  {
  }

  // No chunk of partition p has a higher utility than mu.
  ghost predicate AtMost(curves: seq<Curve>, a: seq<nat>, balance: nat, p: nat, mu: real)
    requires p < |curves| == |a| && a[p] + balance < |curves[p]|
  {
    forall i | 0 < i <= balance :: Mu(curves[p], a[p], i) <= mu
  }

  ghost predicate Below(curves: seq<Curve>, a: seq<nat>, balance: nat, p: nat, mu: real)
    requires p < |curves| == |a| && a[p] + balance < |curves[p]|
  {
    forall i | 0 < i <= balance :: Mu(curves[p], a[p], i) < mu
  }

  lemma Lifts(curves: seq<Curve>, a: seq<nat>, balance: nat, p: nat, mu: real, mu': real)
    requires p < |curves| == |a| && a[p] + balance < |curves[p]| && AtMost(curves, a, balance, p, mu) && mu < mu'
    ensures Below(curves, a, balance, p, mu') && AtMost(curves, a, balance, p, mu')
  {
  }

  // A chunk for a partition.
  datatype Round = Round(part: nat, chunk: nat)

  // It has the highest utility of all that any open partition could get; of equals it is the first
  // partition's and its smallest.
  ghost predicate IsBest(curves: seq<Curve>, a: seq<nat>, balance: int, forbidden: seq<bool>, r: Round) {
    && |a| == |curves| == |forbidden| && r.part < |a| && !forbidden[r.part] && 0 < r.chunk <= balance
    && (forall p | 0 <= p < |a| && !forbidden[p] :: a[p] + balance < |curves[p]|)
    && var best := Mu(curves[r.part], a[r.part], r.chunk);
    && (forall p | 0 <= p < |a| && !forbidden[p] :: AtMost(curves, a, balance, p, best))
    && (forall p | 0 <= p < r.part && !forbidden[p] :: Below(curves, a, balance, p, best))
    && Below(curves, a, r.chunk - 1, r.part, best)
  }

  // The partition with the best marginal utility, the first of equals.
  method BestPartition(curves: seq<Curve>, allocs: array<nat>, balance: nat, forbidden: seq<bool>)
    returns (maxMuPart: nat, maxMuAlloc: nat)
    requires |curves| == |forbidden| == allocs.Length && balance > 0
    requires forall p | 0 <= p < |curves| && !forbidden[p] :: allocs[p] + balance < |curves[p]|
    requires exists p :: 0 <= p < |forbidden| && !forbidden[p]
    ensures IsBest(curves, allocs[..], balance, forbidden, Round(maxMuPart, maxMuAlloc))
  {
    ghost var a := allocs[..];
    var maxMu := -1.0;
    maxMuPart, maxMuAlloc := |curves|, 0;
    for p := 0 to |curves|
      invariant maxMuPart == |curves| ==> maxMu == -1.0 && forall q | 0 <= q < p :: forbidden[q]
      invariant maxMuPart < |curves| ==>
                  && !forbidden[maxMuPart] && 0 < maxMuAlloc <= balance
                  && maxMu == Mu(curves[maxMuPart], a[maxMuPart], maxMuAlloc)
                  && Below(curves, a, maxMuAlloc - 1, maxMuPart, maxMu)
      invariant maxMuPart < p || maxMuPart == |curves|
      invariant forall q | 0 <= q < p && !forbidden[q] :: AtMost(curves, a, balance, q, maxMu)
      invariant forall q | 0 <= q < p && q < maxMuPart && !forbidden[q] :: Below(curves, a, balance, q, maxMu)
    {
      if forbidden[p] { continue; }
      var mu, muAlloc := GetMaxMarginalUtility(curves[p], allocs[p], balance);
      assert AtMost(curves, a, balance, p, mu) && Below(curves, a, muAlloc - 1, p, mu);
      if mu > maxMu {
        forall q | 0 <= q < p && !forbidden[q]
          ensures Below(curves, a, balance, q, mu) && AtMost(curves, a, balance, q, mu)
        {
          Lifts(curves, a, balance, q, maxMu, mu);
        }
        maxMu, maxMuPart, maxMuAlloc := mu, p, muAlloc;
      }
    }
  }

  // Chunk for chunk: none that an open partition could get has a higher utility, and any that equals the
  // best is a later partition's or no smaller.
  lemma NoneIsBetter(curves: seq<Curve>, a: seq<nat>, balance: nat, forbidden: seq<bool>, r: Round, p: nat, i: nat)
    requires IsBest(curves, a, balance, forbidden, r)
    requires p < |a| && !forbidden[p] && 0 < i <= balance
    ensures r.part < |a| && !forbidden[r.part] && 0 < r.chunk <= balance
    ensures Mu(curves[p], a[p], i) <= Mu(curves[r.part], a[r.part], r.chunk)
    ensures Mu(curves[p], a[p], i) == Mu(curves[r.part], a[r.part], r.chunk) ==>
              r.part < p || (r.part == p && r.chunk <= i)
  {
    var best := Mu(curves[r.part], a[r.part], r.chunk);
    assert AtMost(curves, a, balance, p, best);
    if p < r.part { assert Below(curves, a, balance, p, best); }
  }

  // The best chunk on convex curves is one bucket, of the partition it helps most.
  lemma BestIsOneBucket(curves: seq<Curve>, a: seq<nat>, lo: nat, hi: nat, balance: nat, forbidden: seq<bool>,
                        p: nat, n: nat)
    requires AllConvex(curves, lo, hi) && |a| == |curves| == |forbidden| && balance > 0
    requires forall q | 0 <= q < |a| && !forbidden[q] :: lo <= a[q] && a[q] + balance <= hi
    requires IsBest(curves, a, balance, forbidden, Round(p, n))
    ensures n == 1
    ensures forall q | 0 <= q < |a| && !forbidden[q] :: Gain(curves[q], a[q]) <= Gain(curves[p], a[p])
  {
    OneAtATime(curves[p], lo, hi, a[p], n);
    forall q | 0 <= q < |a| && !forbidden[q] ensures Gain(curves[q], a[q]) <= Gain(curves[p], a[p]) {
      assert AtMost(curves, a, balance, q, Mu(curves[p], a[p], n));
      OneAtATime(curves[q], lo, hi, a[q], 1);
      OneAtATime(curves[p], lo, hi, a[p], 1);
      assert Mu(curves[q], a[q], 1) <= Mu(curves[p], a[p], 1);
    }
  }

  lemma StartPriced(curves: seq<Curve>, a: seq<nat>, lo: nat, hi: nat, forbidden: seq<bool>)
    requires AllConvex(curves, lo, hi) && |a| == |curves| == |forbidden| && lo <= hi
    requires forall p | 0 <= p < |a| :: a[p] == lo
    ensures PricedOpen(curves, a, lo, hi, forbidden, TWO32)
  {
  }

  lemma GiveOut(a: seq<nat>, minAlloc: nat, extra: nat, balance: nat, forbidden: seq<bool>, p: nat, n: nat)
    requires HandedOut(a, minAlloc, extra, balance, forbidden)
    requires p < |a| && !forbidden[p] && n <= balance
    ensures HandedOut(a[p := a[p] + n], minAlloc, extra, balance - n, forbidden)
  {
    SumUpdate(a, p, a[p] + n);
  }

  // What the main loop keeps; on convex curves there is a price.
  ghost predicate Standing(curves: seq<Curve>, a: seq<nat>, minAlloc: nat, buckets: nat, balance: nat,
                           forbidden: seq<bool>, price: int) {
    && minAlloc <= buckets && HandedOut(a, minAlloc, buckets - minAlloc, balance, forbidden)
    && (AllConvex(curves, minAlloc, buckets) ==> PricedOpen(curves, a, minAlloc, buckets, forbidden, price))
  }

  lemma Starts(curves: seq<Curve>, a: seq<nat>, minAlloc: nat, buckets: nat, forbidden: seq<bool>)
    requires |a| == |curves| == |forbidden| && minAlloc <= buckets
    requires forall p | 0 <= p < |a| :: a[p] == minAlloc
    ensures Standing(curves, a, minAlloc, buckets, buckets - minAlloc, forbidden, TWO32)
  {
    SumConst(a, minAlloc);
    if AllConvex(curves, minAlloc, buckets) { StartPriced(curves, a, minAlloc, buckets, forbidden); }
  }

  lemma Continues(curves: seq<Curve>, a: seq<nat>, minAlloc: nat, buckets: nat, balance: nat, forbidden: seq<bool>,
                  price: int, p: nat, n: nat) returns (price': int)
    requires Standing(curves, a, minAlloc, buckets, balance, forbidden, price) && |a| == |curves|
    requires balance > 0 && IsBest(curves, a, balance, forbidden, Round(p, n))
    ensures Standing(curves, a[p := a[p] + n], minAlloc, buckets, balance - n, forbidden, price')
  {
    GiveOut(a, minAlloc, buckets - minAlloc, balance, forbidden, p, n);
    price' := price;
    if AllConvex(curves, minAlloc, buckets) {
      Room(a, minAlloc, buckets, balance, forbidden);
      price' := NextPrice(curves, a, minAlloc, buckets, balance, forbidden, price, p, n);
    }
  }

  lemma Room(a: seq<nat>, minAlloc: nat, buckets: nat, balance: nat, forbidden: seq<bool>)
    requires minAlloc <= buckets && HandedOut(a, minAlloc, buckets - minAlloc, balance, forbidden)
    ensures forall q | 0 <= q < |a| :: minAlloc <= a[q] && a[q] + balance <= buckets
  {
  }

  lemma NextPrice(curves: seq<Curve>, a: seq<nat>, lo: nat, hi: nat, balance: nat, forbidden: seq<bool>,
                  price: int, p: nat, n: nat) returns (price': int)
    requires AllConvex(curves, lo, hi) && PricedOpen(curves, a, lo, hi, forbidden, price) && balance > 0
    requires forall q | 0 <= q < |a| :: lo <= a[q] && a[q] + balance <= hi
    requires IsBest(curves, a, balance, forbidden, Round(p, n))
    ensures PricedOpen(curves, a[p := a[p] + n], lo, hi, forbidden, price')
  {
    BestIsOneBucket(curves, a, lo, hi, balance, forbidden, p, n);
    RoundKeepsPrice(curves, a, lo, hi, forbidden, price, p);
    price' := Gain(curves[p], a[p]);
  }

  lemma Ends(curves: seq<Curve>, a: seq<nat>, minAlloc: nat, buckets: nat, forbidden: seq<bool>, price: int)
    requires Standing(curves, a, minAlloc, buckets, 0, forbidden, price) && |curves| == |forbidden|
    ensures Distribution(a, minAlloc, buckets - minAlloc, forbidden)
    ensures AllConvex(curves, minAlloc, buckets) ==> Optimal(curves, a, minAlloc, buckets - minAlloc, forbidden)
  {
    if AllConvex(curves, minAlloc, buckets) {
      PricedIsOptimal(curves, a, minAlloc, buckets - minAlloc, forbidden, price);
    }
  }

  // The allocations after the rounds, and what they have handed out.
  function After(start: seq<nat>, rounds: seq<Round>): (a: seq<nat>)
    ensures |a| == |start|
  {
    if rounds == [] then start
    else
      var (a, r) := (After(start, rounds[..|rounds| - 1]), rounds[|rounds| - 1]);
      if r.part < |a| then a[r.part := a[r.part] + r.chunk] else a
  }

  function Given(rounds: seq<Round>): nat {
    if rounds == [] then 0 else Given(rounds[..|rounds| - 1]) + rounds[|rounds| - 1].chunk
  }

  // Every round was the best there was when it came.
  ghost predicate AllBest(curves: seq<Curve>, start: seq<nat>, extra: nat, forbidden: seq<bool>, rounds: seq<Round>) {
    forall k | 0 <= k < |rounds| :: WasBest(curves, start, extra, forbidden, rounds, k)
  }

  ghost predicate WasBest(curves: seq<Curve>, start: seq<nat>, extra: nat, forbidden: seq<bool>, rounds: seq<Round>,
                          k: nat)
    requires k < |rounds|
  {
    IsBest(curves, After(start, rounds[..k]), extra - Given(rounds[..k]), forbidden, rounds[k])
  }

  // What the rounds have come to.
  ghost predicate Handed(curves: seq<Curve>, start: seq<nat>, extra: nat, forbidden: seq<bool>, rounds: seq<Round>,
                         a: seq<nat>, balance: int) {
    AllBest(curves, start, extra, forbidden, rounds) && a == After(start, rounds) && balance == extra - Given(rounds)
  }

  lemma OneMoreRound(curves: seq<Curve>, start: seq<nat>, extra: nat, forbidden: seq<bool>, rounds: seq<Round>,
                     a: seq<nat>, balance: int, r: Round)
    requires Handed(curves, start, extra, forbidden, rounds, a, balance)
    requires r.part < |a| && IsBest(curves, a, balance, forbidden, r)
    ensures Handed(curves, start, extra, forbidden, rounds + [r], a[r.part := a[r.part] + r.chunk], balance - r.chunk)
  {
    StillBest(curves, start, extra, forbidden, rounds, r);
    assert (rounds + [r])[..|rounds|] == rounds;
  }

  lemma StillBest(curves: seq<Curve>, start: seq<nat>, extra: nat, forbidden: seq<bool>, rounds: seq<Round>, r: Round)
    requires AllBest(curves, start, extra, forbidden, rounds)
    requires IsBest(curves, After(start, rounds), extra - Given(rounds), forbidden, r)
    ensures AllBest(curves, start, extra, forbidden, rounds + [r])
  {
    forall k | 0 <= k < |rounds + [r]| ensures WasBest(curves, start, extra, forbidden, rounds + [r], k) {
      if k < |rounds| {
        SameRound(curves, start, extra, forbidden, rounds, r, k);
      } else {
        NewRound(curves, start, extra, forbidden, rounds, r);
      }
    }
  }

  lemma NewRound(curves: seq<Curve>, start: seq<nat>, extra: nat, forbidden: seq<bool>, rounds: seq<Round>, r: Round)
    requires IsBest(curves, After(start, rounds), extra - Given(rounds), forbidden, r)
    ensures WasBest(curves, start, extra, forbidden, rounds + [r], |rounds|)
  {
    assert (rounds + [r])[..|rounds|] == rounds;
  }

  lemma SameRound(curves: seq<Curve>, start: seq<nat>, extra: nat, forbidden: seq<bool>, rounds: seq<Round>, r: Round,
                  k: nat)
    requires k < |rounds| && WasBest(curves, start, extra, forbidden, rounds, k)
    ensures WasBest(curves, start, extra, forbidden, rounds + [r], k)
  {
    assert (rounds + [r])[..k] == rounds[..k];
  }

  lemma GoesOn(curves: seq<Curve>, start: seq<nat>, a: seq<nat>, minAlloc: nat, buckets: nat, balance: nat,
               forbidden: seq<bool>, price: int, rounds: seq<Round>, r: Round) returns (price': int)
    requires Standing(curves, a, minAlloc, buckets, balance, forbidden, price) && |a| == |curves| && balance > 0
    requires Handed(curves, start, buckets - minAlloc, forbidden, rounds, a, balance)
    requires IsBest(curves, a, balance, forbidden, r)
    ensures r.part < |a| && 0 < r.chunk <= balance
    ensures var a' := a[r.part := a[r.part] + r.chunk];
            && Standing(curves, a', minAlloc, buckets, balance - r.chunk, forbidden, price')
            && Handed(curves, start, buckets - minAlloc, forbidden, rounds + [r], a', balance - r.chunk)
  {
    price' := Continues(curves, a, minAlloc, buckets, balance, forbidden, price, r.part, r.chunk);
    OneMoreRound(curves, start, buckets - minAlloc, forbidden, rounds, a, balance, r);
  }

  // The loop ends with all buckets past the minimum handed out, in rounds that each were the best there
  // was, whatever the curves; on convex ones no other distribution misses less.
  method ComputeBestPartitioning(buckets: nat, minAlloc: nat, forbidden: seq<bool>, allocs: array<nat>,
                                 curves: seq<Curve>)
    returns (ghost rounds: seq<Round>)
    requires |curves| == |forbidden| == allocs.Length && minAlloc <= buckets
    requires exists p :: 0 <= p < |forbidden| && !forbidden[p]
    requires forall p | 0 <= p < |curves| && !forbidden[p] :: |curves[p]| > buckets
    modifies allocs
    ensures Distribution(allocs[..], minAlloc, buckets - minAlloc, forbidden)
    ensures var start := seq(allocs.Length, p => minAlloc);
            Handed(curves, start, buckets - minAlloc, forbidden, rounds, allocs[..], 0)
    ensures AllConvex(curves, minAlloc, buckets) ==>
              Optimal(curves, allocs[..], minAlloc, buckets - minAlloc, forbidden)
  {
    var balance: nat := buckets;
    for i := 0 to allocs.Length
      invariant forall p | 0 <= p < i :: allocs[p] == minAlloc
    {
      allocs[i] := minAlloc;
    }
    balance := balance - minAlloc;
    ghost var price := TWO32;
    ghost var start := allocs[..];
    rounds := [];
    assert start == seq(allocs.Length, p => minAlloc);
    Starts(curves, allocs[..], minAlloc, buckets, forbidden);
    while balance > 0
      invariant Standing(curves, allocs[..], minAlloc, buckets, balance, forbidden, price)
      invariant Handed(curves, start, buckets - minAlloc, forbidden, rounds, allocs[..], balance)
    {
      ghost var a := allocs[..];
      var maxMuPart, maxMuAlloc := BestPartition(curves, allocs, balance, forbidden);
      ghost var r := Round(maxMuPart, maxMuAlloc);
      price := GoesOn(curves, start, a, minAlloc, buckets, balance, forbidden, price, rounds, r);
      rounds := rounds + [r];
      allocs[maxMuPart] := allocs[maxMuPart] + maxMuAlloc;
      assert allocs[..] == a[maxMuPart := a[maxMuPart] + maxMuAlloc];
      balance := balance - maxMuAlloc;
    }
    Ends(curves, allocs[..], minAlloc, buckets, forbidden, price);
  }

  // The minimum is set aside once but given to every partition: what is handed out is the buckets
  // there are only if the minimum is zero or there is one partition.
  lemma HandsOutBuckets(a: seq<nat>, minAlloc: nat, buckets: nat, forbidden: seq<bool>)
    requires a != [] && minAlloc <= buckets && Distribution(a, minAlloc, buckets - minAlloc, forbidden)
    ensures Sum(a) == buckets <==> minAlloc == 0 || |a| == 1
  {
    assert |a| * minAlloc == (|a| - 1) * minAlloc + minAlloc;
    if minAlloc > 0 && |a| > 1 { MulMonotone(1, |a| - 1, minAlloc); }
  }

  // Two partitions that get one bucket each at least are handed three of two buckets.
  lemma HandsOutTooMany()
    ensures Distribution([2, 1], 1, 2 - 1, [false, false]) && Sum([2, 1]) == 3
  {
    assert Sum([2, 1][..1]) == 2;
  }
}
