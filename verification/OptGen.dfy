// OPTgen for one cache set: the online decision whether Belady's policy would hit.
//
// Times count accesses from 0. The ring is born full of zeros, which reads as if line 0
// had been accessed at every negative time; the specification says just that, so it needs
// no assumption on the addresses.

module AccessStream {
  import opened Packing

  ghost function At(xs: seq<nat>, t: int): nat
    requires t < |xs|
  {
    if t < 0 then 0 else xs[t]
  }

  // The latest time before t, at least lo, with the given address; `none` if there is none.
  ghost function LastSeen(xs: seq<nat>, a: nat, lo: int, t: int, none: int): (r: int)
    requires t <= |xs|
    ensures r == none || lo <= r < t
    ensures r != none ==> At(xs, r) == a && forall k | r < k < t :: At(xs, k) != a
    ensures r == none && !(lo <= none < t) ==> forall k | lo <= k < t :: At(xs, k) != a
    decreases t - lo
  {
    if t <= lo then none
    else if At(xs, t - 1) == a then t - 1
    else LastSeen(xs, a, lo, t - 1, none)
  }

  // Where the reuse interval that access e closes begins; e itself if the previous access
  // to the same line is not among the last `window`-1 ones.
  ghost function Start(xs: seq<nat>, window: nat, e: nat): int
    requires e < |xs|
  {
    LastSeen(xs, xs[e], e - window + 1, e, e)
  }

  ghost function Starts(xs: seq<nat>, window: nat): (s: seq<int>)
    ensures |s| == |xs| && forall e | 0 <= e < |s| :: s[e] == Start(xs, window, e)
  {
    seq(|xs|, e requires 0 <= e < |xs| => Start(xs, window, e))
  }

  // The accesses that OPTgen answers with true.
  ghost function Answers(xs: seq<nat>, ways: nat, window: nat): set<int> {
    Greedy(Starts(xs, window), ways)
  }

  ghost function Occupancy(xs: seq<nat>, ways: nat, window: nat, slot: int): nat {
    |Cover(Answers(xs, ways, window), Starts(xs, window), slot)|
  }

  // Where an access to `a` right after xs finds its line.
  ghost function Found(xs: seq<nat>, a: nat, window: nat): int {
    LastSeen(xs, a, |xs| - window + 1, |xs|, |xs|)
  }

  // Time j is an access to the line of access e, fewer than `window` accesses before it. The zeros
  // of the ring are accesses to line 0 at every negative time.
  ghost predicate Reuses(xs: seq<nat>, window: nat, e: nat, j: int)
    requires e < |xs|
  {
    j < e && e - j < window && if j >= 0 then xs[j] == xs[e] else xs[e] == 0
  }

  // The interval begins at the latest of them.
  lemma StartExact(xs: seq<nat>, window: nat, e: nat, j: int)
    requires e < |xs|
    ensures Starts(xs, window)[e] <= e
    ensures Starts(xs, window)[e] == e <==> forall k | k < e :: !Reuses(xs, window, e, k)
    ensures Starts(xs, window)[e] == j < e <==>
              Reuses(xs, window, e, j) && forall k | j < k < e :: !Reuses(xs, window, e, k)
  {
    var s := Start(xs, window, e);
    assert forall k | k < e :: Reuses(xs, window, e, k) <==> e - window < k && At(xs, k) == xs[e];
    assert s < e ==> Reuses(xs, window, e, s);
  }

  // And so does the scan for an access that is to come.
  lemma FoundExact(xs: seq<nat>, a: nat, window: nat, j: int)
    ensures Found(xs, a, window) == |xs| <==> forall k | k < |xs| :: !Reuses(xs + [a], window, |xs|, k)
    ensures Found(xs, a, window) == j < |xs| <==>
              Reuses(xs + [a], window, |xs|, j) && forall k | j < k < |xs| :: !Reuses(xs + [a], window, |xs|, k)
  {
    StartsExtend(xs, a, window);
    StartExact(xs + [a], window, |xs|, j);
  }

  lemma LastSeenPrefix(xs: seq<nat>, ys: seq<nat>, a: nat, lo: int, t: int, none: int)
    requires t <= |xs| <= |ys| && ys[..|xs|] == xs
    ensures LastSeen(ys, a, lo, t, none) == LastSeen(xs, a, lo, t, none)
    decreases t - lo
  {
    if t > lo {
      assert t > 0 ==> ys[t - 1] == ys[..|xs|][t - 1];
      if At(xs, t - 1) != a { LastSeenPrefix(xs, ys, a, lo, t - 1, none); }
    }
  }

  // An access only adds one interval.
  lemma StartsExtend(xs: seq<nat>, a: nat, window: nat)
    ensures Starts(xs + [a], window) ==
            Starts(xs, window) + [Found(xs, a, window)]
  {
    var ys := xs + [a];
    forall e | 0 <= e < |ys|
      ensures Starts(ys, window)[e] ==
              (Starts(xs, window) + [Found(xs, a, window)])[e]
    {
      LastSeenPrefix(xs, ys, ys[e], e - window + 1, e, e);
    }
  }

  // No slot from s on is full.
  ghost predicate Room(xs: seq<nat>, ways: nat, window: nat, s: int) {
    forall slot | s <= slot < |xs| :: Occupancy(xs, ways, window, slot) < ways
  }

  lemma AnswersExtend(xs: seq<nat>, a: nat, ways: nat, window: nat)
    ensures Answers(xs + [a], ways, window) == Answers(xs, ways, window) +
              (if Found(xs, a, window) < |xs| && Room(xs, ways, window, Found(xs, a, window)) then {|xs|} else {})
  {
    var n, s := |xs|, Found(xs, a, window);
    var starts := Starts(xs + [a], window);
    var G := Answers(xs, ways, window);
    StartsExtend(xs, a, window);
    assert starts[..n] == Starts(xs, window);
    assert starts[n] == s;
    assert Greedy(starts, ways) == if s < n && Fits(G, starts, ways, n) then G + {n} else G;
    FitsIsOccupancy(G, starts, ways, n);
    assert forall slot: int {:trigger Cover(G, Starts(xs, window), slot)} ::
        Occupancy(xs, ways, window, slot) == |Cover(G, Starts(xs, window), slot)|;
  }

  // How the occupancy vector changes: by one on the slots of an accepted interval.
  lemma OccupancyExtend(xs: seq<nat>, a: nat, ways: nat, window: nat, slot: int)
    ensures Occupancy(xs + [a], ways, window, slot) == Occupancy(xs, ways, window, slot) +
              (if |xs| in Answers(xs + [a], ways, window) && Found(xs, a, window) <= slot < |xs| then 1 else 0)
  {
    var n := |xs|;
    var starts := Starts(xs + [a], window);
    var G := Answers(xs, ways, window);
    StartsExtend(xs, a, window);
    AnswersExtend(xs, a, ways, window);
    assert starts[..n] == Starts(xs, window);
    CoverPrefix(G, starts, n, slot);
    CoverAdd(G, starts, n, slot);
  }

  lemma OccupancyBounded(xs: seq<nat>, ways: nat, window: nat, slot: int)
    ensures Occupancy(xs, ways, window, slot) <= ways
    ensures slot >= |xs| - 1 ==> Occupancy(xs, ways, window, slot) == 0
  {
    GreedyFeasible(Starts(xs, window), ways);
    assert |Cover(Answers(xs, ways, window), Starts(xs, window), slot)| <= ways;
    if slot >= |xs| - 1 { CoverBeyond(Answers(xs, ways, window), Starts(xs, window), slot); }
  }

  // A true answer for a nonzero line means that the line was accessed before, within the window.
  lemma TrueMeansReuse(xs: seq<nat>, ways: nat, window: nat, e: nat)
    requires e in Answers(xs, ways, window) && e < |xs| && xs[e] != 0
    ensures exists j :: 0 <= j < e && e - j < window && xs[j] == xs[e]
  {
    var j := Starts(xs, window)[e];
    assert 0 <= j < e && e - j < window && xs[j] == xs[e];
  }

  // When exactly the first access to a line is answered with true: only for line 0, while the
  // zeros the ring was born with are still in the window and leave room.
  lemma FirstAccessAnswer(xs: seq<nat>, a: nat, ways: nat, window: nat)
    requires a !in xs
    ensures |xs| in Answers(xs + [a], ways, window) <==>
            a == 0 && |xs| + 1 < window && Room(xs, ways, window, -1)
  {
    var s := Found(xs, a, window);
    AnswersExtend(xs, a, ways, window);
    assert |xs| !in Answers(xs, ways, window);
    if s < |xs| { assert At(xs, s) == a; }
    if a == 0 {
      assert At(xs, -1) == 0;
      assert forall k | 0 <= k < |xs| :: At(xs, k) == xs[k];
    }
  }

  lemma ColdZeroHit(window: nat)
    requires window >= 2
    ensures 0 in Answers([0], 1, window)
  {
    FirstAccessAnswer([], 0, 1, window);
    assert [] + [0] == [0];
    OccupancyBounded([], 1, window, -1);
  }
}

// The caches OPTgen is measured against: at most `ways` lines, any contents may be dropped at
// any time, and only the line being accessed may enter (or bypass).
module BeladyCache {
  import opened Packing
  import opened Sets
  import opened AccessStream

  // contents[t] is what the cache holds right after access t.
  ghost function Held(contents: seq<set<nat>>, t: int): set<nat>
    requires t < |contents|
  {
    if t < 0 then {0} else contents[t]
  }

  ghost predicate IsRun(xs: seq<nat>, contents: seq<set<nat>>, ways: nat) {
    && |contents| == |xs|
    && forall t | 0 <= t < |xs| ::
         |contents[t]| <= ways && contents[t] <= Held(contents, t - 1) + {xs[t]}
  }

  ghost predicate IsHit(xs: seq<nat>, contents: seq<set<nat>>, t: int)
    requires |contents| == |xs|
  {
    0 <= t < |xs| && xs[t] in Held(contents, t - 1)
  }

  // The previous access to the line of access t lies within the window.
  ghost predicate IsReuse(xs: seq<nat>, window: nat, t: nat)
    requires t < |xs|
  {
    exists j :: Reuses(xs, window, t, j)
  }

  lemma ReuseStarts(xs: seq<nat>, window: nat, t: nat)
    requires t < |xs|
    ensures IsReuse(xs, window, t) <==> Starts(xs, window)[t] < t
  {
    StartExact(xs, window, t, Starts(xs, window)[t]);
  }

  // The hits on such lines.
  ghost function ShortHits(xs: seq<nat>, contents: seq<set<nat>>, window: nat): set<int>
    requires |contents| == |xs|
  {
    set t | 0 <= t < |xs| && IsHit(xs, contents, t) && IsReuse(xs, window, t)
  }

  lemma ShortHitsStart(xs: seq<nat>, contents: seq<set<nat>>, window: nat)
    requires |contents| == |xs|
    ensures forall t :: t in ShortHits(xs, contents, window) <==>
              0 <= t < |xs| && IsHit(xs, contents, t) && Starts(xs, window)[t] < t
  {
    forall t | 0 <= t < |xs| ensures IsReuse(xs, window, t) <==> Starts(xs, window)[t] < t {
      ReuseStarts(xs, window, t);
    }
  }

  // A line that hits at time e has been held ever since its previous access.
  lemma {:induction false} HeldSince(xs: seq<nat>, contents: seq<set<nat>>, ways: nat, s: int, e: int, t: int)
    requires IsRun(xs, contents, ways) && IsHit(xs, contents, e)
    requires -1 <= s <= t < e && forall k | s < k < e :: At(xs, k) != xs[e]
    ensures xs[e] in Held(contents, t)
    decreases e - t
  {
    if t < e - 1 {
      HeldSince(xs, contents, ways, s, e, t + 1);
      assert At(xs, t + 1) != xs[e];
      assert contents[t + 1] <= Held(contents, t) + {xs[t + 1]};
    }
  }

  ghost function Lines(xs: seq<nat>, times: set<int>): set<nat> {
    set e | e in times && 0 <= e < |xs| :: xs[e]
  }

  lemma SameLineDisjoint(xs: seq<nat>, window: nat, e: nat, f: nat)
    requires e < |xs| && f < |xs|
    ensures e < f && xs[e] == xs[f] ==> Starts(xs, window)[f] >= e
  {
    assert Starts(xs, window)[f] == Start(xs, window, f);
    if e < f { assert At(xs, e) == xs[e]; }
  }

  // Reuse intervals of the same line never share a slot, so the intervals over a slot belong to
  // different lines.
  lemma {:induction false} DistinctLines(xs: seq<nat>, window: nat, C: set<int>, slot: int)
    requires forall e | e in C :: 0 <= e < |xs| && Starts(xs, window)[e] <= slot < e
    ensures |Lines(xs, C)| == |C|
    decreases C
  {
    if C != {} {
      var e := PickOne(C);
      DistinctLines(xs, window, C - {e}, slot);
      assert xs[e] !in Lines(xs, C - {e}) by {
        forall f | f in C - {e} ensures xs[f] != xs[e] {
          SameLineDisjoint(xs, window, e, f);
          SameLineDisjoint(xs, window, f, e);
        }
      }
      assert Lines(xs, C) == Lines(xs, C - {e}) + {xs[e]};
    }
  }

  // A reuse interval never begins before time -1.
  lemma StartBound(xs: seq<nat>, window: nat, e: nat)
    requires e < |xs|
    ensures Starts(xs, window)[e] >= -1
  {
    var s := Start(xs, window, e);
    assert At(xs, -1) == 0;
    assert s < -1 ==> At(xs, s) == 0;
  }

  // The hits of any cache form a feasible set of intervals.
  lemma HitsFeasible(xs: seq<nat>, contents: seq<set<nat>>, ways: nat, window: nat)
    requires ways >= 1 && IsRun(xs, contents, ways)
    ensures AreIntervals(ShortHits(xs, contents, window), Starts(xs, window))
    ensures Feasible(ShortHits(xs, contents, window), Starts(xs, window), ways)
  {
    var S, starts := ShortHits(xs, contents, window), Starts(xs, window);
    ShortHitsStart(xs, contents, window);
    forall slot: int ensures |Cover(S, starts, slot)| <= ways {
      var C := Cover(S, starts, slot);
      if C != {} {
        var some := PickOne(C);
        StartBound(xs, window, some);
        forall e | e in C ensures xs[e] in Held(contents, slot) {
          StartBound(xs, window, e);
          assert starts[e] == Start(xs, window, e);
          HeldSince(xs, contents, ways, starts[e], e, slot);
        }
        DistinctLines(xs, window, C, slot);
        SubsetSize(Lines(xs, C), Held(contents, slot));
      }
    }
  }

  // No cache with `ways` lines and bypass has more hits (on reuses within the window) than
  // OPTgen has true answers.
  lemma NoCacheBeatsOptGen(xs: seq<nat>, contents: seq<set<nat>>, ways: nat, window: nat)
    requires ways >= 1 && IsRun(xs, contents, ways)
    ensures |ShortHits(xs, contents, window)| <= |Answers(xs, ways, window)|
  {
    HitsFeasible(xs, contents, ways, window);
    GreedyOptimal(ShortHits(xs, contents, window), Starts(xs, window), ways);
  }

  // The clairvoyant cache that keeps a line exactly during its accepted intervals.
  ghost function Plan(xs: seq<nat>, ways: nat, window: nat): (contents: seq<set<nat>>)
    ensures |contents| == |xs|
    ensures forall t | 0 <= t < |xs| :: contents[t] == Lines(xs, Kept(xs, ways, window, t))
  {
    seq(|xs|, t => Lines(xs, Kept(xs, ways, window, t)))
  }

  ghost function Kept(xs: seq<nat>, ways: nat, window: nat, t: int): set<int> {
    Cover(Answers(xs, ways, window), Starts(xs, window), t)
  }

  lemma PlanIsRun(xs: seq<nat>, ways: nat, window: nat)
    ensures IsRun(xs, Plan(xs, ways, window), ways)
  {
    var contents := Plan(xs, ways, window);
    forall t | 0 <= t < |xs|
      ensures |contents[t]| <= ways && contents[t] <= Held(contents, t - 1) + {xs[t]}
    {
      OccupancyBounded(xs, ways, window, t);
      DistinctLines(xs, window, Kept(xs, ways, window, t), t);
      PlanStep(xs, ways, window, t);
    }
  }

  // Each line the plan holds was held before or has just come.
  lemma PlanStep(xs: seq<nat>, ways: nat, window: nat, t: nat)
    requires t < |xs|
    ensures var contents := Plan(xs, ways, window);
            contents[t] <= Held(contents, t - 1) + {xs[t]}
  {
    var contents, starts, C := Plan(xs, ways, window), Starts(xs, window), Kept(xs, ways, window, t);
    forall a | a in contents[t] ensures a in Held(contents, t - 1) + {xs[t]} {
      var e :| e in C && 0 <= e < |xs| && xs[e] == a;
      assert starts[e] == Start(xs, window, e);
      if starts[e] < t && t > 0 { assert e in Kept(xs, ways, window, t - 1); }
    }
  }

  // Every true answer is a hit of one and the same cache.
  lemma AnswersAreAchieved(xs: seq<nat>, ways: nat, window: nat)
    ensures exists contents :: IsRun(xs, contents, ways) &&
              Answers(xs, ways, window) <= ShortHits(xs, contents, window)
  {
    var contents := Plan(xs, ways, window);
    PlanIsRun(xs, ways, window);
    ShortHitsStart(xs, contents, window);
    forall e | e in Answers(xs, ways, window) ensures e in ShortHits(xs, contents, window) {
      assert IsInterval(Starts(xs, window), e);
      assert Starts(xs, window)[e] == Start(xs, window, e);
      if e > 0 { assert e in Kept(xs, ways, window, e - 1); }
    }
    assert IsRun(xs, contents, ways) && Answers(xs, ways, window) <= ShortHits(xs, contents, window);
  }

  // OPTgen is Belady: its true answers are exactly the hits (on reuses within the window) of some
  // cache, and no cache has more.
  lemma OptGenIsBelady(xs: seq<nat>, ways: nat, window: nat)
    requires ways >= 1
    ensures exists best :: IsRun(xs, best, ways) && ShortHits(xs, best, window) == Answers(xs, ways, window) &&
              forall other :: IsRun(xs, other, ways) ==>
                |ShortHits(xs, other, window)| <= |ShortHits(xs, best, window)|
  {
    AnswersAreAchieved(xs, ways, window);
    var best :| IsRun(xs, best, ways) && Answers(xs, ways, window) <= ShortHits(xs, best, window);
    forall other | IsRun(xs, other, ways)
      ensures |ShortHits(xs, other, window)| <= |Answers(xs, ways, window)|
    {
      NoCacheBeatsOptGen(xs, other, ways, window);
    }
    SubsetOfSameSize(Answers(xs, ways, window), ShortHits(xs, best, window));
  }
}

module RingArithmetic {
  import opened Arith

  // wrap_index: the index is turned into an unsigned 32-bit number before the remainder is taken.
  function WrapIndex(idx: int, size: nat): (r: nat)
    requires size > 0
    ensures r < size
  {
    (idx % TWO32) % size
  }

  // wrap_index is the mathematical remainder when the ring size divides 2^32 ...
  lemma WrapIsMod(idx: int, size: nat)
    requires size > 0 && TWO32 % size == 0
    ensures WrapIndex(idx, size) == idx % size
  {
    var low := idx % TWO32;
    var q := TWO32 / size;
    assert TWO32 == q * size;
    assert idx == ((idx / TWO32) * q + low / size) * size + low % size by {
      assert idx == (idx / TWO32) * TWO32 + low;
      assert low == (low / size) * size + low % size;
    }
    ModUnique(idx, (idx / TWO32) * q + low / size, low % size, size);
  }

  // ... and only then: otherwise already the step back from index 0 goes wrong.
  lemma WrapExact(size: nat)
    requires 0 < size
    ensures TWO32 % size == 0 <==>
            forall idx | -0x8000_0000 <= idx < 0x8000_0000 :: WrapIndex(idx, size) == idx % size
  {
    if TWO32 % size == 0 {
      forall idx: int ensures WrapIndex(idx, size) == idx % size { WrapIsMod(idx, size); }
    } else {
      ModShift(TWO32, -1, size);
      ModUnique(-1, -1, size - 1, size);
      ModUnique(TWO32 % size - 1, 0, TWO32 % size - 1, size);
      assert WrapIndex(-1, size) != -1 % size;
    }
  }

  // Where the backward scan is k steps after it left h.
  function Back(h: nat, k: nat, size: nat): nat
    requires size > 0
  {
    if k == 0 then h else WrapIndex(Back(h, k - 1, size) - 1, size)
  }

  // The scan for a line that is not in the ring ends: it comes back to where it began.
  ghost predicate ScanEnds(h: nat, size: nat)
    requires size > 0
  {
    exists k: nat :: k > 0 && Back(h, k, size) == h
  }

  // It does so from everywhere exactly when the ring size divides 2^32. For any other size it is
  // caught below the place 2^32 % size.
  lemma ScanEndsExact(size: nat)
    requires size > 0
    ensures (forall h | 0 <= h < size :: ScanEnds(h, size)) <==> TWO32 % size == 0
  {
    var r := TWO32 % size;
    if r == 0 {
      forall h | 0 <= h < size ensures ScanEnds(h, size) {
        BackIs(h, size, size);
        ModUnique(h - size, -1, h, size);
        assert Back(h, size, size) == h;
      }
    } else {
      forall k: nat | k > 0 ensures Back(r, k, size) != r { BackIsCaught(k, size); }
      assert !ScanEnds(r, size);
    }
  }

  lemma {:induction false} BackIs(h: nat, k: nat, size: nat)
    requires h < size && TWO32 % size == 0
    ensures Back(h, k, size) == (h - k) % size
  {
    if k == 0 {
      SmallRem(h, size);
    } else {
      BackIs(h, k - 1, size);
      WrapIsMod(Back(h, k - 1, size) - 1, size);
      ModShift(h - (k - 1), -1, size);
    }
  }

  lemma {:induction false} BackIsCaught(k: nat, size: nat)
    requires size > 0 && TWO32 % size > 0 && k > 0
    ensures Back(TWO32 % size, k, size) < TWO32 % size
  {
    if k > 1 { BackIsCaught(k - 1, size); }
    CaughtStep(Back(TWO32 % size, k - 1, size), TWO32 % size, TWO32 / size, size);
  }

  lemma CaughtStep(i: nat, r: nat, q: nat, size: nat)
    requires 0 < r < size && i <= r && TWO32 == q * size + r
    ensures WrapIndex(i - 1, size) < r
  {
    if i == 0 {
      ModUnique(TWO32 - 1, q, r - 1, size);
    } else {
      ModUnique(i - 1, 0, i - 1, size);
      RBelow(q, size, r);
    }
  }

  lemma RBelow(q: nat, size: nat, r: nat)
    requires TWO32 == q * size + r
    ensures r <= TWO32
  {
    MulMonotone(0, q, size);
  }
}

module OptGenRing {
  import opened AccessStream
  import opened Arith
  import opened RingArithmetic

  const TIME_QUANTUM := 1

  // Where the ring keeps time k.
  ghost function Slot(k: int, size: nat): (i: int)
    requires size > 0
    ensures 0 <= i < size
  {
    (k + 1) % size
  }

  lemma SlotDistinct(j: int, k: int, size: nat)
    requires size > 0 && -(size as int) < j - k < size
    ensures Slot(j, size) == Slot(k, size) <==> j == k
  {
    if Slot(j, size) == Slot(k, size) { ModDistinct(j + 1, k + 1, size); }
  }

  // The state of one sampled set.
  class OptGen {
    const numWays: nat
    const vectorSize: nat
    var accessCount: nat
    const history: array<nat>
    const occupancy: array<nat>
    ghost var accesses: seq<nat>

    ghost predicate Sized() {
      && vectorSize == numWays * 8 / TIME_QUANTUM && vectorSize > 0 && TWO32 % vectorSize == 0
      && history != occupancy && history.Length == occupancy.Length == vectorSize
    }

    // The ring holds the last vectorSize accesses of xs ...
    ghost predicate HistoryIs(xs: seq<nat>)
      requires Sized()
      reads history
    {
      forall k | |xs| - vectorSize <= k < |xs| :: history[Slot(k, vectorSize)] == At(xs, k)
    }

    // ... and for each of the vectorSize time slots up to `last` the number of accepted
    // intervals over it.
    ghost predicate OccupancyIs(xs: seq<nat>, last: int)
      requires Sized()
      reads occupancy
    {
      forall k | last - vectorSize < k <= last ::
        occupancy[Slot(k, vectorSize)] == Occupancy(xs, numWays, vectorSize, k)
    }

    ghost predicate Valid()
      reads this, history, occupancy
    {
      && Sized()
      && accessCount == |accesses| % TWO32
      && HistoryIs(accesses)
      && OccupancyIs(accesses, |accesses| - 1)
    }

    constructor (numWays: nat)
      requires numWays > 0 && TWO32 % (numWays * 8) == 0
      ensures Valid() && this.numWays == numWays && accesses == []
      ensures fresh(history) && fresh(occupancy)
    {
      this.numWays := numWays;
      vectorSize := numWays * 8 / TIME_QUANTUM;
      history := new nat[numWays * 8 / TIME_QUANTUM](_ => 0);
      occupancy := new nat[numWays * 8 / TIME_QUANTUM](_ => 0);
      accessCount := 0;
      accesses := [];
    }

    // One step of a wrapped index.
    lemma Step(k: int, d: int)
      requires Sized()
      ensures WrapIndex(Slot(k, vectorSize) + d, vectorSize) == Slot(k + d, vectorSize)
    {
      WrapIsMod(Slot(k, vectorSize) + d, vectorSize);
      ModShift(k + 1, d, vectorSize);
    }

    // cache_access: the answer is the greedy decision on the unbounded history.
    method CacheAccess(address: nat) returns (hit: bool)
      requires Valid()
      modifies this`accessCount, this`accesses, history, occupancy
      ensures Valid() && accesses == old(accesses) + [address]
      ensures hit <==> |old(accesses)| in Answers(accesses, numWays, vectorSize)
    {
      ghost var xs, n := accesses, |accesses|;
      AnswersExtend(xs, address, numWays, vectorSize);
      assert n !in Answers(xs, numWays, vectorSize);
      accesses := accesses + [address];
      var histIdx := Advance(xs, address);
      var i := FindPrevious(xs, address, histIdx);
      hit := false;
      if i != histIdx {
        hit := HasRoom(xs, Found(xs, address, vectorSize), i, histIdx);
        if hit { Fill(xs, Found(xs, address, vectorSize), i, histIdx); }
      }
      OccupancyAfter(xs, address, hit);
    }

    // The ring after an access, read against the longer history.
    lemma OccupancyAfter(xs: seq<nat>, address: nat, hit: bool)
      requires Sized()
      requires hit <==> |xs| in Answers(xs + [address], numWays, vectorSize)
      requires forall k | |xs| - vectorSize < k <= |xs| ::
        occupancy[Slot(k, vectorSize)] ==
          Occupancy(xs, numWays, vectorSize, k) + (if hit && Found(xs, address, vectorSize) <= k < |xs| then 1 else 0)
      ensures OccupancyIs(xs + [address], |xs|)
    {
      forall k | |xs| - vectorSize < k <= |xs|
        ensures occupancy[Slot(k, vectorSize)] == Occupancy(xs + [address], numWays, vectorSize, k)
      {
        OccupancyExtend(xs, address, numWays, vectorSize, k);
      }
    }

    lemma CountStep(n: nat)
      requires Sized()
      ensures (n % TWO32 + 1) % TWO32 == (n + 1) % TWO32
      ensures WrapIndex((n + 1) % TWO32 / TIME_QUANTUM, vectorSize) == Slot(n, vectorSize)
    {
      var c := (n + 1) % TWO32;
      ModShift(n, 1, TWO32);
      assert c / TIME_QUANTUM == c;
      ModUnique(c, 0, c, TWO32);
      WrapIsMod(n + 1, vectorSize);
    }

    // Counts the access and writes it over the oldest ring entry.
    method Advance(ghost xs: seq<nat>, address: nat) returns (histIdx: nat)
      requires Sized() && HistoryIs(xs) && OccupancyIs(xs, |xs| - 1) && accessCount == |xs| % TWO32
      modifies this`accessCount, history, occupancy
      ensures accessCount == (|xs| + 1) % TWO32 && histIdx == Slot(|xs|, vectorSize)
      ensures HistoryIs(xs + [address]) && OccupancyIs(xs, |xs|)
    {
      ghost var n := |xs|;
      CountStep(n);
      accessCount := (accessCount + 1) % TWO32;
      histIdx := WrapIndex(accessCount / TIME_QUANTUM, vectorSize);
      if accessCount % TIME_QUANTUM == 0 {
        WriteSlot(xs, address, histIdx);
      }
    }

    method WriteSlot(ghost xs: seq<nat>, address: nat, histIdx: nat)
      requires Sized() && HistoryIs(xs) && OccupancyIs(xs, |xs| - 1) && histIdx == Slot(|xs|, vectorSize)
      modifies history, occupancy
      ensures HistoryIs(xs + [address]) && OccupancyIs(xs, |xs|)
    {
      ghost var n, ys := |xs|, xs + [address];
      occupancy[histIdx] := 0;
      history[histIdx] := address;
      OccupancyBounded(xs, numWays, vectorSize, n);
      forall k | n - vectorSize < k <= n
        ensures history[Slot(k, vectorSize)] == At(ys, k)
        ensures occupancy[Slot(k, vectorSize)] == Occupancy(xs, numWays, vectorSize, k)
      {
        SlotDistinct(k, n, vectorSize);
        if k < n { assert At(ys, k) == At(xs, k); }
      }
    }

    // Scans the ring backwards for the previous access to the line.
    method FindPrevious(ghost xs: seq<nat>, address: nat, histIdx: nat) returns (i: nat)
      requires Sized() && HistoryIs(xs + [address]) && histIdx == Slot(|xs|, vectorSize)
      ensures i == Slot(Found(xs, address, vectorSize), vectorSize)
      ensures i == histIdx <==> Found(xs, address, vectorSize) == |xs|
    {
      ghost var n := |xs|;
      ghost var k := n - 1;
      Step(n, -1);
      i := WrapIndex(histIdx - 1, vectorSize);
      while i != histIdx
        invariant n - vectorSize <= k < n && i == Slot(k, vectorSize)
        invariant forall j | k < j < n :: At(xs, j) != address
        decreases k - (n - vectorSize)
      {
        SlotDistinct(k, n - vectorSize, vectorSize);
        WrapAround(n);
        assert history[i] == At(xs + [address], k) == At(xs, k);
        if history[i] == address { break; }
        Step(k, -1);
        i := WrapIndex(i - 1, vectorSize);
        k := k - 1;
      }
      WrapAround(n);
      SlotDistinct(k, n - vectorSize, vectorSize);
    }

    lemma WrapAround(n: int)
      requires Sized()
      ensures Slot(n - vectorSize, vectorSize) == Slot(n, vectorSize)
    {
      ModUnique(n + 1 - vectorSize, (n + 1) / vectorSize - 1, (n + 1) % vectorSize, vectorSize);
    }

    // Is there room on every slot of the interval from time s on?
    method HasRoom(ghost xs: seq<nat>, ghost s: int, i: nat, histIdx: nat) returns (room: bool)
      requires Sized() && OccupancyIs(xs, |xs|) && |xs| - vectorSize < s < |xs|
      requires i == Slot(s, vectorSize) && histIdx == Slot(|xs|, vectorSize)
      ensures room <==> Room(xs, numWays, vectorSize, s)
    {
      var index := i;
      ghost var k := s;
      while index != histIdx
        invariant s <= k <= |xs| && index == Slot(k, vectorSize)
        invariant forall j | s <= j < k :: Occupancy(xs, numWays, vectorSize, j) < numWays
        decreases |xs| - k
      {
        assert occupancy[index] == Occupancy(xs, numWays, vectorSize, k);
        if occupancy[index] >= numWays { return false; }
        Step(k, 1);
        index := WrapIndex(index + 1, vectorSize);
        k := k + 1;
      }
      SlotDistinct(k, |xs|, vectorSize);
      room := true;
    }

    // Adds one interval to every slot from time s on.
    method Fill(ghost xs: seq<nat>, ghost s: int, start: nat, histIdx: nat)
      requires Sized() && OccupancyIs(xs, |xs|) && |xs| - vectorSize < s < |xs|
      requires start == Slot(s, vectorSize) && histIdx == Slot(|xs|, vectorSize)
      modifies occupancy
      ensures forall k | |xs| - vectorSize < k <= |xs| ::
        occupancy[Slot(k, vectorSize)] == Occupancy(xs, numWays, vectorSize, k) + (if s <= k < |xs| then 1 else 0)
    {
      var i := start;
      ghost var t := s;
      while i != histIdx
        invariant s <= t <= |xs| && i == Slot(t, vectorSize)
        invariant forall k | |xs| - vectorSize < k <= |xs| ::
          occupancy[Slot(k, vectorSize)] == Occupancy(xs, numWays, vectorSize, k) + (if s <= k < t then 1 else 0)
        decreases |xs| - t
      {
        ghost var before := occupancy[..];
        occupancy[i] := occupancy[i] + 1;
        forall k | |xs| - vectorSize < k <= |xs|
          ensures occupancy[Slot(k, vectorSize)] == before[Slot(k, vectorSize)] + (if k == t then 1 else 0)
        {
          SlotDistinct(k, t, vectorSize);
        }
        Step(t, 1);
        i := WrapIndex(i + 1, vectorSize);
        t := t + 1;
      }
      SlotDistinct(t, |xs|, vectorSize);
    }
  }
}
