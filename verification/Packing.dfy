// Greedy packing of reuse intervals, taken in the order of their end points.
//
// Interval number e ends at time e and occupies the time slots starts[e] .. e-1.
// starts[e] == e means that access e closes no interval at all. A slot may be
// occupied by at most `ways` intervals.

module Packing {
  import opened Sets

  ghost predicate IsInterval(starts: seq<int>, e: int) {
    0 <= e < |starts| && starts[e] < e
  }

  // Every member of S names an interval that is not empty.
  ghost predicate AreIntervals(S: set<int>, starts: seq<int>) {
    forall e | e in S :: IsInterval(starts, e)
  }

  // The chosen intervals that occupy a slot.
  ghost function Cover(S: set<int>, starts: seq<int>, slot: int): set<int> {
    set e | e in S && 0 <= e < |starts| && starts[e] <= slot < e
  }

  ghost predicate Feasible(S: set<int>, starts: seq<int>, ways: nat) {
    forall slot: int :: |Cover(S, starts, slot)| <= ways
  }

  // The test of the second loop of cache_access: no slot of interval e is full.
  ghost predicate Fits(S: set<int>, starts: seq<int>, ways: nat, e: int)
    requires 0 <= e < |starts|
  {
    forall slot | starts[e] <= slot < e :: |Cover(S, starts, slot)| < ways
  }

  // The intervals accepted online, one decision per access.
  ghost function Greedy(starts: seq<int>, ways: nat): (G: set<int>)
    ensures AreIntervals(G, starts)
    decreases |starts|
  {
    if |starts| == 0 then {}
    else
      var e := |starts| - 1;
      var G := Greedy(starts[..e], ways);
      if starts[e] < e && Fits(G, starts, ways, e) then G + {e} else G
  }

  lemma CoverPrefix(S: set<int>, starts: seq<int>, n: nat, slot: int)
    requires n <= |starts| && forall e | e in S :: e < n
    ensures Cover(S, starts[..n], slot) == Cover(S, starts, slot)
  {
  }

  lemma FitsIsOccupancy(S: set<int>, starts: seq<int>, ways: nat, e: nat)
    requires e < |starts| && forall x | x in S :: x < e
    ensures Fits(S, starts, ways, e) <==>
      forall slot | starts[e] <= slot < e :: |Cover(S, starts[..e], slot)| < ways
  {
    forall slot: int ensures Cover(S, starts, slot) == Cover(S, starts[..e], slot) {
      CoverPrefix(S, starts, e, slot);
    }
  }

  lemma CoverAdd(S: set<int>, starts: seq<int>, e: int, slot: int)
    requires 0 <= e < |starts| && e !in S
    ensures starts[e] <= slot < e ==>
      |Cover(S + {e}, starts, slot)| == |Cover(S, starts, slot)| + 1
    ensures !(starts[e] <= slot < e) ==>
      Cover(S + {e}, starts, slot) == Cover(S, starts, slot)
  {
    if starts[e] <= slot < e {
      assert Cover(S + {e}, starts, slot) == Cover(S, starts, slot) + {e};
    } else {
      assert Cover(S + {e}, starts, slot) == Cover(S, starts, slot);
    }
  }

  lemma CoverMonotone(A: set<int>, B: set<int>, starts: seq<int>, slot: int)
    requires A <= B
    ensures |Cover(A, starts, slot)| <= |Cover(B, starts, slot)|
  {
    SubsetSize(Cover(A, starts, slot), Cover(B, starts, slot));
  }

  // An accepted set never puts more than `ways` intervals on one slot.
  lemma {:induction false} GreedyFeasible(starts: seq<int>, ways: nat)
    ensures Feasible(Greedy(starts, ways), starts, ways)
    decreases |starts|
  {
    if |starts| > 0 {
      var e := |starts| - 1;
      GreedyFeasible(starts[..e], ways);
      var G := Greedy(starts[..e], ways);
      forall slot: int ensures |Cover(Greedy(starts, ways), starts, slot)| <= ways {
        assert |Cover(G, starts[..e], slot)| <= ways;
        CoverPrefix(G, starts, e, slot);
        CoverAdd(G, starts, e, slot);
      }
    }
  }

  // Slots from the last end point on are never occupied.
  lemma CoverBeyond(S: set<int>, starts: seq<int>, slot: int)
    requires AreIntervals(S, starts) && slot >= |starts| - 1
    ensures Cover(S, starts, slot) == {}
  {
  }

  // The part of a set that ends before time t.
  ghost function Before(S: set<int>, t: int): set<int> {
    set e | e in S && e < t
  }

  // A rival set that already makes the greedy choices up to time t.
  ghost predicate Agrees(S: set<int>, starts: seq<int>, ways: nat, t: nat)
    requires t <= |starts|
  {
    AreIntervals(S, starts) && Feasible(S, starts, ways) && Before(S, t) == Greedy(starts[..t], ways)
  }

  // The interval ending after t that reaches furthest back.
  lemma EarliestLate(L: set<int>, starts: seq<int>) returns (j: int)
    requires L != {}
    requires forall e | e in L :: 0 <= e < |starts|
    ensures j in L && forall e | e in L :: starts[j] <= starts[e]
  {
    j := PickOne(L);
    if L != {j} {
      var k := EarliestLate(L - {j}, starts);
      if starts[k] < starts[j] { j := k; }
    }
  }

  // Adding interval t to a rival set overfills only slots that some later interval
  // of the rival set also occupies.
  lemma OverfullHasLate(S: set<int>, starts: seq<int>, ways: nat, t: nat, slot: int)
    requires t < |starts| && Agrees(S, starts, ways, t) && t !in S
    requires t in Greedy(starts[..t + 1], ways)
    requires |Cover(S + {t}, starts, slot)| > ways
    ensures exists e :: e in S && e > t && starts[e] <= slot && starts[t] <= slot < t
  {
    var G := Greedy(starts[..t], ways);
    assert starts[..t + 1][..t] == starts[..t];
    CoverAdd(S, starts, t, slot);
    assert |Cover(S, starts, slot)| <= ways;
    assert starts[t] <= slot < t;
    assert |Cover(G, starts[..t + 1], slot)| < ways;
    CoverPrefix(G, starts, t + 1, slot);
    assert |Cover(G, starts, slot)| < |Cover(S, starts, slot)|;
    if Cover(S, starts, slot) <= Cover(G, starts, slot) {
      SubsetSize(Cover(S, starts, slot), Cover(G, starts, slot));
      assert false;
    }
    var x :| x in Cover(S, starts, slot) && x !in Cover(G, starts, slot);
    assert x !in Before(S, t);
    var e :| e in Cover(S, starts, slot) && e >= t;
  }

  // One step of the exchange argument: a rival set that agrees with the greedy choices
  // before t can be changed, without getting smaller, to agree up to and including t.
  lemma ExchangeStep(S: set<int>, starts: seq<int>, ways: nat, t: nat) returns (S': set<int>)
    requires t < |starts| && Agrees(S, starts, ways, t)
    ensures Agrees(S', starts, ways, t + 1) && |S'| >= |S|
  {
    var G := Greedy(starts[..t], ways);
    var G' := Greedy(starts[..t + 1], ways);
    assert starts[..t + 1][..t] == starts[..t];
    if t !in G' {
      S' := S;
      assert Before(S, t + 1) == Before(S, t) + (if t in S then {t} else {});
      if t in S { RejectedIsInfeasible(S, starts, ways, t); }
    } else if t in S {
      S' := S;
      assert Before(S, t + 1) == Before(S, t) + {t};
    } else if Feasible(S + {t}, starts, ways) {
      S' := S + {t};
      assert Before(S', t + 1) == Before(S, t) + {t};
    } else {
      S' := SwapIn(S, starts, ways, t);
    }
  }

  // The greedy rule only turns an interval down when it really does not fit.
  lemma RejectedIsInfeasible(S: set<int>, starts: seq<int>, ways: nat, t: nat)
    requires t < |starts| && Agrees(S, starts, ways, t) && t in S
    ensures t in Greedy(starts[..t + 1], ways)
  {
    var G := Greedy(starts[..t], ways);
    assert starts[..t + 1][..t] == starts[..t];
    assert IsInterval(starts, t);
    var upTo := starts[..t + 1];
    forall slot | starts[t] <= slot < t ensures |Cover(G, upTo, slot)| < ways {
      CoverPrefix(G, starts, t + 1, slot);
      CoverAdd(G, starts, t, slot);
      CoverMonotone(G + {t}, S, starts, slot);
    }
  }

  lemma SwapIn(S: set<int>, starts: seq<int>, ways: nat, t: nat) returns (S': set<int>)
    requires t < |starts| && Agrees(S, starts, ways, t) && t !in S
    requires t in Greedy(starts[..t + 1], ways) && !Feasible(S + {t}, starts, ways)
    ensures Agrees(S', starts, ways, t + 1) && |S'| == |S|
  {
    var late := set e | e in S && e > t;
    var bad: int :| |Cover(S + {t}, starts, bad)| > ways;
    OverfullHasLate(S, starts, ways, t, bad);
    var j := EarliestLate(late, starts);
    S' := S - {j} + {t};
    forall slot: int ensures |Cover(S', starts, slot)| <= ways {
      CoverAdd(S - {j}, starts, t, slot);
      CoverAdd(S - {j}, starts, j, slot);
      assert S - {j} + {j} == S;
      assert |Cover(S, starts, slot)| <= ways;
      CoverAdd(S, starts, t, slot);
      if |Cover(S + {t}, starts, slot)| > ways {
        OverfullHasLate(S, starts, ways, t, slot);
      }
    }
    assert starts[..t + 1][..t] == starts[..t];
    assert Before(S', t + 1) == Before(S, t) + {t};
  }

  // OPTgen's greedy choice is optimal: no feasible set of intervals is larger.
  lemma GreedyOptimal(S: set<int>, starts: seq<int>, ways: nat)
    requires AreIntervals(S, starts) && Feasible(S, starts, ways)
    ensures |S| <= |Greedy(starts, ways)|
  {
    assert Before(S, 0) == {} by { assert forall e | e in S :: IsInterval(starts, e); }
    ExchangeFrom(S, starts, ways, 0);
  }

  lemma {:induction false} ExchangeFrom(S: set<int>, starts: seq<int>, ways: nat, t: nat)
    requires t <= |starts| && Agrees(S, starts, ways, t)
    ensures |S| <= |Greedy(starts, ways)|
    decreases |starts| - t
  {
    if t == |starts| {
      assert starts[..t] == starts;
      assert Before(S, t) == S by { assert forall e | e in S :: IsInterval(starts, e); }
    } else {
      var S' := ExchangeStep(S, starts, ways, t);
      ExchangeFrom(S', starts, ways, t + 1);
    }
  }
}
