// The activation window: a ring of the last activations of a rank, oldest first. An activation
// must come at least tFAW after the entry it replaces.

module ActWindowLog {
  import opened Sets

  // How many entries at the end of v are later than x, not looking at v[0].
  function Later(v: seq<int>, x: int): (k: nat)
    requires v != []
    ensures k < |v|
    ensures forall i | |v| - k <= i < |v| :: v[i] > x
    ensures k < |v| - 1 ==> v[|v| - 1 - k] <= x
  {
    if |v| == 1 || v[|v| - 1] <= x then 0 else 1 + Later(v[..|v| - 1], x)
  }

  // The window, oldest first, after x replaces v[0]. When x is older than every other entry the
  // shift comes round to the slot it began with and reads the entry it has just put there.
  function Added(v: seq<int>, x: int): seq<int>
    requires v != []
  {
    var n, k := |v|, Later(v, x);
    if 0 < k == n - 1 then [v[n - 1]] + v[1..n - 1] + [x]
    else v[1..n - k] + [x] + v[n - k..]
  }

  // What place p of the ring holds after j entries were shifted up and before the new one is put in
  // the hole, which is place |v| - j. Place |v| is the oldest entry's, place 0.
  function Held(v: seq<int>, j: nat, p: nat): int
    requires 0 < p <= |v| && j < |v|
  {
    if p > |v| - j then v[p - 1] else if p < |v| then v[p] else v[0]
  }

  // The index of the p-th oldest entry of a ring of n whose oldest is at idx; the oldest is also
  // the one after the newest.
  function Spot(n: nat, idx: nat, p: nat): (i: nat)
    requires idx < n && p <= n
    ensures i < n
  {
    if idx + p < n then idx + p else idx + p - n
  }

  // The entries of a ring, oldest first.
  function Ring(b: seq<int>, idx: nat): (v: seq<int>)
    requires idx < |b|
    ensures |v| == |b|
  {
    b[idx..] + b[..idx]
  }

  lemma RingAt(b: seq<int>, idx: nat)
    requires idx < |b|
    ensures forall p | 0 <= p < |b| :: b[Spot(|b|, idx, p)] == Ring(b, idx)[p]
  {
  }

  function PrevIndex(n: nat, i: nat): nat
    requires n > 0
  {
    if i > 0 then i - 1 else n - 1
  }

  // The ring b with j entries shifted up.
  ghost predicate ShiftedBy(b: seq<int>, idx: nat, v: seq<int>, j: nat) {
    idx < |b| == |v| && j < |v| && forall p | 0 < p <= |v| :: b[Spot(|v|, idx, p)] == Held(v, j, p)
  }

  lemma ShiftStart(b: seq<int>, idx: nat)
    requires idx < |b|
    ensures ShiftedBy(b, idx, Ring(b, idx), 0)
  {
    RingAt(b, idx);
    assert b[Spot(|b|, idx, 0)] == b[idx];
  }

  // What the loop looks at: the next older entry, or, once it has come round, the newest one,
  // which now sits in the oldest entry's place.
  lemma NextOlder(b: seq<int>, idx: nat, v: seq<int>, j: nat)
    requires ShiftedBy(b, idx, v, j)
    ensures var n := |v|;
            var prev := PrevIndex(n, Spot(n, idx, n - j));
            && prev == Spot(n, idx, if j == n - 1 then n else n - 1 - j)
            && b[prev] == (if j < n - 1 then v[n - 1 - j] else if j == 0 then v[0] else v[n - 1])
            && (prev == idx <==> j == n - 1)
  {
  }

  lemma ShiftOne(b: seq<int>, idx: nat, v: seq<int>, j: nat)
    requires ShiftedBy(b, idx, v, j) && j < |v| - 1
    ensures ShiftedBy(b[Spot(|v|, idx, |v| - j) := v[|v| - 1 - j]], idx, v, j + 1)
  {
    var n := |v|;
    var b' := b[Spot(n, idx, n - j) := v[n - 1 - j]];
    forall p | 0 < p <= n ensures b'[Spot(n, idx, p)] == Held(v, j + 1, p) {
      SpotDistinct(n, idx, p, n - j);
    }
  }

  lemma SpotDistinct(n: nat, idx: nat, p: nat, q: nat)
    requires idx < n && 0 < p <= n && 0 < q <= n
    ensures Spot(n, idx, p) == Spot(n, idx, q) ==> p == q
  {
  }

  // x goes into the hole: read from the next place on, the ring is Added(v, x).
  lemma FillHole(b: seq<int>, idx: nat, v: seq<int>, x: int, j: nat)
    requires ShiftedBy(b, idx, v, j)
    requires forall i | |v| - j <= i < |v| :: v[i] > x
    requires b[PrevIndex(|v|, Spot(|v|, idx, |v| - j))] <= x
    ensures Ring(b[Spot(|v|, idx, |v| - j) := x], if idx < |b| - 1 then idx + 1 else 0) == Added(v, x)
  {
    NextOlder(b, idx, v, j);
    HoleFilled(b, idx, v, x, j);
    InsertedIsAdded(v, x, j, Ring(b[Spot(|v|, idx, |v| - j) := x], if idx < |v| - 1 then idx + 1 else 0));
  }

  lemma HoleFilled(b: seq<int>, idx: nat, v: seq<int>, x: int, j: nat)
    requires ShiftedBy(b, idx, v, j)
    ensures var u := Ring(b[Spot(|v|, idx, |v| - j) := x], if idx < |b| - 1 then idx + 1 else 0);
            forall i | 0 <= i < |v| :: u[i] == if i == |v| - 1 - j then x else Held(v, j, i + 1)
  {
    var n := |v|;
    var b' := b[Spot(n, idx, n - j) := x];
    var u := Ring(b', if idx < n - 1 then idx + 1 else 0);
    forall i | 0 <= i < n ensures u[i] == if i == n - 1 - j then x else Held(v, j, i + 1) {
      assert u[i] == b'[Spot(n, idx, i + 1)];
      SpotDistinct(n, idx, i + 1, n - j);
    }
  }

  // The same when the shift has come round, having moved every other entry.
  lemma FillOldest(b: seq<int>, idx: nat, v: seq<int>, x: int)
    requires |v| > 1 && ShiftedBy(b, idx, v, |v| - 1)
    requires forall i | 1 <= i < |v| :: v[i] > x
    ensures Ring(b[Spot(|v|, idx, 1) := v[|v| - 1]][idx := x], if idx < |b| - 1 then idx + 1 else 0) == Added(v, x)
  {
    var n := |v|;
    var b' := b[Spot(n, idx, 1) := v[n - 1]][idx := x];
    var u := Ring(b', if idx < n - 1 then idx + 1 else 0);
    forall i | 0 <= i < n ensures u[i] == if i == n - 1 then x else if i == 0 then v[n - 1] else v[i] {
      assert u[i] == b'[Spot(n, idx, i + 1)];
      SpotDistinct(n, idx, i + 1, 1);
      SpotDistinct(n, idx, i + 1, n);
      assert b[Spot(n, idx, i + 1)] == Held(v, n - 1, i + 1);
    }
    WrappedIsAdded(v, x, u);
  }

  lemma InsertedIsAdded(v: seq<int>, x: int, j: nat, u: seq<int>)
    requires v != [] && j < |v| == |u| && (j < |v| - 1 || j == 0)
    requires forall i | |v| - j <= i < |v| :: v[i] > x
    requires j < |v| - 1 ==> v[|v| - 1 - j] <= x
    requires forall i | 0 <= i < |v| :: u[i] == if i == |v| - 1 - j then x else Held(v, j, i + 1)
    ensures u == Added(v, x)
  {
    LaterIs(v, x, j);
    var n := |v|;
    var a := v[1..n - j] + [x] + v[n - j..];
    assert forall i | 0 <= i < n :: a[i] == if i == n - 1 - j then x else Held(v, j, i + 1);
  }

  // The shift has come round: every other entry is later than x.
  lemma WrappedIsAdded(v: seq<int>, x: int, u: seq<int>)
    requires |v| == |u| > 1
    requires forall i | 1 <= i < |v| :: v[i] > x
    requires u[0] == v[|v| - 1] && u[|v| - 1] == x
    requires forall i | 0 < i < |v| - 1 :: u[i] == v[i]
    ensures u == Added(v, x)
  {
    LaterIs(v, x, |v| - 1);
  }

  lemma {:induction false} LaterIs(v: seq<int>, x: int, k: nat)
    requires k < |v|
    requires forall i | |v| - k <= i < |v| :: v[i] > x
    requires k < |v| - 1 ==> v[|v| - 1 - k] <= x
    ensures Later(v, x) == k
  {
    if k > 0 {
      LaterIs(v[..|v| - 1], x, k - 1);
    }
  }

  // In every case exactly the oldest entry goes and x comes.
  lemma AddedContents(v: seq<int>, x: int)
    requires v != []
    ensures |Added(v, x)| == |v|
    ensures multiset(Added(v, x)) == multiset(v) - multiset{v[0]} + multiset{x}
  {
    var n, k := |v|, Later(v, x);
    if 0 < k == n - 1 {
      assert v == [v[0]] + v[1..n - 1] + [v[n - 1]];
      CameAndWent([v[0]], v[1..n - 1], [v[n - 1]], [x], v, Added(v, x));
    } else {
      assert v == [v[0]] + v[1..n - k] + v[n - k..];
      CameAndWent([v[0]], v[1..n - k], v[n - k..], [x], v, Added(v, x));
    }
  }

  lemma CameAndWent(a: seq<int>, m: seq<int>, b: seq<int>, x: seq<int>, v: seq<int>, v': seq<int>)
    requires v == a + m + b && (v' == m + x + b || v' == b + m + x)
    ensures multiset(v') == multiset(v) - multiset(a) + multiset(x)
  {
  }

  ghost predicate Sorted(v: seq<int>) {
    forall i, j | 0 <= i < j < |v| :: v[i] <= v[j]
  }

  // The order survives exactly when x is not older than the second-oldest entry.
  lemma AddedSorted(v: seq<int>, x: int)
    requires v != [] && Sorted(v)
    ensures Sorted(Added(v, x)) <==> |v| == 1 || v[1] <= x
  {
    var n, k := |v|, Later(v, x);
    if 0 < k == n - 1 {
      assert Added(v, x)[n - 1] == x && Added(v, x)[n - 2] > x;
    } else {
      InsertSorted(v[1..n - k], x, v[n - k..], v[1..]);
      assert n > 1 ==> v[1] <= v[n - 1 - k];
    }
  }

  lemma InsertSorted(a: seq<int>, x: int, b: seq<int>, v: seq<int>)
    requires v == a + b && Sorted(v)
    requires a != [] ==> a[|a| - 1] <= x
    requires forall i | 0 <= i < |b| :: b[i] > x
    ensures Sorted(a + [x] + b)
  {
    var u := a + [x] + b;
    forall i, j | 0 <= i < j < |u| ensures u[i] <= u[j] {
      assert i < |a| ==> u[i] == v[i] <= v[|a| - 1];
      assert i > |a| ==> u[i] == v[i - 1];
      assert j < |a| ==> u[j] == v[j];
      assert j > |a| ==> u[j] == v[j - 1];
    }
  }

  function Zeros(size: nat): seq<int> { seq(size, i => 0) }

  // The window after a log of activations.
  ghost function Window(size: nat, acts: seq<int>): (v: seq<int>)
    requires size > 0
    ensures |v| == size
  {
    if acts == [] then Zeros(size)
    else
      var v := Window(size, acts[..|acts| - 1]);
      AddedContents(v, acts[|acts| - 1]);
      Added(v, acts[|acts| - 1])
  }

  // Each activation came at least gap cycles after the entry it replaced, which is what the
  // controller asks of minActCycle.
  ghost predicate Spaced(size: nat, gap: int, acts: seq<int>)
    requires size > 0
  {
    acts == [] ||
    var before := acts[..|acts| - 1];
    Spaced(size, gap, before) && acts[|acts| - 1] >= Window(size, before)[0] + gap
  }

  // The activations fall into size chains: each extends the chain whose last activation it
  // replaced in the window. chain[i] is the chain of acts[i], last[c] the latest of chain c (0
  // while it is empty).
  ghost predicate Chained(size: nat, gap: int, acts: seq<int>, chain: seq<nat>, last: seq<int>)
    requires size > 0
  {
    && |chain| == |acts| && |last| == size
    && multiset(last) == multiset(Window(size, acts))
    && (forall i | 0 <= i < |acts| :: chain[i] < size && acts[i] <= last[chain[i]])
    && forall i, j | 0 <= i < j < |acts| && chain[i] == chain[j] :: acts[j] >= acts[i] + gap
  }

  lemma {:induction false} ChainsExist(size: nat, gap: int, acts: seq<int>)
    returns (chain: seq<nat>, last: seq<int>)
    requires size > 0 && gap >= 0 && Spaced(size, gap, acts)
    ensures Chained(size, gap, acts, chain, last)
  {
    if acts == [] {
      chain, last := [], Zeros(size);
    } else {
      var n := |acts| - 1;
      var v := Window(size, acts[..n]);
      var chain0, last0 := ChainsExist(size, gap, acts[..n]);
      assert v[0] in multiset(last0);
      var c: nat :| c < size && last0[c] == v[0];
      chain, last := chain0 + [c], last0[c := acts[n]];
      AddedContents(v, acts[n]);
      ExtendChain(size, gap, acts, chain0, last0, c);
    }
  }

  lemma ExtendChain(size: nat, gap: int, acts: seq<int>, chain0: seq<nat>, last0: seq<int>, c: nat)
    requires size > 0 && gap >= 0 && acts != [] && c < size
    requires Chained(size, gap, acts[..|acts| - 1], chain0, last0)
    requires acts[|acts| - 1] >= last0[c] + gap
    ensures var chain, last := chain0 + [c], last0[c := acts[|acts| - 1]];
            && (forall i | 0 <= i < |acts| :: chain[i] < size && acts[i] <= last[chain[i]])
            && forall i, j | 0 <= i < j < |acts| && chain[i] == chain[j] :: acts[j] >= acts[i] + gap
  {
    var n := |acts| - 1;
    assert forall i | 0 <= i < n :: acts[..n][i] == acts[i];
  }

  // More indices than chains: two of them share one.
  lemma {:induction false} TwoShareAChain(chain: seq<nat>, size: nat, s: set<nat>) returns (i: nat, j: nat)
    requires forall k | k in s :: k < |chain| && chain[k] < size
    requires |s| > size
    ensures i in s && j in s && i < j && chain[i] == chain[j]
    decreases size
  {
    var top := set k | k in s && chain[k] == size - 1;
    if size == 0 {
      NoChain(chain, s);
      assert false;
    } else if |top| <= 1 {
      var rest := s - top;
      MinusSize(s, top);
      i, j := TwoShareAChain(chain, size - 1, rest);
    } else {
      i, j := TwoOf(top);
    }
  }

  lemma NoChain(chain: seq<nat>, s: set<nat>)
    requires forall k | k in s :: k < |chain| && chain[k] < 0
    ensures s == {}
  {
  }

  lemma TwoOf(s: set<nat>) returns (i: nat, j: nat)
    requires |s| > 1
    ensures i in s && j in s && i < j
  {
    var a :| a in s;
    MinusSize(s, {a});
    assert s - {a} != {};
    var b :| b in s - {a};
    if a < b { i, j := a, b; } else { i, j := b, a; }
  }

  // The four-activation-window rule: among any size + 1 activations of a rank some two are at
  // least gap cycles apart. It holds whether or not the window stays in order.
  lemma NoFiveTooClose(size: nat, gap: int, acts: seq<int>, s: set<nat>) returns (i: nat, j: nat)
    requires size > 0 && gap >= 0 && Spaced(size, gap, acts)
    requires |s| > size && forall k | k in s :: k < |acts|
    ensures i in s && j in s && acts[j] >= acts[i] + gap
  {
    var chain, last := ChainsExist(size, gap, acts);
    i, j := TwoShareAChain(chain, size, s);
  }
}

module ActivationWindow {
  import opened ActWindowLog

  class ActWindow {
    var buf: array<int>
    var idx: nat

    function Inc(i: nat): nat
      reads this
    {
      if i < buf.Length - 1 then i + 1 else 0
    }

    function Dec(i: nat): nat
      requires buf.Length > 0
      reads this
    {
      PrevIndex(buf.Length, i)
    }

    ghost predicate Valid()
      reads this
    {
      idx < buf.Length
    }

    ghost function View(): (v: seq<int>)
      requires Valid()
      reads this, buf
    {
      Ring(buf[..], idx)
    }

    constructor (size: nat)
      requires size > 0
      ensures Valid() && fresh(buf) && View() == Zeros(size)
    {
      buf := new int[size](i => 0);
      idx := 0;
    }

    function MinActCycle(): (c: int)
      requires Valid()
      reads this, buf
      ensures c == View()[0]
    {
      buf[idx]
    }

    // Moves the entries later than the new one up by one, from the newest on, and puts the new one
    // where that leaves a hole.
    method AddActivation(actCycle: int)
      requires Valid() && MinActCycle() <= actCycle
      modifies this, buf
      ensures Valid() && buf == old(buf)
      ensures View() == Added(old(View()), actCycle)
    {
      ghost var v := View();
      ghost var n := |v|;
      ghost var j := 0;
      var cur := idx;
      ShiftStart(buf[..], idx);
      while buf[Dec(cur)] > actCycle
        invariant buf == old(buf) && idx == old(idx)
        invariant 0 <= j < n && cur == Spot(n, idx, n - j) && ShiftedBy(buf[..], idx, v, j)
        invariant forall i | n - j <= i < n :: v[i] > actCycle
        decreases n - j
      {
        ghost var b := buf[..];
        NextOlder(b, idx, v, j);
        buf[cur] := buf[Dec(cur)];
        cur := Dec(cur);
        if cur == idx {
          assert buf[..] == b[Spot(n, idx, 1) := v[n - 1]];
          FillOldest(b, idx, v, actCycle);
          break;
        }
        assert buf[..] == b[Spot(n, idx, n - j) := v[n - 1 - j]];
        ShiftOne(b, idx, v, j);
        j := j + 1;
      }
      if cur != idx || j == 0 { FillHole(buf[..], idx, v, actCycle, j); }
      buf[cur] := actCycle;
      idx := Inc(idx);
    }
  }
}
