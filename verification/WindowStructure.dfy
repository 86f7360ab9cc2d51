// The instruction window's port-reservation table. Conceptually it is one table with a row per
// cycle; it is stored as two arrays of H cycles, used in turn, and an ordered map for the cycles
// beyond them.

module WindowTable {
  import opened Arith
  import opened Sets

  // An 8-bit port mask.
  type Ports = s: set<nat> | forall p | p in s :: p < 8

  // What is reserved in one cycle: the busy ports, and how many of them hold counted uops (the
  // others are shadow reservations: extra slots and poisoned ports).
  datatype Slot = Slot(occUnits: Ports, count: nat)

  const EMPTY := Slot({}, 0)

  function Avail(s: Slot, mask: Ports): Ports { mask - s.occUnits }

  function LowestFrom(avail: Ports, p: nat): (r: nat)
    requires exists q :: q in avail && q >= p
    ensures r in avail && forall q | q in avail && q >= p :: r <= q
    decreases 8 - p
  {
    if p in avail then p else LowestFrom(avail, p + 1)
  }

  // Find-first-set.
  function FirstPort(avail: Ports): (p: nat)
    requires avail != {}
    ensures p in avail && forall q | q in avail :: p <= q
  {
    var q :| q in avail;
    LowestFrom(avail, 0)
  }

  // The slot after a try; a failed try leaves it as it was.
  function Tried(s: Slot, mask: Ports, touch: bool): Slot {
    if !touch then Slot(s.occUnits + mask, s.count)
    else if Avail(s, mask) == {} then s
    else Slot(s.occUnits + {FirstPort(Avail(s, mask))}, s.count + 1)
  }

  // A try fails exactly when all ports of the mask are taken, and then changes nothing. A uop takes the
  // lowest free port of the mask, a shadow reservation every port of it.
  lemma NoDoubleBooking(s: Slot, mask: Ports, touch: bool)
    ensures Avail(s, mask) == {} <==> forall p | p in mask :: p in s.occUnits
    ensures Avail(s, mask) == {} ==> Tried(s, mask, touch) == s
    ensures Avail(s, mask) != {} && touch ==>
              exists p: nat :: p in mask && p !in s.occUnits && (forall q | q in mask && q < p :: q in s.occUnits)
                && Tried(s, mask, touch) == Slot(s.occUnits + {p}, s.count + 1)
    ensures Avail(s, mask) != {} && !touch ==> Tried(s, mask, touch) == Slot(s.occUnits + mask, s.count) != s
  {
    if Avail(s, mask) == {} {
      assert forall p | p in mask :: p !in Avail(s, mask) ==> p in s.occUnits;
    } else {
      var p := FirstPort(Avail(s, mask));
      assert p in mask && p !in s.occUnits;
      assert forall q | q in mask && q < p :: q !in Avail(s, mask);
    }
  }

  // The two arrays and the map; base is the cycle of the first entry of cur.
  datatype Win = Win(base: int, cur: seq<Slot>, next: seq<Slot>, beyond: map<int, Slot>)

  ghost predicate Shaped(w: Win, h: nat) {
    h > 0 && |w.cur| == h && |w.next| == h && forall c | c in w.beyond :: c >= w.base + 2 * h
  }

  // The map holds no empty slot.
  ghost predicate Tight(w: Win) {
    forall c | c in w.beyond :: w.beyond[c] != EMPTY
  }

  // The conceptual table.
  function At(w: Win, c: int): Slot {
    if c < w.base then EMPTY
    else if c < w.base + |w.cur| then w.cur[c - w.base]
    else if c < w.base + |w.cur| + |w.next| then w.next[c - w.base - |w.cur|]
    else if c in w.beyond then w.beyond[c]
    else EMPTY
  }

  function SetAt(w: Win, c: int, s: Slot): (w': Win)
    requires c >= w.base
    ensures forall d :: At(w', d) == if d == c then s else At(w, d)
    ensures w'.base == w.base
  {
    if c < w.base + |w.cur| then w.(cur := w.cur[c - w.base := s])
    else if c < w.base + |w.cur| + |w.next| then w.(next := w.next[c - w.base - |w.cur| := s])
    else w.(beyond := w.beyond[c := s])
  }

  lemma SetAtShaped(w: Win, h: nat, c: int, s: Slot)
    requires Shaped(w, h) && c >= w.base
    ensures Shaped(SetAt(w, c, s), h)
    ensures Tight(w) && (s != EMPTY || c < w.base + h) ==> Tight(SetAt(w, c, s))
  {
  }

  function SumSeq(s: seq<Slot>): nat {
    if s == [] then 0 else s[0].count + SumSeq(s[1..])
  }

  ghost function SumMap(m: map<int, Slot>): nat {
    if m.Keys == {} then 0
    else
      var c := PickOne(m.Keys);
      m[c].count + SumMap(m - {c})
  }

  ghost function Total(w: Win): nat { SumSeq(w.cur) + SumSeq(w.next) + SumMap(w.beyond) }

  lemma {:induction false} SumSeqUpdate(s: seq<Slot>, i: nat, v: Slot)
    requires i < |s|
    ensures SumSeq(s[i := v]) == SumSeq(s) - s[i].count + v.count
    ensures s[i].count <= SumSeq(s)
  {
    if i == 0 {
      assert s[i := v][1..] == s[1..];
    } else {
      assert s[i := v][1..] == s[1..][i - 1 := v];
      SumSeqUpdate(s[1..], i - 1, v);
    }
  }

  lemma {:induction false} SumMapRemove(m: map<int, Slot>, c: int)
    requires c in m
    ensures SumMap(m) == m[c].count + SumMap(m - {c})
  {
    var d := PickOne(m.Keys);
    if d != c {
      SumMapRemove(m - {d}, c);
      SumMapRemove(m - {c}, d);
      assert m - {d} - {c} == m - {c} - {d};
    }
  }

  lemma SumMapInsert(m: map<int, Slot>, c: int, v: Slot)
    ensures SumMap(m[c := v]) == SumMap(m) - (if c in m then m[c].count else 0) + v.count
  {
    SumMapRemove(m[c := v], c);
    if c in m {
      SumMapRemove(m, c);
      assert m[c := v] - {c} == m - {c};
    } else {
      assert m[c := v] - {c} == m;
    }
  }

  // Some of the map m0 has moved to the array that starts at cycle start; m is left. Everything
  // beyond the array is left.
  ghost predicate PartMoved(m0: map<int, Slot>, m: map<int, Slot>, next: seq<Slot>, start: int) {
    && (forall c | c in m :: c in m0 && m[c] == m0[c])
    && (forall c | c in m0 && c >= start + |next| :: c in m)
    && (forall i | 0 <= i < |next| ::
          next[i] == if start + i in m0 && start + i !in m then m0[start + i] else EMPTY)
    && SumSeq(next) + SumMap(m) == SumMap(m0)
  }

  lemma NothingMoved(m: map<int, Slot>, next: seq<Slot>, start: int)
    requires forall i | 0 <= i < |next| :: next[i] == EMPTY
    ensures PartMoved(m, m, next, start)
  {
    SumSeqZero(next);
  }

  lemma MoveOne(m0: map<int, Slot>, m: map<int, Slot>, next: seq<Slot>, start: int, c: int)
    requires PartMoved(m0, m, next, start) && c in m && start <= c < start + |next|
    ensures PartMoved(m0, m - {c}, next[c - start := m[c]], start)
  {
    SumSeqUpdate(next, c - start, m[c]);
    SumMapRemove(m, c);
  }

  lemma TotalSetAt(w: Win, c: int, s: Slot)
    requires c >= w.base
    requires forall d | d in w.beyond :: d >= w.base + |w.cur| + |w.next|
    ensures Total(SetAt(w, c, s)) == Total(w) - At(w, c).count + s.count
  {
    if c < w.base + |w.cur| {
      SumSeqUpdate(w.cur, c - w.base, s);
    } else if c < w.base + |w.cur| + |w.next| {
      SumSeqUpdate(w.next, c - w.base - |w.cur|, s);
    } else {
      SumMapInsert(w.beyond, c, s);
    }
  }

  lemma {:induction false} SumSeqZero(s: seq<Slot>)
    requires forall i | 0 <= i < |s| :: s[i] == EMPTY
    ensures SumSeq(s) == 0
  {
    if s != [] { SumSeqZero(s[1..]); }
  }

  lemma {:induction false} SumSeqWitness(s: seq<Slot>) returns (i: nat)
    requires SumSeq(s) > 0
    ensures i < |s| && s[i].count > 0
  {
    if s[0].count > 0 { i := 0; } else { var j := SumSeqWitness(s[1..]); i := j + 1; }
  }

  lemma {:induction false} SumMapWitness(m: map<int, Slot>) returns (c: int)
    requires SumMap(m) > 0
    ensures c in m && m[c].count > 0
  {
    c := PickOne(m.Keys);
    if m[c].count == 0 {
      c := SumMapWitness(m - {c});
    }
  }

  lemma TotalWitness(w: Win, h: nat) returns (c: int)
    requires Shaped(w, h) && Total(w) > 0
    ensures c >= w.base && At(w, c).count > 0
  {
    if SumSeq(w.cur) > 0 {
      var i := SumSeqWitness(w.cur);
      c := w.base + i;
    } else if SumSeq(w.next) > 0 {
      var i := SumSeqWitness(w.next);
      c := w.base + h + i;
    } else {
      c := SumMapWitness(w.beyond);
    }
  }

  // w' is w with everything before cycle c retired.
  ghost predicate RetiredTo(w: Win, w': Win, c: int) {
    forall d :: At(w', d) == if d < c then EMPTY else At(w, d)
  }

  lemma RetiredSelf(w: Win, pos: nat)
    requires pos <= |w.cur| && forall i | 0 <= i < pos :: w.cur[i] == EMPTY
    ensures RetiredTo(w, w, w.base + pos)
  {
  }

  lemma RetiredChain(w: Win, v: Win, u: Win, c: int, d: int)
    requires RetiredTo(w, v, c) && RetiredTo(v, u, d) && c <= d
    ensures RetiredTo(w, u, d)
  {
  }

  // Cycle next follows the first cycle from cur on that holds a counted uop.
  ghost predicate PastFirstUop(w: Win, cur: int, next: int) {
    next > cur && At(w, next - 1).count > 0 && NoUops(w, cur, next - 1)
  }

  ghost predicate NoUops(w: Win, from: int, until: int) {
    forall c | from <= c < until :: At(w, c).count == 0
  }

  lemma NextUop(w: Win, cur: int, next: int, ahead: int)
    requires cur <= next <= ahead && At(w, ahead).count > 0 && NoUops(w, cur, next)
    ensures if At(w, next).count > 0 then PastFirstUop(w, cur, next + 1)
            else next + 1 <= ahead && NoUops(w, cur, next + 1)
  {
  }

  ghost predicate UopFrom(w: Win, from: int) {
    exists c :: c >= from && At(w, c).count > 0
  }

  // r is the first cycle from start on with a free permitted port.
  ghost predicate FirstFree(w: Win, start: int, mask: Ports, r: int) {
    r >= start && Avail(At(w, r), mask) != {} && forall c | start <= c < r :: Avail(At(w, c), mask) == {}
  }

  function LastOf(sched: int, slots: seq<int>): int {
    if slots == [] then sched else slots[|slots| - 1]
  }

  // The cycles at which the extra slots of a uop issued in cycle sched are booked: each the first
  // one after the slot before with the uop's port free.
  ghost predicate ExtraSlots(w: Win, sched: int, mask: Ports, slots: seq<int>) {
    slots == [] ||
    var before := slots[..|slots| - 1];
    ExtraSlots(w, sched, mask, before) && FirstFree(w, LastOf(sched, before) + 1, mask, LastOf(sched, slots))
  }

  // w' is w with the extra slots booked.
  ghost predicate AfterExtra(w: Win, w': Win, mask: Ports, slots: seq<int>) {
    forall c :: At(w', c) == if c in slots then Tried(At(w, c), mask, false) else At(w, c)
  }

  // The first free cycle does not depend on what is booked before the search starts.
  lemma SameFirstFree(w: Win, v: Win, start: int, mask: Ports, r: int)
    requires forall c | c >= start :: At(v, c) == At(w, c)
    requires FirstFree(v, start, mask, r)
    ensures FirstFree(w, start, mask, r)
  {
    assert At(v, r) == At(w, r);
    forall c | start <= c < r ensures Avail(At(w, c), mask) == {} {
      assert At(v, c) == At(w, c);
    }
  }

  lemma {:induction false} SlotsAfter(w: Win, sched: int, mask: Ports, slots: seq<int>)
    requires ExtraSlots(w, sched, mask, slots)
    ensures forall c | c in slots :: sched < c <= LastOf(sched, slots)
    ensures sched <= LastOf(sched, slots)
  {
    if slots != [] {
      var before := slots[..|slots| - 1];
      SlotsAfter(w, sched, mask, before);
      assert slots == before + [LastOf(sched, slots)];
    }
  }

  lemma {:induction false} SameExtraSlots(w: Win, v: Win, sched: int, mask: Ports, slots: seq<int>)
    requires ExtraSlots(v, sched, mask, slots)
    requires forall c | c > sched :: At(v, c) == At(w, c)
    ensures ExtraSlots(w, sched, mask, slots)
  {
    if slots != [] {
      var before := slots[..|slots| - 1];
      SameExtraSlots(w, v, sched, mask, before);
      SlotsAfter(v, sched, mask, before);
      SameFirstFree(w, v, LastOf(sched, before) + 1, mask, LastOf(sched, slots));
    }
  }

  // One more slot: the search starts after the last one, so it sees the table as it was.
  lemma OneMoreSlot(w: Win, v: Win, v': Win, sched: int, mask: Ports, slots: seq<int>, r: int)
    requires ExtraSlots(w, sched, mask, slots) && AfterExtra(w, v, mask, slots)
    requires FirstFree(v, LastOf(sched, slots) + 1, mask, r)
    requires forall c :: At(v', c) == if c == r then Tried(At(v, c), mask, false) else At(v, c)
    ensures FirstFree(w, LastOf(sched, slots) + 1, mask, r)
    ensures ExtraSlots(w, sched, mask, slots + [r]) && AfterExtra(w, v', mask, slots + [r])
  {
    SlotsAfter(w, sched, mask, slots);
    SameFirstFree(w, v, LastOf(sched, slots) + 1, mask, r);
    assert (slots + [r])[..|slots|] == slots;
    assert r !in slots;
  }

  // w' is w with every cycle from cur to last poisoned.
  ghost predicate Poisoned(w: Win, w': Win, cur: int, last: int, mask: Ports) {
    forall c :: At(w', c) == if cur <= c <= last then Tried(At(w, c), mask, false) else At(w, c)
  }

  // Poisoning one more cycle, the first one with a free port of the mask.
  lemma PoisonNext(w: Win, v: Win, v': Win, cur: int, last: int, mask: Ports, r: int)
    requires Poisoned(w, v, cur, last, mask) && cur - 1 <= last
    requires FirstFree(v, Max(last, cur), mask, r)
    requires forall c :: At(v', c) == if c == r then Tried(At(v, c), mask, false) else At(v, c)
    ensures Poisoned(w, v', cur, r, mask) && FirstFree(w, last + 1, mask, r)
  {
    forall c | cur <= c <= last ensures Avail(At(v, c), mask) == {} {
      assert Tried(At(w, c), mask, false).occUnits == At(w, c).occUnits + mask;
    }
    assert r > last;
    SameFirstFree(w, v, last + 1, mask, r);
    forall c | last < c < r ensures Tried(At(w, c), mask, false) == At(w, c) {
      NoDoubleBooking(At(w, c), mask, false);
    }
  }

  // The first key of an ordered map.
  function FirstKey(m: map<int, Slot>): (c: int)
    requires m.Keys != {}
    ensures c in m && forall d | d in m :: c <= d
  {
    assert exists c :: c in m && forall d | d in m :: c <= d by { var c := HasFirst(m.Keys); }
    var c :| c in m && forall d | d in m :: c <= d; c
  }

  lemma {:induction false} HasFirst(s: set<int>) returns (c: int)
    requires s != {}
    ensures c in s && forall d | d in s :: c <= d
  {
    var x := PickOne(s);
    var rest := s - {x};
    c := x;
    if rest != {} {
      var e := HasFirst(rest);
      if e < x { c := e; }
    }
    forall d | d in s ensures c <= d {
      assert d == x || d in rest;
    }
  }

  // The arrays hold nothing, counted or shadow.
  ghost predicate ArraysClear(w: Win) {
    && (forall i | 0 <= i < |w.cur| :: w.cur[i] == EMPTY)
    && (forall i | 0 <= i < |w.next| :: w.next[i] == EMPTY)
  }

  // The same storage read from a later cycle on: what the jump at the end of longAdvance does.
  function Jumped(w: Win, d: nat): Win { w.(base := w.base + d) }

  // Every reservation from cycle target on is where it was.
  ghost predicate SameFrom(w: Win, w': Win, target: int) {
    forall c | c >= target :: At(w', c) == At(w, c)
  }

  // A jump by d > 0 keeps the table exactly when no reservation, not even a shadow one, is left in
  // the arrays and the map holds none before the new horizon.
  lemma JumpExact(w: Win, h: nat, d: nat, target: int)
    requires Shaped(w, h) && d > 0 && target <= w.base + d + h
    requires forall c | w.base <= c < target - d && c < w.base + h :: At(w, c) == EMPTY
    ensures Shaped(Jumped(w, d), h) && SameFrom(w, Jumped(w, d), target)
            <==> ArraysClear(w) && forall c | c in w.beyond :: c >= w.base + d + 2 * h
  {
    var w' := Jumped(w, d);
    if !ArraysClear(w) {
      var c := LastBusy(w, h);
      if c + d !in w.beyond {
        assert At(w', c + d) != At(w, c + d);
      }
    }
    if ArraysClear(w) && forall c | c in w.beyond :: c >= w.base + d + 2 * h {
      forall c | c >= target ensures At(w', c) == At(w, c) {
      }
    }
  }

  lemma {:induction false} SumMapAt(m: map<int, Slot>, c: int)
    requires c in m
    ensures m[c].count <= SumMap(m)
  {
    SumMapRemove(m, c);
  }

  lemma DrainedIsZero(w: Win, v: Win, h: nat, d: int)
    requires Shaped(v, h) && Total(v) == 0 && RetiredTo(w, v, d)
    ensures forall c | c >= d :: At(w, c).count == 0
  {
    forall c | c >= d ensures At(w, c).count == 0 {
      assert At(v, c) == At(w, c);
      if v.base <= c < v.base + h {
        SumSeqUpdate(v.cur, c - v.base, EMPTY);
      } else if v.base + h <= c < v.base + 2 * h {
        SumSeqUpdate(v.next, c - v.base - h, EMPTY);
      } else if c in v.beyond {
        SumMapAt(v.beyond, c);
      }
    }
  }

  // Nothing is reserved in the cycles from c to before d.
  ghost predicate FreeRange(w: Win, c: int, d: int) {
    forall e | c <= e < d :: At(w, e) == EMPTY
  }

  // The jump from cycle d, where w had been retired to v, to the target: it keeps the table exactly
  // when nothing, not even a shadow, is reserved before the horizon that it brings.
  lemma JumpAfterDrain(w: Win, v: Win, h: nat, d: int, target: int)
    requires Shaped(v, h) && Tight(v) && RetiredTo(w, v, d) && v.base <= d < v.base + h && d < target
    requires forall i | 0 <= i < d - v.base :: v.cur[i] == EMPTY
    ensures var w' := Jumped(v, target - d);
            Shaped(w', h) && RetiredTo(w, w', target) <==> FreeRange(w, d, target - (d - v.base) + 2 * h)
    ensures Jumped(v, target - d).cur == v.cur && Tight(Jumped(v, target - d))
  {
    var w' := Jumped(v, target - d);
    assert forall c | v.base <= c < d :: At(v, c) == EMPTY;
    JumpExact(v, h, target - d, target);
    assert forall c | c >= target :: At(v, c) == At(w, c);
    assert forall c | w'.base <= c < target :: At(w', c) == v.cur[c - w'.base];
    ClearMeans(v, h, v.base + (target - d) + 2 * h);
    assert forall c | c >= d :: At(v, c) == At(w, c);
    if Shaped(w', h) && RetiredTo(w, w', target) {
      assert FreeRange(v, v.base, v.base + (target - d) + 2 * h);
    }
  }

  lemma ClearMeans(v: Win, h: nat, horizon: int)
    requires Shaped(v, h) && Tight(v) && horizon >= v.base + 2 * h
    ensures FreeRange(v, v.base, horizon) <==> ArraysClear(v) && forall c | c in v.beyond :: c >= horizon
  {
    if FreeRange(v, v.base, horizon) {
      FreeMeansClear(v, h, horizon);
    }
  }

  lemma FreeMeansClear(v: Win, h: nat, horizon: int)
    requires Shaped(v, h) && Tight(v) && horizon >= v.base + 2 * h && FreeRange(v, v.base, horizon)
    ensures ArraysClear(v) && forall c | c in v.beyond :: c >= horizon
  {
    forall i | 0 <= i < h ensures v.cur[i] == EMPTY && v.next[i] == EMPTY {
      assert At(v, v.base + i) == EMPTY && At(v, v.base + h + i) == EMPTY;
    }
    assert forall c | c in v.beyond :: At(v, c) == v.beyond[c];
  }

  // A shadow reservation for cycle 1 turns up at cycle 9 after a jump from cycle 1 to cycle 9.
  lemma ShadowMoves()
    ensures var w := Win(0, [EMPTY, Slot({2}, 0)], [EMPTY, EMPTY], map[]);
            Total(w) == 0 && At(w, 9) == EMPTY && At(Jumped(w, 8), 9) == Slot({2}, 0)
  {
    var w := Win(0, [EMPTY, Slot({2}, 0)], [EMPTY, EMPTY], map[]);
    assert SumSeq(w.cur[1..]) == SumSeq(w.next[1..]) == 0;
    assert w.beyond.Keys == {};
  }

  lemma LastBusy(w: Win, h: nat) returns (c: int)
    requires Shaped(w, h) && !ArraysClear(w)
    ensures w.base <= c < w.base + 2 * h && At(w, c) != EMPTY
    ensures forall e | c < e < w.base + 2 * h :: At(w, e) == EMPTY
  {
    if i :| 0 <= i < h && w.cur[i] != EMPTY {
      c := LastBusyBelow(w, w.base + i, w.base + 2 * h);
    } else {
      var i :| 0 <= i < h && w.next[i] != EMPTY;
      c := LastBusyBelow(w, w.base + h + i, w.base + 2 * h);
    }
  }

  lemma {:induction false} LastBusyBelow(w: Win, from: int, hi: int) returns (c: int)
    requires from < hi && At(w, from) != EMPTY
    ensures from <= c < hi && At(w, c) != EMPTY
    ensures forall e | c < e < hi :: At(w, e) == EMPTY
    decreases hi - from
  {
    if At(w, hi - 1) != EMPTY {
      c := hi - 1;
    } else {
      c := LastBusyBelow(w, from, hi - 1);
    }
  }
}

module WindowRing {
  import opened Arith
  import opened WindowTable

  // Where the search for a free slot starts, with the 32-bit delay and position of the source.
  function StartPos(curPos: nat, curCycle: int, schedCycle: int): nat {
    var delay := if schedCycle > curCycle then (schedCycle - curCycle) % TWO32 else 0;
    (curPos + delay) % TWO32
  }

  // The search starts at the requested cycle exactly when that is less than 2^32 cycles after the
  // first cycle of the current array.
  lemma StartPosExact(curPos: nat, curCycle: int, schedCycle: int)
    requires curPos < TWO32
    ensures StartPos(curPos, curCycle, schedCycle) == curPos + Max(schedCycle, curCycle) - curCycle
            <==> schedCycle < curCycle - curPos + TWO32
  {
    var d := Max(schedCycle, curCycle) - curCycle;
    if curPos + d < TWO32 {
      SmallRem(d, TWO32);
      SmallRem(curPos + d, TWO32);
    }
  }

  // A request 2^32 cycles ahead is searched for from the current cycle on. From position 3 one that
  // is 2^32 - 3 ahead is booked in a cycle already retired.
  lemma StartPosWraps()
    ensures StartPos(0, 0, TWO32) == 0 && StartPos(3, 3, TWO32) == 0
    ensures var w := Win(0, [EMPTY, EMPTY, EMPTY, EMPTY], [EMPTY, EMPTY, EMPTY, EMPTY], map[]);
            FirstFree(w, w.base + StartPos(3, 3, TWO32), {0}, 0)
  {
    var w := Win(0, [EMPTY, EMPTY, EMPTY, EMPTY], [EMPTY, EMPTY, EMPTY, EMPTY], map[]);
    assert 0 in Avail(At(w, 0), {0});
  }

  // An unsigned 32-bit difference.
  function Rem32(x: int): nat { x % TWO32 }

  lemma Rem32Small(x: int)
    requires -TWO32 < x < TWO32
    ensures Rem32(x) == if x < 0 then x + TWO32 else x
  {
  }

  // The storage after a booking in it: all before position pos is still empty unless that is where
  // it was booked.
  lemma BookedTable(w: Win, h: nat, pos: nat, booked: int, mask: Ports, touch: bool)
    requires Shaped(w, h) && Tight(w) && pos <= h
    requires booked >= w.base && Avail(At(w, booked), mask) != {}
    ensures var w' := SetAt(w, booked, Tried(At(w, booked), mask, touch));
            && Shaped(w', h) && Tight(w') && Total(w') == Total(w) + (if touch then 1 else 0)
            && (Retired(w', pos) <==> Retired(w, pos) && booked >= w.base + pos)
  {
    var s := Tried(At(w, booked), mask, touch);
    NoDoubleBooking(At(w, booked), mask, touch);
    TotalSetAt(w, booked, s);
    SetAtShaped(w, h, booked, s);
    assert s != EMPTY;
    var w' := SetAt(w, booked, s);
    if booked < w.base + pos { assert w'.cur[booked - w.base] == s; }
    else { assert forall i | 0 <= i < pos :: w'.cur[i] == w.cur[i]; }
  }

  // Nothing is reserved before position pos.
  ghost predicate Retired(w: Win, pos: nat) {
    pos <= |w.cur| && forall i | 0 <= i < pos :: w.cur[i] == EMPTY
  }

  // w' is w with all before cur retired and the first free cycle from the request on booked.
  ghost predicate BookedFrom(w: Win, w': Win, cur: int, schedCycle: int, sched: int, mask: Ports, touch: bool) {
    && FirstFree(w, Max(schedCycle, cur), mask, sched)
    && forall c :: At(w', c) ==
         if c < cur then EMPTY else if c == sched then Tried(At(w, c), mask, touch) else At(w, c)
  }

  lemma InReach(w: Win, v: Win, cur: int, pos: nat, schedCycle: int, mask: Ports, touch: bool, booked: int)
    requires RetiredTo(w, v, cur) && v.base == cur - pos && pos < TWO32 && schedCycle < cur - pos + TWO32
    requires FirstFree(v, v.base + StartPos(pos, cur, schedCycle), mask, booked)
    ensures booked >= cur && At(v, booked) == At(w, booked)
    ensures BookedFrom(w, SetAt(v, booked, Tried(At(v, booked), mask, touch)), cur, schedCycle, booked, mask, touch)
  {
    StartPosExact(pos, cur, schedCycle);
    assert forall c | c >= cur :: At(v, c) == At(w, c);
    SameFirstFree(w, v, Max(schedCycle, cur), mask, booked);
  }

  // The requests for the extra slots of a uop, each one cycle after the slot before, are within reach of
  // the 32-bit positions.
  ghost predicate NextReach(base: int, sched: int, slots: seq<int>) {
    forall i | 0 <= i < |slots| :: LastOf(sched, slots[..i]) + 1 < base + TWO32
  }

  lemma ReachPrefix(base: int, sched: int, slots: seq<int>, r: int)
    ensures NextReach(base, sched, slots + [r]) <==>
            NextReach(base, sched, slots) && LastOf(sched, slots) + 1 < base + TWO32
  {
    assert (slots + [r])[..|slots|] == slots;
    forall i | 0 <= i < |slots| ensures (slots + [r])[..i] == slots[..i] {}
  }

  // A uop issued in cycle sched, with its extra slots, all before cur being retired.
  ghost predicate UopBooked(w: Win, w': Win, cur: int, schedCycle: int, sched: int, slots: seq<int>, mask: Ports) {
    && FirstFree(w, Max(schedCycle, cur), mask, sched)
    && var port: Ports := {FirstPort(Avail(At(w, sched), mask))};
    && ExtraSlots(w, sched, port, slots)
    && forall c :: At(w', c) ==
         if c < cur then EMPTY
         else if c == sched then Tried(At(w, c), mask, true)
         else if c in slots then Tried(At(w, c), port, false)
         else At(w, c)
  }

  lemma ExtraBooked(w: Win, v: Win, w': Win, cur: int, schedCycle: int, sched: int, slots: seq<int>, mask: Ports)
    requires BookedFrom(w, v, cur, schedCycle, sched, mask, true)
    requires var port: Ports := {FirstPort(Avail(At(w, sched), mask))};
      ExtraSlots(v, sched, port, slots) && AfterExtra(v, w', port, slots)
    ensures UopBooked(w, w', cur, schedCycle, sched, slots, mask)
  {
    var port: Ports := {FirstPort(Avail(At(w, sched), mask))};
    SameExtraSlots(w, v, sched, port, slots);
    SlotsAfter(w, sched, port, slots);
  }

  // A request for cycle q does not come round to a position before that of cycle cur.
  ghost predicate Lands(base: int, cur: int, q: int) {
    q < cur || Rem32(q - base) >= cur - base
  }

  lemma LandsExact(v: Win, cur: int, pos: nat, q: int, mask: Ports, booked: int)
    requires v.base == cur - pos && pos < TWO32 && mask != {}
    requires forall c | v.base <= c < cur :: At(v, c) == EMPTY
    requires FirstFree(v, v.base + StartPos(pos, cur, q), mask, booked)
    ensures booked >= cur <==> Lands(v.base, cur, q)
  {
    if q >= cur {
      StartPosIs(pos, cur, q);
      SmallRem(pos, TWO32);
      var start := v.base + Rem32(q - v.base);
      if start < cur { assert Avail(At(v, start), mask) == mask; }
    }
  }

  // Neither does one of the requests for the extra slots of a uop.
  ghost predicate NextLands(base: int, cur: int, sched: int, slots: seq<int>) {
    forall i | 0 <= i < |slots| :: Lands(base, cur, LastOf(sched, slots[..i]) + 1)
  }

  lemma LandsPrefix(base: int, cur: int, sched: int, slots: seq<int>, r: int)
    ensures NextLands(base, cur, sched, slots + [r]) <==>
            NextLands(base, cur, sched, slots) && Lands(base, cur, LastOf(sched, slots) + 1)
  {
    assert (slots + [r])[..|slots|] == slots;
    forall i | 0 <= i < |slots| ensures (slots + [r])[..i] == slots[..i] {}
  }

  // What the loop over the extra slots keeps: w is the table before it, v the table now, and was
  // and valid say whether they are sound.
  ghost predicate Booking(w: Win, v: Win, cur: int, sched: int, mask: Ports, slots: seq<int>, was: bool, valid: bool) {
    && (valid <==> was && NextLands(w.base, cur, sched, slots))
    && (was && cur <= sched && NextReach(w.base, sched, slots) ==>
          valid && ExtraSlots(w, sched, mask, slots) && AfterExtra(w, v, mask, slots))
  }

  lemma BookingStep(w: Win, v: Win, v': Win, cur: int, sched: int, mask: Ports, slots: seq<int>, r: int,
                    was: bool, valid: bool, valid': bool)
    requires Booking(w, v, cur, sched, mask, slots, was, valid)
    requires var q := LastOf(sched, slots) + 1;
      && (valid' <==> valid && Lands(w.base, cur, q))
      && (valid && q < w.base + TWO32 ==> valid' && BookedFrom(v, v', cur, q, r, mask, false))
      && (valid ==> forall c | c < cur :: At(v, c) == EMPTY)
    ensures Booking(w, v', cur, sched, mask, slots + [r], was, valid')
  {
    ReachPrefix(w.base, sched, slots, r);
    LandsPrefix(w.base, cur, sched, slots, r);
    if was && cur <= sched && NextReach(w.base, sched, slots + [r]) {
      SlotsAfter(w, sched, mask, slots);
      OneMoreSlot(w, v, v', sched, mask, slots, r);
    }
  }

  // Nor does one for a cycle before the target that has a free port of the mask.
  ghost predicate Unwrapped(w: Win, cur: int, target: int, mask: Ports) {
    forall c | cur <= c < target && !Lands(w.base, cur, c) :: Avail(At(w, c), mask) == {}
  }

  // Poisoning has gone as it should up to cycle last, and goes on with request q.
  ghost predicate PoisonedTo(w: Win, v: Win, cur: int, target: int, mask: Ports, last: int, q: int) {
    && q == Max(last, cur) && last >= cur - 1 && v.base == w.base <= cur
    && Poisoned(w, v, cur, last, mask) && Unwrapped(w, cur, last, mask)
    && (last >= cur ==> Avail(At(w, last), mask) != {})
    && (last >= target && target > cur ==> FirstFree(w, target, mask, last))
  }

  // Where the search for a request from the current cycle on starts.
  lemma StartPosIs(pos: nat, cur: int, q: int)
    requires pos < TWO32 && q >= cur
    ensures StartPos(pos, cur, q) == Rem32(q - cur + pos)
  {
    ModShift(q - cur, pos, TWO32);
  }

  // One request of the poisoning loop: it goes on as it should, or ends up in a retired cycle because
  // cycle last has come round.
  lemma PoisonStep(w: Win, v: Win, v': Win, cur: int, pos: nat, target: int, mask: Ports,
                   last: int, q: int, booked: int)
    requires PoisonedTo(w, v, cur, target, mask, last, q) && q < target && mask != {}
    requires w.base == cur - pos && pos < TWO32 && forall c | v.base <= c < cur :: At(v, c) == EMPTY
    requires FirstFree(v, v.base + StartPos(pos, cur, q), mask, booked)
    requires v' == SetAt(v, booked, Tried(At(v, booked), mask, false))
    ensures booked >= cur ==> PoisonedTo(w, v', cur, target, mask, booked, booked)
    ensures booked < cur ==> !Unwrapped(w, cur, target, mask)
  {
    StartPosIs(pos, cur, q);
    SmallRem(pos, TWO32);
    var start := v.base + Rem32(q - v.base);
    if start < cur {
      assert Avail(At(v, start), mask) == mask;
      assert booked == start && last >= cur;
    } else {
      PoisonOn(w, v, v', cur, target, mask, last, q, start, booked);
    }
  }

  lemma PoisonOn(w: Win, v: Win, v': Win, cur: int, target: int, mask: Ports,
                 last: int, q: int, start: int, booked: int)
    requires PoisonedTo(w, v, cur, target, mask, last, q) && q < target
    requires cur <= start <= q && FirstFree(v, start, mask, booked)
    requires v' == SetAt(v, booked, Tried(At(v, booked), mask, false)) && booked >= v.base
    requires last >= cur ==> Rem32(last - w.base) >= cur - w.base
    ensures booked >= cur && PoisonedTo(w, v', cur, target, mask, booked, booked)
  {
    forall c | cur <= c <= last ensures Avail(At(v, c), mask) == {} {
      assert Tried(At(w, c), mask, false).occUnits == At(w, c).occUnits + mask;
    }
    assert booked >= q;
    assert FirstFree(v, q, mask, booked);
    PoisonNext(w, v, v', cur, last, mask, booked);
  }

  // The cycles before the target that still have a free port of the mask.
  ghost function FreeBelow(w: Win, target: int, mask: Ports): set<int> {
    set c | w.base <= c < target && Avail(At(w, c), mask) != {}
  }

  lemma FreeShrinks(v: Win, booked: int, target: int, mask: Ports)
    requires booked >= v.base && Avail(At(v, booked), mask) != {}
    ensures var v' := SetAt(v, booked, Tried(At(v, booked), mask, false));
      booked < target ==> FreeBelow(v', target, mask) < FreeBelow(v, target, mask)
  {
    var s := Tried(At(v, booked), mask, false);
    assert Avail(s, mask) == {};
    if booked < target { assert booked in FreeBelow(v, target, mask); }
  }

  lemma {:induction false} ExtraSlotAt(w: Win, sched: int, port: nat, slots: seq<int>, i: nat)
    requires port < 8 && ExtraSlots(w, sched, {port}, slots) && i < |slots|
    ensures slots[i] > ([sched] + slots)[i] && port !in At(w, slots[i]).occUnits
    ensures forall c | ([sched] + slots)[i] < c < slots[i] :: port in At(w, c).occUnits
  {
    var before := slots[..|slots| - 1];
    if i < |before| {
      ExtraSlotAt(w, sched, port, before, i);
    } else {
      assert forall c | LastOf(sched, before) < c < slots[i] :: Avail(At(w, c), {port}) == {};
      forall c | LastOf(sched, before) < c < slots[i] ensures port in At(w, c).occUnits {
        NoDoubleBooking(At(w, c), {port}, false);
      }
    }
  }

  // Port by port what a call does in cycle now. A full window gives up the cycles through the first that
  // holds a counted uop. The uop goes in the first cycle, neither before the request nor before cur,
  // with a port of the mask free, on the lowest such port; the extra slots go on the same port; and
  // nothing else is booked.
  lemma UopMeans(w: Win, w': Win, now: int, full: bool, cur: int, schedCycle: int, sched: int, slots: seq<int>,
                 mask: Ports) returns (port: nat)
    requires if full then PastFirstUop(w, now, cur) else cur == now
    requires UopBooked(w, w', cur, schedCycle, sched, slots, mask)
    ensures cur >= now && (forall c | now <= c < cur - 1 :: At(w, c).count == 0)
    ensures if full then cur > now && At(w, cur - 1).count > 0 else cur == now
    ensures sched >= schedCycle && sched >= cur
    ensures forall c, q | schedCycle <= c < sched && cur <= c && q in mask :: q in At(w, c).occUnits
    ensures port in mask && port !in At(w, sched).occUnits
    ensures forall q | q in mask && q < port :: q in At(w, sched).occUnits
    ensures At(w', sched) == Slot(At(w, sched).occUnits + {port}, At(w, sched).count + 1)
    ensures forall c | c in slots :: At(w', c) == Slot(At(w, c).occUnits + {port}, At(w, c).count)
    ensures forall c :: c != sched && c !in slots ==> At(w', c) == if c < cur then EMPTY else At(w, c)
  {
    port := FirstPort(Avail(At(w, sched), mask));
    forall c, q | schedCycle <= c < sched && cur <= c && q in mask ensures q in At(w, c).occUnits {
      NoDoubleBooking(At(w, c), mask, true);
    }
    assert forall q | q in mask && q < port :: q !in Avail(At(w, sched), mask);
    SlotsAfter(w, sched, {port}, slots);
  }

  // Each extra slot is in the next cycle with that port free after the one before it, or after the uop.
  lemma SlotMeans(w: Win, w': Win, cur: int, schedCycle: int, sched: int, slots: seq<int>, mask: Ports,
                  port: nat, i: nat)
    requires UopBooked(w, w', cur, schedCycle, sched, slots, mask) && i < |slots|
    requires port in mask && port !in At(w, sched).occUnits
    requires forall q | q in mask && q < port :: q in At(w, sched).occUnits
    ensures slots[i] > ([sched] + slots)[i] && port !in At(w, slots[i]).occUnits
    ensures forall c | ([sched] + slots)[i] < c < slots[i] :: port in At(w, c).occUnits
  {
    assert port == FirstPort(Avail(At(w, sched), mask));
    ExtraSlotAt(w, sched, port, slots, i);
  }

  // Port by port what poisoning does.
  lemma PoisonMeans(w: Win, w': Win, cur: int, target: int, last: int, mask: Ports)
    requires FirstFree(w, target, mask, last) && Poisoned(w, w', cur, last, mask)
    ensures last >= target && exists p :: p in mask && p !in At(w, last).occUnits
    ensures forall c, p | target <= c < last && p in mask :: p in At(w, c).occUnits
    ensures forall c | cur <= c <= last :: At(w', c) == Slot(At(w, c).occUnits + mask, At(w, c).count)
    ensures forall c | c < cur || c > last :: At(w', c) == At(w, c)
  {
    NoDoubleBooking(At(w, last), mask, false);
    forall c, p | target <= c < last && p in mask ensures p in At(w, c).occUnits {
      NoDoubleBooking(At(w, c), mask, false);
    }
  }

  function NextPos(pos: nat, h: nat): nat { if pos + 1 == h then 0 else pos + 1 }

  // The position after k advances.
  ghost function PosAfter(pos: nat, k: nat, h: nat): nat {
    if k == 0 then pos else NextPos(PosAfter(pos, k - 1, h), h)
  }

  lemma {:induction false} PosAfterIs(pos: nat, k: nat, h: nat)
    requires pos < h
    ensures PosAfter(pos, k, h) == (pos + k) % h
  {
    if k == 0 {
      SmallRem(pos, h);
    } else {
      PosAfterIs(pos, k - 1, h);
      NextRem(pos + k - 1, h);
    }
  }

  class WindowStructure {
    const H: nat
    const WSZ: nat
    var curWin: array<Slot>
    var nextWin: array<Slot>
    var ubWin: map<int, Slot>
    var occupancy: nat
    var curPos: nat
    var lastPort: nat

    // The callers keep the current cycle and pass it to every call.
    ghost function State(curCycle: int): Win
      reads this, curWin, nextWin
    {
      Win(curCycle - curPos, curWin[..], nextWin[..], ubWin)
    }

    ghost predicate Valid(curCycle: int)
      reads this, curWin, nextWin
    {
      && 0 < 2 * H < TWO32 && WSZ > 0 && curPos < H
      && curWin != nextWin
      && Shaped(State(curCycle), H) && Tight(State(curCycle))
      && (forall i | 0 <= i < curPos :: curWin[i] == EMPTY)
      && occupancy == Total(State(curCycle)) <= WSZ
    }

    // The same but for the cycles already retired, where a far request may end up.
    ghost predicate Sound(curCycle: int)
      reads this, curWin, nextWin
    {
      && 0 < 2 * H < TWO32 && WSZ > 0 && curPos < H
      && curWin != nextWin
      && Shaped(State(curCycle), H) && Tight(State(curCycle))
      && occupancy == Total(State(curCycle)) <= WSZ
    }

    lemma ValidMeans(curCycle: int)
      ensures Valid(curCycle) <==> Sound(curCycle) && Retired(State(curCycle), curPos)
    {
    }

    constructor (h: nat, wsz: nat)
      requires 0 < 2 * h < TWO32 && wsz > 0
      ensures Valid(0) && fresh(curWin) && fresh(nextWin) && H == h && WSZ == wsz
      ensures forall c :: At(State(0), c) == EMPTY
    {
      H, WSZ := h, wsz;
      curWin := new Slot[h](i => EMPTY);
      nextWin := new Slot[h](i => EMPTY);
      ubWin := map[];
      occupancy, curPos, lastPort := 0, 0, 0;
      new;
      SumSeqZero(curWin[..]);
      SumSeqZero(nextWin[..]);
    }

    // Tries the cycles of one array in turn.
    method TryFrom(win: array<Slot>, pos0: nat, portMask: Ports, touch: bool) returns (pos: nat)
      requires win.Length == H
      modifies win, `lastPort
      ensures pos >= pos0
      ensures forall i | pos0 <= i < pos && i < H :: Avail(old(win[i]), portMask) == {}
      ensures pos < H ==> Avail(old(win[pos]), portMask) != {}
      ensures win[..] == if pos < H then old(win[..])[pos := Tried(old(win[pos]), portMask, touch)] else old(win[..])
      ensures pos < H || pos == pos0 || pos == H
      ensures lastPort == if pos < H && touch then FirstPort(Avail(old(win[pos]), portMask)) else old(lastPort)
    {
      pos := pos0;
      while pos < H
        invariant pos >= pos0 && (pos <= H || pos == pos0)
        invariant win[..] == old(win[..])
        invariant forall i | pos0 <= i < pos && i < H :: Avail(old(win[i]), portMask) == {}
      {
        var avail := Avail(win[pos], portMask);
        if avail != {} {
          if touch { lastPort := FirstPort(avail); }
          win[pos] := Tried(win[pos], portMask, touch);
          return;
        }
        pos := pos + 1;
      }
    }

    // Tries the cycles beyond the arrays; an absent cycle is a free one.
    method TryBeyond(start: int, portMask: Ports, touch: bool) returns (c: int)
      requires portMask != {}
      modifies `ubWin, `lastPort
      ensures c >= start
      ensures forall d | start <= d < c :: d in old(ubWin) && Avail(old(ubWin)[d], portMask) == {}
      ensures var s := if c in old(ubWin) then old(ubWin)[c] else EMPTY;
              && Avail(s, portMask) != {} && ubWin == old(ubWin)[c := Tried(s, portMask, touch)]
              && lastPort == if touch then FirstPort(Avail(s, portMask)) else old(lastPort)
    {
      c := start;
      ghost var ahead := ubWin.Keys;
      while c in ubWin && Avail(ubWin[c], portMask) == {}
        invariant c >= start
        invariant forall d | start <= d < c :: d in ubWin && Avail(ubWin[d], portMask) == {}
        invariant forall d | d in ubWin && d >= c :: d in ahead
        decreases ahead
      {
        ahead := ahead - {c};
        c := c + 1;
      }
      var s := if c in ubWin then ubWin[c] else EMPTY;
      if touch { lastPort := FirstPort(Avail(s, portMask)); }
      ubWin := ubWin[c := Tried(s, portMask, touch)];
    }

    // Moves the reservations that come into reach out of the map.
    method Refill(curCycle: int)
      requires nextWin.Length == H > 0
      requires forall i | 0 <= i < H :: nextWin[i] == EMPTY
      requires forall c | c in ubWin :: c >= curCycle + H
      modifies `ubWin, nextWin
      ensures PartMoved(old(ubWin), ubWin, nextWin[..], curCycle + H)
      ensures forall c | c in ubWin :: c >= curCycle + 2 * H
    {
      NothingMoved(ubWin, nextWin[..], curCycle + H);
      var nextWinHorizon := curCycle + 2 * H;
      while ubWin.Keys != {} && FirstKey(ubWin) < nextWinHorizon
        invariant PartMoved(old(ubWin), ubWin, nextWin[..], curCycle + H)
        decreases ubWin.Keys
      {
        MoveFirst(old(ubWin), curCycle);
      }
    }

    method MoveFirst(ghost m0: map<int, Slot>, curCycle: int)
      requires nextWin.Length == H && PartMoved(m0, ubWin, nextWin[..], curCycle + H)
      requires (forall c | c in m0 :: c >= curCycle + H) && ubWin.Keys != {} && FirstKey(ubWin) < curCycle + 2 * H
      modifies `ubWin, nextWin
      ensures PartMoved(m0, ubWin, nextWin[..], curCycle + H) && ubWin.Keys < old(ubWin).Keys
    {
      var it := FirstKey(ubWin);
      var nextWinPos := it - H - curCycle;
      MoveOne(m0, ubWin, nextWin[..], curCycle + H, it);
      ghost var moved := nextWin[..][nextWinPos := ubWin[it]];
      nextWin[nextWinPos] := ubWin[it];
      assert nextWin[..] == moved;
      ubWin := ubWin - {it};
    }

    // The current array is used up: the next one takes its place.
    method Rebase(curCycle: int)
      requires curPos == H && curWin != nextWin && Shaped(State(curCycle), H)
      requires forall i | 0 <= i < H :: curWin[i] == EMPTY
      modifies this, curWin, nextWin
      ensures curPos == 0 && curWin == old(nextWin) && nextWin == old(curWin)
      ensures occupancy == old(occupancy) && lastPort == old(lastPort)
      ensures Shaped(State(curCycle), H) && (old(Tight(State(curCycle))) ==> Tight(State(curCycle)))
      ensures forall c :: At(State(curCycle), c) == old(At(State(curCycle), c))
      ensures Total(State(curCycle)) == old(Total(State(curCycle)))
    {
      SumSeqZero(curWin[..]);
      curWin, nextWin := nextWin, curWin;
      curPos := 0;
      Refill(curCycle);
    }

    method AdvancePos(curCycle: int) returns (next: int)
      requires Valid(curCycle)
      modifies this, curWin, nextWin
      ensures next == curCycle + 1 && Valid(next)
      ensures {curWin, nextWin} == {old(curWin), old(nextWin)}
      ensures RetiredTo(old(State(curCycle)), State(next), next)
      ensures occupancy == old(occupancy) - old(At(State(curCycle), curCycle)).count
      ensures curPos == NextPos(old(curPos), H)
    {
      ghost var w := State(curCycle);
      TotalSetAt(w, curCycle, EMPTY);
      SetAtShaped(w, H, curCycle, EMPTY);
      occupancy := occupancy - curWin[curPos].count;
      curWin[curPos] := EMPTY;
      curPos := curPos + 1;
      next := curCycle + 1;
      assert State(next) == SetAt(w, curCycle, EMPTY);
      if curPos == H {
        Rebase(next);
      }
    }

    // One advance of the two loops below, w being the table when the loop began.
    method RetireNext(ghost w: Win, curCycle: int) returns (next: int)
      requires Valid(curCycle) && RetiredTo(w, State(curCycle), curCycle)
      modifies this, curWin, nextWin
      ensures next == curCycle + 1 && Valid(next) && RetiredTo(w, State(next), next)
      ensures {curWin, nextWin} == {old(curWin), old(nextWin)}
      ensures occupancy == old(occupancy) - At(w, curCycle).count
      ensures curPos == NextPos(old(curPos), H)
      ensures old(occupancy) > 0 ==> UopFrom(w, curCycle)
    {
      ghost var v := State(curCycle);
      if occupancy > 0 {
        ghost var c := TotalWitness(v, H);
        assert At(v, c) == At(w, c);
      }
      next := AdvancePos(curCycle);
      assert At(v, curCycle) == At(w, curCycle);
      RetiredChain(w, v, State(next), curCycle, next);
    }

    // While the window is full, advance. The loop ends because a full window holds a uop ahead.
    method Drain(curCycle: int) returns (next: int)
      requires Valid(curCycle) && occupancy == WSZ
      modifies this, curWin, nextWin
      ensures Valid(next) && occupancy < WSZ
      ensures {curWin, nextWin} == {old(curWin), old(nextWin)}
      ensures RetiredTo(old(State(curCycle)), State(next), next)
      ensures PastFirstUop(old(State(curCycle)), curCycle, next)
    {
      next := curCycle;
      ghost var w := State(curCycle);
      ghost var ahead := TotalWitness(w, H);
      RetiredSelf(w, curPos);
      while occupancy == WSZ
        invariant Valid(next) && next >= curCycle
        invariant {curWin, nextWin} == {old(curWin), old(nextWin)}
        invariant RetiredTo(w, State(next), next)
        invariant if occupancy < WSZ then PastFirstUop(w, curCycle, next)
                  else next <= ahead && NoUops(w, curCycle, next)
        decreases ahead - next
      {
        NextUop(w, curCycle, next, ahead);
        next := RetireNext(w, next);
      }
    }

    // Books the first free cycle from the start position on: in the arrays, else beyond them. The
    // cycle reported is computed in 32 bits as well.
    method Book(curCycle: int, schedCycle: int, portMask: Ports, touch: bool) returns (r: int, ghost booked: int)
      requires curWin != nextWin && Shaped(State(curCycle), H) && curPos < H && 2 * H < TWO32 && portMask != {}
      modifies `ubWin, `lastPort, curWin, nextWin
      ensures var w := old(State(curCycle));
              && FirstFree(w, w.base + StartPos(curPos, curCycle, schedCycle), portMask, booked)
              && State(curCycle) == SetAt(w, booked, Tried(At(w, booked), portMask, touch))
              && lastPort == if touch then FirstPort(Avail(At(w, booked), portMask)) else old(lastPort)
      ensures r == if booked < curCycle then booked + TWO32 else booked
    {
      ghost var w := State(curCycle);
      var curWinPos := TryFrom(curWin, StartPos(curPos, curCycle, schedCycle), portMask, touch);
      if curWinPos < H {
        Rem32Small(curWinPos - curPos);
        r := curCycle + Rem32(curWinPos - curPos);
        booked := curCycle + (curWinPos - curPos);
        assert State(curCycle) == SetAt(w, booked, Tried(At(w, booked), portMask, touch));
      } else {
        assert State(curCycle) == w;
        r := BookLater(curCycle, curWinPos - H, portMask, touch);
        booked := r;
      }
    }

    method BookLater(curCycle: int, nextWinPos0: nat, portMask: Ports, touch: bool) returns (r: int)
      requires Shaped(State(curCycle), H) && curWin != nextWin && portMask != {}
      modifies `ubWin, `lastPort, nextWin
      ensures var w := old(State(curCycle));
              && FirstFree(w, w.base + H + nextWinPos0, portMask, r)
              && State(curCycle) == SetAt(w, r, Tried(At(w, r), portMask, touch))
              && lastPort == if touch then FirstPort(Avail(At(w, r), portMask)) else old(lastPort)
    {
      var nextWinPos := TryFrom(nextWin, nextWinPos0, portMask, touch);
      r := curCycle + (nextWinPos + H - curPos);
      if nextWinPos >= H {
        r := TryBeyond(r, portMask, touch);
      }
    }

    // A booking before the current cycle breaks the table; no other does.
    method Place(curCycle: int, schedCycle: int, portMask: Ports, touch: bool) returns (r: int, ghost booked: int)
      requires Sound(curCycle) && portMask != {}
      requires touch ==> occupancy < WSZ
      modifies `ubWin, `lastPort, `occupancy, curWin, nextWin
      ensures Sound(curCycle) && (Valid(curCycle) <==> old(Valid(curCycle)) && booked >= curCycle)
      ensures var w := old(State(curCycle));
              && FirstFree(w, w.base + StartPos(curPos, curCycle, schedCycle), portMask, booked)
              && State(curCycle) == SetAt(w, booked, Tried(At(w, booked), portMask, touch))
              && lastPort == if touch then FirstPort(Avail(At(w, booked), portMask)) else old(lastPort)
      ensures r == if booked < curCycle then booked + TWO32 else booked
      ensures occupancy == old(occupancy) + if touch then 1 else 0
    {
      ghost var w := State(curCycle);
      ValidMeans(curCycle);
      r, booked := Book(curCycle, schedCycle, portMask, touch);
      BookedTable(w, H, curPos, booked, portMask, touch);
      if touch { occupancy := occupancy + 1; }
      ValidMeans(curCycle);
    }

    method ScheduleInternal(curCycle: int, schedCycle: int, portMask: Ports, touch: bool)
      returns (cur: int, sched: int, ghost v: Win, ghost booked: int)
      requires Sound(curCycle) && (touch ==> Valid(curCycle)) && portMask != {}
      modifies this, curWin, nextWin
      ensures cur >= curCycle && {curWin, nextWin} == {old(curWin), old(nextWin)}
      ensures !touch ==>
                occupancy == old(occupancy) && curPos == old(curPos) && curWin == old(curWin) && nextWin == old(nextWin)
      // v is the table once the window has room.
      ensures if touch && old(occupancy) == WSZ
              then PastFirstUop(old(State(curCycle)), curCycle, cur)
              else cur == curCycle
      ensures old(Valid(curCycle)) ==> RetiredTo(old(State(curCycle)), v, cur)
      ensures !touch ==> v == old(State(curCycle))
      ensures v.base == cur - curPos && curPos < H
      ensures FirstFree(v, v.base + StartPos(curPos, cur, schedCycle), portMask, booked)
      ensures State(cur) == SetAt(v, booked, Tried(At(v, booked), portMask, touch))
      ensures lastPort == if touch then FirstPort(Avail(At(v, booked), portMask)) else old(lastPort)
      ensures sched == if booked < cur then booked + TWO32 else booked
      ensures Sound(cur) && (Valid(cur) <==> old(Valid(curCycle)) && booked >= cur)
      // A request within reach of the 32-bit positions.
      ensures old(Valid(curCycle)) && schedCycle < cur - curPos + TWO32 ==>
                && booked >= cur
                && BookedFrom(old(State(curCycle)), State(cur), cur, schedCycle, sched, portMask, touch)
    {
      cur := curCycle;
      ghost var w := State(curCycle);
      ghost var good := Valid(curCycle);
      ValidMeans(curCycle);
      if good { RetiredSelf(w, curPos); }
      if touch && occupancy == WSZ {
        cur := Drain(curCycle);
        ValidMeans(cur);
      }
      v := State(cur);
      sched, booked := Place(cur, schedCycle, portMask, touch);
      if good && schedCycle < cur - curPos + TWO32 {
        InReach(w, v, cur, curPos, schedCycle, portMask, touch, booked);
      }
    }

    // One request for an extra slot.
    method BookNext(curCycle: int, schedCycle: int, portMask: Ports) returns (r: int)
      requires Sound(curCycle) && portMask != {}
      modifies this, curWin, nextWin
      ensures Sound(curCycle) && {curWin, nextWin} == {old(curWin), old(nextWin)} && curPos == old(curPos)
      ensures Valid(curCycle) <==> old(Valid(curCycle)) && Lands(curCycle - curPos, curCycle, schedCycle)
      ensures old(Valid(curCycle)) ==> forall c | c < curCycle :: At(old(State(curCycle)), c) == EMPTY
      ensures old(Valid(curCycle)) && schedCycle < curCycle - curPos + TWO32 ==>
                && Valid(curCycle)
                && BookedFrom(old(State(curCycle)), State(curCycle), curCycle, schedCycle, r, portMask, false)
    {
      ghost var good := Valid(curCycle);
      ValidMeans(curCycle);
      var _, slot, v, booked := ScheduleInternal(curCycle, schedCycle, portMask, false);
      r := slot;
      if good { LandsExact(v, curCycle, curPos, schedCycle, portMask, booked); }
    }

    // The loop that books the extra slots of a uop issued in cycle sched, on the same port.
    method BookExtra(curCycle: int, sched: int, extraSlots: nat) returns (ghost slots: seq<int>)
      requires Sound(curCycle) && lastPort < 8
      modifies this, curWin, nextWin
      ensures Sound(curCycle) && {curWin, nextWin} == {old(curWin), old(nextWin)} && curPos == old(curPos)
      ensures |slots| == extraSlots
      ensures Booking(old(State(curCycle)), State(curCycle), curCycle, sched, {old(lastPort)}, slots,
                      old(Valid(curCycle)), Valid(curCycle))
    {
      ghost var w := State(curCycle);
      ghost var was := Valid(curCycle);
      slots := [];
      var extraSlotCycle := sched + 1;
      var mask: Ports := {lastPort};
      for i := 0 to extraSlots
        invariant Sound(curCycle) && {curWin, nextWin} == {old(curWin), old(nextWin)} && curPos == old(curPos)
        invariant |slots| == i && extraSlotCycle == LastOf(sched, slots) + 1
        invariant Booking(w, State(curCycle), curCycle, sched, mask, slots, was, Valid(curCycle))
      {
        ghost var v := State(curCycle);
        ghost var valid := Valid(curCycle);
        var r := BookNext(curCycle, extraSlotCycle, mask);
        BookingStep(w, v, State(curCycle), curCycle, sched, mask, slots, r, was, valid, Valid(curCycle));
        slots := slots + [r];
        extraSlotCycle := r + 1;
      }
    }

    method Schedule(curCycle: int, schedCycle: int, portMask: Ports, extraSlots: nat)
      returns (cur: int, sched: int, ghost slots: seq<int>)
      requires Valid(curCycle) && portMask != {}
      modifies this, curWin, nextWin
      ensures Sound(cur) && cur >= curCycle && {curWin, nextWin} == {old(curWin), old(nextWin)}
      ensures if old(occupancy) == WSZ then PastFirstUop(old(State(curCycle)), curCycle, cur) else cur == curCycle
      ensures |slots| == extraSlots
      // No request of the call comes round.
      ensures Valid(cur) <==> Lands(cur - curPos, cur, schedCycle) && NextLands(cur - curPos, cur, sched, slots)
      // If every request of the call was within reach of the 32-bit positions.
      ensures schedCycle < cur - curPos + TWO32 && NextReach(cur - curPos, sched, slots) ==>
                Valid(cur) && UopBooked(old(State(curCycle)), State(cur), cur, schedCycle, sched, slots, portMask)
    {
      ghost var w := State(curCycle);
      var cycle, slot, room, booked := ScheduleInternal(curCycle, schedCycle, portMask, true);
      cur, sched := cycle, slot;
      LandsExact(room, cur, curPos, schedCycle, portMask, booked);
      slots := [];
      if extraSlots != 0 {
        ghost var v := State(cur);
        ghost var port: Ports := {lastPort};
        slots := BookExtra(cur, sched, extraSlots);
        if schedCycle < cur - curPos + TWO32 && NextReach(cur - curPos, sched, slots) {
          ExtraBooked(w, v, State(cur), cur, schedCycle, sched, slots, portMask);
        }
      }
    }

    // Takes the ports of the mask in every cycle before the target, and in the first cycle from
    // the target on with one of them free. The structure stays valid exactly when no such cycle comes
    // round to a position already retired; then that is what it does.
    method PoisonRange(curCycle: int, targetCycle: int, portMask: Ports) returns (poisonCycle: int)
      requires Valid(curCycle) && portMask != {}
      modifies this, curWin, nextWin
      ensures Sound(curCycle) && curWin == old(curWin) && nextWin == old(nextWin)
      ensures occupancy == old(occupancy) && curPos == old(curPos)
      ensures Valid(curCycle) <==> Unwrapped(old(State(curCycle)), curCycle, targetCycle, portMask)
      ensures targetCycle <= curCycle ==> poisonCycle == curCycle && State(curCycle) == old(State(curCycle))
      ensures targetCycle > curCycle && Valid(curCycle) ==>
                && FirstFree(old(State(curCycle)), targetCycle, portMask, poisonCycle)
                && Poisoned(old(State(curCycle)), State(curCycle), curCycle, poisonCycle, portMask)
    {
      ghost var w := State(curCycle);
      ghost var last := curCycle - 1;
      poisonCycle := curCycle;
      ValidMeans(curCycle);
      while poisonCycle < targetCycle
        invariant Sound(curCycle) && curWin == old(curWin) && nextWin == old(nextWin) && occupancy == old(occupancy)
        invariant curPos == old(curPos)
        invariant targetCycle <= curCycle ==> poisonCycle == curCycle && State(curCycle) == w
        invariant if Valid(curCycle)
                  then PoisonedTo(w, State(curCycle), curCycle, targetCycle, portMask, last, poisonCycle)
                  else !Unwrapped(w, curCycle, targetCycle, portMask)
        decreases poisonCycle < targetCycle, FreeBelow(State(curCycle), targetCycle, portMask)
      {
        ghost var v := State(curCycle);
        ghost var good := Valid(curCycle);
        var _, r, _, booked := ScheduleInternal(curCycle, poisonCycle, portMask, false);
        FreeShrinks(v, booked, targetCycle, portMask);
        if good {
          PoisonStep(w, v, State(curCycle), curCycle, curPos, targetCycle, portMask, last, poisonCycle, booked);
          last := booked;
        }
        poisonCycle := r;
      }
    }

    // The advance to a far cycle. drained is where the loop stopped; if the window had drained
    // before the target, the rest is one jump. It keeps the table exactly when nothing, not even a
    // shadow, is reserved before the horizon that the jump brings.
    method LongAdvance(curCycle: int, targetCycle: int) returns (cur: int, ghost drained: int)
      requires Valid(curCycle) && curCycle <= targetCycle
      modifies this, curWin, nextWin
      ensures cur == targetCycle && curCycle <= drained <= targetCycle
      ensures drained < targetCycle ==> forall c | c >= drained :: At(old(State(curCycle)), c).count == 0
      ensures drained > curCycle ==> exists c :: c >= drained - 1 && At(old(State(curCycle)), c).count > 0
      ensures curPos == (old(curPos) + (drained - curCycle)) % H
      ensures Valid(cur) && RetiredTo(old(State(curCycle)), State(cur), cur)
              <==> drained == targetCycle
                   || FreeRange(old(State(curCycle)), drained,
                                targetCycle - (old(curPos) + (drained - curCycle)) % H + 2 * H)
    {
      ghost var w := State(curCycle);
      ghost var pos0 := curPos;
      cur := DrainTo(curCycle, targetCycle);
      PosAfterIs(pos0, cur - curCycle, H);
      drained := cur;
      if occupancy == 0 {
        ghost var v := State(cur);
        DrainedIsZero(w, v, H, cur);
        if cur < targetCycle {
          JumpAfterDrain(w, v, H, cur, targetCycle);
          assert State(targetCycle) == Jumped(v, targetCycle - cur);
        }
        cur := targetCycle;
      }
    }

    // What its loop keeps, w and pos being the table and the position when it began.
    ghost predicate Draining(w: Win, pos: nat, curCycle: int, cur: int)
      reads this, curWin, nextWin
    {
      && Valid(cur) && curCycle <= cur && RetiredTo(w, State(cur), cur)
      && (cur > curCycle ==> UopFrom(w, cur - 1))
      && curPos == PosAfter(pos, cur - curCycle, H)
    }

    method DrainStep(ghost w: Win, ghost pos: nat, ghost curCycle: int, cur: int) returns (next: int)
      requires Draining(w, pos, curCycle, cur) && occupancy > 0
      modifies this, curWin, nextWin
      ensures next == cur + 1 && Draining(w, pos, curCycle, next)
      ensures {curWin, nextWin} == {old(curWin), old(nextWin)}
    {
      next := RetireNext(w, cur);
    }

    method DrainTo(curCycle: int, targetCycle: int) returns (cur: int)
      requires Valid(curCycle) && curCycle <= targetCycle
      modifies this, curWin, nextWin
      ensures Draining(old(State(curCycle)), old(curPos), curCycle, cur) && cur <= targetCycle
      ensures cur < targetCycle ==> occupancy == 0
    {
      ghost var w := State(curCycle);
      ghost var pos := curPos;
      RetiredSelf(w, curPos);
      cur := curCycle;
      while occupancy > 0 && cur < targetCycle
        invariant cur <= targetCycle && Draining(w, pos, curCycle, cur)
        invariant {curWin, nextWin} == {old(curWin), old(nextWin)}
        decreases targetCycle - cur
      {
        cur := DrainStep(w, pos, curCycle, cur);
      }
    }
  }
}
