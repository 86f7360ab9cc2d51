// The filter cache: one entry per L1 set, read by the core without a lock, in front of an L1 that
// other threads invalidate. Addresses are line addresses; -1 marks an entry that matches nothing,
// and a cleared entry holds 0.

module FilterState {
  import opened Arith
  import opened MesiTypes

  // Physical line addresses are procMask plus the virtual one: procMask has only bits above every
  // virtual address and above the set index.
  datatype Geometry = Geometry(numSets: nat, assoc: nat, procMask: nat)

  predicate Sane(g: Geometry) {
    g.numSets > 0 && g.assoc > 0 && g.procMask % g.numSets == 0
  }

  function Phys(g: Geometry, v: nat): nat { g.procMask + v }

  function Index(g: Geometry, v: nat): (i: nat)
    requires Sane(g)
    ensures i < g.numSets
  {
    v % g.numSets
  }

  // The filter entries, the L1's tags and its line states.
  datatype Cache = Cache(rd: seq<int>, wr: seq<int>, lines: seq<nat>, states: seq<State>)

  ghost predicate Shaped(g: Geometry, c: Cache) {
    Sane(g) && |c.rd| == |c.wr| == g.numSets && |c.lines| == |c.states| == g.numSets * g.assoc
  }

  // The first way from `from` on, below `end`, that holds the address, or -1.
  function FirstWay(lines: seq<nat>, addr: nat, from: nat, end: nat): (id: int)
    requires end <= |lines|
    ensures id == -1 || (from <= id < end && lines[id] == addr)
    ensures id == -1 ==> forall i | from <= i < end :: lines[i] != addr
    ensures forall i | from <= i < id :: lines[i] != addr
    decreases (end as int) - from
  {
    if from >= end then -1
    else if lines[from] == addr then from
    else FirstWay(lines, addr, from + 1, end)
  }

  lemma SetBounds(g: Geometry, i: nat)
    requires Sane(g) && i < g.numSets
    ensures (i + 1) * g.assoc == i * g.assoc + g.assoc <= g.numSets * g.assoc
  {
    MulDistributes(i, 1, g.assoc);
    MulMonotone(i + 1, g.numSets, g.assoc);
  }

  // The filter and the L1 agree on the set of a line: the L1 takes it from the physical address.
  lemma IndexIsPhysical(g: Geometry, v: nat)
    requires Sane(g)
    ensures Index(g, v) == Phys(g, v) % g.numSets
  {
    ModShift(g.procMask, v, g.numSets);
  }

  // SetAssocArray::lookup; the L1 under a filter cache is not hashed.
  function Lookup(g: Geometry, lines: seq<nat>, v: nat): (id: int)
    requires Sane(g) && |lines| == g.numSets * g.assoc
    ensures -1 <= id < |lines|
    ensures id >= 0 ==> lines[id] == Phys(g, v) && Index(g, v) * g.assoc <= id < Index(g, v) * g.assoc + g.assoc
    ensures id == -1 ==>
              forall i | Index(g, v) * g.assoc <= i < Index(g, v) * g.assoc + g.assoc && i < |lines| ::
                lines[i] != Phys(g, v)
  {
    SetBounds(g, Index(g, v));
    FirstWay(lines, Phys(g, v), Index(g, v) * g.assoc, Index(g, v) * g.assoc + g.assoc)
  }

  // In the L1, and valid there, in M if for a store.
  ghost predicate Resident(g: Geometry, c: Cache, v: nat, store: bool)
    requires Shaped(g, c)
  {
    var id := Lookup(g, c.lines, v);
    id >= 0 && c.states[id] != I && (store ==> c.states[id] == M)
  }

  // What a match in the filter means.
  ghost predicate EntryOk(g: Geometry, c: Cache, i: nat)
    requires Shaped(g, c) && i < g.numSets
  {
    && (c.rd[i] > 0 ==> Index(g, c.rd[i]) == i && Resident(g, c, c.rd[i], false))
    && (c.wr[i] > 0 ==> c.rd[i] == c.wr[i] && Resident(g, c, c.wr[i], true))
  }

  ghost predicate FilterOk(g: Geometry, c: Cache, busy: int) {
    Shaped(g, c) && forall i | 0 <= i < g.numSets && i != busy :: EntryOk(g, c, i)
  }

  // A match of the lock-free check says that the line is in the L1.
  ghost predicate MatchIsSound(g: Geometry, v: nat, store: bool)
    requires Sane(g)
  {
    forall c | FilterOk(g, c, -1) ::
      (if store then c.wr else c.rd)[Index(g, v)] == v ==> Resident(g, c, v, store)
  }

  // It does for exactly the nonzero addresses: a cleared entry matches 0.
  lemma MatchExact(g: Geometry, v: nat, store: bool)
    requires Sane(g)
    ensures MatchIsSound(g, v, store) <==> v > 0
  {
    if v > 0 {
      forall c | FilterOk(g, c, -1) && (if store then c.wr else c.rd)[Index(g, v)] == v
        ensures Resident(g, c, v, store)
      {
        assert EntryOk(g, c, Index(g, v));
      }
    } else {
      var c := EmptyCache(g);
      assert FilterOk(g, c, -1) && !Resident(g, c, v, store);
    }
  }

  function EmptyCache(g: Geometry): (c: Cache)
    requires Sane(g)
    ensures Shaped(g, c) && forall i | 0 <= i < g.numSets :: c.rd[i] == c.wr[i] == 0
    ensures forall i | 0 <= i < |c.states| :: c.states[i] == I
  {
    var n := g.numSets * g.assoc;
    Cache(seq(g.numSets, i => 0), seq(g.numSets, i => 0), seq(n, i => 0), seq(n, i => I))
  }

  // The ways of different sets are different.
  lemma SetsApart(g: Geometry, i: nat, j: nat)
    requires Sane(g) && i != j
    ensures i * g.assoc + g.assoc <= j * g.assoc || j * g.assoc + g.assoc <= i * g.assoc
  {
    MulDistributes(i, 1, g.assoc);
    MulDistributes(j, 1, g.assoc);
    if i < j { MulMonotone(i + 1, j, g.assoc); } else { MulMonotone(j + 1, i, g.assoc); }
  }

  lemma WayApart(g: Geometry, i: nat, j: nat, id: nat)
    requires Sane(g) && i != j && i * g.assoc <= id < i * g.assoc + g.assoc
    ensures id < j * g.assoc || j * g.assoc + g.assoc <= id
  {
    SetsApart(g, i, j);
  }

  lemma OtherSetSame(g: Geometry, lines: seq<nat>, i: nat, j: nat, id: nat, a: nat, addr: nat)
    requires Sane(g) && i != j && i * g.assoc <= id < i * g.assoc + g.assoc
    requires id < |lines| && j * g.assoc + g.assoc <= |lines|
    ensures FirstWay(lines[id := a], addr, j * g.assoc, j * g.assoc + g.assoc)
            == FirstWay(lines, addr, j * g.assoc, j * g.assoc + g.assoc) != id
  {
    WayApart(g, i, j, id);
    OutsideSame(lines, id, a, addr, j * g.assoc, j * g.assoc + g.assoc);
  }

  lemma SameWaySameLine(g: Geometry, lines: seq<nat>, v: nat, w: nat)
    requires Sane(g) && |lines| == g.numSets * g.assoc
    ensures Lookup(g, lines, v) == Lookup(g, lines, w) >= 0 ==> v == w
  {
  }

  lemma {:induction false} FirstWaySame(lines: seq<nat>, lines': seq<nat>, addr: nat, from: nat, end: nat)
    requires end <= |lines| == |lines'| && forall i | from <= i < end :: lines[i] == lines'[i]
    ensures FirstWay(lines, addr, from, end) == FirstWay(lines', addr, from, end)
    decreases (end as int) - from
  {
    if from < end { FirstWaySame(lines, lines', addr, from + 1, end); }
  }

  // A way of v's set changes its tag or its state: other sets' entries do not mind.
  lemma OtherSetsKeep(g: Geometry, c: Cache, v: nat, id: nat, a: nat, s: State)
    requires Sane(g) && FilterOk(g, c, Index(g, v))
    requires Index(g, v) * g.assoc <= id < Index(g, v) * g.assoc + g.assoc && id < |c.lines|
    ensures FilterOk(g, c.(lines := c.lines[id := a], states := c.states[id := s]), Index(g, v))
  {
    var c' := c.(lines := c.lines[id := a], states := c.states[id := s]);
    forall i | 0 <= i < g.numSets && i != Index(g, v) ensures EntryOk(g, c', i) {
      assert EntryOk(g, c, i);
      if c.rd[i] > 0 { OtherLookupKeeps(g, c, v, id, a, c.rd[i]); }
    }
  }

  lemma OtherLookupKeeps(g: Geometry, c: Cache, v: nat, id: nat, a: nat, w: nat)
    requires Shaped(g, c) && Index(g, w) != Index(g, v)
    requires Index(g, v) * g.assoc <= id < Index(g, v) * g.assoc + g.assoc && id < |c.lines|
    ensures Lookup(g, c.lines[id := a], w) == Lookup(g, c.lines, w)
    ensures Lookup(g, c.lines, w) != id
  {
    SetBounds(g, Index(g, w));
    OtherSetSame(g, c.lines, Index(g, v), Index(g, w), id, a, Phys(g, w));
  }

  lemma OutsideSame(lines: seq<nat>, id: nat, a: nat, addr: nat, from: nat, end: nat)
    requires end <= |lines| && id < |lines| && (id < from || end <= id)
    ensures FirstWay(lines[id := a], addr, from, end) == FirstWay(lines, addr, from, end) != id
  {
    FirstWaySame(lines, lines[id := a], addr, from, end);
  }

  // An entry matches the physical address an invalidation names.
  predicate Matches(g: Geometry, e: int, lineAddr: nat) {
    e >= 0 && Phys(g, e) == lineAddr
  }

  // An invalidation clears the entry of the line's set if it matches, and then changes the state.
  function Cleared(g: Geometry, c: Cache, v: nat): Cache
    requires Shaped(g, c)
  {
    var i := Index(g, v);
    if Matches(g, c.rd[i], Phys(g, v)) then c.(rd := c.rd[i := -1], wr := c.wr[i := -1]) else c
  }

  lemma ClearedKeeps(g: Geometry, c: Cache, v: nat, busy: int)
    requires FilterOk(g, c, busy)
    ensures FilterOk(g, Cleared(g, c, v), busy)
    ensures Cleared(g, c, v).rd[Index(g, v)] != v
    ensures c.rd[Index(g, v)] != v ==> Cleared(g, c, v) == c
    ensures forall i | 0 <= i < g.numSets && i != Index(g, v) ::
              Cleared(g, c, v).rd[i] == c.rd[i] && Cleared(g, c, v).wr[i] == c.wr[i]
    ensures Cleared(g, c, v).lines == c.lines && Cleared(g, c, v).states == c.states
  {
    var c' := Cleared(g, c, v);
    forall i | 0 <= i < g.numSets && i != busy ensures EntryOk(g, c', i) {
      assert EntryOk(g, c, i);
    }
  }

  lemma InvalKeeps(g: Geometry, c: Cache, v: nat, s: State, busy: int)
    requires FilterOk(g, c, busy) && Lookup(g, c.lines, v) >= 0
    requires c.rd[Index(g, v)] != v
    ensures FilterOk(g, c.(states := c.states[Lookup(g, c.lines, v) := s]), busy)
  {
    var id := Lookup(g, c.lines, v);
    var c' := c.(states := c.states[id := s]);
    forall i | 0 <= i < g.numSets && i != busy ensures EntryOk(g, c', i) {
      assert EntryOk(g, c, i);
      if c.rd[i] > 0 { SameWaySameLine(g, c.lines, v, c.rd[i]); }
    }
  }

  // A line that was absent is found where it is put.
  lemma InsertedIsFound(g: Geometry, lines: seq<nat>, v: nat, way: nat)
    requires Sane(g) && |lines| == g.numSets * g.assoc && Lookup(g, lines, v) == -1
    requires Index(g, v) * g.assoc <= way < Index(g, v) * g.assoc + g.assoc && way < |lines|
    ensures Lookup(g, lines[way := Phys(g, v)], v) == way
  {
    SetBounds(g, Index(g, v));
    InsertedIsFirst(lines, Phys(g, v), Index(g, v) * g.assoc, Index(g, v) * g.assoc + g.assoc, way);
  }

  lemma InsertedIsFirst(lines: seq<nat>, addr: nat, from: nat, end: nat, way: nat)
    requires from <= way < end <= |lines| && FirstWay(lines, addr, from, end) == -1
    ensures FirstWay(lines[way := addr], addr, from, end) == way
  {
    var lines' := lines[way := addr];
    var id := FirstWay(lines', addr, from, end);
    assert lines'[way] == addr;
    assert forall i | 0 <= i < |lines| :: lines'[i] == if i == way then addr else lines[i];
  }

  // The entry of v's set names v.
  function Filled(g: Geometry, c: Cache, v: nat, isLoad: bool): Cache
    requires Shaped(g, c)
  {
    c.(rd := c.rd[Index(g, v) := v], wr := c.wr[Index(g, v) := if isLoad then -1 else v])
  }

  lemma FilledKeeps(g: Geometry, c: Cache, v: nat, isLoad: bool)
    requires Sane(g) && FilterOk(g, c, Index(g, v)) && Resident(g, c, v, !isLoad)
    ensures FilterOk(g, Filled(g, c, v, isLoad), -1)
  {
    var c' := Filled(g, c, v, isLoad);
    forall i | 0 <= i < g.numSets ensures EntryOk(g, c', i) {
      if i != Index(g, v) { assert EntryOk(g, c, i); }
    }
  }
}

module FilterCaches {
  import opened FilterState
  import opened MesiTypes
  import MesiControllers

  // Where the core's thread is in replace. Started: it has let go of the filter lock and waits for
  // the controller's; Evicting and Fetching: the controller's lock is handed over to the parent;
  // Returned: it holds the filter lock again.
  datatype Phase =
    | Quiet
    | Started(v: nat, isLoad: bool)
    | Evicting(v: nat, isLoad: bool, way: nat)
    | Fetching(v: nat, isLoad: bool, way: nat)
    | Returned(v: nat, isLoad: bool, way: nat)

  // An invalidation holds both locks: it has dealt with the filter and not yet with the L1.
  datatype Pending = NoInv | Inv(v: nat, t: InvType)

  class FilterCache {
    const g: Geometry
    var rdAddr: array<int>
    var wrAddr: array<int>
    var lines: array<nat>
    var states: array<State>
    var phase: Phase
    var pending: Pending

    ghost function Value(): Cache
      reads this, rdAddr, wrAddr, lines, states
    {
      Cache(rdAddr[..], wrAddr[..], lines[..], states[..])
    }

    // The entry that replace is about to overwrite; no one matches against it meanwhile.
    ghost function Busy(): int
      requires Sane(g)
      reads this
    {
      if phase == Quiet then -1 else Index(g, phase.v)
    }

    ghost predicate Valid()
      reads this, rdAddr, wrAddr, lines, states
    {
      && rdAddr != wrAddr && Shaped(g, Value()) && FilterOk(g, Value(), Busy())
      && (phase.Evicting? ==> InSet(phase.v, phase.way) && Lookup(g, lines[..], phase.v) == -1)
      && (phase.Fetching? || phase.Returned? ==> Lookup(g, lines[..], phase.v) == phase.way)
      && (phase.Returned? ==> pending == NoInv && Resident(g, Value(), phase.v, !phase.isLoad))
      && (pending.Inv? ==>
            && rdAddr[Index(g, pending.v)] != pending.v
            && var id := Lookup(g, lines[..], pending.v);
            && id >= 0 && InvalLegal(states[id], pending.t))
    }

    ghost predicate InSet(v: nat, way: nat)
      requires Sane(g)
      reads this
    {
      Index(g, v) * g.assoc <= way < Index(g, v) * g.assoc + g.assoc && way < lines.Length
    }

    constructor (g: Geometry)
      requires Sane(g)
      ensures Valid() && phase == Quiet && pending == NoInv && this.g == g
      ensures forall i | 0 <= i < g.numSets :: rdAddr[i] == 0 && wrAddr[i] == 0
      ensures forall i | 0 <= i < states.Length :: states[i] == I
    {
      this.g := g;
      rdAddr := new int[g.numSets](i => 0);
      wrAddr := new int[g.numSets](i => 0);
      lines := new nat[g.numSets * g.assoc](i => 0);
      states := new State[g.numSets * g.assoc](i => I);
      phase, pending := Quiet, NoInv;
    }

    // The lock-free check of load. A match is good even while an invalidation is under way.
    method Load(v: nat) returns (hit: bool)
      requires Valid() && phase == Quiet
      ensures hit <==> rdAddr[Index(g, v)] == v
      ensures hit && v > 0 ==> Resident(g, Value(), v, false)
    {
      hit := rdAddr[Index(g, v)] == v;
      assert EntryOk(g, Value(), Index(g, v));
    }

    method Store(v: nat) returns (hit: bool)
      requires Valid() && phase == Quiet
      ensures hit <==> wrAddr[Index(g, v)] == v
      ensures hit && v > 0 ==> Resident(g, Value(), v, true)
    {
      hit := wrAddr[Index(g, v)] == v;
      assert EntryOk(g, Value(), Index(g, v));
    }

    // replace takes the filter lock, and startAccess gives it up.
    method Begin(v: nat, isLoad: bool)
      requires Valid() && phase == Quiet && pending == NoInv
      modifies `phase
      ensures Valid() && phase == Started(v, isLoad)
    {
      phase := Started(v, isLoad);
    }

    // The loop of SetAssocArray::lookup.
    method FindWay(addr: nat, first: nat, end: nat) returns (id: int)
      requires first <= end <= lines.Length
      ensures id == FirstWay(lines[..], addr, first, end)
    {
      id := first;
      while id < end
        invariant first <= id <= end
        invariant FirstWay(lines[..], addr, first, end) == FirstWay(lines[..], addr, id, end)
      {
        if lines[id] == addr { return; }
        id := id + 1;
      }
      id := -1;
    }

    // The access looks the line up; if it is absent the replacement policy names a way of its set.
    method LookUp(cand: nat)
      requires Valid() && phase.Started? && pending == NoInv && InSet(phase.v, cand)
      modifies `phase
      ensures Valid()
      ensures var id := Lookup(g, lines[..], old(phase).v);
              phase == if id >= 0 then Fetching(old(phase).v, old(phase).isLoad, id)
                       else Evicting(old(phase).v, old(phase).isLoad, cand)
    {
      SetBounds(g, Index(g, phase.v));
      var first := Index(g, phase.v) * g.assoc;
      var id := FindWay(Phys(g, phase.v), first, first + g.assoc);
      phase := if id >= 0 then Fetching(phase.v, phase.isLoad, id) else Evicting(phase.v, phase.isLoad, cand);
    }

    // The victim has been written back, if it had to be, and is I; the new line takes its way.
    method Evicted()
      requires Valid() && phase.Evicting? && pending == NoInv
      modifies `phase, lines, states
      ensures Valid() && phase == Fetching(old(phase).v, old(phase).isLoad, old(phase).way)
      ensures lines[..] == old(lines[..])[old(phase).way := Phys(g, old(phase).v)]
      ensures states[..] == old(states[..])[old(phase).way := I]
    {
      ghost var c := Value();
      var v, way := phase.v, phase.way;
      OtherSetsKeep(g, c, v, way, Phys(g, v), I);
      InsertedIsFound(g, c.lines, v, way);
      states[way] := I;
      lines[way] := Phys(g, v);
      assert Value() == c.(lines := c.lines[way := Phys(g, v)], states := c.states[way := I]);
      phase := Fetching(v, phase.isLoad, way);
    }

    // processAccess: the parent's answer, if it had to be asked, is grant. endAccess takes the
    // filter lock back before it lets go of the controller's.
    method Granted(grant: State)
      requires Valid() && phase.Fetching? && pending == NoInv
      requires MesiControllers.BottomAccessLegal(states[phase.way], if phase.isLoad then GETS else GETX, grant)
      modifies `phase, states
      ensures Valid() && phase == Returned(old(phase).v, old(phase).isLoad, old(phase).way)
      ensures var t := if old(phase).isLoad then GETS else GETX;
              states[..] == old(states[..])[old(phase).way :=
                MesiControllers.AfterBottomAccess(old(states[phase.way]), t, grant)]
    {
      ghost var c := Value();
      var v, way := phase.v, phase.way;
      var s := MesiControllers.AfterBottomAccess(states[way], if phase.isLoad then GETS else GETX, grant);
      OtherSetsKeep(g, c, v, way, c.lines[way], s);
      states[way] := s;
      assert c.lines[way := c.lines[way]] == c.lines;
      assert Value() == c.(lines := c.lines[way := c.lines[way]], states := c.states[way := s]);
      phase := Returned(v, phase.isLoad, way);
    }

    // The entry now names the line; a load's entry matches no store.
    method Finish()
      requires Valid() && phase.Returned?
      modifies `phase, rdAddr, wrAddr
      ensures Valid() && phase == Quiet
      ensures rdAddr[..] == old(rdAddr[..])[Index(g, old(phase).v) := old(phase).v]
      ensures wrAddr[..] == old(wrAddr[..])[Index(g, old(phase).v) := if old(phase).isLoad then -1 else old(phase).v]
    {
      ghost var c := Value();
      var v, i := phase.v, Index(g, phase.v);
      FilledKeeps(g, c, v, phase.isLoad);
      wrAddr[i] := if phase.isLoad then -1 else v;
      rdAddr[i] := v;
      assert Value() == Filled(g, c, v, phase.isLoad);
      phase := Quiet;
    }

    // invalidate takes both locks and clears the entry if it matches.
    method StartInvalidate(v: nat, t: InvType)
      requires Valid() && pending == NoInv && !phase.Returned?
      requires Lookup(g, lines[..], v) >= 0 && InvalLegal(states[Lookup(g, lines[..], v)], t)
      modifies `pending, rdAddr, wrAddr
      ensures Valid() && pending == Inv(v, t)
      ensures Value() == Cleared(g, old(Value()), v)
    {
      ghost var c := Value();
      var i := Index(g, v);
      ClearedKeeps(g, c, v, Busy());
      if Matches(g, rdAddr[i], Phys(g, v)) {
        wrAddr[i] := -1;
        rdAddr[i] := -1;
      }
      assert Value() == Cleared(g, c, v);
      pending := Inv(v, t);
    }

    // Then the L1's controller changes the state of the line.
    method FinishInvalidate()
      requires Valid() && pending.Inv?
      modifies `pending, states
      ensures Valid() && pending == NoInv
      ensures var id := Lookup(g, lines[..], old(pending).v);
              states[..] == old(states[..])[id := AfterInval(old(states[..])[id], old(pending).t)]
    {
      ghost var c := Value();
      var v := pending.v;
      SetBounds(g, Index(g, v));
      var first := Index(g, v) * g.assoc;
      var id := FindWay(Phys(g, v), first, first + g.assoc);
      InvalKeeps(g, c, v, AfterInval(states[id], pending.t), Busy());
      states[id] := AfterInval(states[id], pending.t);
      assert Value() == c.(states := c.states[id := states[id]]);
      pending := NoInv;
    }

    // A context switch clears every entry.
    method ContextSwitch()
      requires Valid() && pending == NoInv && !phase.Returned?
      modifies rdAddr, wrAddr
      ensures Valid()
      ensures forall i | 0 <= i < g.numSets :: rdAddr[i] == 0 && wrAddr[i] == 0
    {
      for i := 0 to g.numSets
        invariant forall j | 0 <= j < i :: rdAddr[j] == 0 && wrAddr[j] == 0
      {
        rdAddr[i], wrAddr[i] := 0, 0;
      }
    }
  }

  // A cleared entry matches line address 0, which need not be in the L1 at all.
  method ZeroMatches(g: Geometry) returns (f: FilterCache, hit: bool)
    requires Sane(g)
    ensures fresh(f) && f.Valid() && f.phase == Quiet && hit && !Resident(f.g, f.Value(), 0, false)
  {
    f := new FilterCache(g);
    hit := f.Load(0);
  }
}
