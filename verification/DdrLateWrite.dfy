// A run of the controller that its own policy produces and that leaves an activation window out of
// order: three reads come in just after a deferred write, and the write issues last.

module DdrLateWrite {
  import opened ActWindowLog
  import opened DdrController
  import opened DdrRuns
  import opened DdrTiming
  import opened FrFcfs

  // Writes are deferred, and the requests below come in late enough for the constraints from before
  // the run to be over.
  ghost predicate Suits(g: Config) {
    && Configured(g) && g.deferredWrites && g.queueDepth >= 3
    && g.t.tRP <= 40 && g.t.tRRD <= 40 && g.t.tFAW <= 40 && g.t.tBL <= 40
  }

  // The write comes in at cycle 40, the reads at cycle 41; each goes to a bank of its own.
  const WRITE := Req(3, 0, true, 0, 40, 0)

  function Read(b: nat): Req { Req(b, 0, false, 0, 41, 0) }

  const NONE: seq<seq<nat>> := [[], [], [], []]
  const WRITE_WAITS: seq<seq<nat>> := [[], [], [], [0]]

  // The pools after the first n requests have come in.
  function In(n: nat): Pools {
    if n == 0 then Pools([], [], [], NONE, NONE, map[])
    else if n == 1 then Pools([], [0], [], NONE, WRITE_WAITS, map[0 := WRITE])
    else if n == 2 then Pools([1], [0], [], [[1], [], [], []], WRITE_WAITS, In(1).reqs[1 := Read(0)])
    else if n == 3 then Pools([1, 2], [0], [], [[1], [2], [], []], WRITE_WAITS, In(2).reqs[2 := Read(1)])
    else Pools([1, 2, 3], [0], [], [[1], [2], [3], []], WRITE_WAITS, In(3).reqs[3 := Read(2)])
  }

  // And after n of them have issued.
  function Out(n: nat): Pools {
    if n == 0 then In(4)
    else if n == 1 then Pools([2, 3], [0], [], [[], [2], [3], []], WRITE_WAITS, In(4).reqs)
    else if n == 2 then Pools([3], [0], [], [[], [], [3], []], WRITE_WAITS, In(4).reqs)
    else if n == 3 then Pools([], [0], [], NONE, WRITE_WAITS, In(4).reqs)
    else Pools([], [], [], NONE, NONE, In(4).reqs)
  }

  function Request(n: nat): Req { if n == 0 then WRITE else Read(n - 1) }

  lemma ComesIn(g: Config, n: nat)
    requires Suits(g) && n < 4
    ensures ByPolicy(g, Mem(Start(g), In(n)), Entering(n, Request(n)), Mem(Start(g), In(n + 1)))
  {
    var p, r := In(n), Request(n);
    var list := (if r.write then p.wrReqs else p.rdReqs)[r.bank];
    assert list == [] && Contents(list, p.reqs) == [];
    assert Splice(list, 0, n) == [n];
    assert r.(rowHitSeq := 0) == r;
    assert Admitted(p, n, r, r.write, g.rowHitLimit, BufferOf(Start(g).banks[r.bank])) == In(n + 1);
  }

  function Start(g: Config): Chip { Fresh(g.t, [0, 0, 0, 0], 1) }

  // The read comes just too late for the tick that the write has asked for: nothing issues then, and
  // the next try is a cycle later.
  lemma TooEarly(g: Config)
    requires Suits(g)
    ensures FirstReady(In(4).rdQueue, In(4).rdReqs, In(4).reqs, g.t, Start(g), 40 + g.t.tRCD, -1, At(41 + g.t.tRCD))
  {
    forall k | 1 <= k <= 3 ensures MinCmdAt(g.t, Start(g), In(4).reqs, k) == 41 + g.t.tRCD {
      assert Start(g).banks[k - 1] == UNUSED && In(4).reqs[k] == Read(k - 1);
    }
    assert Front(In(4).rdReqs, In(4).reqs, In(4).rdQueue[0]);
  }

  // The chip once n requests have issued: the banks of the others are unused, the bus is free at
  // the cycle of the next one, and v is the window.
  ghost predicate Served4(g: Config, c: Chip, n: nat, v: seq<int>) {
    && n <= 4 && Shaped(c) && |c.banks| == 4 && c.windows == [v] && !c.lastCmdWasWrite
    && (forall b | n <= b < 4 :: c.banks[b] == UNUSED)
    && (forall b | 0 <= b < n :: c.banks[b].lastActCycle == 41)
    && c.minRespCycle - g.t.tCL <= IssueCycle(g, n)
    && (n > 0 ==> c.minRespCycle - g.t.tCL == IssueCycle(g, n))
  }

  function IssueCycle(g: Config, n: nat): nat { 41 + g.t.tRCD + n * g.t.tBL }

  // Which request is the n-th to issue.
  function Key(n: nat): nat { if n == 3 then 0 else n + 1 }

  function IssueOf(g: Config, n: nat): DdrRuns.Event
    requires n < 4
  {
    var r := Request(Key(n));
    Issuing(n == 3, 0, Access(r.bank, 0, r.write, r.arrivalCycle, 0, false), IssueCycle(g, n))
  }

  // The n-th request issues, as soon as the bus is free.
  lemma Issues(g: Config, c: Chip, n: nat, v: seq<int>, v': seq<int>) returns (c': Chip)
    requires Suits(g) && n < 4 && Served4(g, c, n, v) && |v| == WINDOW && v[0] == 0
    requires v' == Added(v, Request(Key(n)).arrivalCycle) && |v'| == WINDOW
    ensures ByPolicy(g, Mem(c, Out(n)), IssueOf(g, n), Mem(c', Out(n + 1)))
    ensures c'.windows == [v'] && (n < 3 ==> Served4(g, c', n + 1, v'))
    ensures n == 3 ==> forall b | 0 <= b < 3 :: c'.banks[b] == c.banks[b]
  {
    var e := IssueOf(g, n);
    PoolsMove(g, c, n);
    ChipMoves(g, c, n, v, v');
    c' := Served(g.t, c, e.a, e.curCycle, g.closedPage);
    PolicyAllows(g, c, Out(n), Out(n + 1), e, Key(n));
  }

  // The request k at the head of its pool is first in its bank queue and ready: it is what issues.
  lemma PolicyAllows(g: Config, c: Chip, p: Pools, p': Pools, e: DdrRuns.Event, k: nat)
    requires e.Issuing? && e.i == 0 && PoolOf(p, e.wr) != [] && PoolOf(p, e.wr)[0] == k
    requires Front(ListsOf(p, e.wr), p.reqs, k) && ListsOf(p, e.wr)[p.reqs[k].bank] == [k]
    requires e.a == AccessOf([k], p.reqs, k) && Left(p, 0, e.wr) == p' && Ready(g.t, c, e.a, e.curCycle)
    requires e.wr == (p.rdQueue == [] || PrioWrites(g, c, p)) && e.curCycle + g.t.tCL >= c.minRespCycle
    requires Served(g.t, c, e.a, e.curCycle, g.closedPage).minRespCycle >= e.curCycle + g.t.tCL + g.t.tBL
    ensures ByPolicy(g, Mem(c, p), e, Mem(Served(g.t, c, e.a, e.curCycle, g.closedPage), p'))
  {
    assert MinCmdAt(g.t, c, p.reqs, k) == MinCmdCycle(g.t, c, e.a) && k in PoolOf(p, e.wr);
    assert SomeReady(PoolOf(p, e.wr), ListsOf(p, e.wr), p.reqs, g.t, c, e.curCycle);
  }

  lemma PoolsMove(g: Config, c: Chip, n: nat)
    requires Suits(g) && n < 4 && !c.lastCmdWasWrite
    ensures var (p, e, k) := (Out(n), IssueOf(g, n), Key(n));
      && PoolOf(p, e.wr) != [] && PoolOf(p, e.wr)[0] == k && Front(ListsOf(p, e.wr), p.reqs, k)
      && ListsOf(p, e.wr)[Request(k).bank] == [k] && p.reqs[k] == Request(k)
      && e.a == AccessOf([k], p.reqs, k) && Left(p, 0, e.wr) == Out(n + 1)
      && e.wr == (p.rdQueue == [] || PrioWrites(g, c, p))
  {
    assert Out(n).reqs == In(4).reqs && In(4).reqs[Key(n)] == Request(Key(n));
    LeavesFirst(n);
  }

  lemma LeavesFirst(n: nat)
    requires n < 4
    ensures var (p, wr, k) := (Out(n), n == 3, Key(n));
      && PoolOf(p, wr) != [] && PoolOf(p, wr)[0] == k && Front(ListsOf(p, wr), p.reqs, k)
      && ListsOf(p, wr)[Request(k).bank] == [k] && Left(p, 0, wr) == Out(n + 1)
  {
    if n == 0 {
    } else if n == 1 {
    } else if n == 2 {
    } else {
    }
  }

  lemma ChipMoves(g: Config, c: Chip, n: nat, v: seq<int>, v': seq<int>)
    requires Suits(g) && n < 4 && Served4(g, c, n, v) && |v| == WINDOW && v[0] == 0
    requires v' == Added(v, Request(Key(n)).arrivalCycle) && |v'| == WINDOW
    ensures var e := IssueOf(g, n);
      && Ready(g.t, c, e.a, e.curCycle)
      && var c' := Served(g.t, c, e.a, e.curCycle, g.closedPage);
      && c'.minRespCycle == e.curCycle + g.t.tCL + g.t.tBL
      && c'.windows == [v'] && (n < 3 ==> Served4(g, c', n + 1, v'))
      && (n == 3 ==> forall b | 0 <= b < 3 :: c'.banks[b] == c.banks[b])
  {
    var e := IssueOf(g, n);
    var b := e.a.bank;
    assert c.banks[b] == UNUSED;
    assert ActCycle(g.t, UNUSED, 0, e.a) == e.a.arrivalCycle;
    assert CmdCycle(g.t, c, e.a, e.curCycle) == e.curCycle;
  }

  type Steps = (Mem, DdrRuns.Event, Mem) -> bool

  ghost function Policy(g: Config): Steps { (s, e, s') => ByPolicy(g, s, e, s') }

  // Steps of that kind lead from one state to another by way of the events.
  ghost predicate Reaches(step: Steps, s: Mem, events: seq<DdrRuns.Event>, s': Mem)
    decreases |events|
  {
    if events == [] then s == s' else exists mid :: step(s, events[0], mid) && Reaches(step, mid, events[1..], s')
  }

  lemma Prepend(step: Steps, s: Mem, e: DdrRuns.Event, mid: Mem, events: seq<DdrRuns.Event>, s': Mem)
    requires step(s, e, mid) && Reaches(step, mid, events, s')
    ensures Reaches(step, s, [e] + events, s')
  {
    assert ([e] + events)[1..] == events;
  }

  lemma {:induction false} Joined(step: Steps, s: Mem, events: seq<DdrRuns.Event>, mid: Mem, more: seq<DdrRuns.Event>,
                                  s': Mem)
    requires Reaches(step, s, events, mid) && Reaches(step, mid, more, s')
    ensures Reaches(step, s, events + more, s')
    decreases |events|
  {
    if events == [] {
      assert events + more == more;
    } else {
      var next :| step(s, events[0], next) && Reaches(step, next, events[1..], mid);
      Joined(step, next, events[1..], mid, more, s');
      Prepend(step, s, events[0], next, events[1..] + more, s');
      assert [events[0]] + (events[1..] + more) == events + more;
    }
  }

  // The requests come in one after another, and then they issue.
  function Arrivals(n: nat): seq<DdrRuns.Event> {
    if n == 0 then [] else Arrivals(n - 1) + [Entering(n - 1, Request(n - 1))]
  }

  function Issuings(g: Config, n: nat): seq<DdrRuns.Event>
    decreases 4 - n
  {
    if n >= 4 then [] else [IssueOf(g, n)] + Issuings(g, n + 1)
  }

  lemma One(step: Steps, s: Mem, e: DdrRuns.Event, s': Mem)
    requires step(s, e, s')
    ensures Reaches(step, s, [e], s')
  {
    Prepend(step, s, e, s', [], s');
    assert [e] + [] == [e];
  }

  lemma {:induction false} Arrive(g: Config, n: nat)
    requires Suits(g) && n <= 4
    ensures Reaches(Policy(g), Mem(Start(g), In(0)), Arrivals(n), Mem(Start(g), In(n)))
  {
    if n > 0 {
      Arrive(g, n - 1);
      ComesIn(g, n - 1);
      One(Policy(g), Mem(Start(g), In(n - 1)), Entering(n - 1, Request(n - 1)), Mem(Start(g), In(n)));
      Joined(Policy(g), Mem(Start(g), In(0)), Arrivals(n - 1), Mem(Start(g), In(n - 1)),
             [Entering(n - 1, Request(n - 1))], Mem(Start(g), In(n)));
    }
  }

  // The window once n of them have issued.
  function WindowAt(n: nat): seq<int> {
    if n == 0 then [0, 0, 0, 0] else if n == 1 then [0, 0, 0, 41] else if n == 2 then [0, 0, 41, 41]
    else if n == 3 then [0, 41, 41, 41] else [41, 41, 41, 40]
  }

  lemma WindowStep(n: nat)
    requires n < 4
    ensures Added(WindowAt(n), Request(Key(n)).arrivalCycle) == WindowAt(n + 1)
  {
    if n < 3 {
      AddedLast(WindowAt(n), 41);
    } else {
      LaterIs([0, 41, 41, 41], 40, 3);
    }
  }

  lemma AddedLast(v: seq<int>, x: int)
    requires v != [] && v[|v| - 1] <= x
    ensures Added(v, x) == v[1..] + [x]
  {
  }

  ghost predicate AllServed(c: Chip) {
    && c.windows == [WindowAt(4)]
    && |c.banks| >= 3 && forall b | 0 <= b < 3 :: c.banks[b].lastActCycle == 41
  }

  lemma {:induction false} IssueAll(g: Config, c: Chip, n: nat) returns (c': Chip)
    requires Suits(g) && n < 4 && Served4(g, c, n, WindowAt(n))
    ensures Reaches(Policy(g), Mem(c, Out(n)), Issuings(g, n), Mem(c', Out(4))) && AllServed(c')
    decreases 4 - n
  {
    WindowStep(n);
    var next := Issues(g, c, n, WindowAt(n), WindowAt(n + 1));
    if n == 3 {
      c' := next;
      assert Reaches(Policy(g), Mem(c', Out(4)), Issuings(g, 4), Mem(c', Out(4)));
    } else {
      c' := IssueAll(g, next, n + 1);
    }
    Prepend(Policy(g), Mem(c, Out(n)), IssueOf(g, n), Mem(next, Out(n + 1)), Issuings(g, n + 1), Mem(c', Out(4)));
  }

  lemma StartIsFree(g: Config)
    requires Suits(g)
    ensures Served4(g, Start(g), 0, WindowAt(0))
  {
    assert Zeros(WINDOW) == WindowAt(0);
  }

  // The window loses its order in a run of the policy. The first three activations, of different
  // banks of the rank, are all in cycle 41.
  lemma WindowLosesOrder(g: Config) returns (c: Chip)
    requires Suits(g)
    ensures Reaches(Policy(g), Mem(Start(g), In(0)), Arrivals(4) + Issuings(g, 0), Mem(c, Out(4)))
    ensures c.windows == [[41, 41, 41, 40]] && !Sorted(c.windows[0])
    ensures |c.banks| >= 3 && forall b | 0 <= b < 3 :: c.banks[b].lastActCycle == 41
  {
    StartIsFree(g);
    c := IssueAll(g, Start(g), 0);
    Arrive(g, 4);
    Joined(Policy(g), Mem(Start(g), In(0)), Arrivals(4), Mem(Start(g), In(4)), Issuings(g, 0), Mem(c, Out(4)));
    assert WindowAt(4)[2] > WindowAt(4)[3];
  }
}
