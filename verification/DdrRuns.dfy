// Runs of the controller's queues: what a bank queue goes through while requests arrive, wait in the
// overflow queue, move in from it and issue, and refreshes come in between.

module DdrRuns {
  import opened DdrController
  import opened DdrTiming
  import opened FrFcfs

  datatype Mem = Mem(chip: Chip, pools: Pools)

  datatype Event =
    | Entering(k: nat, r: Req)
    | Holding(k: nat, r: Req)
    | Draining(memCycle: int)
    | Issuing(wr: bool, i: int, a: Access, curCycle: int)
    | Refreshing(memCycle: int)

  // A request has come in: it is new, there was room, and it is now in its bank queue.
  ghost predicate Entry(g: Config, c: Chip, p: Pools, p': Pools, k: nat, r: Req) {
    && k !in Live(p) && r.bank < |c.banks| && |p.rdQueue| < g.queueDepth && |p.wrQueue| < g.queueDepth
    && Entered(p, p', k, r, g.deferredWrites && r.write, g.rowHitLimit, BufferOf(c.banks[r.bank]))
  }

  // The request that the overflow queue gives up, as it enters.
  function Drained(p: Pools, memCycle: int): Req
    requires p.overflowQueue != [] && p.overflowQueue[0] in p.reqs
  {
    p.reqs[p.overflowQueue[0]].(arrivalCycle := memCycle)
  }

  ghost predicate Step(g: Config, s: Mem, e: Event, s': Mem) {
    var (c, p, c', p') := (s.chip, s.pools, s'.chip, s'.pools);
    match e
    case Entering(k, r) => c' == c && Entry(g, c, p, p', k, r)
    case Holding(k, r) =>
      c' == c && k !in Live(p) && r.bank < |c.banks| && r.rowHitSeq == 0 && p' == Overflowed(p, k, r)
    case Draining(memCycle) =>
      && c' == c && p.overflowQueue != [] && p.overflowQueue[0] in p.reqs
      && Entry(g, c, Popped(p), p', p.overflowQueue[0], Drained(p, memCycle))
    case Issuing(wr, i, a, curCycle) => i >= 0 && Issued(g, c, p, c', p', wr, i, a, curCycle)
    case Refreshing(memCycle) => c' == Refreshed(g.t, c, memCycle) && p' == p
  }

  // A step that the controller's policy takes: what issues is the first ready request of the pool
  // whose turn it is.
  ghost predicate ByPolicy(g: Config, s: Mem, e: Event, s': Mem) {
    && Step(g, s, e, s')
    && (e.Issuing? ==> Attempted(g, s.chip, s.pools, {}, s'.chip, s'.pools, {PoolOf(s.pools, e.wr)[e.i]},
                                 true, e.wr, e.i, e.a, e.curCycle))
  }

  ghost predicate QueuesOk(g: Config, s: Mem) {
    && PoolsOk(s.pools, |s.chip.banks|, g.queueDepth, g.rowHitLimit)
    && WritesApart(s.pools, g.deferredWrites) && NumbersOk(s.chip, s.pools, g.deferredWrites)
  }

  ghost predicate HasQueue(s: Mem, b: nat) {
    && b < |s.pools.rdReqs| == |s.pools.wrReqs| == |s.chip.banks|
    && (forall k | k in s.pools.rdReqs[b] :: k in s.pools.reqs)
    && forall k | k in s.pools.wrReqs[b] :: k in s.pools.reqs
  }

  // The queue of bank b, of writes or of reads.
  ghost function QueueOf(s: Mem, wr: bool, b: nat): seq<Req>
    requires HasQueue(s, b)
  {
    Contents(ListsOf(s.pools, wr)[b], s.pools.reqs)
  }

  // What an event is to that queue: an arrival, an issue, or nothing.
  ghost function OpsOf(g: Config, s: Mem, e: Event, wr: bool, b: nat): seq<FrFcfs.Op> {
    match e
    case Entering(_, r) => Arrival(g, s.chip, r, wr, b)
    case Draining(memCycle) =>
      if s.pools.overflowQueue != [] && s.pools.overflowQueue[0] in s.pools.reqs then
        Arrival(g, s.chip, Drained(s.pools, memCycle), wr, b)
      else []
    case Issuing(wr', _, a, _) => if wr' == wr && a.bank == b then [FrFcfs.Op.Issue] else []
    case _ => []
  }

  ghost function Arrival(g: Config, c: Chip, r: Req, wr: bool, b: nat): seq<FrFcfs.Op> {
    if r.bank == b < |c.banks| && wr == (g.deferredWrites && r.write) then [Arrive(r, BufferOf(c.banks[b]))] else []
  }

  lemma EntryFollows(g: Config, s: Mem, p': Pools, k: nat, r: Req, wr: bool, b: nat)
    requires QueuesOk(g, s) && Entry(g, s.chip, s.pools, p', k, r) && b < |s.chip.banks|
    ensures QueuesOk(g, Mem(s.chip, p')) && HasQueue(Mem(s.chip, p'), b) && HasQueue(s, b)
    ensures QueueOf(Mem(s.chip, p'), wr, b)
            == Evolved(QueueOf(s, wr, b), Arrival(g, s.chip, r, wr, b), g.rowHitLimit)
  {
    EntryKeeps(g, s, p', k, r);
    NotQueued(s.pools, k, |s.chip.banks|, g.queueDepth, g.rowHitLimit);
    EntryQueue(g, s, p', k, r, wr, b);
  }

  lemma EntryKeeps(g: Config, s: Mem, p': Pools, k: nat, r: Req)
    requires QueuesOk(g, s) && Entry(g, s.chip, s.pools, p', k, r)
    ensures QueuesOk(g, Mem(s.chip, p'))
  {
    var (c, p) := (s.chip, s.pools);
    AdmittedOk(p, k, r, g.deferredWrites && r.write, |c.banks|, g.queueDepth, g.rowHitLimit, BufferOf(c.banks[r.bank]));
    NotQueued(p, k, |c.banks|, g.queueDepth, g.rowHitLimit);
    EnterNumbers(c, p, k, r, g.rowHitLimit, g.deferredWrites);
  }

  lemma EntryQueue(g: Config, s: Mem, p': Pools, k: nat, r: Req, wr: bool, b: nat)
    requires Entry(g, s.chip, s.pools, p', k, r) && HasQueue(s, b)
    requires k !in s.pools.rdReqs[b] && k !in s.pools.wrReqs[b]
    ensures HasQueue(Mem(s.chip, p'), b)
    ensures QueueOf(Mem(s.chip, p'), wr, b)
            == Evolved(QueueOf(s, wr, b), Arrival(g, s.chip, r, wr, b), g.rowHitLimit)
  {
    var wr0 := g.deferredWrites && r.write;
    if r.bank == b {
      AdmittedIsFrFcfs(s.pools, k, r, wr0, g.rowHitLimit, BufferOf(s.chip.banks[b]));
    }
    var list := ListsOf(s.pools, wr)[b];
    if !(r.bank == b && wr == wr0) { SameContents(list, s.pools.reqs, k, p'.reqs[k]); }
  }

  lemma HoldFollows(g: Config, s: Mem, k: nat, r: Req, wr: bool, b: nat)
    requires QueuesOk(g, s) && k !in Live(s.pools) && r.bank < |s.chip.banks| && r.rowHitSeq == 0
    requires b < |s.chip.banks|
    ensures var s' := Mem(s.chip, Overflowed(s.pools, k, r));
            QueuesOk(g, s') && HasQueue(s', b) && HasQueue(s, b) && QueueOf(s', wr, b) == QueueOf(s, wr, b)
  {
    OverflowOk(s.pools, k, r, |s.chip.banks|, g.queueDepth, g.rowHitLimit);
    OverflowNumbers(g, s.chip, s.pools, k, r);
    NotQueued(s.pools, k, |s.chip.banks|, g.queueDepth, g.rowHitLimit);
    SameContents(ListsOf(s.pools, wr)[b], s.pools.reqs, k, r);
  }

  lemma IssueFollows(g: Config, s: Mem, s': Mem, wr0: bool, i: nat, a: Access, curCycle: int, wr: bool, b: nat)
    requires QueuesOk(g, s) && Issued(g, s.chip, s.pools, s'.chip, s'.pools, wr0, i, a, curCycle)
    requires b < |s.chip.banks|
    ensures QueuesOk(g, s') && HasQueue(s', b) && HasQueue(s, b)
    ensures QueueOf(s', wr, b)
            == Evolved(QueueOf(s, wr, b), if wr0 == wr && a.bank == b then [FrFcfs.Op.Issue] else [], g.rowHitLimit)
  {
    IssueKeepsQueues(g, s, s', wr0, i, a, curCycle);
    LeftQueue(s.pools, i, wr0, wr, b);
  }

  // A request that leaves was first in its bank queue; the other queues stay.
  lemma LeftQueue(p: Pools, i: nat, wr0: bool, wr: bool, b: nat)
    requires i < |PoolOf(p, wr0)| && Front(ListsOf(p, wr0), p.reqs, PoolOf(p, wr0)[i])
    requires b < |p.rdReqs| == |p.wrReqs| && forall k | k in ListsOf(p, wr)[b] :: k in p.reqs
    ensures var (list, list') := (ListsOf(p, wr)[b], ListsOf(Left(p, i, wr0), wr)[b]);
            if wr0 == wr && p.reqs[PoolOf(p, wr0)[i]].bank == b
            then list != [] && list' == list[1..] && Contents(list', p.reqs) == Contents(list, p.reqs)[1..]
            else list' == list
  {
  }

  lemma IssueKeepsQueues(g: Config, s: Mem, s': Mem, wr: bool, i: nat, a: Access, curCycle: int)
    requires QueuesOk(g, s) && Issued(g, s.chip, s.pools, s'.chip, s'.pools, wr, i, a, curCycle)
    ensures QueuesOk(g, s') && |s'.chip.banks| == |s.chip.banks|
  {
    LeftOk(s.pools, i, wr, |s.chip.banks|, g.queueDepth, g.rowHitLimit);
    LeftApart(s.pools, i, wr, g.deferredWrites);
    IssueNumbers(g, s.chip, s.pools, wr, i, a, curCycle);
  }

  lemma StepFollows(g: Config, s: Mem, e: Event, s': Mem, wr: bool, b: nat)
    requires QueuesOk(g, s) && Step(g, s, e, s') && b < |s.chip.banks|
    ensures QueuesOk(g, s') && |s'.chip.banks| == |s.chip.banks| && HasQueue(s, b) && HasQueue(s', b)
    ensures QueueOf(s', wr, b) == Evolved(QueueOf(s, wr, b), OpsOf(g, s, e, wr, b), g.rowHitLimit)
  {
    match e
    case Entering(k, r) => EntryFollows(g, s, s'.pools, k, r, wr, b);
    case Holding(k, r) => HoldFollows(g, s, k, r, wr, b);
    case Draining(memCycle) =>
      PopOk(s.pools, |s.chip.banks|, g.queueDepth, g.rowHitLimit);
      EntryFollows(g, Mem(s.chip, Popped(s.pools)), s'.pools, s.pools.overflowQueue[0],
                   Drained(s.pools, memCycle), wr, b);
    case Issuing(wr0, i, a, curCycle) => IssueFollows(g, s, s', wr0, i, a, curCycle, wr, b);
    case Refreshing(memCycle) => RefreshNumbers(g.t, s.chip, s.pools, memCycle, g.deferredWrites);
  }

  ghost predicate IsRun(g: Config, run: seq<Mem>, events: seq<Event>) {
    |run| == |events| + 1 && forall i | 0 <= i < |events| :: Step(g, run[i], events[i], run[i + 1])
  }

  ghost function OpsOn(g: Config, run: seq<Mem>, events: seq<Event>, wr: bool, b: nat): seq<FrFcfs.Op>
    requires |run| == |events| + 1
  {
    if events == [] then [] else OpsOf(g, run[0], events[0], wr, b) + OpsOn(g, run[1..], events[1..], wr, b)
  }

  lemma RunTail(g: Config, run: seq<Mem>, events: seq<Event>)
    requires IsRun(g, run, events) && events != []
    ensures Step(g, run[0], events[0], run[1]) && IsRun(g, run[1..], events[1..])
    ensures run[1..][0] == run[1] && run[1..][|events| - 1] == run[|events|]
  {
    forall i | 0 <= i < |events| - 1 ensures Step(g, run[1..][i], events[1..][i], run[1..][i + 1]) {
      assert Step(g, run[i + 1], events[i + 1], run[i + 2]);
    }
  }

  // Over any run, every bank queue is what the FR-FCFS queue makes of the arrivals and issues that
  // concern it.
  lemma {:induction false} QueueFollows(g: Config, run: seq<Mem>, events: seq<Event>, wr: bool, b: nat)
    requires IsRun(g, run, events) && QueuesOk(g, run[0]) && b < |run[0].chip.banks|
    ensures var s' := run[|events|];
            && QueuesOk(g, s') && |s'.chip.banks| == |run[0].chip.banks| && HasQueue(run[0], b) && HasQueue(s', b)
            && QueueOf(s', wr, b) == Evolved(QueueOf(run[0], wr, b), OpsOn(g, run, events, wr, b), g.rowHitLimit)
    decreases |events|
  {
    if events != [] {
      StepFollows(g, run[0], events[0], run[1], wr, b);
      RunTail(g, run, events);
      QueueFollows(g, run[1..], events[1..], wr, b);
      EvolvedConcat(QueueOf(run[0], wr, b), OpsOf(g, run[0], events[0], wr, b),
                    OpsOn(g, run[1..], events[1..], wr, b), g.rowHitLimit);
    }
  }

  // Bounded bypass and the meaning of the sequence numbers, over any run: the requests that enter
  // later and are placed ahead of the one at pos number at most rowHitLimit for each distinct row
  // ahead of it, and every queue is in runs of requests to one row that count up to the limit.
  lemma ControllerRuns(g: Config, run: seq<Mem>, events: seq<Event>, wr: bool, b: nat, pos: nat)
    requires IsRun(g, run, events) && QueuesOk(g, run[0]) && b < |run[0].chip.banks|
    requires HasQueue(run[0], b) && pos < |QueueOf(run[0], wr, b)|
    ensures Bypasses(QueueOf(run[0], wr, b), pos, OpsOn(g, run, events, wr, b), g.rowHitLimit)
            <= g.rowHitLimit * |Rows(QueueOf(run[0], wr, b)[..pos])|
    ensures HasQueue(run[|events|], b)
    ensures var q := QueueOf(run[|events|], wr, b);
            && Limited(q, g.rowHitLimit) && InChain(q)
            && (!g.deferredWrites && !wr ==> Runs(q, BufferOf(run[|events|].chip.banks[b])))
  {
    BoundedBypass(QueueOf(run[0], wr, b), pos, OpsOn(g, run, events, wr, b), g.rowHitLimit);
    QueueFollows(g, run, events, wr, b);
  }

  // What enqueue promises is one of these events.
  lemma EnqueueIsStep(g: Config, c: Chip, p: Pools, h: History, accepted: set<nat>, served: set<nat>, p': Pools,
                      k: nat, r: Req) returns (e: Event)
    requires InOrder(g, c, p, h, accepted, served) && k !in accepted && r.bank < |c.banks| && r.rowHitSeq == 0
    requires if |p.rdQueue| == g.queueDepth || |p.wrQueue| == g.queueDepth then p' == Overflowed(p, k, r)
             else Entered(p, p', k, r, g.deferredWrites && r.write, g.rowHitLimit, BufferOf(c.banks[r.bank]))
    ensures Step(g, Mem(c, p), e, Mem(c, p'))
  {
    e := if |p.rdQueue| == g.queueDepth || |p.wrQueue| == g.queueDepth then Holding(k, r) else Entering(k, r);
  }

  // And what tick promises is at most two.
  lemma TickIsRun(g: Config, c: Chip, p: Pools, h: History, accepted: set<nat>, served: set<nat>, c': Chip, mid: Pools,
                  p': Pools, served': set<nat>, issued: bool, wr: bool, i: int, a: Access, memCycle: int)
    returns (run: seq<Mem>, events: seq<Event>)
    requires InOrder(g, c, p, h, accepted, served)
    requires Attempted(g, c, p, served, c', mid, served', issued, wr, i, a, memCycle)
    requires DrainedIfRoom(g, c', mid, p', memCycle)
    ensures IsRun(g, run, events) && run[0] == Mem(c, p) && run[|events|] == Mem(c', p')
  {
    AttemptIsStep(g, c, p, served, c', mid, served', issued, wr, i, a, memCycle);
    run, events := DrainIsRun(g, c', mid, p', memCycle);
    if issued {
      RunFrom(g, Mem(c, p), Issuing(wr, i, a, memCycle), run, events);
      run, events := [Mem(c, p)] + run, [Issuing(wr, i, a, memCycle)] + events;
    }
  }

  lemma AttemptIsStep(g: Config, c: Chip, p: Pools, served: set<nat>, c': Chip, mid: Pools, served': set<nat>,
                      issued: bool, wr: bool, i: int, a: Access, memCycle: int)
    requires PoolsOk(p, |c.banks|, g.queueDepth, g.rowHitLimit)
    requires Attempted(g, c, p, served, c', mid, served', issued, wr, i, a, memCycle)
    ensures PoolsOk(mid, |c'.banks|, g.queueDepth, g.rowHitLimit)
    ensures if issued then Step(g, Mem(c, p), Issuing(wr, i, a, memCycle), Mem(c', mid)) else c' == c && mid == p
  {
    if issued { LeftOk(p, i, wr, |c.banks|, g.queueDepth, g.rowHitLimit); }
  }

  lemma RunFrom(g: Config, s: Mem, e: Event, run: seq<Mem>, events: seq<Event>)
    requires IsRun(g, run, events) && Step(g, s, e, run[0])
    ensures IsRun(g, [s] + run, [e] + events)
  {
    var run', events' := [s] + run, [e] + events;
    forall j | 0 <= j < |events'| ensures Step(g, run'[j], events'[j], run'[j + 1]) {
      assert run'[j + 1] == run[j];
      if j > 0 {
        assert run'[j] == run[j - 1] && events'[j] == events[j - 1];
      }
    }
  }

  lemma DrainIsRun(g: Config, c: Chip, p: Pools, p': Pools, memCycle: int) returns (run: seq<Mem>, events: seq<Event>)
    requires PoolsOk(p, |c.banks|, g.queueDepth, g.rowHitLimit) && DrainedIfRoom(g, c, p, p', memCycle)
    ensures IsRun(g, run, events) && run[0] == Mem(c, p) && run[|events|] == Mem(c, p')
  {
    if p.overflowQueue != [] && |p.rdQueue| < g.queueDepth && |p.wrQueue| < g.queueDepth {
      PopOk(p, |c.banks|, g.queueDepth, g.rowHitLimit);
      run, events := [Mem(c, p), Mem(c, p')], [Draining(memCycle)];
    } else {
      run, events := [Mem(c, p)], [];
    }
  }
}
