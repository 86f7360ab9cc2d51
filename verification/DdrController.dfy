// The DDR controller: the request pools, the bank queues that share their requests, the timing
// state and the wake-up events.

module DdrPools {
  import opened FrFcfs

  ghost predicate NoDup(s: seq<nat>) {
    forall i, j | 0 <= i < j < |s| :: s[i] != s[j]
  }

  // A pool and its bank queues hold the same requests, each once. A request is named by its key;
  // reqs holds what is known of it.
  ghost predicate PoolOk(pool: seq<nat>, lists: seq<seq<nat>>, reqs: map<nat, Req>) {
    && NoDup(pool)
    && (forall b | 0 <= b < |lists| :: NoDup(lists[b]) && forall k | k in lists[b] :: k in pool)
    && (forall b | 0 <= b < |lists| :: forall k | k in lists[b] :: k in reqs && reqs[k].bank == b)
    && forall k | k in pool :: k in reqs && reqs[k].bank < |lists| && k in lists[reqs[k].bank]
  }

  function Cut<T>(s: seq<T>, i: nat): seq<T>
    requires i < |s|
  {
    s[..i] + s[i + 1..]
  }

  lemma SpliceNoDup(s: seq<nat>, i: nat, k: nat)
    requires i <= |s| && NoDup(s) && k !in s
    ensures NoDup(Splice(s, i, k))
    ensures forall x :: x in Splice(s, i, k) <==> x in s || x == k
  {
    var t := Splice(s, i, k);
    assert forall j | 0 <= j < |t| :: t[j] == if j < i then s[j] else if j == i then k else s[j - 1];
    forall x | x in s ensures x in t {
      var j :| 0 <= j < |s| && s[j] == x;
      assert t[if j < i then j else j + 1] == x;
    }
    assert t[i] == k;
  }

  lemma CutNoDup(s: seq<nat>, i: nat)
    requires i < |s| && NoDup(s)
    ensures NoDup(Cut(s, i))
    ensures forall x :: x in Cut(s, i) <==> x in s && x != s[i]
  {
    var t := Cut(s, i);
    assert forall j | 0 <= j < |t| :: t[j] == if j < i then s[j] else s[j + 1];
    forall x | x in s && x != s[i] ensures x in t {
      var j :| 0 <= j < |s| && s[j] == x;
      assert t[if j < i then j else j - 1] == x;
    }
  }

  // A request goes into its pool and, at some place, into its bank's queue.
  lemma EnterKeeps(pool: seq<nat>, lists: seq<seq<nat>>, reqs: map<nat, Req>, k: nat, r: Req, i: nat)
    requires PoolOk(pool, lists, reqs) && k !in pool
    requires r.bank < |lists| && i <= |lists[r.bank]|
    ensures PoolOk(pool + [k], lists[r.bank := Splice(lists[r.bank], i, k)], reqs[k := r])
  {
    assert Splice(pool, |pool|, k) == pool + [k];
    SpliceNoDup(pool, |pool|, k);
    SpliceNoDup(lists[r.bank], i, k);
  }

  // The front request of a bank queue leaves it and its pool.
  lemma LeaveKeeps(pool: seq<nat>, lists: seq<seq<nat>>, reqs: map<nat, Req>, i: nat, b: nat)
    requires PoolOk(pool, lists, reqs) && i < |pool| && b < |lists|
    requires lists[b] != [] && lists[b][0] == pool[i]
    ensures PoolOk(Cut(pool, i), lists[b := lists[b][1..]], reqs)
  {
    CutNoDup(pool, i);
    CutNoDup(lists[b], 0);
    assert Cut(lists[b], 0) == lists[b][1..];
  }

  // What happens to another request does not matter.
  lemma OtherKeeps(pool: seq<nat>, lists: seq<seq<nat>>, reqs: map<nat, Req>, k: nat, r: Req)
    requires PoolOk(pool, lists, reqs) && k !in pool
    ensures PoolOk(pool, lists, reqs[k := r])
  {
  }
}

module DdrController {
  import opened Arith
  import opened DdrPools
  import opened DdrTiming
  import opened FrFcfs
  import Clock = DdrClock

  // A scheduling cycle, or none (the source's -1).
  datatype Cycle = Never | At(c: int)

  function Min(a: Cycle, b: int): Cycle {
    if a.Never? || b < a.c then At(b) else a
  }

  function Contents(list: seq<nat>, reqs: map<nat, Req>): (q: seq<Req>)
    requires forall k | k in list :: k in reqs
    ensures |q| == |list|
  {
    seq(|list|, i requires 0 <= i < |list| => reqs[list[i]])
  }

  // Request k is first in its bank queue.
  predicate Front(lists: seq<seq<nat>>, reqs: map<nat, Req>, k: nat) {
    && k in reqs && reqs[k].bank < |lists|
    && var q := lists[reqs[k].bank];
    q != [] && q[0] == k
  }

  function AccessOf(list: seq<nat>, reqs: map<nat, Req>, k: nat): Access
    requires k in reqs && forall j | j in list :: j in reqs
  {
    var r := reqs[k];
    Access(r.bank, r.row, r.write, r.arrivalCycle, r.rowHitSeq, |list| > 1 && reqs[list[1]].rowHitSeq != 0)
  }

  // A request has another hit to come exactly if the one behind it in its queue continues its run.
  lemma MoreIsHit(list: seq<nat>, reqs: map<nat, Req>)
    requires list != [] && ChainOk(list, reqs)
    ensures AccessOf(list, reqs, list[0]).more ==> |list| > 1 && reqs[list[1]].row == reqs[list[0]].row
    ensures AccessOf(list, reqs, list[0]).more <==>
              |list| > 1 && reqs[list[1]].rowHitSeq == reqs[list[0]].rowHitSeq + 1
  {
    var q := Contents(list, reqs);
    if |list| > 1 && q[1].rowHitSeq > 0 { assert q[0].row == q[1].row; }
  }

  ghost predicate Disjoint(a: seq<nat>, b: seq<nat>) {
    forall k | k in a :: k !in b
  }

  datatype Pools = Pools(
    rdQueue: seq<nat>, wrQueue: seq<nat>, overflowQueue: seq<nat>,
    rdReqs: seq<seq<nat>>, wrReqs: seq<seq<nat>>, reqs: map<nat, Req>)

  // Every live request is in exactly one place: one pool and, as often, its bank's queue of that
  // pool, or the overflow queue.
  ghost predicate PoolsOk(p: Pools, banks: nat, depth: nat, limit: nat) {
    && |p.rdReqs| == |p.wrReqs| == banks
    && PoolOk(p.rdQueue, p.rdReqs, p.reqs) && PoolOk(p.wrQueue, p.wrReqs, p.reqs)
    && NoDup(p.overflowQueue) && (forall k | k in p.overflowQueue :: k in p.reqs && p.reqs[k].bank < banks)
    && Disjoint(p.rdQueue, p.wrQueue) && Disjoint(p.rdQueue, p.overflowQueue) && Disjoint(p.wrQueue, p.overflowQueue)
    && |p.rdQueue| <= depth && |p.wrQueue| <= depth
    && forall k | k in p.reqs :: p.reqs[k].rowHitSeq <= limit
  }

  ghost function Live(p: Pools): set<nat> {
    (set k | k in p.rdQueue) + (set k | k in p.wrQueue) + (set k | k in p.overflowQueue)
  }

  // DDRMemory::queue on the pools: request k with fields r enters. wr says which pool.
  function Admitted(p: Pools, k: nat, r: Req, wr: bool, limit: nat, b: RowBuffer): Pools
    requires r.bank < |p.rdReqs| && r.bank < |p.wrReqs|
    requires forall j | j in (if wr then p.wrReqs else p.rdReqs)[r.bank] :: j in p.reqs
  {
    var lists := if wr then p.wrReqs else p.rdReqs;
    var list := lists[r.bank];
    var (i, n) := Slot(Contents(list, p.reqs), r.row, limit, b);
    var lists' := lists[r.bank := Splice(list, i, k)];
    var reqs' := p.reqs[k := r.(rowHitSeq := n)];
    if wr then p.(wrQueue := p.wrQueue + [k], wrReqs := lists', reqs := reqs')
    else p.(rdQueue := p.rdQueue + [k], rdReqs := lists', reqs := reqs')
  }

  // The bank queue that k enters is the FR-FCFS queue.
  lemma AdmittedIsFrFcfs(p: Pools, k: nat, r: Req, wr: bool, limit: nat, b: RowBuffer)
    requires r.bank < |p.rdReqs| == |p.wrReqs|
    requires var list := (if wr then p.wrReqs else p.rdReqs)[r.bank];
             k !in list && forall j | j in list :: j in p.reqs
    ensures var list := (if wr then p.wrReqs else p.rdReqs)[r.bank];
            var p' := Admitted(p, k, r, wr, limit, b);
            var list' := (if wr then p'.wrReqs else p'.rdReqs)[r.bank];
            && (forall j | j in list' :: j in p'.reqs)
            && Contents(list', p'.reqs) == Queued(Contents(list, p.reqs), r, limit, b)
  {
    SplicedIsQueued((if wr then p.wrReqs else p.rdReqs)[r.bank], p.reqs, k, r, limit, b);
  }

  lemma SplicedIsQueued(list: seq<nat>, reqs: map<nat, Req>, k: nat, r: Req, limit: nat, b: RowBuffer)
    requires k !in list && forall j | j in list :: j in reqs
    ensures var (i, n) := Slot(Contents(list, reqs), r.row, limit, b);
            var (list', reqs') := (Splice(list, i, k), reqs[k := r.(rowHitSeq := n)]);
            && (forall j | j in list' :: j in reqs')
            && Contents(list', reqs') == Queued(Contents(list, reqs), r, limit, b)
  {
    var (i, _) := Slot(Contents(list, reqs), r.row, limit, b);
    var list' := Splice(list, i, k);
    assert forall j | 0 <= j < |list'| :: list'[j] == if j < i then list[j] else if j == i then k else list[j - 1];
  }

  lemma SlotLimited(q: seq<Req>, row: int, limit: nat, b: RowBuffer)
    requires forall i | 0 <= i < |q| :: q[i].rowHitSeq <= limit
    ensures Slot(q, row, limit, b).1 <= limit
  {
  }

  lemma AdmittedRdOk(p: Pools, k: nat, r: Req, banks: nat, depth: nat, limit: nat, b: RowBuffer)
    requires PoolsOk(p, banks, depth, limit) && r.bank < banks && k !in Live(p)
    requires |p.rdQueue| < depth
    ensures PoolsOk(Admitted(p, k, r, false, limit, b), banks, depth, limit)
  {
    var (i, n) := Slot(Contents(p.rdReqs[r.bank], p.reqs), r.row, limit, b);
    SlotLimited(Contents(p.rdReqs[r.bank], p.reqs), r.row, limit, b);
    EnterKeeps(p.rdQueue, p.rdReqs, p.reqs, k, r.(rowHitSeq := n), i);
    OtherKeeps(p.wrQueue, p.wrReqs, p.reqs, k, r.(rowHitSeq := n));
  }

  lemma AdmittedWrOk(p: Pools, k: nat, r: Req, banks: nat, depth: nat, limit: nat, b: RowBuffer)
    requires PoolsOk(p, banks, depth, limit) && r.bank < banks && k !in Live(p)
    requires |p.wrQueue| < depth
    ensures PoolsOk(Admitted(p, k, r, true, limit, b), banks, depth, limit)
  {
    var (i, n) := Slot(Contents(p.wrReqs[r.bank], p.reqs), r.row, limit, b);
    SlotLimited(Contents(p.wrReqs[r.bank], p.reqs), r.row, limit, b);
    EnterKeeps(p.wrQueue, p.wrReqs, p.reqs, k, r.(rowHitSeq := n), i);
    OtherKeeps(p.rdQueue, p.rdReqs, p.reqs, k, r.(rowHitSeq := n));
  }

  lemma AdmittedOk(p: Pools, k: nat, r: Req, wr: bool, banks: nat, depth: nat, limit: nat, b: RowBuffer)
    requires PoolsOk(p, banks, depth, limit) && r.bank < banks && k !in Live(p)
    requires |p.rdQueue| < depth && |p.wrQueue| < depth
    ensures PoolsOk(Admitted(p, k, r, wr, limit, b), banks, depth, limit)
    ensures Live(Admitted(p, k, r, wr, limit, b)) == Live(p) + {k}
  {
    if wr { AdmittedWrOk(p, k, r, banks, depth, limit, b); } else { AdmittedRdOk(p, k, r, banks, depth, limit, b); }
  }

  // Pools are in order of arrival: the request is last in its own, and no other list but its bank's
  // changes, nor what is known of any other request.
  lemma AdmittedIsLast(p: Pools, k: nat, r: Req, wr: bool, limit: nat, b: RowBuffer)
    requires r.bank < |p.rdReqs| == |p.wrReqs|
    requires forall j | j in ListsOf(p, wr)[r.bank] :: j in p.reqs
    ensures var p' := Admitted(p, k, r, wr, limit, b);
            && PoolOf(p', wr) == PoolOf(p, wr) + [k] && PoolOf(p', !wr) == PoolOf(p, !wr)
            && p'.overflowQueue == p.overflowQueue && ListsOf(p', !wr) == ListsOf(p, !wr)
            && |ListsOf(p', wr)| == |ListsOf(p, wr)|
            && (forall c | 0 <= c < |p.rdReqs| && c != r.bank :: ListsOf(p', wr)[c] == ListsOf(p, wr)[c])
            && p'.reqs.Keys == p.reqs.Keys + {k} && p'.reqs[k] == r.(rowHitSeq := p'.reqs[k].rowHitSeq)
            && forall j | j in p.reqs && j != k :: p'.reqs[j] == p.reqs[j]
  {
  }

  // A request that leaves takes nothing else along and leaves the rest in order.
  lemma LeftIsRest(p: Pools, i: nat, wr: bool)
    requires i < |PoolOf(p, wr)| && Front(ListsOf(p, wr), p.reqs, PoolOf(p, wr)[i])
    ensures var (p', b) := (Left(p, i, wr), p.reqs[PoolOf(p, wr)[i]].bank);
            && PoolOf(p', wr) == PoolOf(p, wr)[..i] + PoolOf(p, wr)[i + 1..] && PoolOf(p', !wr) == PoolOf(p, !wr)
            && p'.overflowQueue == p.overflowQueue && p'.reqs == p.reqs
            && ListsOf(p, wr)[b] == [PoolOf(p, wr)[i]] + ListsOf(p', wr)[b]
            && |ListsOf(p', wr)| == |ListsOf(p, wr)| && ListsOf(p', !wr) == ListsOf(p, !wr)
            && forall c | 0 <= c < |ListsOf(p, wr)| && c != b :: ListsOf(p', wr)[c] == ListsOf(p, wr)[c]
  {
  }

  // The request at place i of its pool leaves, from the front of its bank queue.
  function Left(p: Pools, i: nat, wr: bool): Pools
    requires i < |if wr then p.wrQueue else p.rdQueue|
    requires Front(if wr then p.wrReqs else p.rdReqs, p.reqs, (if wr then p.wrQueue else p.rdQueue)[i])
  {
    if wr then
      var b := p.reqs[p.wrQueue[i]].bank;
      p.(wrQueue := Cut(p.wrQueue, i), wrReqs := p.wrReqs[b := p.wrReqs[b][1..]])
    else
      var b := p.reqs[p.rdQueue[i]].bank;
      p.(rdQueue := Cut(p.rdQueue, i), rdReqs := p.rdReqs[b := p.rdReqs[b][1..]])
  }

  lemma LeftOk(p: Pools, i: nat, wr: bool, banks: nat, depth: nat, limit: nat)
    requires PoolsOk(p, banks, depth, limit)
    requires i < |if wr then p.wrQueue else p.rdQueue|
    requires Front(if wr then p.wrReqs else p.rdReqs, p.reqs, (if wr then p.wrQueue else p.rdQueue)[i])
    ensures PoolsOk(Left(p, i, wr), banks, depth, limit)
    ensures Live(Left(p, i, wr)) == Live(p) - {(if wr then p.wrQueue else p.rdQueue)[i]}
  {
    if wr {
      CutNoDup(p.wrQueue, i);
      LeaveKeeps(p.wrQueue, p.wrReqs, p.reqs, i, p.reqs[p.wrQueue[i]].bank);
    } else {
      CutNoDup(p.rdQueue, i);
      LeaveKeeps(p.rdQueue, p.rdReqs, p.reqs, i, p.reqs[p.rdQueue[i]].bank);
    }
  }

  ghost predicate WritesApart(p: Pools, deferredWrites: bool) {
    && (forall k | k in p.wrQueue :: k in p.reqs && p.reqs[k].write && deferredWrites)
    && forall k | k in p.rdQueue :: k in p.reqs && (deferredWrites ==> !p.reqs[k].write)
  }

  // Some request of a pool that is not empty is first in its bank queue.
  lemma HasFront(pool: seq<nat>, lists: seq<seq<nat>>, reqs: map<nat, Req>) returns (k: nat)
    requires PoolOk(pool, lists, reqs) && pool != []
    ensures k in pool && Front(lists, reqs, k)
  {
    assert pool[0] in pool;
    k := lists[reqs[pool[0]].bank][0];
    assert k in lists[reqs[pool[0]].bank];
  }

  // findMinCmdCycle by key; 0 for a key that is not queued.
  function MinCmdAt(t: Timing, c: Chip, reqs: map<nat, Req>, k: nat): int {
    if k in reqs && reqs[k].bank < |c.banks| && c.banks[reqs[k].bank].rank < |c.windows|
       && c.windows[c.banks[reqs[k].bank].rank] != [] then
      MinCmdCycle(t, c, AccessOf([], reqs, k))
    else 0
  }

  // i is the first place in the pool, which is in arrival order, of a request that heads its bank
  // queue and is ready; or it is -1, there is none, and minSched is when there will be.
  ghost predicate FirstReady(queue: seq<nat>, lists: seq<seq<nat>>, reqs: map<nat, Req>, t: Timing, c: Chip,
                             curCycle: int, i: int, minSched: Cycle) {
    if 0 <= i < |queue| then
      && Front(lists, reqs, queue[i]) && MinCmdAt(t, c, reqs, queue[i]) <= curCycle
      && forall j | 0 <= j < i && Front(lists, reqs, queue[j]) :: MinCmdAt(t, c, reqs, queue[j]) > curCycle
    else
      && i == -1 && minSched.At? && minSched.c > curCycle
      && (forall j | 0 <= j < |queue| && Front(lists, reqs, queue[j]) :: MinCmdAt(t, c, reqs, queue[j]) >= minSched.c)
      && exists j :: 0 <= j < |queue| && Front(lists, reqs, queue[j]) && MinCmdAt(t, c, reqs, queue[j]) == minSched.c
  }

  // The loop of trySchedule.
  method Scan(queue: seq<nat>, lists: seq<seq<nat>>, reqs: map<nat, Req>, t: Timing, c: Chip, curCycle: int)
    returns (i: int, minSched: Cycle)
    requires exists k :: k in queue && Front(lists, reqs, k)
    ensures FirstReady(queue, lists, reqs, t, c, curCycle, i, minSched)
  {
    minSched := Never;
    i := 0;
    while i < |queue|
      invariant 0 <= i <= |queue|
      invariant forall j | 0 <= j < i && Front(lists, reqs, queue[j]) ::
                  && MinCmdAt(t, c, reqs, queue[j]) > curCycle
                  && minSched.At? && minSched.c <= MinCmdAt(t, c, reqs, queue[j])
      invariant minSched.At? ==> minSched.c > curCycle
      invariant minSched.At? ==>
                  exists j :: 0 <= j < i && Front(lists, reqs, queue[j]) && MinCmdAt(t, c, reqs, queue[j]) == minSched.c
    {
      if Front(lists, reqs, queue[i]) {
        var minCmdCycle := MinCmdAt(t, c, reqs, queue[i]);
        minSched := Min(minSched, minCmdCycle);
        if minCmdCycle <= curCycle { return; }
      }
      i := i + 1;
    }
    i := -1;
  }

  lemma LeftApart(p: Pools, i: nat, wr: bool, deferredWrites: bool)
    requires WritesApart(p, deferredWrites)
    requires i < |if wr then p.wrQueue else p.rdQueue|
    requires Front(if wr then p.wrReqs else p.rdReqs, p.reqs, (if wr then p.wrQueue else p.rdQueue)[i])
    ensures WritesApart(Left(p, i, wr), deferredWrites)
  {
  }

  // What the operations do not change.
  datatype Config = Config(t: Timing, sysFreq: nat, memFreq: nat, queueDepth: nat, rowHitLimit: nat,
                           controllerSysLatency: nat, deferredWrites: bool, closedPage: bool)

  ghost predicate Configured(g: Config) {
    Clock.Clocks(g.sysFreq, g.memFreq) && Usable(g.t) && g.t.tCL + g.t.tBL > 0 && g.queueDepth > 0
  }

  // What the sequence numbers of every bank queue mean. Deferred writes share the row buffer with
  // the reads, so with them the front request of a queue need not follow the last one to issue.
  ghost predicate NumbersOk(c: Chip, p: Pools, deferredWrites: bool) {
    && |p.rdReqs| == |p.wrReqs| == |c.banks|
    && forall b | 0 <= b < |c.banks| ::
         && ChainOk(p.rdReqs[b], p.reqs) && ChainOk(p.wrReqs[b], p.reqs)
         && (!deferredWrites ==> FrontOk(p.rdReqs[b], p.reqs, BufferOf(c.banks[b])))
  }

  ghost predicate ChainOk(list: seq<nat>, reqs: map<nat, Req>) {
    (forall k | k in list :: k in reqs) && InChain(Contents(list, reqs))
  }

  ghost predicate FrontOk(list: seq<nat>, reqs: map<nat, Req>, b: RowBuffer) {
    (forall k | k in list :: k in reqs) && FrontFollows(Contents(list, reqs), b)
  }

  function BufferOf(b: Bank): RowBuffer { RowBuffer(b.open, b.openRow, b.curRowHits) }

  lemma SameContents(list: seq<nat>, reqs: map<nat, Req>, k: nat, r: Req)
    requires k !in list && forall j | j in list :: j in reqs
    ensures Contents(list, reqs[k := r]) == Contents(list, reqs)
  {
  }

  lemma OtherNumbers(list: seq<nat>, reqs: map<nat, Req>, k: nat, r: Req, b: RowBuffer)
    requires k !in list
    ensures ChainOk(list, reqs) ==> ChainOk(list, reqs[k := r])
    ensures FrontOk(list, reqs, b) ==> FrontOk(list, reqs[k := r], b)
  {
    if forall j | j in list :: j in reqs { SameContents(list, reqs, k, r); }
  }

  // A request held back is in no bank queue.
  lemma HeldNumbers(c: Chip, p: Pools, k: nat, r: Req, deferredWrites: bool)
    requires NumbersOk(c, p, deferredWrites)
    requires forall b | 0 <= b < |c.banks| :: k !in p.rdReqs[b] && k !in p.wrReqs[b]
    ensures NumbersOk(c, p.(reqs := p.reqs[k := r]), deferredWrites)
  {
    forall b | 0 <= b < |c.banks|
      ensures ChainOk(p.rdReqs[b], p.reqs[k := r]) && ChainOk(p.wrReqs[b], p.reqs[k := r])
      ensures !deferredWrites ==> FrontOk(p.rdReqs[b], p.reqs[k := r], BufferOf(c.banks[b]))
    {
      OtherNumbers(p.rdReqs[b], p.reqs, k, r, BufferOf(c.banks[b]));
      OtherNumbers(p.wrReqs[b], p.reqs, k, r, BufferOf(c.banks[b]));
    }
  }

  lemma SplicedNumbers(list: seq<nat>, reqs: map<nat, Req>, k: nat, r: Req, limit: nat, b: RowBuffer)
    requires k !in list && ChainOk(list, reqs)
    ensures var (i, n) := Slot(Contents(list, reqs), r.row, limit, b);
            var (list', reqs') := (Splice(list, i, k), reqs[k := r.(rowHitSeq := n)]);
            ChainOk(list', reqs') && (FrontOk(list, reqs, b) ==> FrontOk(list', reqs', b))
  {
    SplicedIsQueued(list, reqs, k, r, limit, b);
    QueuedChain(Contents(list, reqs), r, limit, b);
  }

  lemma EnterNumbers(c: Chip, p: Pools, k: nat, r: Req, limit: nat, deferredWrites: bool)
    requires NumbersOk(c, p, deferredWrites) && r.bank < |c.banks|
    requires forall b | 0 <= b < |c.banks| :: k !in p.rdReqs[b] && k !in p.wrReqs[b]
    ensures NumbersOk(c, Admitted(p, k, r, deferredWrites && r.write, limit, BufferOf(c.banks[r.bank])), deferredWrites)
  {
    var wr := deferredWrites && r.write;
    var list := ListsOf(p, wr)[r.bank];
    SplicedNumbers(list, p.reqs, k, r, limit, BufferOf(c.banks[r.bank]));
    var n := Slot(Contents(list, p.reqs), r.row, limit, BufferOf(c.banks[r.bank])).1;
    HeldNumbers(c, p, k, r.(rowHitSeq := n), deferredWrites);
  }

  lemma TailNumbers(list: seq<nat>, reqs: map<nat, Req>)
    requires list != [] && ChainOk(list, reqs)
    ensures ChainOk(list[1..], reqs)
    ensures FrontOk(list[1..], reqs, RowBuffer(true, reqs[list[0]].row, reqs[list[0]].rowHitSeq))
  {
    var q := Contents(list, reqs);
    assert Contents(list[1..], reqs) == q[1..];
    assert forall i | 0 <= i < |q| - 1 :: q[1..][i] == q[i + 1];
    if |q| > 1 && q[1].rowHitSeq > 0 { assert q[0].row == q[1].row; }
  }

  lemma IssueNumbers(g: Config, c: Chip, p: Pools, wr: bool, i: nat, a: Access, curCycle: int)
    requires NumbersOk(c, p, g.deferredWrites) && WritesApart(p, g.deferredWrites) && On(c, a)
    requires i < |PoolOf(p, wr)| && Front(ListsOf(p, wr), p.reqs, PoolOf(p, wr)[i])
    requires a == AccessOf(ListsOf(p, wr)[p.reqs[PoolOf(p, wr)[i]].bank], p.reqs, PoolOf(p, wr)[i])
    ensures NumbersOk(Served(g.t, c, a, curCycle, g.closedPage), Left(p, i, wr), g.deferredWrites)
  {
    var c' := Served(g.t, c, a, curCycle, g.closedPage);
    assert PoolOf(p, wr)[i] in PoolOf(p, wr);
    TailNumbers(ListsOf(p, wr)[a.bank], p.reqs);
    assert c'.banks[a.bank].openRow == a.row && c'.banks[a.bank].curRowHits == a.rowHitSeq;
  }

  lemma RefreshNumbers(t: Timing, c: Chip, p: Pools, memCycle: int, deferredWrites: bool)
    requires NumbersOk(c, p, deferredWrites)
    ensures NumbersOk(Refreshed(t, c, memCycle), p, deferredWrites)
  {
    var c' := Refreshed(t, c, memCycle);
    forall b | 0 <= b < |c.banks| && !deferredWrites
      ensures FrontOk(p.rdReqs[b], p.reqs, BufferOf(c'.banks[b]))
    {
      assert FrontOk(p.rdReqs[b], p.reqs, BufferOf(c.banks[b]));
    }
  }

  // Requests and timing are in order, and every accepted request has been served or is live.
  ghost predicate InOrder(g: Config, c: Chip, p: Pools, h: History, accepted: set<nat>, served: set<nat>) {
    && Configured(g)
    && Inv(g.t, c, h)
    && PoolsOk(p, |c.banks|, g.queueDepth, g.rowHitLimit) && WritesApart(p, g.deferredWrites)
    && accepted == served + Live(p) && served !! Live(p)
  }

  function PoolOf(p: Pools, wr: bool): seq<nat> { if wr then p.wrQueue else p.rdQueue }

  function ListsOf(p: Pools, wr: bool): seq<seq<nat>> { if wr then p.wrReqs else p.rdReqs }

  ghost function AccessIn(p: Pools, banks: nat, depth: nat, limit: nat, wr: bool, k: nat): Access
    requires PoolsOk(p, banks, depth, limit) && k in PoolOf(p, wr)
  {
    AccessOf(ListsOf(p, wr)[p.reqs[k].bank], p.reqs, k)
  }

  lemma FrontIsReady(g: Config, c: Chip, p: Pools, h: History, accepted: set<nat>, served: set<nat>,
                     wr: bool, i: nat, curCycle: int)
    requires InOrder(g, c, p, h, accepted, served)
    requires i < |PoolOf(p, wr)| && MinCmdAt(g.t, c, p.reqs, PoolOf(p, wr)[i]) <= curCycle
    ensures PoolOf(p, wr)[i] in PoolOf(p, wr)
    ensures var a := AccessIn(p, |c.banks|, g.queueDepth, g.rowHitLimit, wr, PoolOf(p, wr)[i]);
            Ready(g.t, c, a, curCycle)
  {
    assert PoolOf(p, wr)[i] in PoolOf(p, wr);
  }

  lemma IssueKeepsOrder(g: Config, c: Chip, p: Pools, h: History, accepted: set<nat>, served: set<nat>,
                   wr: bool, i: nat, a: Access, curCycle: int)
    requires InOrder(g, c, p, h, accepted, served) && Ready(g.t, c, a, curCycle)
    requires i < |PoolOf(p, wr)| && Front(ListsOf(p, wr), p.reqs, PoolOf(p, wr)[i])
    ensures InOrder(g, Served(g.t, c, a, curCycle, g.closedPage), Left(p, i, wr),
                    Recorded(g.t, c, a, curCycle, h), accepted, served + {PoolOf(p, wr)[i]})
  {
    ServedKeepsInv(g.t, c, h, a, curCycle, g.closedPage);
    LeftOk(p, i, wr, |c.banks|, g.queueDepth, g.rowHitLimit);
    LeftApart(p, i, wr, g.deferredWrites);
    assert PoolOf(p, wr)[i] in Live(p);
  }

  // An event at this system cycle ticks at memory cycle c.
  predicate Due(g: Config, c: int, sysCycle: nat) {
    c > 0 && g.sysFreq > 0 && Clock.SysToMem(g.sysFreq, g.memFreq, sysCycle) == c
  }

  // The request at place i of its pool, access a, has issued.
  ghost predicate Issued(g: Config, c: Chip, p: Pools, c': Chip, p': Pools, wr: bool, i: nat, a: Access,
                         curCycle: int) {
    && i < |PoolOf(p, wr)| && Front(ListsOf(p, wr), p.reqs, PoolOf(p, wr)[i])
    && (forall k | k in ListsOf(p, wr)[p.reqs[PoolOf(p, wr)[i]].bank] :: k in p.reqs)
    && a == AccessOf(ListsOf(p, wr)[p.reqs[PoolOf(p, wr)[i]].bank], p.reqs, PoolOf(p, wr)[i])
    && Ready(g.t, c, a, curCycle)
    && c' == Served(g.t, c, a, curCycle, g.closedPage) && p' == Left(p, i, wr)
    && c'.minRespCycle - g.t.tCL - g.t.tBL >= curCycle
  }

  // Request k has entered: its bank's queue is in FR-FCFS order with it, and nothing else changed.
  ghost predicate Entered(p: Pools, p': Pools, k: nat, r: Req, wr: bool, limit: nat, b: RowBuffer) {
    && r.bank < |p.rdReqs| && r.bank < |p.wrReqs|
    && (forall j | j in ListsOf(p, wr)[r.bank] :: j in p.reqs)
    && p' == Admitted(p, k, r, wr, limit, b)
  }

  lemma NotQueued(p: Pools, k: nat, banks: nat, depth: nat, limit: nat)
    requires PoolsOk(p, banks, depth, limit) && k !in Live(p)
    ensures forall b | 0 <= b < banks :: k !in p.rdReqs[b] && k !in p.wrReqs[b]
  {
  }

  lemma OverflowNumbers(g: Config, c: Chip, p: Pools, k: nat, r: Req)
    requires NumbersOk(c, p, g.deferredWrites) && PoolsOk(p, |c.banks|, g.queueDepth, g.rowHitLimit) && k !in Live(p)
    ensures NumbersOk(c, Overflowed(p, k, r), g.deferredWrites)
  {
    NotQueued(p, k, |c.banks|, g.queueDepth, g.rowHitLimit);
    HeldNumbers(c, p, k, r, g.deferredWrites);
  }

  lemma EnterOrder(g: Config, c: Chip, p: Pools, h: History, accepted: set<nat>, served: set<nat>, k: nat, r: Req,
                   b: RowBuffer)
    requires InOrder(g, c, p, h, accepted, served)
    requires k !in Live(p) && k !in served && r.bank < |c.banks|
    requires |p.rdQueue| < g.queueDepth && |p.wrQueue| < g.queueDepth
    ensures var wr := g.deferredWrites && r.write;
            && Entered(p, Admitted(p, k, r, wr, g.rowHitLimit, b), k, r, wr, g.rowHitLimit, b)
            && InOrder(g, c, Admitted(p, k, r, wr, g.rowHitLimit, b), h, accepted + {k}, served)
  {
    AdmittedOk(p, k, r, g.deferredWrites && r.write, |c.banks|, g.queueDepth, g.rowHitLimit, b);
  }

  function Overflowed(p: Pools, k: nat, r: Req): Pools {
    p.(overflowQueue := p.overflowQueue + [k], reqs := p.reqs[k := r])
  }

  lemma OverflowOrder(g: Config, c: Chip, p: Pools, h: History, accepted: set<nat>, served: set<nat>, k: nat, r: Req)
    requires InOrder(g, c, p, h, accepted, served)
    requires k !in Live(p) && k !in served && r.bank < |c.banks| && r.rowHitSeq == 0
    ensures InOrder(g, c, Overflowed(p, k, r), h, accepted + {k}, served)
  {
    OverflowOk(p, k, r, |c.banks|, g.queueDepth, g.rowHitLimit);
  }

  lemma OverflowOk(p: Pools, k: nat, r: Req, banks: nat, depth: nat, limit: nat)
    requires PoolsOk(p, banks, depth, limit) && k !in Live(p) && r.bank < banks && r.rowHitSeq == 0
    ensures PoolsOk(Overflowed(p, k, r), banks, depth, limit)
    ensures Live(Overflowed(p, k, r)) == Live(p) + {k}
    ensures Overflowed(p, k, r) == p.(overflowQueue := p.overflowQueue + [k], reqs := Overflowed(p, k, r).reqs)
    ensures Overflowed(p, k, r).reqs.Keys == p.reqs.Keys + {k} && Overflowed(p, k, r).reqs[k] == r
    ensures forall j | j in p.reqs && j != k :: Overflowed(p, k, r).reqs[j] == p.reqs[j]
  {
    OtherKeeps(p.rdQueue, p.rdReqs, p.reqs, k, r);
    OtherKeeps(p.wrQueue, p.wrReqs, p.reqs, k, r);
    assert Splice(p.overflowQueue, |p.overflowQueue|, k) == p.overflowQueue + [k];
    SpliceNoDup(p.overflowQueue, |p.overflowQueue|, k);
  }

  lemma LiveIff(p: Pools)
    ensures Live(p) == {} <==> p.rdQueue == [] && p.wrQueue == [] && p.overflowQueue == []
  {
    if p.rdQueue != [] { assert p.rdQueue[0] in Live(p); }
    if p.wrQueue != [] { assert p.wrQueue[0] in Live(p); }
    if p.overflowQueue != [] { assert p.overflowQueue[0] in Live(p); }
  }

  function Popped(p: Pools): Pools
    requires p.overflowQueue != []
  {
    p.(overflowQueue := p.overflowQueue[1..])
  }

  // The first request of the overflow queue, taken off it.
  lemma PopOrder(g: Config, c: Chip, p: Pools, h: History, accepted: set<nat>, served: set<nat>)
    requires InOrder(g, c, p, h, accepted, served) && p.overflowQueue != []
    ensures var k := p.overflowQueue[0];
            && k in p.reqs && p.reqs[k].bank < |c.banks| && k in accepted
            && k !in Live(Popped(p)) && k !in served && InOrder(g, c, Popped(p), h, accepted - {k}, served)
  {
    PopOk(p, |c.banks|, g.queueDepth, g.rowHitLimit);
  }

  lemma PopOk(p: Pools, banks: nat, depth: nat, limit: nat)
    requires PoolsOk(p, banks, depth, limit) && p.overflowQueue != []
    ensures var k := p.overflowQueue[0];
            && k in p.reqs && p.reqs[k].bank < banks && k in Live(p)
            && PoolsOk(Popped(p), banks, depth, limit) && Live(Popped(p)) == Live(p) - {k}
            && p == Popped(p).(overflowQueue := [k] + Popped(p).overflowQueue)
  {
    var k := p.overflowQueue[0];
    PopQueue(p.overflowQueue);
    assert k in p.overflowQueue;
    assert PoolsOk(Popped(p), banks, depth, limit);
    PopLive(p);
  }

  lemma PopQueue(queue: seq<nat>)
    requires NoDup(queue) && queue != []
    ensures NoDup(queue[1..]) && queue[0] !in queue[1..] && queue == [queue[0]] + queue[1..]
    ensures forall j | j in queue[1..] :: j in queue
  {
    CutNoDup(queue, 0);
    assert Cut(queue, 0) == queue[1..];
  }

  lemma PopLive(p: Pools)
    requires p.overflowQueue != [] && NoDup(p.overflowQueue)
    requires Disjoint(p.rdQueue, p.overflowQueue) && Disjoint(p.wrQueue, p.overflowQueue)
    ensures Live(Popped(p)) == Live(p) - {p.overflowQueue[0]}
  {
    PopQueue(p.overflowQueue);
    assert p.overflowQueue[0] in p.overflowQueue;
  }

  // The first request of the overflow queue has entered its pool.
  ghost predicate DrainedOne(g: Config, c: Chip, p: Pools, p': Pools, memCycle: int) {
    && p.overflowQueue != [] && p.overflowQueue[0] in p.reqs
    && var k := p.overflowQueue[0];
    && var r := p.reqs[k].(arrivalCycle := memCycle);
    && r.bank < |c.banks|
    && Entered(Popped(p), p', k, r, g.deferredWrites && r.write, g.rowHitLimit,
               BufferOf(c.banks[r.bank]))
  }

  // An overflowed request can move in: neither pool is full.
  predicate HasMove(g: Config, p: Pools) {
    |p.rdQueue| < g.queueDepth && |p.wrQueue| < g.queueDepth && p.overflowQueue != []
  }

  ghost predicate DrainedIfRoom(g: Config, c: Chip, p: Pools, p': Pools, memCycle: int) {
    if HasMove(g, p) then
      DrainedOne(g, c, p, p', memCycle)
    else p' == p
  }

  // Cycle c comes after cycle x, or never.
  predicate After(c: Cycle, x: int) { c.Never? || c.c > x }

  // A request that does not head its bank queue is not the only one.
  lemma AdmittedSome(p: Pools, p': Pools, k: nat, r: Req, wr: bool, limit: nat, b: RowBuffer, banks: nat, depth: nat)
    requires PoolsOk(p, banks, depth, limit) && Entered(p, p', k, r, wr, limit, b)
    ensures Queueing(p') && p'.overflowQueue == p.overflowQueue
    ensures !Front(ListsOf(p', wr), p'.reqs, k) ==> Queueing(p)
  {
  }

  // Some pool holds a request.
  predicate Queueing(p: Pools) { p.rdQueue != [] || p.wrQueue != [] }

  function DoneFor(g: Config, cmd: int): int
    requires Configured(g)
  {
    if cmd < 0 then 0
    else Clock.ReadDone(g.sysFreq, g.memFreq, g.t.tCL, g.t.tBL, g.controllerSysLatency, cmd)
  }

  function WriteAnswer(g: Config, memCycle: int): int
    requires Configured(g)
  {
    if memCycle < 0 then 0 else Clock.WriteDone(g.sysFreq, g.memFreq, g.controllerSysLatency, memCycle)
  }

  // A response to a command that issues now or later is not in the past.
  lemma DoneLate(g: Config, cmd: int, curCycle: int, sysCycle: nat)
    requires Configured(g) && Due(g, curCycle, sysCycle) && cmd >= curCycle
    ensures DoneFor(g, cmd) >= sysCycle
  {
    Clock.DoneIsNotPast(g.sysFreq, g.memFreq, g.t.tCL, g.t.tBL, g.controllerSysLatency, cmd, sysCycle);
  }

  // The next command slot is not before the current cycle.
  lemma IssueTimes(g: Config, c: Chip, h: History, a: Access, curCycle: int)
    requires Configured(g) && Inv(g.t, c, h) && Ready(g.t, c, a, curCycle)
    ensures Served(g.t, c, a, curCycle, g.closedPage).minRespCycle - g.t.tCL - g.t.tBL >= curCycle
  {
    ColumnAdvances(g.t, c, a, curCycle, h.acts[a.bank], h.cols[a.bank]);
  }

  lemma IssueIs(g: Config, c: Chip, p: Pools, h: History, accepted: set<nat>, served: set<nat>,
                wr: bool, i: nat, curCycle: int) returns (a: Access)
    requires InOrder(g, c, p, h, accepted, served)
    requires i < |PoolOf(p, wr)| && Front(ListsOf(p, wr), p.reqs, PoolOf(p, wr)[i])
    requires MinCmdAt(g.t, c, p.reqs, PoolOf(p, wr)[i]) <= curCycle
    ensures forall k | k in ListsOf(p, wr)[p.reqs[PoolOf(p, wr)[i]].bank] :: k in p.reqs
    ensures a == AccessOf(ListsOf(p, wr)[p.reqs[PoolOf(p, wr)[i]].bank], p.reqs, PoolOf(p, wr)[i])
    ensures Ready(g.t, c, a, curCycle)
    ensures Issued(g, c, p, Served(g.t, c, a, curCycle, g.closedPage), Left(p, i, wr), wr, i, a, curCycle)
    ensures InOrder(g, Served(g.t, c, a, curCycle, g.closedPage), Left(p, i, wr), Recorded(g.t, c, a, curCycle, h),
                    accepted, served + {PoolOf(p, wr)[i]})
    ensures NumbersOk(c, p, g.deferredWrites) ==>
              NumbersOk(Served(g.t, c, a, curCycle, g.closedPage), Left(p, i, wr), g.deferredWrites)
  {
    FrontIsReady(g, c, p, h, accepted, served, wr, i, curCycle);
    a := AccessOf(ListsOf(p, wr)[p.reqs[PoolOf(p, wr)[i]].bank], p.reqs, PoolOf(p, wr)[i]);
    IssueTimes(g, c, h, a, curCycle);
    IssueKeepsOrder(g, c, p, h, accepted, served, wr, i, a, curCycle);
    if NumbersOk(c, p, g.deferredWrites) { IssueNumbers(g, c, p, wr, i, a, curCycle); }
  }

  // Whether writes go first: the write queue is getting full, or is being drained.
  predicate PrioWrites(g: Config, c: Chip, p: Pools) {
    |p.wrQueue| > 3 * g.queueDepth / 4 || (c.lastCmdWasWrite && |p.wrQueue| > g.queueDepth / 4)
  }

  // In words: writes wait until the write queue is more than three quarters full, and then go on until
  // it is down to a quarter.
  lemma WritesInBursts(g: Config, c: Chip, p: Pools)
    ensures PrioWrites(g, c, p) <==>
              4 * |p.wrQueue| > (if c.lastCmdWasWrite then 1 else 3) * g.queueDepth
  {
  }

  // Some request is queued, the data bus is free soon enough for a command now, and a request of the
  // pool whose turn it is heads its bank queue and is ready.
  ghost predicate CanIssue(g: Config, c: Chip, p: Pools, curCycle: int) {
    && Queueing(p) && curCycle + g.t.tCL >= c.minRespCycle
    && var wr := p.rdQueue == [] || PrioWrites(g, c, p);
       SomeReady(PoolOf(p, wr), ListsOf(p, wr), p.reqs, g.t, c, curCycle)
  }

  ghost predicate SomeReady(queue: seq<nat>, lists: seq<seq<nat>>, reqs: map<nat, Req>, t: Timing, c: Chip,
                            curCycle: int) {
    exists k :: k in queue && Front(lists, reqs, k) && MinCmdAt(t, c, reqs, k) <= curCycle
  }

  lemma ReadyIsSome(queue: seq<nat>, lists: seq<seq<nat>>, reqs: map<nat, Req>, t: Timing, c: Chip, curCycle: int,
                    i: int, minSched: Cycle)
    requires FirstReady(queue, lists, reqs, t, c, curCycle, i, minSched)
    ensures SomeReady(queue, lists, reqs, t, c, curCycle) <==> i >= 0
  {
    if i >= 0 { assert queue[i] in queue; }
    if k :| k in queue && Front(lists, reqs, k) && MinCmdAt(t, c, reqs, k) <= curCycle {
      var j :| 0 <= j < |queue| && queue[j] == k;
      assert Front(lists, reqs, queue[j]);
    }
  }

  lemma ReadyDecides(g: Config, c: Chip, p: Pools, curCycle: int, i: int, minSched: Cycle)
    requires Queueing(p) && curCycle + g.t.tCL >= c.minRespCycle
    requires var wr := p.rdQueue == [] || PrioWrites(g, c, p);
             FirstReady(PoolOf(p, wr), ListsOf(p, wr), p.reqs, g.t, c, curCycle, i, minSched)
    ensures CanIssue(g, c, p, curCycle) <==> i >= 0
  {
    var wr := p.rdQueue == [] || PrioWrites(g, c, p);
    ReadyIsSome(PoolOf(p, wr), ListsOf(p, wr), p.reqs, g.t, c, curCycle, i, minSched);
  }

  // What trySchedule has done: the first ready request of the pool whose turn it is has issued, or
  // nothing if there is none.
  ghost predicate Attempted(g: Config, c: Chip, p: Pools, served: set<nat>, c': Chip, p': Pools, served': set<nat>,
                            issued: bool, wr: bool, i: int, a: Access, curCycle: int) {
    if !issued then !CanIssue(g, c, p, curCycle) && c' == c && p' == p && served' == served
    else
      && CanIssue(g, c, p, curCycle)
      && i >= 0 && Issued(g, c, p, c', p', wr, i, a, curCycle)
      && FirstReady(PoolOf(p, wr), ListsOf(p, wr), p.reqs, g.t, c, curCycle, i, Never)
      && wr == (p.rdQueue == [] || PrioWrites(g, c, p))
      && served' == served + {PoolOf(p, wr)[i]}
  }

  // When trySchedule wants to be called again: never if nothing is queued, when the data bus lets the
  // next command go if it is taken or has just been, and else when the first request is ready.
  ghost predicate NextAttempt(g: Config, c: Chip, p: Pools, c': Chip, p': Pools, issued: bool, curCycle: int,
                              next: Cycle) {
    if !Queueing(p') then next == Never
    else if issued || curCycle + g.t.tCL < c.minRespCycle then next == At(c'.minRespCycle - g.t.tCL)
    else
      var wr := p.rdQueue == [] || PrioWrites(g, c, p);
      FirstReady(PoolOf(p, wr), ListsOf(p, wr), p.reqs, g.t, c, curCycle, -1, next)
  }

  ghost predicate Tried(g: Config, c: Chip, p: Pools, served: set<nat>, c': Chip, p': Pools, served': set<nat>,
                        issued: bool, wr: bool, i: int, a: Access, curCycle: int, next: Cycle) {
    && Attempted(g, c, p, served, c', p', served', issued, wr, i, a, curCycle)
    && NextAttempt(g, c, p, c', p', issued, curCycle, next)
  }

  // A round of the controller: an attempt to issue, which leaves the pools as mid and wants to be
  // repeated at `tried`, a request that moves in if there is room, and the answers.
  ghost predicate Rounded(g: Config, c: Chip, p: Pools, served: set<nat>, c': Chip, mid: Pools, p': Pools,
                          served': set<nat>, issued: bool, wr: bool, i: int, a: Access, memCycle: int, sysCycle: nat,
                          tried: Cycle, next: Cycle, rdDone: int, wrDone: int) {
    && Tried(g, c, p, served, c', mid, served', issued, wr, i, a, memCycle, tried)
    && DrainedIfRoom(g, c', mid, p', memCycle) && next == DrainedNext(g, c', mid, p', memCycle, tried)
    && AllAnswered(g, c', issued, mid, memCycle, sysCycle, rdDone, wrDone)
  }

  // The controller never idles: if nothing issues, nothing is queued, the data bus is taken, or no
  // request of the pool whose turn it is heads its bank queue and is ready. What issues does so now, but
  // for a read that waits for the write before it.
  lemma NeverIdles(g: Config, c: Chip, p: Pools, served: set<nat>, c': Chip, p': Pools, served': set<nat>, issued: bool,
                   wr: bool, i: int, a: Access, curCycle: int, next: Cycle, k: nat)
    requires Tried(g, c, p, served, c', p', served', issued, wr, i, a, curCycle, next)
    ensures var turn := p.rdQueue == [] || PrioWrites(g, c, p);
            !issued && (p.rdQueue != [] || p.wrQueue != []) && curCycle + g.t.tCL >= c.minRespCycle
            && k in PoolOf(p, turn) && Front(ListsOf(p, turn), p.reqs, k) ==>
              MinCmdAt(g.t, c, p.reqs, k) > curCycle
    ensures issued ==>
              c'.minRespCycle == g.t.tCL + g.t.tBL +
                if c.lastCmdWasWrite && !a.write then Max(curCycle, c.minRespCycle + g.t.tWTR) else curCycle
  {
    if issued { IssuesNow(g.t, c, a, curCycle); }
  }

  // First ready, first come first served: what issues heads its bank queue and is ready, and nothing
  // that came before it is both.
  lemma IssuesFirst(g: Config, c: Chip, p: Pools, served: set<nat>, c': Chip, p': Pools, served': set<nat>,
                    wr: bool, i: int, a: Access, curCycle: int, next: Cycle, j: nat)
    requires Tried(g, c, p, served, c', p', served', true, wr, i, a, curCycle, next)
    ensures wr == (p.rdQueue == [] || PrioWrites(g, c, p)) && 0 <= i < |PoolOf(p, wr)|
    ensures Front(ListsOf(p, wr), p.reqs, PoolOf(p, wr)[i]) && MinCmdAt(g.t, c, p.reqs, PoolOf(p, wr)[i]) <= curCycle
    ensures j < i && Front(ListsOf(p, wr), p.reqs, PoolOf(p, wr)[j]) ==>
              MinCmdAt(g.t, c, p.reqs, PoolOf(p, wr)[j]) > curCycle
  {
  }

  // And it sleeps through no chance to issue: before the next attempt there is none unless a request
  // comes, and by then the data bus is free.
  lemma NextMissesNothing(g: Config, c: Chip, p: Pools, served: set<nat>, c': Chip, p': Pools, served': set<nat>,
                          issued: bool, wr: bool, i: int, a: Access, curCycle: int, next: Cycle, x: int)
    requires Tried(g, c, p, served, c', p', served', issued, wr, i, a, curCycle, next)
    ensures next.Never? ==> !CanIssue(g, c', p', x)
    ensures next.At? && curCycle < x < next.c ==> !CanIssue(g, c', p', x)
    ensures next.At? ==> next.c + g.t.tCL >= c'.minRespCycle
    ensures next.At? && !issued && curCycle + g.t.tCL >= c.minRespCycle ==> CanIssue(g, c', p', next.c)
  {
    var turn := p.rdQueue == [] || PrioWrites(g, c, p);
    if next.At? && !issued && curCycle + g.t.tCL >= c.minRespCycle {
      var (queue, lists) := (PoolOf(p, turn), ListsOf(p, turn));
      NoneBefore(queue, lists, p.reqs, g.t, c, curCycle, next, x);
    }
  }

  lemma NoneBefore(queue: seq<nat>, lists: seq<seq<nat>>, reqs: map<nat, Req>, t: Timing, c: Chip, curCycle: int,
                   next: Cycle, x: int)
    requires FirstReady(queue, lists, reqs, t, c, curCycle, -1, next)
    ensures next.At? && next.c > curCycle
    ensures SomeReady(queue, lists, reqs, t, c, x) <==> x >= next.c
    ensures SomeReady(queue, lists, reqs, t, c, next.c)
  {
    var j :| 0 <= j < |queue| && Front(lists, reqs, queue[j]) && MinCmdAt(t, c, reqs, queue[j]) == next.c;
    assert queue[j] in queue;
    if k :| k in queue && Front(lists, reqs, k) && MinCmdAt(t, c, reqs, k) <= x {
      var i :| 0 <= i < |queue| && queue[i] == k;
      assert Front(lists, reqs, queue[i]);
    }
  }

  // A request that has moved in from the overflow queue and heads its bank queue brings that forward to
  // the first cycle at which a command could go.
  ghost function DrainedNext(g: Config, c: Chip, p: Pools, p': Pools, memCycle: int, next: Cycle): Cycle {
    var soonest := Max(memCycle, c.minRespCycle - g.t.tCL - g.t.tBL);
    if HasMove(g, p) && HeadsQueue(p', p.overflowQueue[0], g.deferredWrites) && After(next, soonest) then At(soonest)
    else next
  }

  lemma DrainedNextIs(g: Config, c: Chip, p: Pools, p': Pools, memCycle: int, next: Cycle, first: bool)
    requires HasMove(g, p) && first == HeadsQueue(p', p.overflowQueue[0], g.deferredWrites)
    ensures var soonest := Max(memCycle, c.minRespCycle - g.t.tCL - g.t.tBL);
            DrainedNext(g, c, p, p', memCycle, next) == if first && After(next, soonest) then At(soonest) else next
  {
  }

  predicate HeadsQueue(p: Pools, k: nat, deferredWrites: bool) {
    k in p.reqs && Front(ListsOf(p, deferredWrites && p.reqs[k].write), p.reqs, k)
  }

  // The response to the command that chip has just issued, and that it is not in the past.
  ghost predicate Answered(g: Config, c: Chip, done: int, sysCycle: nat) {
    Configured(g) && done == DoneFor(g, c.minRespCycle - g.t.tCL - g.t.tBL) && done >= sysCycle
  }

  // What a tick answers: the read or write that issued, and the write that moved in.
  ghost predicate AllAnswered(g: Config, c: Chip, issued: bool, p: Pools, memCycle: int, sysCycle: nat, rdDone: int,
                              wrDone: int) {
    && Configured(g) && (issued ==> Answered(g, c, rdDone, sysCycle)) && wrDone >= sysCycle
    && (HasMove(g, p) ==> wrDone == WriteAnswer(g, memCycle))
  }

  method Answer(g: Config, c: Chip, curCycle: int, sysCycle: nat) returns (done: int)
    requires Configured(g) && Due(g, curCycle, sysCycle) && c.minRespCycle - g.t.tCL - g.t.tBL >= curCycle
    ensures Answered(g, c, done, sysCycle)
  {
    DoneLate(g, c.minRespCycle - g.t.tCL - g.t.tBL, curCycle, sysCycle);
    done := DoneFor(g, c.minRespCycle - g.t.tCL - g.t.tBL);
  }

  class DDRMemory {
    const g: Config

    var chip: Chip
    var pools: Pools
    var nextSchedCycle: Cycle
    var nextEventSys: nat        // the system cycle at which the pending event is queued
    ghost var history: History
    ghost var accepted: set<nat>
    ghost var served: set<nat>

    ghost predicate Consistent()
      reads `chip, `pools, `history, `accepted, `served
    {
      InOrder(g, chip, pools, history, accepted, served) && NumbersOk(chip, pools, g.deferredWrites)
    }

    // And a tick is pending, at the right system cycle, whenever a request is live.
    ghost predicate Valid()
      reads this
    {
      && Consistent()
      && (nextSchedCycle.At? ==> Due(g, nextSchedCycle.c, nextEventSys))
      && (if Queueing(pools) then nextSchedCycle.At? else pools.overflowQueue == [])
    }

    lemma LiveHasTick()
      requires Valid() && Live(pools) != {}
      ensures nextSchedCycle.At? && Due(g, nextSchedCycle.c, nextEventSys)
    {
      LiveIff(pools);
    }

    constructor (g: Config, rankOf: seq<nat>, ranks: nat)
      requires Configured(g) && forall i | 0 <= i < |rankOf| :: rankOf[i] < ranks
      ensures Valid() && accepted == {} && nextSchedCycle == Never && this.g == g
      ensures chip == Fresh(g.t, rankOf, ranks) && Live(pools) == {} && |pools.rdReqs| == |rankOf|
    {
      this.g := g;
      chip := Fresh(g.t, rankOf, ranks);
      var none := seq(|rankOf|, i => []);
      pools := Pools([], [], [], none, none, map[]);
      nextSchedCycle, nextEventSys := Never, 0;
      history := NoHistory(|rankOf|, ranks);
      accepted, served := {}, {};
      new;
      FreshInv(g.t, rankOf, ranks);
    }

    method FindReady(wr: bool, curCycle: int) returns (i: int, minSched: Cycle)
      requires Consistent() && PoolOf(pools, wr) != []
      ensures -1 <= i < |PoolOf(pools, wr)|
      ensures FirstReady(PoolOf(pools, wr), ListsOf(pools, wr), pools.reqs, g.t, chip, curCycle, i, minSched)
    {
      ghost var k := HasFront(PoolOf(pools, wr), ListsOf(pools, wr), pools.reqs);
      i, minSched := Scan(PoolOf(pools, wr), ListsOf(pools, wr), pools.reqs, g.t, chip, curCycle);
    }

    // The second half of trySchedule: the request at place i of its pool issues.
    method Issue(wr: bool, i: nat, curCycle: int) returns (ghost a: Access)
      requires Consistent()
      requires i < |PoolOf(pools, wr)| && Front(ListsOf(pools, wr), pools.reqs, PoolOf(pools, wr)[i])
      requires MinCmdAt(g.t, chip, pools.reqs, PoolOf(pools, wr)[i]) <= curCycle
      modifies `chip, `pools, `history, `served
      ensures Consistent()
      ensures Issued(g, old(chip), old(pools), chip, pools, wr, i, a, curCycle)
      ensures served == old(served) + {PoolOf(old(pools), wr)[i]}
    {
      var k := PoolOf(pools, wr)[i];
      a := IssueIs(g, chip, pools, history, accepted, served, wr, i, curCycle);
      history := Recorded(g.t, chip, a, curCycle, history);
      var b := AccessOf(ListsOf(pools, wr)[pools.reqs[k].bank], pools.reqs, k);
      assert b == a;
      chip := Served(g.t, chip, b, curCycle, g.closedPage);
      pools := Left(pools, i, wr);
      served := served + {k};
    }

    // The first half of trySchedule: the place of the request to issue, or -1 and when to try again.
    method FindIssue(curCycle: int) returns (i: int, next: Cycle)
      requires Consistent()
      ensures CanIssue(g, chip, pools, curCycle) <==> i >= 0
      ensures i >= 0 ==>
                var wr := pools.rdQueue == [] || PrioWrites(g, chip, pools);
                && i < |PoolOf(pools, wr)|
                && FirstReady(PoolOf(pools, wr), ListsOf(pools, wr), pools.reqs, g.t, chip, curCycle, i, Never)
      ensures i < 0 ==> NextAttempt(g, chip, pools, chip, pools, false, curCycle, next)
      ensures i < 0 ==> (next.Never? <==> !Queueing(pools)) && (next.At? ==> next.c >= curCycle)
    {
      if pools.rdQueue == [] && pools.wrQueue == [] { return -1, Never; }
      if curCycle + g.t.tCL < chip.minRespCycle { return -1, At(chip.minRespCycle - g.t.tCL); }
      var isWriteQueue := pools.rdQueue == [] || PrioWrites(g, chip, pools);
      i, next := FindReady(isWriteQueue, curCycle);
      ReadyDecides(g, chip, pools, curCycle, i, next);
    }

    // Issues at most one request; next is when to try again, Never when no request is queued.
    method TrySchedule(curCycle: int, sysCycle: nat)
      returns (next: Cycle, done: int, ghost issued: bool, ghost wr: bool, ghost i: int, ghost a: Access)
      requires Consistent() && Due(g, curCycle, sysCycle)
      modifies `chip, `pools, `history, `served
      ensures Consistent()
      ensures (next.Never? <==> !Queueing(pools)) && (next.At? ==> next.c >= curCycle)
      ensures Tried(g, old(chip), old(pools), old(served), chip, pools, served, issued, wr, i, a, curCycle, next)
      // A read is answered with this cycle.
      ensures issued ==> Answered(g, chip, done, sysCycle)
    {
      done := 0;
      var ir, idle := FindIssue(curCycle);
      issued, i, a := ir >= 0, ir, Access(0, 0, false, 0, 0, false);
      var isWriteQueue := pools.rdQueue == [] || PrioWrites(g, chip, pools);
      wr := isWriteQueue;
      next := idle;
      if ir >= 0 {
        next, done, a := IssueFirst(isWriteQueue, ir, curCycle, sysCycle);
      }
    }

    // The request found issues and is answered.
    method IssueFirst(wr: bool, i: nat, curCycle: int, sysCycle: nat) returns (next: Cycle, done: int, ghost a: Access)
      requires Consistent() && Due(g, curCycle, sysCycle) && CanIssue(g, chip, pools, curCycle)
      requires wr == (pools.rdQueue == [] || PrioWrites(g, chip, pools)) && i < |PoolOf(pools, wr)|
      requires FirstReady(PoolOf(pools, wr), ListsOf(pools, wr), pools.reqs, g.t, chip, curCycle, i, Never)
      modifies `chip, `pools, `history, `served
      ensures Consistent()
      ensures Tried(g, old(chip), old(pools), old(served), chip, pools, served, true, wr, i, a, curCycle, next)
      ensures (next.Never? <==> !Queueing(pools)) && (next.At? ==> next.c >= curCycle)
      ensures Answered(g, chip, done, sysCycle)
    {
      a := Issue(wr, i, curCycle);
      done := Answer(g, chip, curCycle, sysCycle);
      next := if pools.rdQueue == [] && pools.wrQueue == [] then Never else At(chip.minRespCycle - g.t.tCL);
    }

    // DDRMemory::queue for request k, taken into a pool; first says that it heads its bank queue.
    // A write is answered here.
    method Admit(k: nat, r0: Req, memCycle: int, sysCycle: nat) returns (first: bool, wrDone: int)
      requires Consistent() && Due(g, memCycle, sysCycle)
      requires k !in Live(pools) && k !in served && r0.bank < |chip.banks|
      requires |pools.rdQueue| < g.queueDepth && |pools.wrQueue| < g.queueDepth
      modifies `pools, `accepted
      ensures Consistent() && accepted == old(accepted) + {k}
      ensures var wr := g.deferredWrites && r0.write;
              && Entered(old(pools), pools, k, r0.(arrivalCycle := memCycle), wr, g.rowHitLimit,
                         BufferOf(chip.banks[r0.bank]))
              && first == HeadsQueue(pools, k, g.deferredWrites)
      ensures wrDone == WriteAnswer(g, memCycle) >= sysCycle
      ensures Queueing(pools) && (!first ==> Queueing(old(pools)))
    {
      var r := r0.(arrivalCycle := memCycle);
      var wr := g.deferredWrites && r0.write;
      EnterOrder(g, chip, pools, history, accepted, served, k, r, BufferOf(chip.banks[r.bank]));
      NotQueued(pools, k, |chip.banks|, g.queueDepth, g.rowHitLimit);
      EnterNumbers(chip, pools, k, r, g.rowHitLimit, g.deferredWrites);
      ghost var p := pools;
      pools := Admitted(pools, k, r, wr, g.rowHitLimit, BufferOf(chip.banks[r.bank]));
      AdmittedSome(p, pools, k, r, wr, g.rowHitLimit, BufferOf(chip.banks[r.bank]), |chip.banks|, g.queueDepth);
      accepted := accepted + {k};
      first := ListsOf(pools, wr)[r.bank][0] == k;
      Clock.DoneIsNotPast(g.sysFreq, g.memFreq, g.t.tCL, g.t.tBL, g.controllerSysLatency, memCycle, sysCycle);
      wrDone := WriteAnswer(g, memCycle);
    }

    // Asks for a tick at memory cycle c.
    method WakeAt(c: int, sysCycle: nat)
      requires Configured(g) && c >= Clock.SysToMem(g.sysFreq, g.memFreq, sysCycle)
      modifies `nextSchedCycle, `nextEventSys
      ensures nextSchedCycle == At(c) && Due(g, c, nextEventSys) && nextEventSys >= sysCycle
    {
      Clock.TickRoundTrip(g.sysFreq, g.memFreq, c, sysCycle);
      nextEventSys := Max(Clock.MatchingMemToSys(g.sysFreq, g.memFreq, c), sysCycle);
      nextSchedCycle := At(c);
    }

    // If request k heads its bank queue, asks for a tick in time for it, unless one comes no later.
    method WakeFor(first: bool, k: nat, memCycle: int, sysCycle: nat)
      requires Consistent() && Queueing(pools) && memCycle >= Clock.SysToMem(g.sysFreq, g.memFreq, sysCycle)
      requires !first ==> nextSchedCycle.At?
      requires nextSchedCycle.At? ==> Due(g, nextSchedCycle.c, nextEventSys)
      modifies `nextSchedCycle, `nextEventSys
      ensures Valid() && nextSchedCycle.At?
      ensures var due := Max(Max(memCycle, chip.minRespCycle - g.t.tCL - g.t.tBL), MinCmdAt(g.t, chip, pools.reqs, k));
              nextSchedCycle == if first && After(old(nextSchedCycle), due) then At(due) else old(nextSchedCycle)
    {
      if !first { return; }
      var minSched := Max(memCycle, chip.minRespCycle - g.t.tCL - g.t.tBL);
      if After(nextSchedCycle, minSched) {
        minSched := Max(minSched, MinCmdAt(g.t, chip, pools.reqs, k));
      }
      if After(nextSchedCycle, minSched) {
        WakeAt(minSched, sysCycle);
      }
    }

    // A pool is full: the request waits in the overflow queue.
    method Overflow(k: nat, r: Req)
      requires Valid() && k !in accepted && r.bank < |chip.banks| && r.rowHitSeq == 0
      requires Queueing(pools)
      modifies `pools, `accepted
      ensures Valid() && accepted == old(accepted) + {k} && pools == Overflowed(old(pools), k, r)
    {
      OverflowOrder(g, chip, pools, history, accepted, served, k, r);
      OverflowNumbers(g, chip, pools, k, r);
      pools := Overflowed(pools, k, r);
      accepted := accepted + {k};
    }

    method Enqueue(k: nat, bank: nat, row: int, write: bool, sysCycle: nat) returns (wrDone: int)
      requires Valid() && k !in accepted && bank < |chip.banks|
      modifies this
      ensures Valid() && accepted == old(accepted) + {k} && served == old(served) && chip == old(chip)
      // A write that enters its queue is answered with this cycle.
      ensures wrDone == (if old(|pools.rdQueue| == g.queueDepth || |pools.wrQueue| == g.queueDepth) then sysCycle
                         else WriteAnswer(g, Clock.SysToMem(g.sysFreq, g.memFreq, sysCycle)))
      ensures wrDone >= sysCycle
      ensures var memCycle := Clock.SysToMem(g.sysFreq, g.memFreq, sysCycle);
              var r := Req(bank, row, write, 0, memCycle, sysCycle);
              if |old(pools).rdQueue| == g.queueDepth || |old(pools).wrQueue| == g.queueDepth then
                pools == Overflowed(old(pools), k, r)
              else
                Entered(old(pools), pools, k, r, g.deferredWrites && write, g.rowHitLimit, BufferOf(chip.banks[bank]))
    {
      var memCycle := Clock.SysToMem(g.sysFreq, g.memFreq, sysCycle);
      var r := Req(bank, row, write, 0, memCycle, sysCycle);
      if |pools.rdQueue| == g.queueDepth || |pools.wrQueue| == g.queueDepth {
        Overflow(k, r);
        return sysCycle;
      }
      wrDone := Accept(k, r, sysCycle);
    }

    // The request goes to its pool, and a tick is asked for if it heads its bank queue.
    method Accept(k: nat, r: Req, sysCycle: nat) returns (wrDone: int)
      requires Valid() && k !in Live(pools) && k !in served && r.bank < |chip.banks|
      requires Due(g, r.arrivalCycle, sysCycle)
      requires |pools.rdQueue| < g.queueDepth && |pools.wrQueue| < g.queueDepth
      modifies `pools, `accepted, `nextSchedCycle, `nextEventSys
      ensures Valid() && accepted == old(accepted) + {k} && wrDone == WriteAnswer(g, r.arrivalCycle) >= sysCycle
      ensures Entered(old(pools), pools, k, r, g.deferredWrites && r.write, g.rowHitLimit, BufferOf(chip.banks[r.bank]))
    {
      var first;
      first, wrDone := Admit(k, r, r.arrivalCycle, sysCycle);
      WakeFor(first, k, r.arrivalCycle, sysCycle);
    }

    method Refresh(sysCycle: nat)
      requires Valid()
      modifies `chip
      ensures Valid()
      ensures chip == Refreshed(g.t, old(chip), Clock.SysToMem(g.sysFreq, g.memFreq, sysCycle))
    {
      var memCycle := Clock.SysToMem(g.sysFreq, g.memFreq, sysCycle);
      RefreshKeepsInv(g.t, chip, history, memCycle);
      RefreshNumbers(g.t, chip, pools, memCycle, g.deferredWrites);
      chip := Refreshed(g.t, chip, memCycle);
    }

    // One attempt to issue; then one request moves in from the overflow queue if neither pool is
    // full. mid is what the pools are in between, and tried when the attempt wants to be repeated.
    method Round(memCycle: int, sysCycle: nat)
      returns (next: Cycle, ghost issued: bool, ghost wr: bool, ghost i: int, ghost a: Access, ghost mid: Pools,
               tried: Cycle, rdDone: int, wrDone: int)
      requires Consistent() && Due(g, memCycle, sysCycle)
      modifies `chip, `pools, `history, `served, `accepted
      ensures Consistent() && accepted == old(accepted)
      ensures next.At? ==> next.c >= memCycle
      ensures next.Never? <==> !Queueing(pools)
      ensures !Queueing(pools) ==> pools.overflowQueue == []
      ensures Rounded(g, old(chip), old(pools), old(served), chip, mid, pools, served, issued, wr, i, a, memCycle,
                      sysCycle, tried, next, rdDone, wrDone)
    {
      tried, rdDone, issued, wr, i, a := TrySchedule(memCycle, sysCycle);
      mid := pools;
      next, wrDone := DrainIfRoom(tried, memCycle, sysCycle);
    }

    method DrainIfRoom(minSched: Cycle, memCycle: int, sysCycle: nat) returns (next: Cycle, wrDone: int)
      requires Consistent() && Due(g, memCycle, sysCycle)
      requires minSched.At? ==> minSched.c >= memCycle
      requires minSched.Never? <==> !Queueing(pools)
      modifies `pools, `accepted
      ensures Consistent() && accepted == old(accepted)
      ensures next.At? ==> next.c >= memCycle
      ensures next.Never? <==> !Queueing(pools)
      ensures !Queueing(pools) ==> pools.overflowQueue == []
      ensures DrainedIfRoom(g, chip, old(pools), pools, memCycle)
      ensures next == DrainedNext(g, chip, old(pools), pools, memCycle, minSched)
      ensures wrDone >= sysCycle
      ensures HasMove(g, old(pools)) ==> wrDone == WriteAnswer(g, memCycle)
    {
      next, wrDone := minSched, sysCycle;
      if HasMove(g, pools) {
        var k := pools.overflowQueue[0];
        var first;
        first, wrDone := Drain(memCycle, sysCycle);
        next := NextTry(first, k, minSched, memCycle);
        DrainedNextIs(g, chip, old(pools), pools, memCycle, minSched, first);
      }
    }

    // The scheduling event.
    method Tick(sysCycle: nat)
      returns (ghost issued: bool, ghost wr: bool, ghost i: int, ghost a: Access, ghost mid: Pools,
               ghost tried: Cycle, rdDone: int, wrDone: int)
      requires Valid() && nextSchedCycle.At? && sysCycle == nextEventSys
      modifies this
      ensures Valid() && accepted == old(accepted)
      ensures nextSchedCycle.At? ==> nextSchedCycle.c >= old(nextSchedCycle).c
      ensures Rounded(g, old(chip), old(pools), old(served), chip, mid, pools, served, issued, wr, i, a,
                      old(nextSchedCycle).c, sysCycle, tried, nextSchedCycle, rdDone, wrDone)
    {
      var memCycle := Clock.SysToMem(g.sysFreq, g.memFreq, sysCycle);
      assert memCycle == nextSchedCycle.c;
      var minSched;
      minSched, issued, wr, i, a, mid, tried, rdDone, wrDone := Round(memCycle, sysCycle);
      if minSched.At? {
        WakeAt(minSched.c, sysCycle);
      } else {
        nextSchedCycle := Never;
      }
    }

    // Moves the oldest overflowed request into its pool; first says that it heads its bank queue.
    method Drain(memCycle: int, sysCycle: nat) returns (first: bool, wrDone: int)
      requires Consistent() && Due(g, memCycle, sysCycle)
      requires HasMove(g, pools)
      modifies `pools, `accepted
      ensures Consistent() && accepted == old(accepted)
      ensures DrainedOne(g, chip, old(pools), pools, memCycle) && wrDone == WriteAnswer(g, memCycle) >= sysCycle
      ensures first == HeadsQueue(pools, old(pools).overflowQueue[0], g.deferredWrites)
      ensures Queueing(pools) && (!first ==> Queueing(old(pools)))
    {
      var k := PopOverflow();
      first, wrDone := Admit(k, pools.reqs[k], memCycle, sysCycle);
    }

    // The request is in no queue until it has moved in.
    method PopOverflow() returns (k: nat)
      requires Consistent() && pools.overflowQueue != []
      modifies `pools, `accepted
      ensures Consistent() && pools == Popped(old(pools)) && k == old(pools).overflowQueue[0]
      ensures accepted == old(accepted) - {k} && k in old(accepted)
      ensures k in pools.reqs && pools.reqs[k].bank < |chip.banks| && k !in Live(pools) && k !in served
    {
      k := pools.overflowQueue[0];
      PopOrder(g, chip, pools, history, accepted, served);
      pools := Popped(pools);
      accepted := accepted - {k};
    }

    // When to try next, request k having moved in; first says that it heads its bank queue.
    method NextTry(first: bool, k: nat, minSched: Cycle, memCycle: int) returns (next: Cycle)
      requires !first ==> minSched.At?
      requires minSched.At? ==> minSched.c >= memCycle
      ensures next.At? && next.c >= memCycle
      ensures var soonest := Max(memCycle, chip.minRespCycle - g.t.tCL - g.t.tBL);
              next == if first && After(minSched, soonest) then At(soonest) else minSched
    {
      next := minSched;
      if first {
        var minQueued := Max(memCycle, chip.minRespCycle - g.t.tCL - g.t.tBL);
        if After(next, minQueued) {
          next := At(Max(minQueued, MinCmdAt(g.t, chip, pools.reqs, k)));
        }
        if After(next, minQueued) {
          next := At(minQueued);
        }
      }
    }
  }
}
