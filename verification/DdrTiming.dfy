// The timing side of the DDR controller: what issuing a request and refreshing do to the banks, the
// activation windows and the data bus. Cycles are memory cycles.

module DdrTiming {
  import opened ActWindowLog
  import opened Arith

  datatype Timing = Timing(
    tBL: nat, tCL: nat, tRCD: nat, tRTP: nat, tRP: nat, tRRD: nat,
    tRAS: nat, tFAW: nat, tWTR: nat, tWR: nat, tRFC: nat)

  // refresh asserts the first of these; every technology of initTech meets both.
  predicate Usable(t: Timing) {
    t.tRFC >= t.tRP >= 1
  }

  const WINDOW := 4

  datatype Bank = Bank(
    rank: nat, open: bool, openRow: int,
    minPreCycle: int, lastActCycle: int, lastCmdCycle: int, curRowHits: nat)

  datatype Chip = Chip(minRespCycle: int, lastCmdWasWrite: bool, banks: seq<Bank>, windows: seq<seq<int>>)

  // What the timing needs to know of a request. more: the next request in its bank queue is a row
  // hit to it.
  datatype Access = Access(bank: nat, row: int, write: bool, arrivalCycle: int, rowHitSeq: nat, more: bool)

  ghost predicate Shaped(c: Chip) {
    && (forall i | 0 <= i < |c.banks| :: c.banks[i].rank < |c.windows|)
    && forall r | 0 <= r < |c.windows| :: |c.windows[r]| == WINDOW
  }

  ghost predicate On(c: Chip, a: Access) {
    Shaped(c) && a.bank < |c.banks|
  }

  predicate RowHit(b: Bank, a: Access) {
    a.row == b.openRow && b.open
  }

  // The cycle of the precharge, and of the activation after it, for a row miss.
  function PreCycle(b: Bank, a: Access): int {
    if !b.open then b.minPreCycle else Max(a.arrivalCycle, b.minPreCycle)
  }

  function ActCycle(t: Timing, b: Bank, oldest: int, a: Access): int {
    Max(Max(a.arrivalCycle, Max(PreCycle(b, a) + t.tRP, b.lastActCycle + t.tRRD)), oldest + t.tFAW)
  }

  // The first cycle at which the column command may issue, bus aside.
  function MinCmdCycle(t: Timing, c: Chip, a: Access): int
    requires a.bank < |c.banks| && c.banks[a.bank].rank < |c.windows| && c.windows[c.banks[a.bank].rank] != []
  {
    var b := c.banks[a.bank];
    if RowHit(b, a) then Max(a.arrivalCycle, b.lastCmdCycle + 1)
    else ActCycle(t, b, c.windows[b.rank][0], a) + t.tRCD
  }

  // The bank after its activation, if the access needs one.
  function Activated(t: Timing, c: Chip, a: Access): Bank
    requires On(c, a)
  {
    var b := c.banks[a.bank];
    if RowHit(b, a) then b
    else
      b.(open := true, openRow := a.row,
         minPreCycle := if b.open then PreCycle(b, a) + t.tRAS else b.minPreCycle,
         lastActCycle := ActCycle(t, b, c.windows[b.rank][0], a))
  }

  // The cycle of the column command.
  function CmdCycle(t: Timing, c: Chip, a: Access, curCycle: int): int
    requires On(c, a)
  {
    var bus := Max(curCycle, c.minRespCycle - t.tCL);
    var turn := if c.lastCmdWasWrite && !a.write then Max(bus, c.minRespCycle + t.tWTR) else bus;
    var b := c.banks[a.bank];
    var ready := if RowHit(b, a) then turn else Max(turn, ActCycle(t, b, c.windows[b.rank][0], a) + t.tRCD);
    Max(ready, c.minRespCycle - t.tCL)
  }

  function Served(t: Timing, c: Chip, a: Access, curCycle: int, closedPage: bool): Chip
    requires On(c, a)
  {
    var hit := RowHit(c.banks[a.bank], a);
    var b := Activated(t, c, a);
    var cmd := CmdCycle(t, c, a, curCycle);
    var resp := cmd + t.tCL + t.tBL;
    var b' := b.(
      open := b.open && !(closedPage && !a.more),
      minPreCycle := Max(b.minPreCycle, Max(b.lastActCycle + t.tRAS, if a.write then resp + t.tWR else cmd + t.tRTP)),
      lastCmdCycle := cmd,
      curRowHits := a.rowHitSeq);
    Chip(resp, a.write, c.banks[a.bank := b'],
         if hit then c.windows else c.windows[b.rank := Added(c.windows[b.rank], b.lastActCycle)])
  }

  // An activation is at the first cycle at which the request is there, the bank has been precharged
  // (after the request came, if it was open), and the bank's last activation and the rank's fourth
  // to last lie far enough behind. The column command is at the first cycle after that which the data
  // bus allows; a row hit needs no activation.
  lemma CommandsAreEarliest(t: Timing, c: Chip, a: Access, curCycle: int, x: int)
    requires On(c, a)
    ensures var (b, oldest) := (c.banks[a.bank], c.windows[c.banks[a.bank].rank][0]);
            var act := ActCycle(t, b, oldest, a);
            && (x >= act <==>
                  && x >= a.arrivalCycle && x >= b.minPreCycle + t.tRP && (b.open ==> x >= a.arrivalCycle + t.tRP)
                  && x >= b.lastActCycle + t.tRRD && x >= oldest + t.tFAW)
            && (x >= MinCmdCycle(t, c, a) <==>
                  if b.open && b.openRow == a.row then x >= a.arrivalCycle && x > b.lastCmdCycle
                  else x >= act + t.tRCD)
            && (x >= CmdCycle(t, c, a, curCycle) <==>
                  && x >= curCycle && x + t.tCL >= c.minRespCycle
                  && (c.lastCmdWasWrite && !a.write ==> x >= c.minRespCycle + t.tWTR)
                  && ((b.open && b.openRow == a.row) || x >= act + t.tRCD))
  {
  }

  // A request that is ready when the bus is free issues at once, but for a read that has to wait for the
  // write before it.
  lemma IssuesNow(t: Timing, c: Chip, a: Access, curCycle: int)
    requires Ready(t, c, a, curCycle) && curCycle + t.tCL >= c.minRespCycle
    ensures CmdCycle(t, c, a, curCycle) ==
              if c.lastCmdWasWrite && !a.write then Max(curCycle, c.minRespCycle + t.tWTR) else curCycle
  {
  }

  // What an issue leaves behind: the data bus is taken to the end of the burst, the row is open unless
  // the page is closed with no hit to come, and a precharge has to wait for the row access, the read or
  // the write recovery, and what it had to wait for before. A row hit is no activation.
  lemma ServedMeans(t: Timing, c: Chip, a: Access, curCycle: int, closedPage: bool, x: int)
    requires On(c, a)
    ensures var (b, c', cmd) := (c.banks[a.bank], Served(t, c, a, curCycle, closedPage), CmdCycle(t, c, a, curCycle));
            var hit := b.open && b.openRow == a.row;
            var act := ActCycle(t, b, c.windows[b.rank][0], a);
            && |c'.banks| == |c.banks| && (forall i | 0 <= i < |c.banks| && i != a.bank :: c'.banks[i] == c.banks[i])
            && c'.minRespCycle == cmd + t.tCL + t.tBL && c'.lastCmdWasWrite == a.write
            && c'.windows == (if hit then c.windows else c.windows[b.rank := Added(c.windows[b.rank], act)])
            && var b' := c'.banks[a.bank];
            && b'.rank == b.rank && b'.openRow == a.row && (b'.open <==> !closedPage || a.more)
            && b'.lastActCycle == (if hit then b.lastActCycle else act)
            && b'.lastCmdCycle == cmd && b'.curRowHits == a.rowHitSeq
            && (x >= b'.minPreCycle <==>
                  && x >= b.minPreCycle && x >= b'.lastActCycle + t.tRAS
                  && x >= if a.write then cmd + t.tCL + t.tBL + t.tWR else cmd + t.tRTP)
  {
  }

  // The latest cycle any bank is busy to, and cycle.
  function BusyTo(banks: seq<Bank>, cycle: int): (m: int)
    ensures m >= cycle && forall b | b in banks :: m >= b.minPreCycle && m >= b.lastCmdCycle
  {
    if banks == [] then cycle
    else
      var b := banks[|banks| - 1];
      Max(BusyTo(banks[..|banks| - 1], cycle), Max(b.minPreCycle, b.lastCmdCycle))
  }

  lemma {:induction false} BusyToIsTight(banks: seq<Bank>, cycle: int)
    ensures var m := BusyTo(banks, cycle);
            m == cycle || exists b :: b in banks && (m == b.minPreCycle || m == b.lastCmdCycle)
  {
    if banks != [] {
      var b := banks[|banks| - 1];
      BusyToIsTight(banks[..|banks| - 1], cycle);
      assert b in banks && forall a | a in banks[..|banks| - 1] :: a in banks;
    }
  }

  function Refreshed(t: Timing, c: Chip, memCycle: int): Chip {
    var done := BusyTo(c.banks, memCycle) + t.tRFC;
    c.(banks := seq(|c.banks|, i requires 0 <= i < |c.banks| =>
         c.banks[i].(minPreCycle := done - t.tRP, open := false)))
  }

  // What has happened: by bank, the activations and the column commands; by rank, the activations;
  // the first cycles of the data bursts.
  datatype History = History(acts: seq<seq<int>>, cols: seq<seq<int>>, rankActs: seq<seq<int>>, bursts: seq<int>)

  function Recorded(t: Timing, c: Chip, a: Access, curCycle: int, h: History): History
    requires On(c, a) && |h.acts| == |h.cols| == |c.banks| && |h.rankActs| == |c.windows|
  {
    var b := c.banks[a.bank];
    var cmd := CmdCycle(t, c, a, curCycle);
    var h' := h.(cols := h.cols[a.bank := h.cols[a.bank] + [cmd]], bursts := h.bursts + [cmd + t.tCL]);
    if RowHit(b, a) then h'
    else
      var act := ActCycle(t, b, c.windows[b.rank][0], a);
      h'.(acts := h.acts[a.bank := h.acts[a.bank] + [act]],
          rankActs := h.rankActs[b.rank := h.rankActs[b.rank] + [act]])
  }

  // Each element comes at least gap after every one before it, and none lies beyond last.
  ghost predicate Apart(s: seq<int>, gap: int, last: int) {
    && (forall i, j | 0 <= i < j < |s| :: s[j] >= s[i] + gap)
    && forall i | 0 <= i < |s| :: s[i] <= last
  }

  lemma ApartMore(s: seq<int>, gap: int, last: int, x: int)
    requires Apart(s, gap, last) && gap >= 0
    requires s != [] ==> x >= last + gap
    ensures Apart(s + [x], gap, x)
  {
  }

  function Min(a: int, b: int): int { if a < b then a else b }

  // How long a bank stays open at least: the row access, or a read or write and its recovery.
  function OpenFor(t: Timing): int {
    Max(t.tRAS, t.tRCD + Min(t.tRTP, t.tCL + t.tBL + t.tWR))
  }

  ghost predicate BankOk(t: Timing, b: Bank, acts: seq<int>, cols: seq<int>) {
    && Apart(acts, t.tRAS + t.tRP, b.lastActCycle)
    && Apart(cols, 1, b.lastCmdCycle)
    && (if acts == [] then b.lastActCycle == 0
        else b.minPreCycle >= b.lastActCycle + OpenFor(t) && b.lastActCycle >= acts[|acts| - 1])
    && (cols != [] ==> acts != [] && b.lastCmdCycle >= b.lastActCycle + t.tRCD)
    && (b.open ==> cols != [])
    && b.minPreCycle >= b.lastCmdCycle >= 0
  }

  ghost predicate RankOk(t: Timing, window: seq<int>, acts: seq<int>) {
    Spaced(WINDOW, t.tFAW, acts) && window == Window(WINDOW, acts) && forall x | x in window :: x >= 0
  }

  ghost predicate Inv(t: Timing, c: Chip, h: History) {
    && Shaped(c) && |h.acts| == |h.cols| == |c.banks| && |h.rankActs| == |c.windows|
    && (forall i | 0 <= i < |c.banks| :: BankOk(t, c.banks[i], h.acts[i], h.cols[i]))
    && (forall r | 0 <= r < |c.windows| :: RankOk(t, c.windows[r], h.rankActs[r]))
    && Apart(h.bursts, t.tBL, c.minRespCycle - t.tBL)
    && c.minRespCycle > t.tCL + t.tBL
  }

  // The request may issue.
  ghost predicate Ready(t: Timing, c: Chip, a: Access, curCycle: int) {
    On(c, a) && MinCmdCycle(t, c, a) <= curCycle
  }

  // The column command comes after the bank's last one, which trySchedule asserts, and not before
  // the current cycle.
  lemma ColumnAdvances(t: Timing, c: Chip, a: Access, curCycle: int, acts: seq<int>, cols: seq<int>)
    requires Usable(t) && Ready(t, c, a, curCycle) && BankOk(t, c.banks[a.bank], acts, cols)
    ensures CmdCycle(t, c, a, curCycle) > c.banks[a.bank].lastCmdCycle
    ensures CmdCycle(t, c, a, curCycle) >= curCycle
    ensures CmdCycle(t, c, a, curCycle) + t.tCL >= c.minRespCycle
    ensures c.lastCmdWasWrite && !a.write ==> CmdCycle(t, c, a, curCycle) >= c.minRespCycle + t.tWTR
  {
  }

  // After a refresh every bank is closed, and no activation comes within tRFC of its start; the refresh
  // starts once every bank is done, and nothing else changes.
  lemma RefreshHolds(t: Timing, c: Chip, memCycle: int, a: Access)
    requires Usable(t) && On(c, a)
    ensures var c' := Refreshed(t, c, memCycle);
            && On(c', a) && c' == c.(banks := c'.banks) && |c'.banks| == |c.banks|
            && (forall i | 0 <= i < |c.banks| ::
                  c'.banks[i] == c.banks[i].(open := false, minPreCycle := BusyTo(c.banks, memCycle) + t.tRFC - t.tRP))
            && ActCycle(t, c'.banks[a.bank], c'.windows[c'.banks[a.bank].rank][0], a)
               >= BusyTo(c.banks, memCycle) + t.tRFC >= memCycle + t.tRFC
  {
  }

  lemma ServedBank(t: Timing, c: Chip, h: History, a: Access, curCycle: int, closedPage: bool)
    requires Usable(t) && Inv(t, c, h) && Ready(t, c, a, curCycle)
    ensures var c', h' := Served(t, c, a, curCycle, closedPage), Recorded(t, c, a, curCycle, h);
            BankOk(t, c'.banks[a.bank], h'.acts[a.bank], h'.cols[a.bank])
  {
    var b := c.banks[a.bank];
    var cmd := CmdCycle(t, c, a, curCycle);
    ColumnAdvances(t, c, a, curCycle, h.acts[a.bank], h.cols[a.bank]);
    ApartMore(h.cols[a.bank], 1, b.lastCmdCycle, cmd);
    if !RowHit(b, a) {
      var act := ActCycle(t, b, c.windows[b.rank][0], a);
      ApartMore(h.acts[a.bank], t.tRAS + t.tRP, b.lastActCycle, act);
    }
  }

  lemma AddedFrom(v: seq<int>, x: int)
    requires v != []
    ensures forall y | y in Added(v, x) :: y == x || y in v
  {
    AddedContents(v, x);
    forall y | y in Added(v, x) ensures y == x || y in v {
      assert y in multiset(Added(v, x));
    }
  }

  lemma ServedRank(t: Timing, c: Chip, h: History, a: Access, curCycle: int, closedPage: bool)
    requires Inv(t, c, h) && Ready(t, c, a, curCycle)
    ensures var c', h' := Served(t, c, a, curCycle, closedPage), Recorded(t, c, a, curCycle, h);
            var r := c.banks[a.bank].rank;
            RankOk(t, c'.windows[r], h'.rankActs[r])
  {
    var b := c.banks[a.bank];
    if !RowHit(b, a) {
      var acts := h.rankActs[b.rank];
      var act := ActCycle(t, b, c.windows[b.rank][0], a);
      assert (acts + [act])[..|acts|] == acts;
      AddedFrom(c.windows[b.rank], act);
    }
  }

  // Serving a request touches only its bank and that bank's rank.
  lemma ServedOthers(t: Timing, c: Chip, h: History, a: Access, curCycle: int, closedPage: bool)
    requires Inv(t, c, h) && On(c, a)
    ensures var c', h' := Served(t, c, a, curCycle, closedPage), Recorded(t, c, a, curCycle, h);
            && Shaped(c') && |h'.acts| == |h'.cols| == |c'.banks| == |c.banks|
            && |h'.rankActs| == |c'.windows| == |c.windows|
            && (forall i | 0 <= i < |c.banks| && i != a.bank ::
                 c'.banks[i] == c.banks[i] && h'.acts[i] == h.acts[i] && h'.cols[i] == h.cols[i])
            && forall r | 0 <= r < |c.windows| && r != c.banks[a.bank].rank ::
                 c'.windows[r] == c.windows[r] && h'.rankActs[r] == h.rankActs[r]
  {
    var b := c.banks[a.bank];
    AddedContents(c.windows[b.rank], ActCycle(t, b, c.windows[b.rank][0], a));
  }

  lemma ServedBus(t: Timing, c: Chip, h: History, a: Access, curCycle: int, closedPage: bool)
    requires Usable(t) && Inv(t, c, h) && Ready(t, c, a, curCycle)
    ensures var c', h' := Served(t, c, a, curCycle, closedPage), Recorded(t, c, a, curCycle, h);
            Apart(h'.bursts, t.tBL, c'.minRespCycle - t.tBL) && c'.minRespCycle > t.tCL + t.tBL
  {
    ColumnAdvances(t, c, a, curCycle, h.acts[a.bank], h.cols[a.bank]);
    ApartMore(h.bursts, t.tBL, c.minRespCycle - t.tBL, CmdCycle(t, c, a, curCycle) + t.tCL);
  }

  lemma ServedKeepsInv(t: Timing, c: Chip, h: History, a: Access, curCycle: int, closedPage: bool)
    requires Usable(t) && Inv(t, c, h) && Ready(t, c, a, curCycle)
    ensures Inv(t, Served(t, c, a, curCycle, closedPage), Recorded(t, c, a, curCycle, h))
  {
    ServedBank(t, c, h, a, curCycle, closedPage);
    ServedRank(t, c, h, a, curCycle, closedPage);
    ServedBus(t, c, h, a, curCycle, closedPage);
    ServedOthers(t, c, h, a, curCycle, closedPage);
    InvFrom(t, c, h, Served(t, c, a, curCycle, closedPage), Recorded(t, c, a, curCycle, h), a.bank,
            c.banks[a.bank].rank);
  }

  lemma InvFrom(t: Timing, c: Chip, h: History, c': Chip, h': History, b: nat, r: nat)
    requires Inv(t, c, h) && b < |c.banks| && r < |c.windows|
    requires Shaped(c') && |h'.acts| == |h'.cols| == |c'.banks| == |c.banks|
    requires |h'.rankActs| == |c'.windows| == |c.windows|
    requires forall i | 0 <= i < |c.banks| && i != b ::
               c'.banks[i] == c.banks[i] && h'.acts[i] == h.acts[i] && h'.cols[i] == h.cols[i]
    requires forall q | 0 <= q < |c.windows| && q != r ::
               c'.windows[q] == c.windows[q] && h'.rankActs[q] == h.rankActs[q]
    requires BankOk(t, c'.banks[b], h'.acts[b], h'.cols[b]) && RankOk(t, c'.windows[r], h'.rankActs[r])
    requires Apart(h'.bursts, t.tBL, c'.minRespCycle - t.tBL) && c'.minRespCycle > t.tCL + t.tBL
    ensures Inv(t, c', h')
  {
  }

  lemma RefreshKeepsInv(t: Timing, c: Chip, h: History, memCycle: int)
    requires Usable(t) && Inv(t, c, h)
    ensures Inv(t, Refreshed(t, c, memCycle), h)
  {
    var c' := Refreshed(t, c, memCycle);
    forall i | 0 <= i < |c.banks| ensures BankOk(t, c'.banks[i], h.acts[i], h.cols[i]) {
      assert c.banks[i] in c.banks;
    }
  }

  datatype Op = Issue(a: Access, curCycle: int) | Refresh(memCycle: int)

  // One operation: a request issues if it is ready, or a refresh comes.
  ghost function Did(t: Timing, closedPage: bool, c: Chip, h: History, op: Op): (r: (Chip, History))
    requires Usable(t) && Inv(t, c, h)
    ensures Inv(t, r.0, r.1) && |r.1.acts| == |h.acts| && |r.1.rankActs| == |h.rankActs|
  {
    match op
    case Issue(a, cur) =>
      if Ready(t, c, a, cur) then
        ServedKeepsInv(t, c, h, a, cur, closedPage);
        (Served(t, c, a, cur, closedPage), Recorded(t, c, a, cur, h))
      else (c, h)
    case Refresh(memCycle) =>
      RefreshKeepsInv(t, c, h, memCycle);
      (Refreshed(t, c, memCycle), h)
  }

  // A run of them.
  ghost function Run(t: Timing, closedPage: bool, c: Chip, h: History, ops: seq<Op>): (r: (Chip, History))
    requires Usable(t) && Inv(t, c, h)
    ensures Inv(t, r.0, r.1) && |r.1.acts| == |h.acts| && |r.1.rankActs| == |h.rankActs|
    decreases |ops|
  {
    if ops == [] then (c, h)
    else
      var (c', h') := Did(t, closedPage, c, h, ops[0]);
      Run(t, closedPage, c', h', ops[1..])
  }

  // The controller as the constructor leaves it.
  function Fresh(t: Timing, rankOf: seq<nat>, ranks: nat): Chip {
    Chip(t.tCL + t.tBL + 1, false,
         seq(|rankOf|, i requires 0 <= i < |rankOf| => Bank(rankOf[i], false, 0, 0, 0, 0, 0)),
         seq(ranks, r => Zeros(WINDOW)))
  }

  function NoHistory(banks: nat, ranks: nat): History {
    History(seq(banks, i => []), seq(banks, i => []), seq(ranks, i => []), [])
  }

  lemma FreshInv(t: Timing, rankOf: seq<nat>, ranks: nat)
    requires forall i | 0 <= i < |rankOf| :: rankOf[i] < ranks
    ensures Inv(t, Fresh(t, rankOf, ranks), NoHistory(|rankOf|, ranks))
    // Every bank is closed and could be activated at once, and so could a command use the bus.
    ensures var c := Fresh(t, rankOf, ranks);
            && |c.banks| == |rankOf| && c.minRespCycle == t.tCL + t.tBL + 1 && !c.lastCmdWasWrite
            && (forall i | 0 <= i < |rankOf| :: c.banks[i] == Bank(rankOf[i], false, 0, 0, 0, 0, 0))
            && |c.windows| == ranks && forall r | 0 <= r < ranks :: forall x | x in c.windows[r] :: x == 0
  {
  }

  // DRAM timing over every run: data bursts never overlap, column commands to a bank strictly
  // increase, and activations of a bank are at least tRAS + tRP apart.
  lemma TimingSafety(t: Timing, closedPage: bool, rankOf: seq<nat>, ranks: nat, ops: seq<Op>, b: nat)
    requires Usable(t) && b < |rankOf| && forall i | 0 <= i < |rankOf| :: rankOf[i] < ranks
    ensures Inv(t, Fresh(t, rankOf, ranks), NoHistory(|rankOf|, ranks))
    ensures var h := Run(t, closedPage, Fresh(t, rankOf, ranks), NoHistory(|rankOf|, ranks), ops).1;
            && (forall i, j | 0 <= i < j < |h.bursts| :: h.bursts[i] + t.tBL <= h.bursts[j])
            && (forall i, j | 0 <= i < j < |h.cols[b]| :: h.cols[b][i] < h.cols[b][j])
            && forall i, j | 0 <= i < j < |h.acts[b]| :: h.acts[b][i] + t.tRAS + t.tRP <= h.acts[b][j]
  {
    FreshInv(t, rankOf, ranks);
  }

  // And of any five activations of a rank two are at least tFAW apart.
  lemma FourActivateWindow(t: Timing, closedPage: bool, rankOf: seq<nat>, ranks: nat, ops: seq<Op>,
                           r: nat, five: set<nat>) returns (i: nat, j: nat)
    requires Usable(t) && r < ranks && forall i | 0 <= i < |rankOf| :: rankOf[i] < ranks
    requires Inv(t, Fresh(t, rankOf, ranks), NoHistory(|rankOf|, ranks))
    requires var acts := Run(t, closedPage, Fresh(t, rankOf, ranks), NoHistory(|rankOf|, ranks), ops).1.rankActs[r];
             |five| > WINDOW && forall k | k in five :: k < |acts|
    ensures var acts := Run(t, closedPage, Fresh(t, rankOf, ranks), NoHistory(|rankOf|, ranks), ops).1.rankActs[r];
            i in five && j in five && acts[j] >= acts[i] + t.tFAW
  {
    var (c, h) := Run(t, closedPage, Fresh(t, rankOf, ranks), NoHistory(|rankOf|, ranks), ops);
    assert RankOk(t, c.windows[r], h.rankActs[r]);
    i, j := NoFiveTooClose(WINDOW, t.tFAW, h.rankActs[r], five);
  }

  // tRRD, the time between activations of a rank's banks, is only added to a bank's own last
  // activation, where other constraints may hide it: the first activation of a bank comes tRP or
  // tFAW into the run anyway, and the next one only after the bank was open and precharged.
  predicate TrrdIsHidden(t: Timing) {
    t.tRRD <= Max(t.tRP, t.tFAW) && t.tRRD <= OpenFor(t) + t.tRP
  }

  function NoTrrd(t: Timing): Timing { t.(tRRD := 0) }

  lemma SameActCycle(t: Timing, c: Chip, h: History, a: Access)
    requires Usable(t) && TrrdIsHidden(t) && Inv(t, c, h) && On(c, a) && !RowHit(c.banks[a.bank], a)
    ensures var b := c.banks[a.bank];
            ActCycle(t, b, c.windows[b.rank][0], a) == ActCycle(NoTrrd(t), b, c.windows[b.rank][0], a)
  {
    var b := c.banks[a.bank];
    assert BankOk(t, b, h.acts[a.bank], h.cols[a.bank]);
    assert RankOk(t, c.windows[b.rank], h.rankActs[b.rank]);
    assert c.windows[b.rank][0] in c.windows[b.rank];
  }

  lemma SameStep(t: Timing, c: Chip, h: History, a: Access, curCycle: int, closedPage: bool)
    requires Usable(t) && TrrdIsHidden(t) && Inv(t, c, h) && On(c, a)
    ensures Ready(t, c, a, curCycle) <==> Ready(NoTrrd(t), c, a, curCycle)
    ensures Served(t, c, a, curCycle, closedPage) == Served(NoTrrd(t), c, a, curCycle, closedPage)
    ensures Recorded(t, c, a, curCycle, h) == Recorded(NoTrrd(t), c, a, curCycle, h)
  {
    if !RowHit(c.banks[a.bank], a) { SameActCycle(t, c, h, a); }
    SameServed(t, NoTrrd(t), c, h, a, curCycle, closedPage);
  }

  lemma SameServed(t: Timing, u: Timing, c: Chip, h: History, a: Access, curCycle: int, closedPage: bool)
    requires u == NoTrrd(t) && On(c, a) && |h.acts| == |h.cols| == |c.banks| && |h.rankActs| == |c.windows|
    requires var b := c.banks[a.bank];
      !RowHit(b, a) ==> ActCycle(t, b, c.windows[b.rank][0], a) == ActCycle(u, b, c.windows[b.rank][0], a)
    ensures Ready(t, c, a, curCycle) <==> Ready(u, c, a, curCycle)
    ensures Served(t, c, a, curCycle, closedPage) == Served(u, c, a, curCycle, closedPage)
    ensures Recorded(t, c, a, curCycle, h) == Recorded(u, c, a, curCycle, h)
  {
    assert CmdCycle(t, c, a, curCycle) == CmdCycle(u, c, a, curCycle);
    assert Activated(t, c, a) == Activated(u, c, a);
  }

  lemma SameDid(t: Timing, closedPage: bool, c: Chip, h: History, op: Op)
    requires Usable(t) && TrrdIsHidden(t) && Inv(t, c, h) && Inv(NoTrrd(t), c, h)
    ensures Did(t, closedPage, c, h, op) == Did(NoTrrd(t), closedPage, c, h, op)
  {
    if op.Issue? && On(c, op.a) { SameStep(t, c, h, op.a, op.curCycle, closedPage); }
  }

  lemma {:induction false} SameRun(t: Timing, closedPage: bool, c: Chip, h: History, ops: seq<Op>)
    requires Usable(t) && TrrdIsHidden(t) && Inv(t, c, h)
    ensures Inv(NoTrrd(t), c, h) && Run(t, closedPage, c, h, ops) == Run(NoTrrd(t), closedPage, c, h, ops)
    decreases |ops|
  {
    SameInv(t, c, h);
    if ops != [] {
      SameDid(t, closedPage, c, h, ops[0]);
      var (c', h') := Did(t, closedPage, c, h, ops[0]);
      SameRun(t, closedPage, c', h', ops[1..]);
    }
  }

  lemma SameInv(t: Timing, c: Chip, h: History)
    ensures Inv(t, c, h) <==> Inv(NoTrrd(t), c, h)
  {
    assert forall b, acts, cols :: BankOk(t, b, acts, cols) <==> BankOk(NoTrrd(t), b, acts, cols);
    assert forall window, acts :: RankOk(t, window, acts) <==> RankOk(NoTrrd(t), window, acts);
  }

  ghost predicate RanksOk(rankOf: seq<nat>, ranks: nat) {
    forall i | 0 <= i < |rankOf| :: rankOf[i] < ranks
  }

  // A run of the controller is the same with tRRD as without.
  ghost predicate TrrdIgnored(t: Timing, closedPage: bool, rankOf: seq<nat>, ranks: nat, ops: seq<Op>)
    requires Usable(t) && RanksOk(rankOf, ranks)
  {
    FreshInv(t, rankOf, ranks);
    FreshInv(NoTrrd(t), rankOf, ranks);
    Run(t, closedPage, Fresh(t, rankOf, ranks), NoHistory(|rankOf|, ranks), ops)
    == Run(NoTrrd(t), closedPage, Fresh(t, rankOf, ranks), NoHistory(|rankOf|, ranks), ops)
  }

  // tRRD has no effect on any run exactly when the other constraints hide it; so it is for every
  // technology of initTech.
  lemma TrrdExact(t: Timing)
    requires Usable(t)
    ensures (forall closedPage, rankOf, ranks, ops | RanksOk(rankOf, ranks) ::
               TrrdIgnored(t, closedPage, rankOf, ranks, ops))
            <==> TrrdIsHidden(t)
  {
    if TrrdIsHidden(t) {
      forall closedPage, rankOf, ranks, ops | RanksOk(rankOf, ranks)
        ensures TrrdIgnored(t, closedPage, rankOf, ranks, ops)
      {
        FreshInv(t, rankOf, ranks);
        SameRun(t, closedPage, Fresh(t, rankOf, ranks), NoHistory(|rankOf|, ranks), ops);
      }
    } else {
      assert RanksOk([0], 1);
      if t.tRRD > Max(t.tRP, t.tFAW) {
        TrrdDelaysFirst(t);
        assert !TrrdIgnored(t, true, [0], 1, FirstOps(t));
      } else {
        TrrdDelaysNext(t);
        assert !TrrdIgnored(t, true, [0], 1, NextOps(t));
      }
    }
  }

  const UNUSED := Bank(0, false, 0, 0, 0, 0, 0)

  // A request issues from chip c, which has one bank: what is recorded of its activation.
  lemma OneAct(t: Timing, c: Chip, h: History, a: Access, cur: int, acts: seq<int>, y: int)
    requires Usable(t) && Inv(t, c, h) && |c.banks| == 1 && h.acts == [acts]
    requires Ready(t, c, a, cur) && !RowHit(c.banks[0], a)
    requires y == ActCycle(t, c.banks[0], c.windows[c.banks[0].rank][0], a)
    ensures Did(t, true, c, h, Issue(a, cur)).1.acts == [acts + [y]]
  {
  }

  lemma RunOfOne(t: Timing, c: Chip, h: History, ops: seq<Op>)
    requires Usable(t) && Inv(t, c, h) && |ops| == 1
    ensures Run(t, true, c, h, ops) == Did(t, true, c, h, ops[0])
  {
    assert ops[1..] == [];
  }

  lemma RunOfTwo(t: Timing, c: Chip, h: History, ops: seq<Op>)
    requires Usable(t) && Inv(t, c, h) && |ops| == 2
    ensures var (c', h') := Did(t, true, c, h, ops[0]);
            Run(t, true, c, h, ops) == Did(t, true, c', h', ops[1])
  {
    var (c', h') := Did(t, true, c, h, ops[0]);
    RunOfOne(t, c', h', ops[1..]);
  }

  // The first activation of a bank, by a request that arrives at cycle 0.
  function FirstOps(t: Timing): seq<Op> {
    [Issue(Access(0, 0, false, 0, 0, false), t.tRRD + t.tRP + t.tFAW + t.tRCD)]
  }

  lemma TrrdDelaysFirst(t: Timing)
    requires Usable(t) && t.tRRD > Max(t.tRP, t.tFAW)
    ensures !TrrdIgnored(t, true, [0], 1, FirstOps(t))
  {
    FreshInv(t, [0], 1);
    FreshInv(NoTrrd(t), [0], 1);
    FirstRecorded(t, t, t.tRRD);
    FirstRecorded(t, NoTrrd(t), Max(t.tRP, t.tFAW));
    assert [[t.tRRD as int]][0][0] != [[Max(t.tRP, t.tFAW)]][0][0];
  }

  lemma FirstRecorded(t: Timing, u: Timing, y: int)
    requires Usable(t) && (u == t || u == NoTrrd(t)) && y == Max(u.tRRD, Max(t.tRP, t.tFAW))
    requires Inv(u, Fresh(t, [0], 1), NoHistory(1, 1))
    ensures Run(u, true, Fresh(t, [0], 1), NoHistory(1, 1), FirstOps(t)).1.acts == [[y]]
  {
    var c, op := Fresh(t, [0], 1), FirstOps(t)[0];
    assert c.banks == [UNUSED] && c.windows == [Zeros(WINDOW)];
    OneAct(u, c, NoHistory(1, 1), op.a, op.curCycle, [], y);
    RunOfOne(u, c, NoHistory(1, 1), FirstOps(t));
    assert [] + [y] == [y];
  }

  // A cycle later than any constraint from the start of the run.
  function Later0(t: Timing): nat { t.tRP + t.tRRD + t.tFAW + t.tBL + 1 }

  // Two activations of a bank: a request with the shorter recovery at x, and one for another row.
  function FirstAccess(t: Timing): Access {
    Access(0, 0, t.tCL + t.tBL + t.tWR < t.tRTP, Later0(t), 0, false)
  }

  function NextAccess(): Access { Access(0, 1, true, 0, 0, false) }

  function NextOps(t: Timing): seq<Op> {
    var x := Later0(t);
    [Issue(FirstAccess(t), x + t.tRCD), Issue(NextAccess(), x + t.tRRD + OpenFor(t) + t.tRP + t.tRCD)]
  }

  // The chip after the first of them, whether or not there is a tRRD.
  function AfterFirst(t: Timing): Chip {
    var x := Later0(t);
    Chip(x + t.tRCD + t.tCL + t.tBL, FirstAccess(t).write,
         [Bank(0, false, 0, x + OpenFor(t), x, x + t.tRCD, 0)], [[0, 0, 0, x]])
  }

  lemma FirstIsServed(t: Timing)
    requires Usable(t) && RanksOk([0], 1)
    ensures On(Fresh(t, [0], 1), FirstAccess(t))
    ensures Ready(t, Fresh(t, [0], 1), FirstAccess(t), Later0(t) + t.tRCD)
    ensures Served(t, Fresh(t, [0], 1), FirstAccess(t), Later0(t) + t.tRCD, true) == AfterFirst(t)
    ensures Recorded(t, Fresh(t, [0], 1), FirstAccess(t), Later0(t) + t.tRCD, NoHistory(1, 1)).acts == [[Later0(t)]]
  {
    var c, a, x := Fresh(t, [0], 1), FirstAccess(t), Later0(t);
    assert c.banks == [UNUSED] && c.windows == [Zeros(WINDOW)];
    assert ActCycle(t, UNUSED, 0, a) == x;
    assert CmdCycle(t, c, a, x + t.tRCD) == x + t.tRCD;
    assert Added(Zeros(WINDOW), x) == [0, 0, 0, x];
    assert [] + [x] == [x];
  }

  lemma NextIsServed(t: Timing, u: Timing, y: int)
    requires Usable(t) && (u == t || u == NoTrrd(t)) && t.tRRD > OpenFor(t) + t.tRP
    requires y == Later0(t) + Max(OpenFor(t) + t.tRP, u.tRRD)
    requires Inv(u, Fresh(t, [0], 1), NoHistory(1, 1))
    ensures Run(u, true, Fresh(t, [0], 1), NoHistory(1, 1), NextOps(t)).1.acts == [[Later0(t), y]]
  {
    FirstDid(t, u);
    SecondDid(t, u, Did(u, true, Fresh(t, [0], 1), NoHistory(1, 1), NextOps(t)[0]).1, y);
    RunOfTwo(u, Fresh(t, [0], 1), NoHistory(1, 1), NextOps(t));
  }

  lemma FirstDid(t: Timing, u: Timing)
    requires Usable(t) && (u == t || u == NoTrrd(t)) && Inv(u, Fresh(t, [0], 1), NoHistory(1, 1))
    ensures var r := Did(u, true, Fresh(t, [0], 1), NoHistory(1, 1), NextOps(t)[0]);
            r.0 == AfterFirst(t) && r.1.acts == [[Later0(t)]]
  {
    SameFirst(t, u);
  }

  lemma SecondDid(t: Timing, u: Timing, h: History, y: int)
    requires Usable(t) && (u == t || u == NoTrrd(t)) && t.tRRD > OpenFor(t) + t.tRP
    requires y == Later0(t) + Max(OpenFor(t) + t.tRP, u.tRRD)
    requires Inv(u, AfterFirst(t), h) && h.acts == [[Later0(t)]]
    ensures Did(u, true, AfterFirst(t), h, NextOps(t)[1]).1.acts == [[Later0(t), y]]
  {
    var op := NextOps(t)[1];
    NextActCycle(t, u, y);
    OneAct(u, AfterFirst(t), h, op.a, op.curCycle, [Later0(t)], y);
    assert [Later0(t)] + [y] == [Later0(t), y];
  }

  lemma NextActCycle(t: Timing, u: Timing, y: int)
    requires Usable(t) && (u == t || u == NoTrrd(t)) && t.tRRD > OpenFor(t) + t.tRP
    requires y == Later0(t) + Max(OpenFor(t) + t.tRP, u.tRRD)
    ensures var (c, op) := (AfterFirst(t), NextOps(t)[1]);
            && On(c, op.a) && !RowHit(c.banks[0], op.a) && Ready(u, c, op.a, op.curCycle)
            && ActCycle(u, c.banks[0], c.windows[0][0], op.a) == y
  {
    assert AfterFirst(t).windows[0][0] == 0;
  }

  lemma SameFirst(t: Timing, u: Timing)
    requires Usable(t) && (u == t || u == NoTrrd(t))
    ensures var (c, a, cur) := (Fresh(t, [0], 1), FirstAccess(t), Later0(t) + t.tRCD);
            && Ready(u, c, a, cur) && Served(u, c, a, cur, true) == AfterFirst(t)
            && Recorded(u, c, a, cur, NoHistory(1, 1)).acts == [[Later0(t)]]
  {
    var (c, a, cur) := (Fresh(t, [0], 1), FirstAccess(t), Later0(t) + t.tRCD);
    FirstIsServed(t);
    assert c.banks == [UNUSED] && c.windows == [Zeros(WINDOW)];
    assert ActCycle(u, UNUSED, 0, a) == ActCycle(t, UNUSED, 0, a);
  }

  lemma TrrdDelaysNext(t: Timing)
    requires Usable(t) && t.tRRD > OpenFor(t) + t.tRP
    ensures !TrrdIgnored(t, true, [0], 1, NextOps(t))
  {
    FreshInv(t, [0], 1);
    FreshInv(NoTrrd(t), [0], 1);
    var x := Later0(t);
    NextIsServed(t, t, x + t.tRRD);
    NextIsServed(t, NoTrrd(t), x + OpenFor(t) + t.tRP);
    assert [[x, x + t.tRRD]][0][1] != [[x, x + OpenFor(t) + t.tRP]][0][1];
  }
}
