// The DDR controller counts memory cycles but is woken by, and answers in, system cycles. All
// divisions are of naturals and round down; 64-bit overflow is not modelled.

module DdrClock {
  import opened Arith

  // Frequencies as the constructor accepts them.
  predicate Clocks(sysFreq: nat, memFreq: nat) {
    0 < memFreq < sysFreq / 2
  }

  function SysToMem(sysFreq: nat, memFreq: nat, sysCycle: nat): nat
    requires sysFreq > 0
  {
    sysCycle * memFreq / sysFreq + 1
  }

  function MemToSys(sysFreq: nat, memFreq: nat, memCycle: nat): nat
    requires memFreq > 0
  {
    (memCycle + 1) * sysFreq / memFreq
  }

  function MatchingMemToSys(sysFreq: nat, memFreq: nat, memCycle: nat): nat
    requires memFreq > 0 && memCycle > 0
  {
    (2 * memCycle - 1) * sysFreq / memFreq / 2
  }

  lemma SysToMemMonotone(sysFreq: nat, memFreq: nat, s: nat, t: nat)
    requires sysFreq > 0 && s <= t
    ensures SysToMem(sysFreq, memFreq, s) <= SysToMem(sysFreq, memFreq, t)
  {
    MulMonotone(s, t, memFreq);
    DivMonotone(s * memFreq, t * memFreq, sysFreq);
  }

  // The matching system cycle falls inside the memory cycle: t is floor((2n - 1) f / 2m).
  lemma MatchingBounds(f: nat, m: nat, n: nat)
    requires m > 0 && n > 0 && 2 * m <= f
    ensures var t := MatchingMemToSys(f, m, n); (n - 1) * f <= t * m < n * f
  {
    var a := (2 * n - 1) * f;
    var q := a / m;
    var t := q / 2;
    DivBounds(a, m);
    DivBounds(q, 2);
    assert a == 2 * (n * f) - f;
    // 2t <= q, so 2tm <= a; and q <= 2t + 1, so a < (2t + 2)m.
    MulMonotone(2 * t, q, m);
    MulMonotone(q, 2 * t + 1, m);
    MulDistributes(t, t, m);
    MulDistributes(2 * t, 1, m);
    assert (n - 1) * f == n * f - f;
  }

  lemma InsideMemCycle(f: nat, m: nat, n: nat, s: nat)
    requires f > 0 && n > 0 && (n - 1) * f <= s * m < n * f
    ensures SysToMem(f, m, s) == n
  {
    MulDistributes(n - 1, 1, f);
    DivIs(s * m, f, n - 1);
  }

  // A tick asked for at memory cycle n comes at memory cycle n: the assertion in tick holds.
  lemma TickRoundTrip(sysFreq: nat, memFreq: nat, n: nat, s: nat)
    requires Clocks(sysFreq, memFreq) && n >= SysToMem(sysFreq, memFreq, s)
    ensures SysToMem(sysFreq, memFreq, Max(MatchingMemToSys(sysFreq, memFreq, n), s)) == n
  {
    var t := MatchingMemToSys(sysFreq, memFreq, n);
    MatchingBounds(sysFreq, memFreq, n);
    InsideMemCycle(sysFreq, memFreq, n, t);
    if s > t {
      SysToMemMonotone(sysFreq, memFreq, t, s);
    }
  }

  // A memory cycle ends no earlier than the system cycle it was translated from.
  lemma MemToSysCovers(sysFreq: nat, memFreq: nat, s: nat)
    requires sysFreq > 0 && memFreq > 0
    ensures MemToSys(sysFreq, memFreq, SysToMem(sysFreq, memFreq, s)) >= s
  {
    var c := SysToMem(sysFreq, memFreq, s);
    DivBounds(s * memFreq, sysFreq);
    MulDistributes(c - 1, 1, sysFreq);
    MulDistributes(c, 1, sysFreq);
    DivAtLeast((c + 1) * sysFreq, memFreq, s);
  }

  // What done is called with for a read whose column command issues at cmdCycle: the response
  // cycle less preDelay and postDelayRd, which add up to minRdLatency.
  function ReadDone(sysFreq: nat, memFreq: nat, tCL: nat, tBL: nat, controller: nat, cmdCycle: nat): int
    requires memFreq > 0 && tCL + tBL > 0
  {
    var minRdLatency := controller + MemToSys(sysFreq, memFreq, tCL + tBL - 1);
    var preDelay := controller;
    var postDelayRd := minRdLatency - preDelay;
    MemToSys(sysFreq, memFreq, cmdCycle + tCL + tBL) + controller - preDelay - postDelayRd
  }

  // The same for a write that enters a bank queue at memory cycle memCycle.
  function WriteDone(sysFreq: nat, memFreq: nat, controller: nat, memCycle: nat): int
    requires memFreq > 0
  {
    var minWrLatency := controller;
    var preDelay, postDelayWr := controller, 0;
    MemToSys(sysFreq, memFreq, memCycle) + minWrLatency - preDelay - postDelayWr
  }

  // No completion lies in the past of the system cycle in which it is announced.
  lemma DoneIsNotPast(sysFreq: nat, memFreq: nat, tCL: nat, tBL: nat, controller: nat, cmdCycle: nat, s: nat)
    requires sysFreq > 0 && memFreq > 0 && tCL + tBL > 0
    requires cmdCycle >= SysToMem(sysFreq, memFreq, s)
    ensures ReadDone(sysFreq, memFreq, tCL, tBL, controller, cmdCycle) >= s
    ensures WriteDone(sysFreq, memFreq, controller, SysToMem(sysFreq, memFreq, s)) >= s
  {
    var c := SysToMem(sysFreq, memFreq, s);
    var l := tCL + tBL;
    MemToSysCovers(sysFreq, memFreq, s);
    MulDistributes(cmdCycle + 1, l, sysFreq);
    DivSuperadditive((cmdCycle + 1) * sysFreq, l * sysFreq, memFreq);
    MulMonotone(c + 1, cmdCycle + 1, sysFreq);
    DivMonotone((c + 1) * sysFreq, (cmdCycle + 1) * sysFreq, memFreq);
  }

  // The core adds its latency to what done is called with, and so sees the response in the last system
  // cycle that begins before its memory cycle is over; the same for a write and the cycle it comes in.
  lemma DoneIsOnTime(sysFreq: nat, memFreq: nat, tCL: nat, tBL: nat, controller: nat, cmdCycle: nat)
    requires sysFreq > 0 && memFreq > 0 && tCL + tBL > 0
    ensures var seen := ReadDone(sysFreq, memFreq, tCL, tBL, controller, cmdCycle)
                        + MemToSys(sysFreq, memFreq, tCL + tBL - 1);
            seen * memFreq <= (cmdCycle + tCL + tBL + 1) * sysFreq < (seen + 1) * memFreq
    ensures var seen := WriteDone(sysFreq, memFreq, controller, cmdCycle);
            seen * memFreq <= (cmdCycle + 1) * sysFreq < (seen + 1) * memFreq
  {
    DivBounds((cmdCycle + tCL + tBL + 1) * sysFreq, memFreq);
    DivBounds((cmdCycle + 1) * sysFreq, memFreq);
    MulDistributes(MemToSys(sysFreq, memFreq, cmdCycle + tCL + tBL), 1, memFreq);
    MulDistributes(MemToSys(sysFreq, memFreq, cmdCycle), 1, memFreq);
  }
}
