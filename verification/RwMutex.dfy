// The fair read-write mutex as interleaved atomic steps of any number of threads. Its two inner
// mutexes are booleans here (an acquire step is enabled only while the mutex is free); the
// fetch-and-add on the reader count is one step, modulo 2^32.

module RwMutex {
  import opened Arith

  datatype PC =
    | Idle
    // rdLock
    | RdWantRb | RdXadd | RdWantWq | RdDropRb
    | Reading
    // rdUnlock, after the last reader's decrement
    | RuDropWq
    // wrLock
    | WrWantRb | WrWantWq | WrDropRb
    | Writing
    // downgrade, after an increment that found a reader
    | DgDropWq

  datatype Sys = Sys(readers: nat, rb: bool, wq: bool, pcs: seq<PC>)

  // The operation a thread at rest between operations starts; upgrade is an unlock and a wrLock.
  datatype Call = RdLock | WrLock | RdUnlock | WrUnlock | Downgrade

  function Xadd(readers: nat, v: int): nat { (readers + TWO32 + v) % TWO32 }

  lemma XaddIs(readers: nat, v: int)
    requires 0 <= readers + v < TWO32 && v >= -TWO32
    ensures Xadd(readers, v) == readers + v
  {
  }

  // Thread t cannot move: it waits for one of the two mutexes.
  predicate Blocked(s: Sys, t: nat)
    requires t < |s.pcs|
  {
    match s.pcs[t]
    case RdWantRb | WrWantRb => s.rb
    case RdWantWq | WrWantWq => s.wq
    case _ => false
  }

  // One step of thread t; at rest the thread performs, or starts, the call c.
  function Stepped(s: Sys, t: nat, c: Call): Sys
    requires t < |s.pcs| && !Blocked(s, t)
  {
    match s.pcs[t]
    case Idle => s.(pcs := s.pcs[t := if c == RdLock then RdWantRb else if c == WrLock then WrWantRb else Idle])
    case RdWantRb => s.(rb := true, pcs := s.pcs[t := RdXadd])
    case RdXadd =>
      s.(readers := Xadd(s.readers, 1), pcs := s.pcs[t := if s.readers == 0 then RdWantWq else RdDropRb])
    case RdWantWq => s.(wq := true, pcs := s.pcs[t := RdDropRb])
    case RdDropRb => s.(rb := false, pcs := s.pcs[t := Reading])
    case Reading =>
      if c == RdUnlock then
        s.(readers := Xadd(s.readers, -1), pcs := s.pcs[t := if s.readers == 1 then RuDropWq else Idle])
      else s
    case RuDropWq => s.(wq := false, pcs := s.pcs[t := Idle])
    case WrWantRb => s.(rb := true, pcs := s.pcs[t := WrWantWq])
    case WrWantWq => s.(wq := true, pcs := s.pcs[t := WrDropRb])
    case WrDropRb => s.(rb := false, pcs := s.pcs[t := Writing])
    case Writing =>
      if c == WrUnlock then s.(wq := false, pcs := s.pcs[t := Idle])
      else if c == Downgrade then
        s.(readers := Xadd(s.readers, 1), pcs := s.pcs[t := if s.readers == 0 then Reading else DgDropWq])
      else s
    case DgDropWq => s.(wq := false, pcs := s.pcs[t := Reading])
  }

  ghost predicate Initial(s: Sys) {
    && s.readers == 0 && !s.rb && !s.wq && |s.pcs| < TWO32
    && forall t | 0 <= t < |s.pcs| :: s.pcs[t] == Idle
  }

  ghost predicate SomeStep(s: Sys, s': Sys) {
    exists t: nat, c :: t < |s.pcs| && !Blocked(s, t) && s' == Stepped(s, t, c)
  }

  ghost predicate IsRun(run: seq<Sys>) {
    |run| > 0 && Initial(run[0]) && Steps(run)
  }

  ghost predicate Steps(run: seq<Sys>) {
    forall i | 0 <= i < |run| - 1 :: StepAt(run, i)
  }

  ghost predicate StepAt(run: seq<Sys>, i: nat)
    requires i + 1 < |run|
  {
    SomeStep(run[i], run[i + 1])
  }

  // The threads counted by where they are.
  type Tally = multiset<PC>

  function Counted(n: Tally): nat { n[RdWantWq] + n[RdDropRb] + n[Reading] + n[DgDropWq] }

  function RbHolders(n: Tally): nat { n[RdXadd] + n[RdWantWq] + n[RdDropRb] + n[WrWantWq] + n[WrDropRb] }

  // Threads that hold wq by themselves.
  function Solo(n: Tally): nat { n[WrDropRb] + n[Writing] + n[DgDropWq] + n[RuDropWq] }

  // Readers that are in.
  function Inside(n: Tally): nat { n[RdDropRb] + n[Reading] }

  predicate Balanced(readers: nat, rb: bool, wq: bool, n: Tally) {
    && readers == Counted(n)
    && RbHolders(n) == (if rb then 1 else 0)
    && Solo(n) <= 1
    && (wq <==> Solo(n) == 1 || (Inside(n) > 0 && n[RdWantWq] == 0))
    && (Solo(n) == 1 ==> Inside(n) == 0)
    && (n[DgDropWq] == 1 ==> n[RdWantWq] == 1)
  }

  ghost predicate Inv(s: Sys) {
    |s.pcs| < TWO32 && s.readers <= |s.pcs| && Balanced(s.readers, s.rb, s.wq, multiset(s.pcs))
  }

  lemma CountedBound(n: Tally)
    ensures Counted(n) <= |n|
  {
    var rest := n[RdWantWq := 0][RdDropRb := 0][Reading := 0][DgDropWq := 0];
    assert |rest| == |n| - Counted(n);
  }

  // Two threads are counted apart.
  lemma CountedTwice(pcs: seq<PC>, t: nat, u: nat)
    requires t < u < |pcs|
    ensures multiset{pcs[t], pcs[u]} <= multiset(pcs)
  {
    assert pcs == pcs[..u] + pcs[u..];
    assert pcs[..u][t] in multiset(pcs[..u]) && pcs[u..][0] in multiset(pcs[u..]);
  }

  // One thread moves from p to q.
  ghost predicate Moved(n: Tally, n': Tally, p: PC, q: PC) {
    p != q && n[p] > 0 && n' == n[p := n[p] - 1][q := n[q] + 1]
  }

  lemma Move(pcs: seq<PC>, t: nat, q: PC)
    requires t < |pcs| && q != pcs[t]
    ensures Moved(multiset(pcs), multiset(pcs[t := q]), pcs[t], q)
  {
    assert pcs[t] in multiset(pcs);
  }

  // Every move the mutex makes keeps the books balanced.
  lemma RdLockBalances(r: nat, rb: bool, wq: bool, n: Tally, n': Tally)
    requires Balanced(r, rb, wq, n)
    ensures !rb && Moved(n, n', RdWantRb, RdXadd) ==> Balanced(r, true, wq, n')
    ensures Moved(n, n', RdXadd, if r == 0 then RdWantWq else RdDropRb) ==> Balanced(r + 1, rb, wq, n')
  {
  }

  lemma RdEnterBalances(r: nat, rb: bool, wq: bool, n: Tally, n': Tally)
    requires Balanced(r, rb, wq, n)
    ensures !wq && Moved(n, n', RdWantWq, RdDropRb) ==> Balanced(r, rb, true, n')
    ensures Moved(n, n', RdDropRb, Reading) ==> Balanced(r, false, wq, n')
  {
  }

  lemma StartBalances(r: nat, rb: bool, wq: bool, n: Tally, n': Tally)
    requires Balanced(r, rb, wq, n)
    ensures Moved(n, n', Idle, RdWantRb) ==> Balanced(r, rb, wq, n')
    ensures Moved(n, n', Idle, WrWantRb) ==> Balanced(r, rb, wq, n')
  {
  }

  lemma RdUnlockBalances(r: nat, rb: bool, wq: bool, n: Tally, n': Tally)
    requires Balanced(r, rb, wq, n)
    ensures Moved(n, n', Reading, if r == 1 then RuDropWq else Idle) ==> r > 0 && Balanced(r - 1, rb, wq, n')
    ensures Moved(n, n', RuDropWq, Idle) ==> Balanced(r, rb, false, n')
  {
  }

  lemma WrLockBalances(r: nat, rb: bool, wq: bool, n: Tally, n': Tally)
    requires Balanced(r, rb, wq, n)
    ensures !rb && Moved(n, n', WrWantRb, WrWantWq) ==> Balanced(r, true, wq, n')
    ensures !wq && Moved(n, n', WrWantWq, WrDropRb) ==> Balanced(r, rb, true, n')
    ensures Moved(n, n', WrDropRb, Writing) ==> Balanced(r, false, wq, n')
  {
  }

  lemma WriterBalances(r: nat, rb: bool, wq: bool, n: Tally, n': Tally)
    requires Balanced(r, rb, wq, n)
    ensures Moved(n, n', Writing, Idle) ==> Balanced(r, rb, false, n')
    ensures Moved(n, n', Writing, if r == 0 then Reading else DgDropWq) ==> r <= 1 && Balanced(r + 1, rb, wq, n')
    ensures Moved(n, n', DgDropWq, Reading) ==> Balanced(r, rb, false, n')
  {
  }

  lemma StartKeepsInv(s: Sys, t: nat, c: Call)
    requires Inv(s) && t < |s.pcs| && !Blocked(s, t)
    requires s.pcs[t] == Idle
    ensures Inv(Stepped(s, t, c))
  {
    var s' := Stepped(s, t, c);
    if s'.pcs[t] != s.pcs[t] {
      Move(s.pcs, t, s'.pcs[t]);
      CountedBound(multiset(s'.pcs));
      StartBalances(s.readers, s.rb, s.wq, multiset(s.pcs), multiset(s'.pcs));
    }
  }

  lemma RdLockKeepsInv(s: Sys, t: nat, c: Call)
    requires Inv(s) && t < |s.pcs| && !Blocked(s, t)
    requires s.pcs[t] in {RdWantRb, RdXadd, RdWantWq, RdDropRb}
    ensures Inv(Stepped(s, t, c))
  {
    var s' := Stepped(s, t, c);
    if s'.pcs[t] != s.pcs[t] {
      Move(s.pcs, t, s'.pcs[t]);
      CountedBound(multiset(s'.pcs));
      RdLockBalances(s.readers, s.rb, s.wq, multiset(s.pcs), multiset(s'.pcs));
      RdEnterBalances(s.readers, s.rb, s.wq, multiset(s.pcs), multiset(s'.pcs));
      if s.pcs[t] == RdXadd { XaddIs(s.readers, 1); }
    }
  }

  lemma RdUnlockKeepsInv(s: Sys, t: nat, c: Call)
    requires Inv(s) && t < |s.pcs| && !Blocked(s, t)
    requires s.pcs[t] in {Reading, RuDropWq}
    ensures Inv(Stepped(s, t, c))
  {
    var s' := Stepped(s, t, c);
    if s'.pcs[t] != s.pcs[t] {
      Move(s.pcs, t, s'.pcs[t]);
      CountedBound(multiset(s'.pcs));
      RdUnlockBalances(s.readers, s.rb, s.wq, multiset(s.pcs), multiset(s'.pcs));
      if s.pcs[t] == Reading { XaddIs(s.readers, -1); }
    }
  }

  lemma WrLockKeepsInv(s: Sys, t: nat, c: Call)
    requires Inv(s) && t < |s.pcs| && !Blocked(s, t)
    requires s.pcs[t] in {WrWantRb, WrWantWq, WrDropRb}
    ensures Inv(Stepped(s, t, c))
  {
    var s' := Stepped(s, t, c);
    if s'.pcs[t] != s.pcs[t] {
      Move(s.pcs, t, s'.pcs[t]);
      CountedBound(multiset(s'.pcs));
      WrLockBalances(s.readers, s.rb, s.wq, multiset(s.pcs), multiset(s'.pcs));
    }
  }

  lemma WrUnlockKeepsInv(s: Sys, t: nat)
    requires Inv(s) && t < |s.pcs| && s.pcs[t] == Writing
    ensures Inv(Stepped(s, t, WrUnlock))
  {
    Move(s.pcs, t, Idle);
    WriterBalances(s.readers, s.rb, s.wq, multiset(s.pcs), multiset(s.pcs[t := Idle]));
  }

  lemma DowngradeKeepsInv(s: Sys, t: nat)
    requires Inv(s) && t < |s.pcs| && s.pcs[t] == Writing
    ensures Inv(Stepped(s, t, Downgrade))
  {
    var q := if s.readers == 0 then Reading else DgDropWq;
    Move(s.pcs, t, q);
    CountedBound(multiset(s.pcs[t := q]));
    WriterBalances(s.readers, s.rb, s.wq, multiset(s.pcs), multiset(s.pcs[t := q]));
  }

  lemma LateWakeKeepsInv(s: Sys, t: nat, c: Call)
    requires Inv(s) && t < |s.pcs| && s.pcs[t] == DgDropWq
    ensures Inv(Stepped(s, t, c))
  {
    Move(s.pcs, t, Reading);
    WriterBalances(s.readers, s.rb, s.wq, multiset(s.pcs), multiset(s.pcs[t := Reading]));
  }

  lemma StepKeepsInv(s: Sys, t: nat, c: Call)
    requires Inv(s) && t < |s.pcs| && !Blocked(s, t)
    ensures Inv(Stepped(s, t, c))
  {
    match s.pcs[t]
    case Idle => StartKeepsInv(s, t, c);
    case RdWantRb | RdXadd | RdWantWq | RdDropRb => RdLockKeepsInv(s, t, c);
    case Reading | RuDropWq => RdUnlockKeepsInv(s, t, c);
    case WrWantRb | WrWantWq | WrDropRb => WrLockKeepsInv(s, t, c);
    case Writing => if c == WrUnlock { WrUnlockKeepsInv(s, t); } else if c == Downgrade { DowngradeKeepsInv(s, t); }
    case DgDropWq => LateWakeKeepsInv(s, t, c);
  }

  lemma {:induction false} RunsKeepInv(run: seq<Sys>, i: nat)
    requires IsRun(run) && i < |run|
    ensures Inv(run[i])
  {
    if i == 0 {
      assert forall p | p in multiset(run[0].pcs) :: p == Idle;
    } else {
      RunsKeepInv(run, i - 1);
      assert StepAt(run, i - 1);
      var t: nat, c :| t < |run[i - 1].pcs| && !Blocked(run[i - 1], t) && run[i] == Stepped(run[i - 1], t, c);
      StepKeepsInv(run[i - 1], t, c);
    }
  }

  predicate IsWriter(p: PC) { p == WrDropRb || p == Writing }

  // A downgrading thread counts as a reader from its increment on.
  predicate IsReader(p: PC) { p == RdDropRb || p == Reading || p == DgDropWq }

  predicate WaitsOnWq(p: PC) { p == RdWantWq || p == WrWantWq }

  // What the mutex promises, in any state of any run: a writer excludes every other thread, at most
  // one thread waits for wq, and a downgrade never finds more than one reader.
  lemma Exclusion(run: seq<Sys>, i: nat, t: nat, u: nat)
    requires IsRun(run) && i < |run| && t < |run[i].pcs| && u < |run[i].pcs| && t != u
    ensures IsWriter(run[i].pcs[t]) ==> !IsWriter(run[i].pcs[u]) && !IsReader(run[i].pcs[u])
    ensures WaitsOnWq(run[i].pcs[t]) ==> !WaitsOnWq(run[i].pcs[u])
    ensures run[i].pcs[t] == Writing ==> run[i].readers <= 1
  {
    RunsKeepInv(run, i);
    CountedTwice(run[i].pcs, if t < u then t else u, if t < u then u else t);
  }

  // Every unlock is of a mutex that is held.
  lemma UnlocksAreOfHeldMutexes(run: seq<Sys>, i: nat, t: nat)
    requires IsRun(run) && i < |run| && t < |run[i].pcs|
    ensures run[i].pcs[t] in {RdDropRb, WrDropRb} ==> run[i].rb
    ensures run[i].pcs[t] in {RuDropWq, Writing, DgDropWq} ==> run[i].wq
  {
    RunsKeepInv(run, i);
    assert run[i].pcs[t] in multiset(run[i].pcs);
  }

  // Thread t has downgraded in step i and not yet begun its rdUnlock by state j.
  ghost predicate DowngradedSince(run: seq<Sys>, i: nat, j: nat, t: nat) {
    && i < j < |run|
    && (forall k | i <= k <= j :: t < |run[k].pcs|)
    && run[i].pcs[t] == Writing
    && run[i + 1].pcs[t] != Writing
    && forall k | i < k <= j :: run[k].pcs[t] != Idle && run[k].pcs[t] != RuDropWq
  }

  // A step of any thread takes a downgraded thread nowhere but on to reading and to rdUnlock.
  lemma OneStepOn(s: Sys, s': Sys, t: nat)
    requires SomeStep(s, s') && t < |s.pcs| && t < |s'.pcs|
    requires s'.pcs[t] != Idle && s'.pcs[t] != RuDropWq
    requires s.pcs[t] in {Reading, DgDropWq} || (s.pcs[t] == Writing && s'.pcs[t] != Writing)
    ensures s'.pcs[t] in {Reading, DgDropWq}
  {
    var v: nat, c :| v < |s.pcs| && !Blocked(s, v) && s' == Stepped(s, v, c);
    OwnStepOn(s, v, c, t);
  }

  lemma OwnStepOn(s: Sys, v: nat, c: Call, t: nat)
    requires v < |s.pcs| && !Blocked(s, v) && t < |s.pcs|
    ensures |Stepped(s, v, c).pcs| == |s.pcs| && (v != t ==> Stepped(s, v, c).pcs[t] == s.pcs[t])
    ensures s.pcs[t] in {Reading, DgDropWq, Writing} ==>
              Stepped(s, v, c).pcs[t] in {s.pcs[t], Reading, DgDropWq, Idle, RuDropWq}
  {
  }

  lemma {:induction false} StillReading(run: seq<Sys>, i: nat, j: nat, t: nat)
    requires IsRun(run) && DowngradedSince(run, i, j, t)
    ensures run[j].pcs[t] in {Reading, DgDropWq}
  {
    if j > i + 1 { StillReading(run, i, j - 1, t); }
    assert StepAt(run, j - 1);
    OneStepOn(run[j - 1], run[j], t);
  }

  // From a downgrade until that thread's rdUnlock no thread is a writer.
  lemma DowngradeIsAtomic(run: seq<Sys>, i: nat, j: nat, t: nat, u: nat)
    requires IsRun(run) && DowngradedSince(run, i, j, t) && u < |run[j].pcs|
    ensures !IsWriter(run[j].pcs[u])
  {
    StillReading(run, i, j, t);
    if u != t { Exclusion(run, j, u, t); }
  }

  // No deadlock: while some thread is not at rest, some such thread can move.
  lemma SomeoneCanMove(run: seq<Sys>, i: nat, w: nat) returns (t: nat)
    requires IsRun(run) && i < |run| && w < |run[i].pcs| && run[i].pcs[w] != Idle
    ensures t < |run[i].pcs| && run[i].pcs[t] != Idle && !Blocked(run[i], t)
  {
    var s := run[i];
    RunsKeepInv(run, i);
    if !Blocked(s, w) {
      t := w;
    } else {
      t := Unblocked(s);
    }
  }

  // A held mutex traces to a thread that can move: its holder, or the holder of wq behind it.
  lemma Unblocked(s: Sys) returns (t: nat)
    requires Inv(s) && (s.rb || s.wq)
    ensures t < |s.pcs| && s.pcs[t] != Idle && !Blocked(s, t)
  {
    var n := multiset(s.pcs);
    var p :=
      if Solo(n) > 0 then
        if n[WrDropRb] > 0 then WrDropRb else if n[Writing] > 0 then Writing
        else if n[DgDropWq] > 0 then DgDropWq else RuDropWq
      else if n[Reading] > 0 then Reading
      else if n[RdDropRb] > 0 then RdDropRb
      else if n[RdXadd] > 0 then RdXadd
      else if n[RdWantWq] > 0 then RdWantWq else WrWantWq;
    assert p in s.pcs;
    t :| 0 <= t < |s.pcs| && s.pcs[t] == p;
  }

  predicate ReadsSoon(p: PC) { p in {RdWantRb, RdXadd, RdWantWq, RdDropRb} }

  predicate WritesSoon(p: PC) { p in {WrWantRb, WrWantWq, WrDropRb} }

  // How many steps a thread has before it, counting those of its unlock.
  function Ahead(p: PC): nat {
    match p
    case Idle => 0
    case RdWantRb => 6 case RdXadd => 5 case RdWantWq => 4 case RdDropRb => 3
    case Reading => 2 case RuDropWq => 1
    case WrWantRb => 4 case WrWantWq => 3 case WrDropRb => 2
    case Writing => 1
    case DgDropWq => 3
  }

  // Who asks to read ends up reading and who asks to write ends up writing, one step nearer with every
  // step that is not blocked; an unlock ends at rest, and a downgrade in reading. Nobody else moves.
  lemma StepGoesOn(s: Sys, t: nat, c: Call)
    requires t < |s.pcs| && !Blocked(s, t)
    ensures var (p, p') := (s.pcs[t], Stepped(s, t, c).pcs[t]);
      && Stepped(s, t, c).pcs == s.pcs[t := p']
      && (p == Idle && c == RdLock ==> ReadsSoon(p')) && (p == Idle && c == WrLock ==> WritesSoon(p'))
      && (ReadsSoon(p) ==> (ReadsSoon(p') || p' == Reading) && Ahead(p') < Ahead(p))
      && (WritesSoon(p) ==> (WritesSoon(p') || p' == Writing) && Ahead(p') < Ahead(p))
      && (p == Reading && c == RdUnlock ==> p' == RuDropWq || p' == Idle) && (p == RuDropWq ==> p' == Idle)
      && (p == Writing && c == WrUnlock ==> p' == Idle)
      && (p == Writing && c == Downgrade ==> p' == DgDropWq || p' == Reading) && (p == DgDropWq ==> p' == Reading)
  {
  }

  function Work(pcs: seq<PC>): nat {
    if pcs == [] then 0 else Work(pcs[..|pcs| - 1]) + Ahead(pcs[|pcs| - 1])
  }

  lemma {:induction false} WorkUpdate(pcs: seq<PC>, t: nat, p: PC)
    requires t < |pcs|
    ensures Work(pcs[t := p]) == Work(pcs) - Ahead(pcs[t]) + Ahead(p)
  {
    var n := |pcs| - 1;
    if t == n {
      assert pcs[t := p][..n] == pcs[..n];
    } else {
      assert pcs[t := p][..n] == pcs[..n][t := p];
      WorkUpdate(pcs[..n], t, p);
    }
  }

  ghost predicate AtRest(s: Sys) {
    forall t | 0 <= t < |s.pcs| :: s.pcs[t] == Idle
  }

  lemma SomeoneGoesOn(s: Sys) returns (s': Sys)
    requires Inv(s) && !AtRest(s)
    ensures SomeStep(s, s') && Inv(s') && |s'.pcs| == |s.pcs| && Work(s'.pcs) < Work(s.pcs)
  {
    var t: nat :| t < |s.pcs| && s.pcs[t] != Idle;
    if Blocked(s, t) { t := Unblocked(s); }
    var c := if s.pcs[t] == Reading then RdUnlock else WrUnlock;
    s' := Stepped(s, t, c);
    StepKeepsInv(s, t, c);
    WorkFalls(s, t, c);
    assert SomeStep(s, s');
  }

  lemma WorkFalls(s: Sys, t: nat, c: Call)
    requires t < |s.pcs| && !Blocked(s, t) && s.pcs[t] != Idle
    requires c == if s.pcs[t] == Reading then RdUnlock else WrUnlock
    ensures |Stepped(s, t, c).pcs| == |s.pcs| && Work(Stepped(s, t, c).pcs) < Work(s.pcs)
  {
    StepGoesOn(s, t, c);
    WorkUpdate(s.pcs, t, Stepped(s, t, c).pcs[t]);
  }

  // Everyone can finish: from any state that a run reaches, the threads that are in the mutex or want to
  // be can all get in and out again.
  lemma {:induction false} EveryoneCanFinish(s: Sys) returns (run: seq<Sys>, last: Sys)
    requires Inv(s)
    ensures run != [] && run[0] == s && run[|run| - 1] == last && Steps(run)
    ensures AtRest(last) && |last.pcs| == |s.pcs|
    decreases Work(s.pcs)
  {
    if AtRest(s) {
      run, last := [s], s;
    } else {
      var s' := SomeoneGoesOn(s);
      var rest;
      rest, last := EveryoneCanFinish(s');
      StepsFrom(s, rest);
      run := [s] + rest;
    }
  }

  lemma StepsFrom(s: Sys, rest: seq<Sys>)
    requires rest != [] && SomeStep(s, rest[0]) && Steps(rest)
    ensures Steps([s] + rest)
  {
    var run := [s] + rest;
    forall i | 0 <= i < |run| - 1 ensures StepAt(run, i) {
      if i > 0 { assert StepAt(rest, i - 1); }
    }
  }

  // First come, first served at rb: while a thread waits for wq, every other that comes later is
  // blocked, and none is on its way in ahead of it.
  lemma NoneOvertakes(run: seq<Sys>, i: nat, t: nat, u: nat)
    requires IsRun(run) && i < |run| && t < |run[i].pcs| && u < |run[i].pcs| && t != u
    requires WaitsOnWq(run[i].pcs[t])
    ensures ReadsSoon(run[i].pcs[u]) || WritesSoon(run[i].pcs[u]) ==>
              run[i].pcs[u] in {RdWantRb, WrWantRb} && Blocked(run[i], u)
  {
    RunsKeepInv(run, i);
    CountedTwice(run[i].pcs, if t < u then t else u, if t < u then u else t);
  }
}
