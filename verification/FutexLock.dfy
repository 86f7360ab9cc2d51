// The futex lock as interleaved atomic steps of any number of threads. The kernel is a set of
// sleepers: a wait sleeps only if the word is 2, a wake wakes at most one, and a sleeper may also
// return by itself (signal or timeout).

module FutexLock {
  import opened Arith

  // futex_lock, futex_lock_nospin and futex_trylock_nospin_timeout.
  datatype Kind = Spin | NoSpin | Timed

  function Tries(k: Kind): nat { if k == Spin then 5 else 1 }

  datatype PC =
    | Idle
    | Testing(k: Kind, tries: nat)  // about to read the word
    | Cas(k: Kind, tries: nat)      // read 0, about to compare-and-swap
    | Swap1(k: Kind)                // about to exchange in 2
    | WaitCall(k: Kind)             // about to enter the wait syscall
    | Asleep(k: Kind)
    | Swap2(k: Kind)                // back from the syscall, about to exchange in 2
    | Held
    | Storing                       // unlocking: the decrement saw a 2
    | Waking                        // unlocking: the word is reset, a wake is owed

  datatype Sys = Sys(word: nat, pcs: seq<PC>)

  // The threads that own the lock: up to the release, which is the decrement from 1 or the
  // store of 0.
  predicate Owns(p: PC) { p == Held || p == Storing }

  predicate Sleeps(p: PC) { p.Asleep? }

  ghost predicate SomeSleeper(s: Sys) {
    exists t :: 0 <= t < |s.pcs| && Sleeps(s.pcs[t])
  }

  // One step of thread t.
  ghost predicate Step(s: Sys, t: nat, s': Sys) {
    && t < |s.pcs|
    && match s.pcs[t]
       case Idle => exists k :: s' == s.(pcs := s.pcs[t := Testing(k, Tries(k))])
       case Testing(k, n) =>
         s' == s.(pcs := s.pcs[t := if n == 0 then Swap1(k) else if s.word == 0 then Cas(k, n) else Testing(k, n - 1)])
       case Cas(k, n) =>
         if s.word == 0 then s' == Sys(1, s.pcs[t := Held])
         else s' == s.(pcs := s.pcs[t := Testing(k, if n > 0 then n - 1 else 0)])
       case Swap1(k) => s' == Sys(2, s.pcs[t := if s.word == 0 then Held else WaitCall(k)])
       case WaitCall(k) => s' == s.(pcs := s.pcs[t := if s.word == 2 then Asleep(k) else Swap2(k)])
       case Asleep(k) => s' == s.(pcs := s.pcs[t := Swap2(k)])
       case Swap2(k) =>
         s' == Sys(2, s.pcs[t := if s.word == 0 then Held else if k == Timed then Idle else Testing(k, Tries(k))])
       case Held => s' == Sys((s.word + TWO32 - 1) % TWO32, s.pcs[t := if s.word == 1 then Idle else Storing])
       case Storing => s' == Sys(0, s.pcs[t := Waking])
       case Waking =>
         if SomeSleeper(s) then
           exists v: nat :: v < |s.pcs| && Sleeps(s.pcs[v]) && s' == s.(pcs := s.pcs[t := Idle][v := Swap2(s.pcs[v].k)])
         else s' == s.(pcs := s.pcs[t := Idle])
  }

  ghost predicate Initial(s: Sys) {
    s.word == 0 && forall t | 0 <= t < |s.pcs| :: s.pcs[t] == Idle
  }

  ghost predicate IsRun(run: seq<Sys>) {
    && |run| > 0 && Initial(run[0])
    && forall i | 0 <= i < |run| - 1 :: SomeStep(run[i], run[i + 1])
  }

  ghost predicate SomeStep(s: Sys, s': Sys) {
    exists t :: Step(s, t, s')
  }

  // Mutual exclusion, and the word is nonzero exactly while the lock is owned.
  ghost predicate Exclusive(s: Sys) {
    && s.word <= 2
    && (if s.word == 0 then NoOwner(s.pcs) else exists o :: OnlyOwner(s.pcs, o))
  }

  ghost predicate NoOwner(pcs: seq<PC>) {
    forall t | 0 <= t < |pcs| :: !Owns(pcs[t])
  }

  ghost predicate OnlyOwner(pcs: seq<PC>, o: int) {
    0 <= o < |pcs| && forall t | 0 <= t < |pcs| :: Owns(pcs[t]) <==> t == o
  }

  // Someone will look after the sleepers: the word says so, an unlocker owes a wake, or a thread
  // that was woken has yet to put the 2 back.
  ghost predicate Attended(s: Sys) {
    SomeSleeper(s) ==>
      s.word == 2 || exists t :: 0 <= t < |s.pcs| && (s.pcs[t] == Storing || s.pcs[t] == Waking || s.pcs[t].Swap2?)
  }

  ghost predicate Inv(s: Sys) {
    Exclusive(s) && Attended(s)
  }

  lemma StepKeepsExclusive(s: Sys, t: nat, s': Sys)
    requires Exclusive(s) && Step(s, t, s')
    ensures Exclusive(s')
  {
    if s.word == 0 {
      if Owns(s'.pcs[t]) { assert OnlyOwner(s'.pcs, t); }
    } else {
      var o :| OnlyOwner(s.pcs, o);
      if t == o {
        if s.pcs[t] == Held && s.word == 2 { assert OnlyOwner(s'.pcs, o); }
      } else {
        assert OnlyOwner(s'.pcs, o);
      }
    }
  }

  lemma StepKeepsAttended(s: Sys, t: nat, s': Sys)
    requires Inv(s) && Step(s, t, s')
    ensures Attended(s')
  {
    if s.word == 2 && s'.word != 2 {
      assert s.pcs[t] == Held ==> s'.pcs[t] == Storing;
      assert s.pcs[t] == Storing ==> s'.pcs[t] == Waking;
      assert s.pcs[t] == Held || s.pcs[t] == Storing;
    } else if s'.word != 2 && s.word != 2 {
      if v :| 0 <= v < |s'.pcs| && Sleeps(s'.pcs[v]) {
        assert Sleeps(s.pcs[v]);
        var w :| 0 <= w < |s.pcs| && (s.pcs[w] == Storing || s.pcs[w] == Waking || s.pcs[w].Swap2?);
        if w == t {
          if s.pcs[t] == Waking {
            var u: nat :| u < |s.pcs| && Sleeps(s.pcs[u]) && s' == s.(pcs := s.pcs[t := Idle][u := Swap2(s.pcs[u].k)]);
            assert s'.pcs[u].Swap2?;
          } else {
            assert s'.pcs[t] == Waking;
          }
        } else {
          assert s'.pcs[w] == s.pcs[w];
        }
      }
    }
  }

  lemma {:induction false} RunsAreSafe(run: seq<Sys>, i: nat)
    requires IsRun(run) && i < |run|
    ensures Inv(run[i])
  {
    if i > 0 {
      RunsAreSafe(run, i - 1);
      assert SomeStep(run[i - 1], run[i - 1 + 1]);
      var t :| Step(run[i - 1], t, run[i]);
      StepKeepsExclusive(run[i - 1], t, run[i]);
      StepKeepsAttended(run[i - 1], t, run[i]);
    }
  }

  lemma AtMostOneOwner(run: seq<Sys>, i: nat, t: nat, u: nat)
    requires IsRun(run) && i < |run| && t < u < |run[i].pcs|
    ensures !(Owns(run[i].pcs[t]) && Owns(run[i].pcs[u]))
    ensures Owns(run[i].pcs[t]) ==> run[i].word == 1 || run[i].word == 2
  {
    RunsAreSafe(run, i);
  }

  // No lost wakeup, read as progress: while anyone sleeps some other thread is at work on the
  // lock, so all threads can never sleep and none sleeps once the others are done.
  lemma SleepersAreNotAlone(run: seq<Sys>, i: nat)
    requires IsRun(run) && i < |run|
    ensures SomeSleeper(run[i]) ==>
              exists t :: 0 <= t < |run[i].pcs| && !Sleeps(run[i].pcs[t]) && run[i].pcs[t] != Idle
  {
    RunsAreSafe(run, i);
    var s := run[i];
    if SomeSleeper(s) && s.word == 2 {
      var o :| OnlyOwner(s.pcs, o);
      assert Owns(s.pcs[o]);
    }
  }

  // What a step does to the lock: it is taken by a compare-and-swap or an exchange that finds the word
  // 0, and by nothing else; the owner leaves by its decrement of a 1 or by storing 0, and in the
  // second case goes on to wake one sleeper. Who sleeps has found a 2, which an exchange has left for
  // the owner to see. Nobody else is moved.
  lemma StepMeans(s: Sys, t: nat, s': Sys)
    requires Exclusive(s) && Step(s, t, s')
    ensures |s'.pcs| == |s.pcs|
    ensures s'.pcs[t] == Held <==> s.word == 0 && (s.pcs[t].Cas? || s.pcs[t].Swap1? || s.pcs[t].Swap2?)
    ensures s.pcs[t].Swap1? || s.pcs[t].Swap2? ==> s'.word == 2
    ensures s.pcs[t].WaitCall? ==> (s'.pcs[t].Asleep? <==> s.word == 2)
    ensures s.pcs[t] == Held && s.word == 1 ==> s' == Sys(0, s.pcs[t := Idle])
    ensures s.pcs[t] == Held && s.word == 2 ==> s'.pcs[t] == Storing
    ensures s.pcs[t] == Storing ==> s' == Sys(0, s.pcs[t := Waking])
    ensures s.pcs[t] == Waking ==>
              s'.pcs[t] == Idle && s'.word == s.word
              && (SomeSleeper(s) ==> exists v :: 0 <= v < |s.pcs| && Sleeps(s.pcs[v]) && s'.pcs[v].Swap2?)
    ensures forall u, v | 0 <= u < v < |s.pcs| && u != t && v != t :: s'.pcs[u] == s.pcs[u] || s'.pcs[v] == s.pcs[v]
    ensures forall u | 0 <= u < |s.pcs| && u != t && s'.pcs[u] != s.pcs[u] :: s.pcs[t] == Waking && Sleeps(s.pcs[u])
  {
    if s.word != 0 {
      var o :| OnlyOwner(s.pcs, o);
    }
  }

  ghost predicate Alone(run: seq<Sys>, s: Sys, t: nat) {
    && |run| > 0 && run[0] == s
    && forall i | 0 <= i < |run| - 1 :: Step(run[i], t, run[i + 1])
  }

  // A free lock is there for whoever is after it: any thread on its way to it has it after three steps
  // of its own at most, a sleeper included once it returns.
  lemma FreeLockIsTaken(s: Sys, t: nat) returns (run: seq<Sys>)
    requires s.word == 0 && t < |s.pcs| && s.pcs[t] != Idle && !Owns(s.pcs[t]) && s.pcs[t] != Waking
    ensures Alone(run, s, t) && |run| <= 3 && run[|run| - 1] == Sys(run[|run| - 1].word, s.pcs[t := Held])
  {
    var mid :=
      match s.pcs[t]
      case Testing(k, n) => s.(pcs := s.pcs[t := if n == 0 then Swap1(k) else Cas(k, n)])
      case WaitCall(k) => s.(pcs := s.pcs[t := Swap2(k)])
      case Asleep(k) => s.(pcs := s.pcs[t := Swap2(k)])
      case _ => s;
    var last := Sys(if mid.pcs[t].Cas? then 1 else 2, mid.pcs[t := Held]);
    assert Step(mid, t, last);
    assert mid.pcs[t := Held] == s.pcs[t := Held];
    run := if mid == s then [s, last] else [s, mid, last];
  }

  // And every lock that is held can be given back, in three steps at most, after which the word is 0
  // and, if the word said that there might be sleepers, one of them is on its way again.
  lemma HeldLockIsFreed(s: Sys, t: nat) returns (run: seq<Sys>)
    requires Exclusive(s) && t < |s.pcs| && s.pcs[t] == Held
    ensures Alone(run, s, t) && |run| <= 4
    ensures var last := run[|run| - 1];
      && last.word == 0 && |last.pcs| == |s.pcs| && last.pcs[t] == Idle
      && (s.word == 2 && SomeSleeper(s) ==> exists v :: 0 <= v < |s.pcs| && Sleeps(s.pcs[v]) && last.pcs[v].Swap2?)
  {
    if s.word == 0 { assert Owns(s.pcs[t]); }
    else if s.word == 1 {
      run := [s, Sys(0, s.pcs[t := Idle])];
    } else {
      var (a, b) := (Sys(1, s.pcs[t := Storing]), Sys(0, s.pcs[t := Waking]));
      assert a.pcs[t := Waking] == b.pcs;
      var c := b.(pcs := b.pcs[t := Idle]);
      if v :| 0 <= v < |s.pcs| && Sleeps(s.pcs[v]) {
        assert Sleeps(b.pcs[v]);
        c := b.(pcs := b.pcs[t := Idle][v := Swap2(b.pcs[v].k)]);
      } else {
        assert !SomeSleeper(b);
      }
      run := [s, a, b, c];
      assert Step(s, t, a) && Step(a, t, b) && Step(b, t, c);
    }
  }
}
