// The phase barrier with join/leave semantics and a limit on the threads that run at a time.
// Every method is one atomic step, as it runs under the scheduler lock.

module BarrierState {
  import opened Sets

  datatype State = OFFLINE | WAITING | RUNNING | LEFT

  datatype Info = Info(state: State, futexWord: nat, lastIdx: nat)

  // What happened, for the meaning of a phase. A thread that joins has its turn to come, or, if a
  // stale index leaves it behind the cursor, misses this phase. `members` are the threads taking
  // part when a phase ends.
  datatype Event = Woken(t: nat) | Joined(t: nat) | Missed(t: nat) | Ended(members: set<nat>)

  // Since the last phase end: the threads woken since they last joined, and those that last joined
  // too late.
  datatype Turns = Turns(ran: set<nat>, missed: set<nat>)

  // The threads in a state.
  ghost function Those(threads: seq<Info>, s: State): set<nat> {
    set t | 0 <= t < |threads| && threads[t].state == s
  }

  ghost function Participants(threads: seq<Info>): set<nat> {
    Those(threads, WAITING) + Those(threads, RUNNING)
  }

  lemma ThoseUpdate(threads: seq<Info>, t: nat, i: Info, s: State)
    requires t < |threads|
    ensures Those(threads[t := i], s) == if i.state == s then Those(threads, s) + {t} else Those(threads, s) - {t}
  {
  }

  // The run list holds each thread that is not OFFLINE once, and no other.
  ghost predicate Members(threads: seq<Info>, list: seq<nat>) {
    && (forall i | 0 <= i < |list| :: list[i] < |threads| && threads[list[i]].state != OFFLINE)
    && (forall i, j | 0 <= i < j < |list| :: list[i] != list[j])
    && (forall t | 0 <= t < |threads| && threads[t].state != OFFLINE :: t in list)
  }

  ghost predicate IsAt(threads: seq<Info>, list: seq<nat>, t: nat) {
    t < |threads| && threads[t].lastIdx < |list| && list[threads[t].lastIdx] == t
  }

  // lastIdx is exact for the placed threads: those whose place has been recorded since they were
  // appended, and those found to stand there when they left.
  ghost predicate Exact(threads: seq<Info>, list: seq<nat>, placed: set<nat>) {
    forall t | t in placed :: IsAt(threads, list, t)
  }

  ghost function AfterEvent(turns: Turns, e: Event): Turns {
    match e
    case Woken(t) => turns.(ran := turns.ran + {t})
    case Joined(t) => Turns(turns.ran - {t}, turns.missed - {t})
    case Missed(t) => Turns(turns.ran - {t}, turns.missed + {t})
    case Ended(_) => Turns({}, {})
  }

  ghost function TurnsOf(log: seq<Event>): Turns {
    if |log| == 0 then Turns({}, {}) else AfterEvent(TurnsOf(log[..|log| - 1]), log[|log| - 1])
  }

  // No thread is woken twice in a phase unless it left and rejoined, none is woken in a phase that it
  // misses, and a phase only ends when every participant has run in it or missed it.
  ghost predicate EventOk(turns: Turns, e: Event) {
    match e
    case Woken(t) => t !in turns.ran + turns.missed
    case Joined(_) => true
    case Missed(_) => true
    case Ended(members) => members <= turns.ran + turns.missed
  }

  ghost predicate LogOk(log: seq<Event>) {
    |log| == 0 || (LogOk(log[..|log| - 1]) && EventOk(TurnsOf(log[..|log| - 1]), log[|log| - 1]))
  }

  lemma LogExtend(log: seq<Event>, e: Event)
    requires LogOk(log) && EventOk(TurnsOf(log), e)
    ensures LogOk(log + [e]) && TurnsOf(log + [e]) == AfterEvent(TurnsOf(log), e)
  {
    assert (log + [e])[..|log|] == log;
  }

  // Before event i, thread t was woken at j, and neither has a phase ended since nor has t rejoined.
  ghost predicate RanAt(log: seq<Event>, j: nat, i: nat, t: nat) {
    j < i <= |log| && log[j] == Woken(t) &&
    forall k | j < k < i :: !log[k].Ended? && log[k] != Joined(t) && log[k] != Missed(t)
  }

  ghost predicate HasRun(log: seq<Event>, i: nat, t: nat) {
    exists j :: RanAt(log, j, i, t)
  }

  // Before event i, thread t joined too late at j, and neither has a phase ended since nor has t
  // joined in time.
  ghost predicate MissedAt(log: seq<Event>, j: nat, i: nat, t: nat) {
    j < i <= |log| && log[j] == Missed(t) && forall k | j < k < i :: !log[k].Ended? && log[k] != Joined(t)
  }

  ghost predicate HasMissed(log: seq<Event>, i: nat, t: nat) {
    exists j :: MissedAt(log, j, i, t)
  }

  lemma {:induction false} TurnsMean(log: seq<Event>, t: nat)
    ensures t in TurnsOf(log).ran <==> HasRun(log, |log|, t)
    ensures t in TurnsOf(log).missed <==> HasMissed(log, |log|, t)
  {
    if log != [] {
      var n := |log| - 1;
      TurnsMean(log[..n], t);
      RunStep(log, t);
      MissStep(log, t);
    }
  }

  lemma RunStep(log: seq<Event>, t: nat)
    requires log != []
    ensures var n := |log| - 1;
      HasRun(log, |log|, t) <==>
        log[n] == Woken(t) || (HasRun(log[..n], n, t) && !log[n].Ended? && log[n] != Joined(t) && log[n] != Missed(t))
  {
    var n := |log| - 1;
    if log[n] == Woken(t) {
      assert RanAt(log, n, |log|, t);
    } else if !log[n].Ended? && log[n] != Joined(t) && log[n] != Missed(t) {
      forall j: nat ensures RanAt(log, j, |log|, t) <==> RanAt(log[..n], j, n, t) {}
    }
  }

  lemma MissStep(log: seq<Event>, t: nat)
    requires log != []
    ensures var n := |log| - 1;
      HasMissed(log, |log|, t) <==>
        log[n] == Missed(t) || (HasMissed(log[..n], n, t) && !log[n].Ended? && log[n] != Joined(t))
  {
    var n := |log| - 1;
    if log[n] == Missed(t) {
      assert MissedAt(log, n, |log|, t);
    } else if !log[n].Ended? && log[n] != Joined(t) {
      forall j: nat ensures MissedAt(log, j, |log|, t) <==> MissedAt(log[..n], j, n, t) {}
    }
  }

  // The meaning of the history in terms of its events alone. A phase ends only when every thread
  // taking part has been woken in it since it last joined, or joined it too late; and a thread that
  // has been woken or was too late is only woken after it has joined in time or seen the phase end.
  ghost predicate PhasesMeet(log: seq<Event>) {
    EndsMeet(log) && forall i | 0 <= i < |log| :: WakeMeets(log, i)
  }

  ghost predicate EndsMeet(log: seq<Event>) {
    forall i, t | 0 <= i < |log| && log[i].Ended? && t in log[i].members :: HasRun(log, i, t) || HasMissed(log, i, t)
  }

  ghost predicate WakeMeets(log: seq<Event>, i: nat)
    requires i < |log|
  {
    log[i].Woken? ==>
      forall j | 0 <= j < i && (log[j] == log[i] || log[j] == Missed(log[i].t)) :: Cleared(log, j, i, log[i].t)
  }

  ghost predicate Cleared(log: seq<Event>, j: nat, i: nat, t: nat)
    requires i <= |log|
  {
    exists k :: j < k < i && (log[k].Ended? || log[k] == Joined(t))
  }

  lemma {:induction false} LogMeaning(log: seq<Event>)
    ensures LogOk(log) <==> PhasesMeet(log)
  {
    if log != [] {
      var n := |log| - 1;
      LogMeaning(log[..n]);
      PrefixMeets(log);
      LastIsOk(log);
    }
  }

  // The last event is in order.
  ghost predicate LastInOrder(log: seq<Event>)
    requires log != []
  {
    var n := |log| - 1;
    match log[n]
    case Woken(t) => !HasRun(log, n, t) && !HasMissed(log, n, t)
    case Joined(_) => true
    case Missed(_) => true
    case Ended(members) => forall t | t in members :: HasRun(log, n, t) || HasMissed(log, n, t)
  }

  lemma PrefixTurns(log: seq<Event>, n: nat, t: nat)
    requires n <= |log|
    ensures forall i: nat | i <= n :: (HasRun(log, i, t) <==> HasRun(log[..n], i, t))
    ensures forall i: nat | i <= n :: (HasMissed(log, i, t) <==> HasMissed(log[..n], i, t))
  {
    forall i: nat, j: nat | i <= n
      ensures RanAt(log, j, i, t) <==> RanAt(log[..n], j, i, t)
      ensures MissedAt(log, j, i, t) <==> MissedAt(log[..n], j, i, t)
    {
    }
  }

  lemma LastIsOk(log: seq<Event>)
    requires log != []
    ensures EventOk(TurnsOf(log[..|log| - 1]), log[|log| - 1]) <==> LastInOrder(log)
  {
    var n := |log| - 1;
    forall t
      ensures t in TurnsOf(log[..n]).ran <==> HasRun(log, n, t)
      ensures t in TurnsOf(log[..n]).missed <==> HasMissed(log, n, t)
    {
      TurnsMean(log[..n], t);
      PrefixTurns(log, n, t);
    }
  }

  lemma WakeInOrder(log: seq<Event>, i: nat)
    requires i < |log| && log[i].Woken?
    ensures WakeMeets(log, i) <==> !HasRun(log, i, log[i].t) && !HasMissed(log, i, log[i].t)
  {
    var t := log[i].t;
    if !HasRun(log, i, t) && !HasMissed(log, i, t) {
      forall j | 0 <= j < i && (log[j] == log[i] || log[j] == Missed(t)) ensures Cleared(log, j, i, t) {
        if log[j] == Missed(t) {
          assert !MissedAt(log, j, i, t);
        } else {
          assert !RanAt(log, j, i, t);
          var k :| j < k < i && (log[k].Ended? || log[k] == Joined(t) || log[k] == Missed(t));
          if log[k] == Missed(t) { assert !MissedAt(log, k, i, t); }
        }
      }
    }
  }

  lemma PrefixMeets(log: seq<Event>)
    requires log != []
    ensures PhasesMeet(log) <==> PhasesMeet(log[..|log| - 1]) && LastInOrder(log)
  {
    var n := |log| - 1;
    forall i: nat | i < n ensures WakeMeets(log, i) <==> WakeMeets(log[..n], i) { SameWake(log, n, i); }
    if log[n].Woken? { WakeInOrder(log, n); }
    PrefixEnds(log);
  }

  lemma SameWake(log: seq<Event>, n: nat, i: nat)
    requires i < n <= |log|
    ensures WakeMeets(log, i) <==> WakeMeets(log[..n], i)
  {
    forall j: nat, t | j < i ensures Cleared(log, j, i, t) <==> Cleared(log[..n], j, i, t) {
      assert forall k | j < k < i :: log[..n][k] == log[k];
    }
  }

  lemma PrefixEnds(log: seq<Event>)
    requires log != []
    ensures var n := |log| - 1;
      EndsMeet(log) <==>
      (EndsMeet(log[..n])
       && (log[n].Ended? ==> forall t | t in log[n].members :: HasRun(log, n, t) || HasMissed(log, n, t)))
  {
    var n := |log| - 1;
    forall i: nat, t | i <= n
      ensures HasRun(log, i, t) <==> HasRun(log[..n], i, t)
      ensures HasMissed(log, i, t) <==> HasMissed(log[..n], i, t)
    {
      PrefixTurns(log, n, t);
    }
    assert forall i | 0 <= i < n :: log[..n][i] == log[i];
  }

  // The state of the current phase: entries from `cur` on have yet to be looked at.
  ghost predicate Phase(threads: seq<Info>, list: seq<nat>, cur: nat, placed: set<nat>, turns: Turns) {
    && cur <= |list|
    && (forall i | 0 <= i < |list| :: list[i] < |threads|)
    && (forall i | cur <= i < |list| ::
         Ahead(threads[list[i]].state) && (threads[list[i]].state == WAITING ==> list[i] !in turns.ran + turns.missed))
    && (forall i | 0 <= i < cur ::
         threads[list[i]].state == LEFT || list[i] in turns.missed || (list[i] in turns.ran && list[i] in placed))
    && (forall t | t in turns.ran :: t < |threads| && threads[t].state != OFFLINE)
    && forall t | t in turns.missed :: t < |threads| && Ahead(threads[t].state)
  }

  // A thread that waits finds a 1 to sleep on, and one that runs no longer does, whenever it looks.
  ghost predicate WordsOk(threads: seq<Info>) {
    forall t | 0 <= t < |threads| ::
      && (threads[t].state == WAITING ==> threads[t].futexWord == 1)
      && (threads[t].state == RUNNING ==> threads[t].futexWord == 0)
  }

  predicate Ahead(s: State) { s == WAITING || s == LEFT }

  ghost predicate SomeWaiting(threads: seq<Info>) {
    exists t :: 0 <= t < |threads| && threads[t].state == WAITING
  }

  // Steps on the run list

  ghost predicate SameButIdx(threads: seq<Info>, threads': seq<Info>) {
    |threads'| == |threads| && forall t | 0 <= t < |threads| ::
      threads'[t].state == threads[t].state && threads'[t].futexWord == threads[t].futexWord
  }

  lemma SameButIdxCounts(threads: seq<Info>, threads': seq<Info>)
    requires SameButIdx(threads, threads')
    ensures forall s :: Those(threads', s) == Those(threads, s)
    ensures Participants(threads') == Participants(threads)
  {
    forall s ensures Those(threads', s) == Those(threads, s) {}
  }

  function Swapped(list: seq<nat>, i: nat, j: nat): (r: seq<nat>)
    requires i < |list| && j < |list|
    ensures |r| == |list|
    ensures forall k | 0 <= k < |list| :: r[k] == list[if k == i then j else if k == j then i else k]
  {
    list[i := list[j]][j := list[i]]
  }

  // Swapping two entries and recording both places.
  lemma SwapKeeps(threads: seq<Info>, list: seq<nat>, placed: set<nat>, i: nat, j: nat, threads': seq<Info>)
    requires Members(threads, list) && Exact(threads, list, placed) && i < |list| && j < |list|
    requires SameButIdx(threads, threads')
    requires forall t | 0 <= t < |threads| && t != list[i] && t != list[j] :: threads'[t] == threads[t]
    requires threads'[list[i]].lastIdx == j && threads'[list[j]].lastIdx == i
    ensures Members(threads', Swapped(list, i, j))
    ensures Exact(threads', Swapped(list, i, j), placed + {list[i], list[j]})
  {
    SwapMembers(threads, list, i, j, threads');
  }

  lemma SwapMembers(threads: seq<Info>, list: seq<nat>, i: nat, j: nat, threads': seq<Info>)
    requires Members(threads, list) && i < |list| && j < |list| && SameButIdx(threads, threads')
    ensures Members(threads', Swapped(list, i, j))
  {
    var list' := Swapped(list, i, j);
    forall t | 0 <= t < |threads'| && threads'[t].state != OFFLINE ensures t in list' {
      var k :| 0 <= k < |list| && list[k] == t;
      assert list'[if k == i then j else if k == j then i else k] == t;
    }
  }

  // Dropping the entry at idx by moving the last one over it.
  function Shrunk(list: seq<nat>, idx: nat): (r: seq<nat>)
    requires idx < |list|
    ensures |r| == |list| - 1
    ensures forall k | 0 <= k < |r| :: r[k] == if k == idx then list[|list| - 1] else list[k]
  {
    list[idx := list[|list| - 1]][..|list| - 1]
  }

  lemma DropKeeps(threads: seq<Info>, list: seq<nat>, placed: set<nat>, idx: nat, threads': seq<Info>)
    requires Members(threads, list) && Exact(threads, list, placed) && idx < |list|
    requires |threads'| == |threads| && threads'[list[idx]].state == OFFLINE
    requires forall t | 0 <= t < |threads| && t != list[idx] ::
      threads'[t] == if t == list[|list| - 1] then threads[t].(lastIdx := idx) else threads[t]
    ensures Members(threads', Shrunk(list, idx))
    ensures Exact(threads', Shrunk(list, idx), placed + {list[|list| - 1]} - {list[idx]})
  {
    var n := |list| - 1;
    var list' := Shrunk(list, idx);
    DropMembers(threads, list, idx, threads');
    forall t | t in placed + {list[n]} - {list[idx]} ensures IsAt(threads', list', t) {
      if t != list[n] { assert IsAt(threads, list, t); }
    }
  }

  lemma DropMembers(threads: seq<Info>, list: seq<nat>, idx: nat, threads': seq<Info>)
    requires Members(threads, list) && idx < |list|
    requires |threads'| == |threads| && threads'[list[idx]].state == OFFLINE
    requires forall t | 0 <= t < |threads| && t != list[idx] :: threads'[t].state == threads[t].state
    ensures Members(threads', Shrunk(list, idx))
  {
    var n := |list| - 1;
    var list' := Shrunk(list, idx);
    forall t | 0 <= t < |threads'| && threads'[t].state != OFFLINE ensures t in list' {
      assert t in list;
      var k :| 0 <= k < |list| && list[k] == t;
      assert list'[if k == n then idx else k] == t;
    }
  }

  lemma AppendKeeps(threads: seq<Info>, list: seq<nat>, placed: set<nat>, t: nat, i: Info)
    requires Members(threads, list) && Exact(threads, list, placed) && t < |threads|
    requires threads[t].state == OFFLINE && i.state != OFFLINE
    ensures Members(threads[t := i], list + [t]) && Exact(threads[t := i], list + [t], placed - {t})
    ensures |list| < |threads|
  {
    assert t !in list;
    Pigeonhole(list, Below(|threads|) - {t});
    forall u | 0 <= u < |threads| && threads[t := i][u].state != OFFLINE ensures u in list + [t] {
      if u != t { assert u in list; }
    }
  }

  lemma {:induction false} Pigeonhole(list: seq<nat>, S: set<nat>)
    requires forall i, j | 0 <= i < j < |list| :: list[i] != list[j]
    requires forall x | x in list :: x in S
    ensures |list| <= |S|
    decreases |list|
  {
    if |list| > 0 {
      var n := |list| - 1;
      forall x | x in list[..n] ensures x in S - {list[n]} {
        var k :| 0 <= k < n && list[..n][k] == x;
        assert list[k] == x;
      }
      Pigeonhole(list[..n], S - {list[n]});
    }
  }

  ghost function Below(n: nat): (S: set<nat>)
    ensures |S| == n && forall x: nat :: x in S <==> x < n
  {
    if n == 0 then {} else Below(n - 1) + {n - 1}
  }

  // The whole abstract state

  datatype Snap = Snap(limit: nat, threads: seq<Info>, list: seq<nat>, cur: nat, running: nat, left: nat,
                       phases: nat, placed: set<nat>, log: seq<Event>)

  // The bookkeeping invariant; the history of phases is part of it.
  ghost predicate Ok(s: Snap) {
    && s.limit > 0 && s.running <= s.limit
    && Members(s.threads, s.list) && Exact(s.threads, s.list, s.placed)
    && Phase(s.threads, s.list, s.cur, s.placed, TurnsOf(s.log))
    && s.running == |Those(s.threads, RUNNING)| && s.left == |Those(s.threads, LEFT)|
    && LogOk(s.log) && WordsOk(s.threads)
  }

  // The progress invariant, between any two operations.
  ghost predicate Settled(s: Snap) {
    (s.running == s.limit || s.cur == |s.list|) && (SomeWaiting(s.threads) ==> s.running > 0)
  }

  // Every thread outside has an exact index; it can rejoin: see AllCanJoin.
  ghost predicate AllCanRejoin(s: Snap) {
    Those(s.threads, LEFT) <= s.placed
  }

  // One iteration of checkRunList.
  ghost function Looked(s: Snap): Snap
    requires s.cur < |s.list| && s.list[s.cur] < |s.threads|
  {
    var t := s.list[s.cur];
    if s.threads[t].state == WAITING then
      s.(threads := s.threads[t := Info(RUNNING, 0, s.cur)], cur := s.cur + 1, running := s.running + 1,
         placed := s.placed + {t}, log := s.log + [Woken(t)])
    else s.(cur := s.cur + 1)
  }

  lemma LookedOk(s: Snap)
    requires Ok(s) && s.cur < |s.list| && s.running < s.limit
    ensures Ok(Looked(s))
  {
    LookedList(s);
    LookedCounts(s);
  }

  lemma LookedCounts(s: Snap)
    requires s.cur < |s.list| && s.list[s.cur] < |s.threads|
    requires s.running == |Those(s.threads, RUNNING)| && s.left == |Those(s.threads, LEFT)|
    ensures var r := Looked(s);
      r.running == |Those(r.threads, RUNNING)| && r.left == |Those(r.threads, LEFT)|
  {
    var t := s.list[s.cur];
    if s.threads[t].state == WAITING {
      ThoseUpdate(s.threads, t, Info(RUNNING, 0, s.cur), RUNNING);
      ThoseUpdate(s.threads, t, Info(RUNNING, 0, s.cur), LEFT);
    }
  }

  lemma LookedList(s: Snap)
    requires Ok(s) && s.cur < |s.list|
    ensures var r := Looked(s);
      && Members(r.threads, r.list) && Exact(r.threads, r.list, r.placed)
      && Phase(r.threads, r.list, r.cur, r.placed, TurnsOf(r.log)) && LogOk(r.log)
  {
    var t := s.list[s.cur];
    if s.threads[t].state == WAITING {
      LogExtend(s.log, Woken(t));
      WakeKeeps(s.threads, s.list, s.cur, s.placed, TurnsOf(s.log));
    }
  }

  lemma WakeKeeps(threads: seq<Info>, list: seq<nat>, cur: nat, placed: set<nat>, turns: Turns)
    requires Members(threads, list) && Exact(threads, list, placed) && Phase(threads, list, cur, placed, turns)
    requires cur < |list| && threads[list[cur]].state == WAITING
    ensures var t := list[cur];
      var threads' := threads[t := Info(RUNNING, 0, cur)];
      && Members(threads', list) && Exact(threads', list, placed + {t})
      && Phase(threads', list, cur + 1, placed + {t}, AfterEvent(turns, Woken(t)))
      && EventOk(turns, Woken(t))
  {
    WakeMembers(threads, list, cur, placed);
    WakePhase(threads, list, cur, placed, turns);
  }

  lemma WakeMembers(threads: seq<Info>, list: seq<nat>, cur: nat, placed: set<nat>)
    requires Members(threads, list) && Exact(threads, list, placed)
    requires cur < |list| && threads[list[cur]].state == WAITING
    ensures var t := list[cur];
      var threads' := threads[t := Info(RUNNING, 0, cur)];
      Members(threads', list) && Exact(threads', list, placed + {t})
  {
  }

  lemma WakePhase(threads: seq<Info>, list: seq<nat>, cur: nat, placed: set<nat>, turns: Turns)
    requires Members(threads, list) && Phase(threads, list, cur, placed, turns)
    requires cur < |list| && threads[list[cur]].state == WAITING
    ensures var t := list[cur];
      var threads' := threads[t := Info(RUNNING, 0, cur)];
      Phase(threads', list, cur + 1, placed + {t}, AfterEvent(turns, Woken(t)))
  {
  }

  // checkRunList.
  ghost function Scan(s: Snap): Snap
    requires Ok(s)
    decreases |s.list| - s.cur
  {
    if s.running < s.limit && s.cur < |s.list| then LookedOk(s); Scan(Looked(s)) else s
  }

  // What a scan does: it only wakes threads, it stops at the limit or at the end of the list,
  // and it leaves nobody waiting behind.
  ghost predicate WokeFrom(s: Snap, s': Snap) {
    && s' == s.(threads := s'.threads, cur := s'.cur, running := s'.running, placed := s'.placed, log := s'.log)
    && s.cur <= s'.cur <= |s.list| && s.running <= s'.running && s.placed <= s'.placed
    && Participants(s'.threads) == Participants(s.threads) && Those(s'.threads, LEFT) == Those(s.threads, LEFT)
    && |s'.threads| == |s.threads|
    && (forall t | 0 <= t < |s.threads| && s.threads[t].state != WAITING :: s'.threads[t] == s.threads[t])
    && (forall i | s.cur <= i < s'.cur :: s.list[i] < |s.threads| && s'.threads[s.list[i]].state != WAITING)
    && |s.log| <= |s'.log| && s'.log[..|s.log|] == s.log
    && (forall k | |s.log| <= k < |s'.log| :: s'.log[k].Woken?)
  }

  lemma {:induction false} ScanOk(s: Snap)
    requires Ok(s)
    ensures Ok(Scan(s)) && WokeFrom(s, Scan(s))
    ensures Scan(s).running == s.limit || Scan(s).cur == |s.list|
    decreases |s.list| - s.cur
  {
    if s.running < s.limit && s.cur < |s.list| {
      LookedOk(s);
      LookedWoke(s);
      ScanOk(Looked(s));
      WokeTransitive(s, Looked(s), Scan(Looked(s)));
    }
  }

  lemma LookedWoke(s: Snap)
    requires s.cur < |s.list| && s.list[s.cur] < |s.threads|
    ensures WokeFrom(s, Looked(s))
  {
    var t := s.list[s.cur];
    if s.threads[t].state == WAITING { WokenSets(s.threads, t, Info(RUNNING, 0, s.cur)); }
  }

  lemma WokenSets(threads: seq<Info>, t: nat, i: Info)
    requires t < |threads| && threads[t].state == WAITING && i.state == RUNNING
    ensures Participants(threads[t := i]) == Participants(threads)
    ensures Those(threads[t := i], LEFT) == Those(threads, LEFT)
  {
    ThoseUpdate(threads, t, i, RUNNING);
    ThoseUpdate(threads, t, i, WAITING);
    ThoseUpdate(threads, t, i, LEFT);
  }

  lemma WokeTransitive(a: Snap, b: Snap, c: Snap)
    requires WokeFrom(a, b) && WokeFrom(b, c)
    requires IsLook(a, b)
    ensures WokeFrom(a, c)
  {
    assert c.log[..|a.log|] == c.log[..|b.log|][..|a.log|];
    forall k | |a.log| <= k < |c.log| ensures c.log[k].Woken? {
      if k < |b.log| { assert c.log[k] == c.log[..|b.log|][k]; }
    }
  }

  // b is a after one look.
  ghost predicate IsLook(a: Snap, b: Snap) {
    a.cur < |a.list| && a.list[a.cur] < |a.threads| && b == Looked(a)
  }

  // join, up to the attempt to wake threads.
  ghost function Joining(s: Snap, t: nat): Snap
    requires MayJoin(s, t) && (forall k | 0 <= k < |s.list| :: s.list[k] < |s.threads|)
    requires s.threads[t].state == LEFT ==> s.left > 0
  {
    if s.threads[t].state == OFFLINE then Appended(s, t)
    else if s.cur > s.threads[t].lastIdx then Rescheduled(s, t)
    else
      s.(left := s.left - 1, threads := s.threads[t := Joiner(s, t)], log := s.log + [JoinEvent(s, t)])
  }

  // What the code asserts of a thread that joins; the second assert is reached only when the index of
  // a thread that left is before the cursor.
  ghost predicate MayJoin(s: Snap, t: nat) {
    && t < |s.threads| && s.cur <= |s.list|
    && (s.threads[t].state == OFFLINE || (s.threads[t].state == LEFT && RejoinAssert(s, t)))
  }

  ghost predicate RejoinAssert(s: Snap, t: nat)
    requires t < |s.threads| && s.cur <= |s.list|
  {
    s.cur > s.threads[t].lastIdx ==> s.list[s.threads[t].lastIdx] == t
  }

  // A stale index can leave the thread behind the cursor without meeting the assert.
  ghost function JoinEvent(s: Snap, t: nat): Event
    requires t < |s.threads|
  {
    if s.threads[t].state == LEFT && s.cur <= s.threads[t].lastIdx && !IsAhead(s, t) then Missed(t) else Joined(t)
  }

  ghost predicate IsAhead(s: Snap, t: nat) {
    exists p :: s.cur <= p < |s.list| && s.list[p] == t
  }

  // A thread that joins in time: every OFFLINE one, and a LEFT one exactly when RejoinSafe says so, see
  // RejoinExact.
  ghost predicate CanJoin(s: Snap, t: nat) {
    && t < |s.threads| && (s.threads[t].state == OFFLINE || s.threads[t].state == LEFT)
    && (s.threads[t].state == LEFT ==> exists p :: 0 <= p < |s.list| && s.list[p] == t && RejoinSafe(s, t, p))
  }

  // A thread at place p whose index is before the cursor must be where it says; any other must be
  // at the cursor or after it.
  ghost predicate RejoinSafe(s: Snap, t: nat, p: nat)
    requires t < |s.threads|
  {
    if s.cur > s.threads[t].lastIdx then p == s.threads[t].lastIdx else s.cur <= p
  }

  ghost function Joiner(s: Snap, t: nat): Info
    requires t < |s.threads|
  {
    Info(WAITING, 1, s.threads[t].lastIdx)
  }

  ghost function Appended(s: Snap, t: nat): Snap
    requires t < |s.threads|
  {
    s.(list := s.list + [t], threads := s.threads[t := Joiner(s, t)], placed := s.placed - {t},
       log := s.log + [Joined(t)])
  }

  // The thread already had its turn in this phase: it swaps places with the last one that had,
  // to be looked at next.
  ghost function Rescheduled(s: Snap, t: nat): Snap
    requires t < |s.threads| && IsAt(s.threads, s.list, t) && s.threads[t].lastIdx < s.cur <= |s.list|
    requires s.list[s.cur - 1] < |s.threads| && s.left > 0
  {
    var (li, c) := (s.threads[t].lastIdx, s.cur - 1);
    var other := s.list[c];
    s.(list := Swapped(s.list, li, c), cur := c, left := s.left - 1, placed := s.placed + {t, other},
       threads := s.threads[other := s.threads[other].(lastIdx := li)][t := Info(WAITING, 1, c)],
       log := s.log + [Joined(t)])
  }

  lemma LeftIsCounted(s: Snap, t: nat)
    requires s.running == |Those(s.threads, RUNNING)| && s.left == |Those(s.threads, LEFT)| && t < |s.threads|
    ensures s.threads[t].state == LEFT ==> s.left > 0
    ensures s.threads[t].state == RUNNING ==> s.running > 0
  {
    assert s.threads[t].state == LEFT ==> t in Those(s.threads, LEFT);
    assert s.threads[t].state == RUNNING ==> t in Those(s.threads, RUNNING);
  }

  lemma JoiningOk(s: Snap, t: nat)
    requires Ok(s) && MayJoin(s, t)
    ensures s.threads[t].state == LEFT ==> s.left > 0
    ensures Ok(Joining(s, t)) && OnlyTo(s, Joining(s, t), t, WAITING)
  {
    LeftIsCounted(s, t);
    LogExtend(s.log, JoinEvent(s, t));
    JoiningCounts(s, t);
    JoiningList(s, t);
    JoiningTo(s, t);
  }

  lemma JoiningTo(s: Snap, t: nat)
    requires MayJoin(s, t) && (forall k | 0 <= k < |s.list| :: s.list[k] < |s.threads|)
    requires s.threads[t].state == LEFT ==> s.left > 0
    ensures OnlyTo(s, Joining(s, t), t, WAITING)
    ensures WordsOk(s.threads) ==> WordsOk(Joining(s, t).threads)
  {
    assert SameButIdx(s.threads[t := Joiner(s, t)], Joining(s, t).threads);
  }

  lemma JoiningList(s: Snap, t: nat)
    requires Members(s.threads, s.list) && Exact(s.threads, s.list, s.placed)
    requires Phase(s.threads, s.list, s.cur, s.placed, TurnsOf(s.log))
    requires MayJoin(s, t) && (s.threads[t].state == LEFT ==> s.left > 0)
    ensures var r := Joining(s, t);
      && Members(r.threads, r.list) && Exact(r.threads, r.list, r.placed)
      && Phase(r.threads, r.list, r.cur, r.placed, AfterEvent(TurnsOf(s.log), JoinEvent(s, t)))
  {
    if s.threads[t].state == OFFLINE { AppendedList(s, t); }
    else if s.cur > s.threads[t].lastIdx { RescheduledList(s, t); }
    else { JoinerKeeps(s, t); StayPhase(s, t); }
  }

  lemma StayPhase(s: Snap, t: nat)
    requires Members(s.threads, s.list) && Phase(s.threads, s.list, s.cur, s.placed, TurnsOf(s.log))
    requires t < |s.threads| && s.threads[t].state == LEFT && s.cur <= s.threads[t].lastIdx
    ensures Phase(s.threads[t := Joiner(s, t)], s.list, s.cur, s.placed, AfterEvent(TurnsOf(s.log), JoinEvent(s, t)))
  {
  }

  lemma JoiningCounts(s: Snap, t: nat)
    requires s.running == |Those(s.threads, RUNNING)| && s.left == |Those(s.threads, LEFT)|
    requires MayJoin(s, t) && (forall k | 0 <= k < |s.list| :: s.list[k] < |s.threads|)
    requires s.threads[t].state == LEFT ==> s.left > 0
    ensures var r := Joining(s, t);
      && r.running == |Those(r.threads, RUNNING)| && r.left == |Those(r.threads, LEFT)|
  {
    JoiningThose(s, t, RUNNING);
    JoiningThose(s, t, LEFT);
    assert s.threads[t].state == LEFT ==> t in Those(s.threads, LEFT);
  }

  lemma JoiningThose(s: Snap, t: nat, st: State)
    requires MayJoin(s, t) && (forall k | 0 <= k < |s.list| :: s.list[k] < |s.threads|)
    requires s.threads[t].state == LEFT ==> s.left > 0
    ensures Those(Joining(s, t).threads, st) ==
              if Joiner(s, t).state == st then Those(s.threads, st) + {t} else Those(s.threads, st) - {t}
  {
    ThoseUpdate(s.threads, t, Joiner(s, t), st);
    SameButIdxCounts(s.threads[t := Joiner(s, t)], Joining(s, t).threads);
  }

  lemma AppendedList(s: Snap, t: nat)
    requires Members(s.threads, s.list) && Exact(s.threads, s.list, s.placed)
    requires Phase(s.threads, s.list, s.cur, s.placed, TurnsOf(s.log))
    requires t < |s.threads| && s.threads[t].state == OFFLINE
    ensures var r := Appended(s, t);
      && Members(r.threads, r.list) && Exact(r.threads, r.list, r.placed)
      && Phase(r.threads, r.list, r.cur, r.placed, AfterEvent(TurnsOf(s.log), JoinEvent(s, t)))
      && |r.list| <= |r.threads|
  {
    AppendKeeps(s.threads, s.list, s.placed, t, Joiner(s, t));
  }

  lemma RescheduledList(s: Snap, t: nat)
    requires Members(s.threads, s.list) && Exact(s.threads, s.list, s.placed)
    requires Phase(s.threads, s.list, s.cur, s.placed, TurnsOf(s.log))
    requires t < |s.threads| && s.threads[t].state == LEFT && IsAt(s.threads, s.list, t)
    requires s.threads[t].lastIdx < s.cur && s.left > 0
    ensures var r := Rescheduled(s, t);
      && Members(r.threads, r.list) && Exact(r.threads, r.list, r.placed)
      && Phase(r.threads, r.list, r.cur, r.placed, AfterEvent(TurnsOf(s.log), JoinEvent(s, t)))
  {
    RescheduledMembers(s, t);
    RescheduledAhead(s, t);
  }

  lemma RescheduledAhead(s: Snap, t: nat)
    requires Members(s.threads, s.list) && Phase(s.threads, s.list, s.cur, s.placed, TurnsOf(s.log))
    requires t < |s.threads| && s.threads[t].state == LEFT && IsAt(s.threads, s.list, t)
    requires s.threads[t].lastIdx < s.cur && s.left > 0
    ensures var r := Rescheduled(s, t);
      Phase(r.threads, r.list, r.cur, r.placed, AfterEvent(TurnsOf(s.log), JoinEvent(s, t)))
  {
    var r := Rescheduled(s, t);
    RescheduledPhase(s.threads, s.list, s.cur, s.placed, TurnsOf(s.log), t, r.threads, r.list);
  }

  lemma RescheduledMembers(s: Snap, t: nat)
    requires Members(s.threads, s.list) && Exact(s.threads, s.list, s.placed)
    requires t < |s.threads| && s.threads[t].state == LEFT && IsAt(s.threads, s.list, t)
    requires s.threads[t].lastIdx < s.cur <= |s.list| && s.left > 0
    ensures var r := Rescheduled(s, t);
      Members(r.threads, r.list) && Exact(r.threads, r.list, r.placed)
  {
    JoinerKeeps(s, t);
    RescheduledThreads(s, t);
    SwapKeeps(s.threads[t := Joiner(s, t)], s.list, s.placed, s.threads[t].lastIdx, s.cur - 1,
              Rescheduled(s, t).threads);
  }

  lemma RescheduledThreads(s: Snap, t: nat)
    requires t < |s.threads| && s.threads[t].state == LEFT && IsAt(s.threads, s.list, t)
    requires s.threads[t].lastIdx < s.cur <= |s.list| && s.left > 0 && s.list[s.cur - 1] < |s.threads|
    requires s.threads[t].lastIdx < s.cur - 1 ==> s.list[s.cur - 1] != t
    ensures var (w, r) := (s.threads[t := Joiner(s, t)], Rescheduled(s, t).threads);
      && SameButIdx(w, r) && r[t].lastIdx == s.cur - 1 && r[s.list[s.cur - 1]].lastIdx == s.threads[t].lastIdx
      && forall u | 0 <= u < |w| && u != t && u != s.list[s.cur - 1] :: r[u] == w[u]
  {
  }

  lemma JoinerKeeps(s: Snap, t: nat)
    requires Members(s.threads, s.list) && Exact(s.threads, s.list, s.placed)
    requires t < |s.threads| && s.threads[t].state == LEFT
    ensures Members(s.threads[t := Joiner(s, t)], s.list) && Exact(s.threads[t := Joiner(s, t)], s.list, s.placed)
  {
  }

  lemma RescheduledPhase(threads: seq<Info>, list: seq<nat>, cur: nat, placed: set<nat>, turns: Turns, t: nat,
                         threads': seq<Info>, list': seq<nat>)
    requires Members(threads, list) && Phase(threads, list, cur, placed, turns)
    requires t < |threads| && threads[t].state == LEFT && IsAt(threads, list, t) && threads[t].lastIdx < cur
    requires list' == Swapped(list, threads[t].lastIdx, cur - 1) && |threads'| == |threads|
    requires forall u | 0 <= u < |threads| && u != t ::
             threads'[u].state == threads[u].state && threads'[u].futexWord == threads[u].futexWord
    requires threads'[t].state == WAITING && threads'[t].futexWord == 1
    ensures Phase(threads', list', cur - 1, placed + {t, list[cur - 1]}, AfterEvent(turns, Joined(t)))
  {
    forall i | cur - 1 <= i < |list'|
      ensures Ahead(threads'[list'[i]].state)
      ensures threads'[list'[i]].state == WAITING ==> list'[i] !in turns.ran - {t} && list'[i] !in turns.missed - {t}
    {
      if i >= cur { assert list'[i] == list[i]; }
    }
    forall i | 0 <= i < cur - 1
      ensures threads'[list'[i]].state == LEFT || list'[i] in turns.missed - {t}
              || (list'[i] in turns.ran - {t} && list'[i] in placed + {t, list[cur - 1]})
    {
      assert list'[i] == list[if i == threads[t].lastIdx then cur - 1 else i];
      assert list'[i] != t;
    }
  }

  // Thread t goes to a state, and nobody else changes its own.
  ghost predicate OnlyTo(s: Snap, s': Snap, t: nat, state: State) {
    && |s'.threads| == |s.threads| && s'.limit == s.limit && s'.phases == s.phases
    && forall u | 0 <= u < |s.threads| :: s'.threads[u].state == if u == t then state else s.threads[u].state
  }

  // leave and sync, up to the attempt to wake threads.
  ghost function Leaving(s: Snap, t: nat): Snap
    requires t < |s.threads| && (s.threads[t].state == RUNNING ==> s.running > 0)
  {
    s.(threads := s.threads[t := s.threads[t].(state := LEFT)], left := s.left + 1,
       running := if s.threads[t].state == RUNNING then s.running - 1 else s.running,
       placed := if IsAt(s.threads, s.list, t) then s.placed + {t} else s.placed)
  }

  ghost function Syncing(s: Snap, t: nat): Snap
    requires t < |s.threads| && s.running > 0
  {
    s.(threads := s.threads[t := s.threads[t].(state := WAITING, futexWord := 1)], running := s.running - 1)
  }

  lemma LeavingOk(s: Snap, t: nat)
    requires Ok(s) && t < |s.threads| && (s.threads[t].state == RUNNING || s.threads[t].state == WAITING)
    ensures s.threads[t].state == RUNNING ==> s.running > 0 && IsAt(s.threads, s.list, t)
    ensures Ok(Leaving(s, t)) && OnlyTo(s, Leaving(s, t), t, LEFT)
    ensures AllCanRejoin(s) ==> (AllCanRejoin(Leaving(s, t)) <==> IsAt(s.threads, s.list, t))
  {
    LeftIsCounted(s, t);
    RunningIsPlaced(s, t);
    LeavingCounts(s, t);
    LeavingList(s, t);
  }

  lemma LeavingCounts(s: Snap, t: nat)
    requires t < |s.threads| && (s.threads[t].state == RUNNING || s.threads[t].state == WAITING)
    requires s.threads[t].state == RUNNING ==> s.running > 0
    requires s.running == |Those(s.threads, RUNNING)| && s.left == |Those(s.threads, LEFT)|
    ensures var r := Leaving(s, t);
      && Those(r.threads, LEFT) == Those(s.threads, LEFT) + {t}
      && r.running == |Those(r.threads, RUNNING)| && r.left == |Those(r.threads, LEFT)|
  {
    var i := s.threads[t].(state := LEFT);
    ThoseUpdate(s.threads, t, i, RUNNING);
    ThoseUpdate(s.threads, t, i, LEFT);
  }

  lemma LeavingList(s: Snap, t: nat)
    requires Ok(s) && t < |s.threads| && (s.threads[t].state == RUNNING || s.threads[t].state == WAITING)
    requires s.threads[t].state == RUNNING ==> s.running > 0
    ensures var r := Leaving(s, t);
      && Members(r.threads, r.list) && Exact(r.threads, r.list, r.placed)
      && Phase(r.threads, r.list, r.cur, r.placed, TurnsOf(r.log))
  {
    var w := s.(placed := Leaving(s, t).placed);
    PlaceKept(s, w.placed);
    StateChangeKeeps(w, t, s.threads[t].(state := LEFT));
  }

  // A thread found to be where its index says counts as placed.
  lemma PlaceKept(s: Snap, placed: set<nat>)
    requires Ok(s) && s.placed <= placed && forall t | t in placed :: IsAt(s.threads, s.list, t)
    ensures Ok(s.(placed := placed))
  {
  }

  lemma StateChangeKeeps(s: Snap, t: nat, i: Info)
    requires Members(s.threads, s.list) && Exact(s.threads, s.list, s.placed)
    requires Phase(s.threads, s.list, s.cur, s.placed, TurnsOf(s.log)) && t < |s.threads|
    requires i.lastIdx == s.threads[t].lastIdx && s.threads[t].state != OFFLINE
    requires i.state == LEFT || (i.state == WAITING && s.threads[t].state == RUNNING && i.futexWord == 1)
    ensures var threads := s.threads[t := i];
      && Members(threads, s.list) && Exact(threads, s.list, s.placed)
      && Phase(threads, s.list, s.cur, s.placed, TurnsOf(s.log))
  {
    StateChangeMembers(s.threads, s.list, s.placed, t, i);
    StateChangePhase(s.threads, s.list, s.cur, s.placed, TurnsOf(s.log), t, i);
  }

  lemma StateChangeMembers(threads: seq<Info>, list: seq<nat>, placed: set<nat>, t: nat, i: Info)
    requires Members(threads, list) && Exact(threads, list, placed) && t < |threads|
    requires i.lastIdx == threads[t].lastIdx && threads[t].state != OFFLINE && i.state != OFFLINE
    ensures Members(threads[t := i], list) && Exact(threads[t := i], list, placed)
  {
  }

  lemma StateChangePhase(threads: seq<Info>, list: seq<nat>, cur: nat, placed: set<nat>, turns: Turns, t: nat, i: Info)
    requires Phase(threads, list, cur, placed, turns) && t < |threads| && threads[t].state != OFFLINE
    requires i.state == LEFT || (i.state == WAITING && threads[t].state == RUNNING && i.futexWord == 1)
    ensures Phase(threads[t := i], list, cur, placed, turns)
  {
  }

  lemma SyncingOk(s: Snap, t: nat)
    requires Ok(s) && t < |s.threads| && s.threads[t].state == RUNNING
    ensures s.running > 0 && Ok(Syncing(s, t)) && OnlyTo(s, Syncing(s, t), t, WAITING)
    ensures AllCanRejoin(s) ==> AllCanRejoin(Syncing(s, t))
  {
    var i := s.threads[t].(state := WAITING, futexWord := 1);
    LeftIsCounted(s, t);
    ThoseUpdate(s.threads, t, i, RUNNING);
    ThoseUpdate(s.threads, t, i, LEFT);
    StateChangeKeeps(s, t, i);
  }

  ghost function LeaveStep(s: Snap, t: nat): (r: Snap)
    requires Ok(s) && t < |s.threads| && (s.threads[t].state == RUNNING || s.threads[t].state == WAITING)
    ensures Ok(r)
  {
    LeavingOk(s, t);
    Leaving(s, t)
  }

  ghost function SyncStep(s: Snap, t: nat): (r: Snap)
    requires Ok(s) && t < |s.threads| && s.threads[t].state == RUNNING
    ensures Ok(r)
  {
    SyncingOk(s, t);
    Syncing(s, t)
  }

  // A running thread had its turn in this phase.
  lemma RunningIsPlaced(s: Snap, t: nat)
    requires Ok(s) && t < |s.threads|
    ensures s.threads[t].state == RUNNING ==>
              t in s.placed && t in TurnsOf(s.log).ran && exists k :: 0 <= k < s.cur && s.list[k] == t
  {
    if s.threads[t].state != RUNNING { return; }
    var k :| 0 <= k < |s.list| && s.list[k] == t;
    assert k < s.cur;
  }

  // The end of a phase

  ghost predicate CanEnd(s: Snap) {
    s.cur == |s.list| && s.running == 0 && s.left != |s.list|
  }

  ghost function Rewound(s: Snap): Snap {
    s.(cur := 0, phases := s.phases + 1, log := s.log + [Ended(Participants(s.threads))])
  }

  // A snapshot between two phases: nobody runs and nobody has had a turn.
  ghost predicate Between(s: Snap) {
    && s.limit > 0 && s.cur == 0 && s.running == 0
    && Members(s.threads, s.list) && Exact(s.threads, s.list, s.placed)
    && Calm(s.threads)
    && s.left == |Those(s.threads, LEFT)|
    && TurnsOf(s.log) == Turns({}, {}) && LogOk(s.log)
  }

  ghost predicate Calm(threads: seq<Info>) {
    forall t | 0 <= t < |threads| ::
      threads[t].state != RUNNING && (threads[t].state == WAITING ==> threads[t].futexWord == 1)
  }

  lemma BetweenOk(s: Snap)
    requires Between(s)
    ensures Ok(s)
  {
    assert Those(s.threads, RUNNING) == {};
  }

  // Everybody who takes part has had a turn when the phase ends.
  lemma RewoundBetween(s: Snap)
    requires Ok(s) && CanEnd(s)
    ensures Between(Rewound(s)) && PhaseEnded(s, Rewound(s))
  {
    forall t | 0 <= t < |s.threads| ensures s.threads[t].state != RUNNING { LeftIsCounted(s, t); }
    forall t | t in Participants(s.threads) ensures t in TurnsOf(s.log).ran + TurnsOf(s.log).missed {
      var k :| 0 <= k < |s.list| && s.list[k] == t;
    }
    LogExtend(s.log, Ended(Participants(s.threads)));
  }

  // What the end of a phase does to the threads: those that left may go OFFLINE, the others stay
  // as they are, in some order.
  ghost predicate PhaseEnded(s: Snap, s': Snap) {
    && s'.limit == s.limit && |s'.threads| == |s.threads| && s'.phases == s.phases + 1
    && s'.log == s.log + [Ended(Participants(s.threads))]
    && Participants(s'.threads) == Participants(s.threads)
    && Those(s'.threads, LEFT) <= Those(s.threads, LEFT)
    && (AllCanRejoin(s) ==> AllCanRejoin(s'))
  }

  // One removal of the cleanup pass.
  ghost function Dropped(s: Snap, idx: nat): Snap
    requires idx < |s.list| && s.left > 0
    requires s.list[idx] < |s.threads| && s.list[|s.list| - 1] < |s.threads|
  {
    var (w, l) := (s.list[idx], s.list[|s.list| - 1]);
    var offline := s.threads[w := s.threads[w].(state := OFFLINE)];
    s.(threads := offline[l := offline[l].(lastIdx := idx)], list := Shrunk(s.list, idx), left := s.left - 1,
       placed := s.placed + {l} - {w})
  }

  lemma DroppedBetween(s0: Snap, s: Snap, idx: nat)
    requires Between(s) && PhaseEnded(s0, s) && idx < |s.list| && s.threads[s.list[idx]].state == LEFT
    ensures s.left > 0 && Between(Dropped(s, idx)) && PhaseEnded(s0, Dropped(s, idx))
  {
    LeftIsCounted(s.(running := |Those(s.threads, RUNNING)|), s.list[idx]);
    DroppedCalm(s, idx);
    DroppedMembers(s, idx);
    DroppedPhase(s0, s, idx);
  }

  lemma DroppedCalm(s: Snap, idx: nat)
    requires idx < |s.list| && s.left > 0 && (forall i | 0 <= i < |s.list| :: s.list[i] < |s.threads|)
    requires s.threads[s.list[idx]].state == LEFT && Calm(s.threads) && s.left == |Those(s.threads, LEFT)|
    ensures var r := Dropped(s, idx);
      && Calm(r.threads) && r.left == |Those(r.threads, LEFT)|
      && r == s.(threads := r.threads, list := r.list, left := r.left, placed := r.placed)
  {
    DroppedSets(s, idx);
  }

  lemma DroppedPhase(s0: Snap, s: Snap, idx: nat)
    requires PhaseEnded(s0, s) && idx < |s.list| && s.left > 0 && Members(s.threads, s.list)
    requires s.threads[s.list[idx]].state == LEFT
    ensures PhaseEnded(s0, Dropped(s, idx))
  {
    DroppedSets(s, idx);
  }

  lemma DroppedMembers(s: Snap, idx: nat)
    requires Members(s.threads, s.list) && Exact(s.threads, s.list, s.placed)
    requires idx < |s.list| && s.left > 0 && s.threads[s.list[idx]].state == LEFT
    ensures var r := Dropped(s, idx);
      Members(r.threads, r.list) && Exact(r.threads, r.list, r.placed)
  {
    DroppedSets(s, idx);
    DropKeeps(s.threads, s.list, s.placed, idx, Dropped(s, idx).threads);
  }

  ghost predicate CleanUpTo(s: Snap, idx: nat) {
    idx <= |s.list| && forall i | 0 <= i < idx :: s.list[i] < |s.threads| && s.threads[s.list[i]].state != LEFT
  }

  lemma AllClean(s: Snap)
    requires Between(s) && CleanUpTo(s, |s.list|)
    ensures s.left == 0 && Those(s.threads, LEFT) == {}
  {
    assert Those(s.threads, LEFT) == {};
  }

  lemma DroppedClean(s: Snap, idx: nat)
    requires Members(s.threads, s.list) && CleanUpTo(s, idx) && idx < |s.list| && s.left > 0
    requires s.threads[s.list[idx]].state == LEFT
    ensures CleanUpTo(Dropped(s, idx), idx)
  {
    DroppedSets(s, idx);
  }

  lemma DroppedSets(s: Snap, idx: nat)
    requires idx < |s.list| && s.left > 0 && (forall i | 0 <= i < |s.list| :: s.list[i] < |s.threads|)
    requires s.threads[s.list[idx]].state == LEFT
    ensures var (w, r) := (s.list[idx], Dropped(s, idx));
      && |r.threads| == |s.threads| && r.threads[w].state == OFFLINE
      && Those(r.threads, LEFT) == Those(s.threads, LEFT) - {w}
      && Participants(r.threads) == Participants(s.threads)
      && (forall t | 0 <= t < |s.threads| && t != w ::
            r.threads[t] == if t == s.list[|s.list| - 1] then s.threads[t].(lastIdx := idx) else s.threads[t])
  {
    var w := s.list[idx];
    var offline := s.threads[w := s.threads[w].(state := OFFLINE)];
    ThoseUpdate(s.threads, w, offline[w], LEFT);
    ThoseUpdate(s.threads, w, offline[w], WAITING);
    ThoseUpdate(s.threads, w, offline[w], RUNNING);
    SameButIdxCounts(offline, Dropped(s, idx).threads);
  }

  // One swap of the shuffle.
  ghost function Shuffled(s: Snap, i: nat, j: nat): Snap
    requires i < |s.list| && j < |s.list| && s.list[i] < |s.threads| && s.list[j] < |s.threads|
  {
    var (a, b) := (s.list[i], s.list[j]);
    var first := s.threads[a := s.threads[a].(lastIdx := j)];
    s.(threads := first[b := first[b].(lastIdx := i)], list := Swapped(s.list, i, j), placed := s.placed + {a, b})
  }

  lemma ShuffledBetween(s0: Snap, s: Snap, i: nat, j: nat)
    requires Between(s) && PhaseEnded(s0, s) && i < |s.list| && j < |s.list|
    ensures Between(Shuffled(s, i, j)) && PhaseEnded(s0, Shuffled(s, i, j))
    ensures Those(Shuffled(s, i, j).threads, LEFT) == Those(s.threads, LEFT)
  {
    var r := Shuffled(s, i, j);
    assert SameButIdx(s.threads, r.threads);
    SwapKeeps(s.threads, s.list, s.placed, i, j, r.threads);
    SameButIdxCounts(s.threads, r.threads);
  }

  // The first and then every 32nd phase end takes the threads that left off the list.
  ghost predicate TakesOff(s: Snap) { s.phases % 32 == 0 }

  // checkEndPhase: nothing, or some way to end the phase.
  ghost predicate EndStep(s: Snap, s': Snap) {
    if CanEnd(s) then
      && Between(s') && PhaseEnded(s, s')
      && Those(s'.threads, LEFT) == (if TakesOff(s) then {} else Those(s.threads, LEFT))
    else s' == s
  }

  // What that means for the run list: exactly the threads that left go from it, at exactly those
  // phase ends, and become OFFLINE.
  lemma CleanupExact(s: Snap, s': Snap, t: nat)
    requires Ok(s) && CanEnd(s) && EndStep(s, s')
    ensures t in s'.list <==> t in s.list && !(TakesOff(s) && s.threads[t].state == LEFT)
    ensures t < |s.threads| ==>
              s'.threads[t].state ==
              (if TakesOff(s) && s.threads[t].state == LEFT then OFFLINE else s.threads[t].state)
  {
    if t < |s.threads| {
      assert s.threads[t].state != RUNNING by { LeftIsCounted(s, t); }
      assert t in Participants(s.threads) <==> s.threads[t].state == WAITING;
      assert t in Participants(s'.threads) <==> s'.threads[t].state == WAITING;
      assert s.threads[t].state == OFFLINE ==> t !in Participants(s.threads) && t !in Those(s.threads, LEFT);
      assert t in Those(s.threads, LEFT) <==> s.threads[t].state == LEFT;
      assert t in Those(s'.threads, LEFT) <==> s'.threads[t].state == LEFT;
    }
  }

  // If all entries have left, nobody is waiting.
  lemma AllLeft(s: Snap)
    requires Ok(s) && s.left == |s.list|
    ensures !SomeWaiting(s.threads)
  {
    forall t | 0 <= t < |s.threads| && s.threads[t].state == WAITING ensures false {
      var L := Those(s.threads, LEFT);
      var all := Entries(s.list);
      assert L <= all - {t};
      SubsetSize(L, all - {t});
    }
  }

  ghost function Entries(list: seq<nat>): (r: set<nat>)
    ensures |r| <= |list| && forall x :: x in r <==> x in list
  {
    if |list| == 0 then {} else Entries(list[..|list| - 1]) + {list[|list| - 1]}
  }

  // tryWakeNext always ends in a settled state.
  lemma TryWakeSettles(s: Snap, s': Snap)
    requires Ok(s) && (s.running == s.limit || s.cur == |s.list|) && EndStep(s, s')
    ensures Ok(s') && Ok(Scan(s')) && Settled(Scan(s'))
    ensures !CanEnd(s) ==> Scan(s') == s
    ensures AllCanRejoin(s) ==> AllCanRejoin(Scan(s'))
  {
    if CanEnd(s) {
      BetweenOk(s');
      ScanOk(s');
      var r := Scan(s');
      assert r.running == 0 ==> r.cur == |r.list|;
      assert forall t | 0 <= t < |r.threads| && r.threads[t].state == WAITING :: t in r.list;
    } else if s.running == 0 {
      AllLeft(s);
    }
  }

  ghost function JoinStep(s: Snap, t: nat): (r: Snap)
    requires Ok(s) && MayJoin(s, t)
    ensures Ok(r) && (AllCanRejoin(s) ==> AllCanRejoin(r))
  {
    JoiningOk(s, t);
    if AllCanRejoin(s) then JoinKeepsRejoin(s, t); Joining(s, t) else Joining(s, t)
  }

  // A join in time never ends a phase: the joining thread is still to be looked at.
  lemma JoinEndsNoPhase(s: Snap, t: nat)
    requires Ok(s) && CanJoin(s, t)
    ensures MayJoin(s, t) && !CanEnd(Scan(JoinStep(s, t))) && Scan(JoinStep(s, t)).running > 0
  {
    InTime(s, t);
    var r := JoinStep(s, t);
    ScanOk(r);
    LeftIsCounted(s, t);
    JoinerAhead(s, t);
    var k :| r.cur <= k < |r.list| && r.list[k] == t;
    var q := Scan(r);
    LeftIsCounted(q, t);
    assert q.running == 0 ==> k < q.cur;
  }

  lemma JoinerAhead(s: Snap, t: nat)
    requires Ok(s) && CanJoin(s, t) && (s.threads[t].state == LEFT ==> s.left > 0)
    ensures MayJoin(s, t) && JoinEvent(s, t) == Joined(t)
    ensures var r := Joining(s, t); exists k :: r.cur <= k < |r.list| && r.list[k] == t
    ensures t in Participants(Joining(s, t).threads)
  {
    InTime(s, t);
    var r := Joining(s, t);
    if s.threads[t].state == OFFLINE { assert r.list[|s.list|] == t; }
    else if s.cur > s.threads[t].lastIdx { assert r.list[r.cur] == t; }
  }

  // A thread that meets the asserts joins in time, or is recorded as missing the phase.
  lemma InTime(s: Snap, t: nat)
    requires Ok(s) && t < |s.threads|
    ensures CanJoin(s, t) <==> MayJoin(s, t) && JoinEvent(s, t) == Joined(t)
  {
    if s.threads[t].state == LEFT {
      var p :| 0 <= p < |s.list| && s.list[p] == t;
      assert CanJoin(s, t) <==> RejoinSafe(s, t, p);
    }
  }

  lemma JoinKeepsRejoin(s: Snap, t: nat)
    requires MayJoin(s, t) && (forall k | 0 <= k < |s.list| :: s.list[k] < |s.threads|)
    requires (s.threads[t].state == LEFT ==> s.left > 0) && AllCanRejoin(s)
    ensures AllCanRejoin(Joining(s, t))
  {
    JoiningThose(s, t, LEFT);
  }

  lemma AllCanJoin(s: Snap, t: nat)
    requires Ok(s) && AllCanRejoin(s) && t < |s.threads| && s.threads[t].state == LEFT
    ensures CanJoin(s, t)
  {
    assert t in s.placed && IsAt(s.threads, s.list, t);
    assert RejoinSafe(s, t, s.threads[t].lastIdx);
  }

  // What the code does when a thread that left joins again, whether or not its assert holds.
  ghost function RejoinCode(s: Snap, t: nat): Snap
    requires t < |s.threads| && s.left > 0 && s.cur <= |s.list|
    requires forall k | 0 <= k < |s.list| :: s.list[k] < |s.threads|
  {
    var li := s.threads[t].lastIdx;
    if s.cur > li then
      var (c, other) := (s.cur - 1, s.list[s.cur - 1]);
      s.(list := s.list[li := other][c := t], cur := c, left := s.left - 1,
         threads := s.threads[other := s.threads[other].(lastIdx := li)][t := Info(WAITING, 1, c)],
         log := s.log + [Joined(t)])
    else
      s.(left := s.left - 1, threads := s.threads[t := Joiner(s, t)], log := s.log + [Joined(t)])
  }

  // A thread at place p can rejoin, with the assert holding and the bookkeeping kept, exactly when
  // RejoinSafe says so.
  lemma RejoinExact(s: Snap, t: nat, p: nat)
    requires Ok(s) && t < |s.threads| && s.threads[t].state == LEFT && p < |s.list| && s.list[p] == t
    ensures s.left > 0
    ensures RejoinAssert(s, t) && (exists placed :: Ok(RejoinCode(s, t).(placed := placed))) <==> RejoinSafe(s, t, p)
  {
    LeftIsCounted(s, t);
    if RejoinSafe(s, t, p) {
      InTime(s, t);
      JoiningOk(s, t);
      JoiningIsCode(s, t);
    } else if RejoinAssert(s, t) {
      RejoinBehind(s, t, p);
    }
  }

  lemma JoiningIsCode(s: Snap, t: nat)
    requires Ok(s) && MayJoin(s, t) && s.threads[t].state == LEFT && s.left > 0
    ensures Joining(s, t) == RejoinCode(s, t).(placed := Joining(s, t).placed, log := s.log + [JoinEvent(s, t)])
  {
  }

  // The stale index that meets no assert: the thread waits behind the cursor.
  lemma RejoinBehind(s: Snap, t: nat, p: nat)
    requires Ok(s) && t < |s.threads| && s.threads[t].state == LEFT && s.left > 0
    requires p < |s.list| && s.list[p] == t && !RejoinSafe(s, t, p) && RejoinAssert(s, t)
    ensures forall placed :: !Ok(RejoinCode(s, t).(placed := placed))
  {
    var r := RejoinCode(s, t);
    assert s.cur <= s.threads[t].lastIdx && r.list[p] == t;
    LogExtend(s.log, Joined(t));
    assert t !in TurnsOf(r.log).ran && t !in TurnsOf(r.log).missed;
  }

  // A rejoin that meets the asserts and is late: the thread waits behind the cursor, it misses the
  // phase, and if everybody else has left the join itself ends the phase, without the thread having
  // run in it.
  lemma LateJoin(s: Snap, t: nat)
    requires Ok(s) && MayJoin(s, t) && !CanJoin(s, t)
    ensures s.left > 0 && JoinStep(s, t) == RejoinCode(s, t).(log := s.log + [Missed(t)])
    ensures t in TurnsOf(JoinStep(s, t).log).missed && t !in TurnsOf(JoinStep(s, t).log).ran
    ensures s.left == |s.list| && s.cur == |s.list| && s.running == 0 ==> CanEnd(JoinStep(s, t))
  {
    InTime(s, t);
    LeftIsCounted(s, t);
    JoiningIsCode(s, t);
    LogExtend(s.log, Missed(t));
  }

  // Rescheduling, as a swap of two entries followed by the change to WAITING.
  lemma RescheduledBySwap(s: Snap, t: nat)
    requires t < |s.threads| && IsAt(s.threads, s.list, t) && s.threads[t].lastIdx < s.cur <= |s.list|
    requires s.list[s.cur - 1] < |s.threads| && s.left > 0
    requires forall i, j | 0 <= i < j < |s.list| :: s.list[i] != s.list[j]
    ensures var (li, c) := (s.threads[t].lastIdx, s.cur - 1);
      var w := Shuffled(s.(cur := c, left := s.left - 1), li, c);
      Rescheduled(s, t) ==
      w.(threads := w.threads[t := w.threads[t].(state := WAITING, futexWord := 1)], log := s.log + [Joined(t)])
  {
    var (li, c) := (s.threads[t].lastIdx, s.cur - 1);
    var w := Shuffled(s.(cur := c, left := s.left - 1), li, c);
    var a, b := Rescheduled(s, t).threads, w.threads[t := w.threads[t].(state := WAITING, futexWord := 1)];
    forall u | 0 <= u < |s.threads| ensures a[u] == b[u] {}
    assert a == b;
  }

  ghost function AfterJoin(s: Snap, t: nat): Snap
    requires Ok(s) && MayJoin(s, t)
  {
    Scan(JoinStep(s, t))
  }

  // What tryWakeNext may leave: a scan, possibly the end of the phase, and another scan.
  ghost predicate AfterWake(s: Snap, s': Snap)
    requires Ok(s)
  {
    exists mid :: Ok(mid) && EndStep(Scan(s), mid) && s' == Scan(mid)
  }

  // What that does to a thread: it runs on, or is woken if it waits; it goes OFFLINE only if it had
  // left and the phase ends, at one of the ends that take threads off the list.
  lemma AfterWakeMeans(s: Snap, s': Snap, t: nat)
    requires Ok(s) && AfterWake(s, s') && t < |s.threads|
    ensures |s'.threads| == |s.threads| && |s.log| <= |s'.log| && s'.log[..|s.log|] == s.log
    ensures s.threads[t].state == RUNNING ==> s'.threads[t].state == RUNNING
    ensures s.threads[t].state == WAITING ==>
              s'.threads[t].state == if Woken(t) in s'.log[|s.log|..] then RUNNING else WAITING
    ensures s.threads[t].state == LEFT ==>
              s'.threads[t].state == if CanEnd(Scan(s)) && TakesOff(s) then OFFLINE else LEFT
    ensures s.threads[t].state == OFFLINE ==> s'.threads[t].state == OFFLINE
  {
    var mid :| Ok(mid) && EndStep(Scan(s), mid) && s' == Scan(mid);
    ScanOk(s);
    ScanOk(mid);
    ScanWakes(s, t);
    ScanWakes(mid, t);
    if CanEnd(Scan(s)) {
      CleanupExact(Scan(s), mid, t);
      LeftIsCounted(Scan(s), t);
    }
    LogsJoin(s, Scan(s), mid, s', t);
  }

  lemma LogsJoin(s: Snap, r: Snap, mid: Snap, s': Snap, t: nat)
    requires WokeFrom(s, r) && WokeFrom(mid, s') && (mid.log == r.log || exists m :: mid.log == r.log + [Ended(m)])
    ensures |s.log| <= |s'.log| && s'.log[..|s.log|] == s.log
    ensures Woken(t) in s'.log[|s.log|..] <==> Woken(t) in r.log[|s.log|..] || Woken(t) in s'.log[|mid.log|..]
  {
    assert s'.log[..|mid.log|] == mid.log && mid.log[..|r.log|] == r.log && r.log[..|s.log|] == s.log;
    var (a, b) := (r.log[|s.log|..], s'.log[|mid.log|..]);
    assert s'.log == mid.log + b && r.log == s.log + a;
    if mid.log == r.log {
      assert s'.log[|s.log|..] == a + b;
    } else {
      var m :| mid.log == r.log + [Ended(m)];
      assert s'.log[|s.log|..] == a + [Ended(m)] + b;
    }
  }

  // A thread that a scan finds waiting it wakes or leaves waiting.
  lemma {:induction false} ScanWakes(s: Snap, t: nat)
    requires Ok(s) && t < |s.threads|
    ensures |Scan(s).threads| == |s.threads| && |s.log| <= |Scan(s).log| && Scan(s).log[..|s.log|] == s.log
    ensures s.threads[t].state == WAITING ==>
              Scan(s).threads[t].state == if Woken(t) in Scan(s).log[|s.log|..] then RUNNING else WAITING
    ensures s.threads[t].state != WAITING ==>
              Scan(s).threads[t] == s.threads[t] && Woken(t) !in Scan(s).log[|s.log|..]
    decreases |s.list| - s.cur
  {
    if s.running < s.limit && s.cur < |s.list| {
      LookedOk(s);
      ScanWakes(Looked(s), t);
      LookWakes(s, Looked(s), Scan(Looked(s)), t);
    }
  }

  lemma LookWakes(s: Snap, l: Snap, r: Snap, t: nat)
    requires IsLook(s, l) && t < |s.threads| && |l.log| <= |r.log| && r.log[..|l.log|] == l.log
    ensures |s.log| <= |r.log| && r.log[..|s.log|] == s.log
    ensures Woken(t) in r.log[|s.log|..] <==>
              Woken(t) in r.log[|l.log|..] || (t == s.list[s.cur] && s.threads[t].state == WAITING)
  {
    var more := r.log[|l.log|..];
    assert r.log == l.log + more;
    if s.threads[s.list[s.cur]].state == WAITING {
      assert r.log[|s.log|..] == [Woken(s.list[s.cur])] + more;
      assert r.log[..|s.log|] == s.log;
    }
  }
}

module PhaseBarrier {
  import opened BarrierState

  class Barrier {
    const parallelThreads: nat
    const threads: array<Info>
    const runList: array<nat>
    var runListSize: nat
    var curThreadIdx: nat
    var runningThreads: nat
    var leftThreads: nat
    var phaseCount: nat
    ghost var placed: set<nat>
    ghost var log: seq<Event>

    ghost predicate Sized()
      reads this
    {
      runList.Length == threads.Length && runListSize <= runList.Length
    }

    ghost function State(): Snap
      requires Sized()
      reads this, threads, runList
    {
      Snap(parallelThreads, threads[..], runList[..runListSize], curThreadIdx, runningThreads, leftThreads, phaseCount,
           placed, log)
    }

    ghost predicate Valid()
      reads this, threads, runList
    {
      Sized() && Ok(State()) && Settled(State())
    }

    // garbage is what the indices happen to be: only the states and futex words are initialised.
    constructor (parallelThreads: nat, maxThreads: nat, garbage: nat -> nat)
      requires parallelThreads > 0
      ensures Valid() && AllCanRejoin(State()) && log == [] && State().list == [] && phaseCount == 0
      ensures this.parallelThreads == parallelThreads && threads.Length == maxThreads
      ensures forall t | 0 <= t < maxThreads :: threads[t] == Info(OFFLINE, 0, garbage(t))
      ensures fresh(threads) && fresh(runList)
    {
      this.parallelThreads := parallelThreads;
      threads := new Info[maxThreads](t requires t >= 0 => Info(OFFLINE, 0, garbage(t)));
      runList := new nat[maxThreads](_ => 0);
      runListSize, curThreadIdx, runningThreads, leftThreads, phaseCount := 0, 0, 0, 0, 0;
      placed, log := {}, [];
      new;
      assert Those(threads[..], RUNNING) == {} == Those(threads[..], LEFT);
    }

    // join. In time it never ends a phase: whatever is woken is woken by one scan.
    method Join(tid: nat)
      requires Valid() && MayJoin(State(), tid)
      modifies this, threads, runList
      ensures Valid() && AfterWake(JoinStep(old(State()), tid), State())
      ensures CanJoin(old(State()), tid) ==> State() == AfterJoin(old(State()), tid)
      ensures AllCanRejoin(old(State())) ==> AllCanRejoin(State())
    {
      ghost var s := State();
      if CanJoin(s, tid) { JoinEndsNoPhase(s, tid); }
      assert threads[tid].state == LEFT || threads[tid].state == OFFLINE;
      if threads[tid].state == OFFLINE {
        Append(tid);
      } else {
        RunListIsGood();
        LeftIsCounted(s, tid);
        Rejoin(tid);
      }
      assert State() == JoinStep(s, tid);
      TryWakeNext();
    }

    method Append(tid: nat)
      requires Sized() && Ok(State()) && tid < threads.Length && threads[tid].state == OFFLINE
      modifies this, threads, runList
      ensures Sized() && State() == Appended(old(State()), tid)
    {
      AppendedList(State(), tid);
      runList[runListSize] := tid;
      runListSize := runListSize + 1;
      placed := placed - {tid};
      SetWaiting(tid, Joined(tid));
    }

    lemma RunListIsGood()
      requires Sized() && Ok(State())
      ensures curThreadIdx <= runListSize && forall k | 0 <= k < runListSize :: runList[k] < threads.Length
      ensures forall i, j | 0 <= i < j < runListSize :: runList[i] != runList[j]
    {
      var list := State().list;
      assert forall k | 0 <= k < runListSize :: runList[k] == list[k];
    }

    // The threads that left keep their place, or swap it if they already had their turn.
    method Rejoin(tid: nat)
      requires Sized() && MayJoin(State(), tid) && threads[tid].state == LEFT && leftThreads > 0
      requires curThreadIdx <= runListSize && forall k | 0 <= k < runListSize :: runList[k] < threads.Length
      requires forall i, j | 0 <= i < j < runListSize :: runList[i] != runList[j]
      modifies this, threads, runList
      ensures Sized() && State() == Joining(old(State()), tid)
    {
      ghost var s := State();
      assert forall k | 0 <= k < runListSize :: s.list[k] == runList[k];
      leftThreads := leftThreads - 1;
      var lastIdx := threads[tid].lastIdx;
      if curThreadIdx > lastIdx {
        RescheduledBySwap(s, tid);
        SwapBack(tid, lastIdx);
      }
      SetWaiting(tid, JoinEvent(s, tid));
    }

    method SetWaiting(tid: nat, ghost e: Event)
      requires Sized() && tid < threads.Length
      modifies this`log, threads
      ensures Sized() && State() == old(State()).(log := old(log) + [e],
        threads := old(threads[..])[tid := old(threads[tid]).(state := WAITING, futexWord := 1)])
    {
      threads[tid] := threads[tid].(state := WAITING);
      threads[tid] := threads[tid].(futexWord := 1);
      log := log + [e];
    }

    // The rejoining thread takes the place just before the next one to look at.
    method SwapBack(tid: nat, lastIdx: nat)
      requires Sized() && lastIdx < curThreadIdx <= runListSize && runList[lastIdx] == tid < threads.Length
      requires runList[curThreadIdx - 1] < threads.Length
      modifies this`curThreadIdx, this`placed, threads, runList
      ensures Sized()
      ensures State() == Shuffled(old(State()).(cur := old(curThreadIdx) - 1), lastIdx, old(curThreadIdx) - 1)
    {
      ghost var s := State();
      curThreadIdx := curThreadIdx - 1;
      assert s.list[lastIdx] == runList[lastIdx] && s.list[curThreadIdx] == runList[curThreadIdx];
      SwapEntries(lastIdx, curThreadIdx);
    }

    // Swaps two run-list entries and records both places.
    method SwapEntries(i: nat, j: nat)
      requires Sized() && i < runListSize && j < runListSize
      requires runList[i] < threads.Length && runList[j] < threads.Length
      modifies this`placed, threads, runList
      ensures Sized() && State() == Shuffled(old(State()), i, j)
    {
      var itid := runList[i];
      var jtid := runList[j];
      runList[i] := jtid;
      runList[j] := itid;
      threads[itid] := threads[itid].(lastIdx := j);
      threads[jtid] := threads[jtid].(lastIdx := i);
      placed := placed + {itid, jtid};
    }

    method CheckRunList()
      requires Sized() && Ok(State())
      modifies this`curThreadIdx, this`runningThreads, this`placed, this`log, threads
      ensures Sized() && State() == Scan(old(State()))
    {
      ghost var s := State();
      while runningThreads < parallelThreads && curThreadIdx < runListSize
        invariant Sized() && Ok(State()) && Scan(State()) == Scan(s)
        decreases runListSize - curThreadIdx
      {
        LookedOk(State());
        LookedCounts(State());
        WakeNext();
      }
    }

    // One iteration of that loop.
    method WakeNext()
      requires Sized() && curThreadIdx < runListSize && runList[curThreadIdx] < threads.Length
      requires threads[runList[curThreadIdx]].state == WAITING ==> threads[runList[curThreadIdx]].futexWord == 1
      modifies this`curThreadIdx, this`runningThreads, this`placed, this`log, threads
      ensures Sized() && State() == Looked(old(State()))
      ensures curThreadIdx == old(curThreadIdx) + 1
    {
      var idx := curThreadIdx;
      curThreadIdx := curThreadIdx + 1;
      var wtid := runList[idx];
      if threads[wtid].state == WAITING {
        threads[wtid] := threads[wtid].(state := RUNNING);
        threads[wtid] := threads[wtid].(lastIdx := idx);
        var succ := threads[wtid].futexWord == 1;
        assert succ;  // else: "Wakeup race in barrier?"
        threads[wtid] := threads[wtid].(futexWord := 0);
        runningThreads := runningThreads + 1;
        placed, log := placed + {wtid}, log + [Woken(wtid)];
      }
    }

    method TryWakeNext()
      requires Sized() && Ok(State())
      modifies this, threads, runList
      ensures Valid() && AfterWake(old(State()), State())
      ensures !CanEnd(Scan(old(State()))) ==> State() == Scan(old(State()))
      ensures AllCanRejoin(old(State())) ==> AllCanRejoin(State())
    {
      ghost var s := State();
      ScanOk(s);
      CheckRunList();
      ghost var m := State();
      CheckEndPhase();
      ghost var e := State();
      TryWakeSettles(m, e);
      CheckRunList();
    }

    method CheckEndPhase()
      requires Sized() && Ok(State())
      modifies this, threads, runList
      ensures Sized() && Ok(State()) && EndStep(old(State()), State())
    {
      if curThreadIdx == runListSize && runningThreads == 0 {
        if leftThreads == runListSize { return; }
        EndPhase();
      }
    }

    // What checkEndPhase does when the phase has ended.
    method EndPhase()
      requires Sized() && Ok(State()) && CanEnd(State())
      modifies this, threads, runList
      ensures Sized() && Ok(State()) && EndStep(old(State()), State())
    {
      ghost var s := State();
      var cleanup := phaseCount % 32 == 0;
      Rewind();
      RewoundBetween(s);
      if cleanup { Cleanup(s); }
      if parallelThreads < runListSize { Shuffle(s); }
      BetweenOk(State());
    }

    method Rewind()
      requires Sized()
      modifies this`curThreadIdx, this`phaseCount, this`log
      ensures Sized() && State() == Rewound(old(State()))
    {
      log := log + [Ended(Participants(threads[..]))];
      curThreadIdx := 0;
      phaseCount := phaseCount + 1;
    }

    // Takes the threads that left off the run list.
    method Cleanup(ghost s0: Snap)
      requires Sized() && Between(State()) && PhaseEnded(s0, State()) && runListSize > 0
      modifies this`runListSize, this`leftThreads, this`placed, threads, runList
      ensures Sized() && Between(State()) && PhaseEnded(s0, State())
      ensures Those(State().threads, LEFT) == {}
    {
      ghost var s := State();
      var idx, newSize := 0, runListSize;
      CleaningStarts(s0);
      while idx < newSize
        invariant 0 <= idx <= newSize && CleaningIs(s0, s, idx, newSize) && CleanUpTo(s, idx)
        decreases newSize - idx
      {
        if HasLeft(s0, s, idx, newSize) {
          s := DropLeft(s0, s, idx, newSize);
          newSize := newSize - 1;
        } else {
          idx := idx + 1;
        }
      }
      FinishCleanup(s0, s, newSize);
    }

    predicate HasLeft(ghost s0: Snap, ghost s: Snap, idx: nat, newSize: nat)
      requires CleaningIs(s0, s, idx, newSize) && CleanUpTo(s, idx) && idx < newSize
      reads this, threads, runList
      ensures HasLeft(s0, s, idx, newSize) <==> s.threads[s.list[idx]].state == LEFT
      ensures !HasLeft(s0, s, idx, newSize) ==> CleaningIs(s0, s, idx + 1, newSize) && CleanUpTo(s, idx + 1)
    {
      assert s.list[idx] == runList[idx] && s.threads[runList[idx]] == threads[runList[idx]];
      threads[runList[idx]].state == LEFT
    }

    lemma CleaningStarts(s0: Snap)
      requires Sized() && Between(State()) && PhaseEnded(s0, State())
      ensures CleaningIs(s0, State(), 0, runListSize) && CleanUpTo(State(), 0)
    {
    }

    method FinishCleanup(ghost s0: Snap, ghost s: Snap, newSize: nat)
      requires CleaningIs(s0, s, newSize, newSize) && CleanUpTo(s, newSize)
      modifies this`runListSize, this`leftThreads, this`placed
      ensures Sized() && Between(State()) && PhaseEnded(s0, State())
      ensures Those(State().threads, LEFT) == {}
    {
      AllClean(s);
      leftThreads := 0;
      runListSize := newSize;
      placed := s.placed;
      assert State() == s;
    }

    // The state of the cleanup pass, with the first newSize entries still on the list.
    ghost predicate CleaningIs(s0: Snap, s: Snap, idx: nat, newSize: nat)
      reads this, threads, runList
    {
      && Sized() && idx <= newSize == |s.list| <= runListSize
      && Between(s) && PhaseEnded(s0, s)
      && runListSize - newSize == leftThreads - s.left
      && s == Snap(parallelThreads, threads[..], runList[..newSize], curThreadIdx, runningThreads, s.left,
                   phaseCount, s.placed, log)
    }

    // One step of the cleanup pass: the thread at idx has left.
    method DropLeft(ghost s0: Snap, ghost s: Snap, idx: nat, newSize: nat) returns (ghost s': Snap)
      requires CleaningIs(s0, s, idx, newSize) && CleanUpTo(s, idx) && idx < newSize
      requires s.threads[s.list[idx]].state == LEFT
      modifies threads, runList
      ensures CleaningIs(s0, s', idx, newSize - 1) && CleanUpTo(s', idx)
    {
      DroppedBetween(s0, s, idx);
      DroppedClean(s, idx);
      DropEntry(s, idx, newSize);
      s' := Dropped(s, idx);
    }

    // Takes the thread at idx off the run list and moves the last one over it.
    method DropEntry(ghost s: Snap, idx: nat, size: nat)
      requires idx < size == |s.list| <= runList.Length && s.left > 0
      requires s.threads == threads[..] && s.list == runList[..size]
      requires forall i | 0 <= i < size :: s.list[i] < threads.Length
      modifies threads, runList
      ensures threads[..] == Dropped(s, idx).threads && runList[..size - 1] == Dropped(s, idx).list
    {
      var wtid := runList[idx];
      assert s.list[idx] == wtid && s.list[size - 1] == runList[size - 1];
      threads[wtid] := threads[wtid].(state := OFFLINE);
      var stid := runList[size - 1];
      runList[idx] := stid;
      threads[stid] := threads[stid].(lastIdx := idx);
    }

    // The Fisher-Yates shuffle, whatever the random numbers.
    method Shuffle(ghost s0: Snap)
      requires Sized() && Between(State()) && PhaseEnded(s0, State()) && runListSize > 0
      modifies this`placed, threads, runList
      ensures Sized() && Between(State()) && PhaseEnded(s0, State())
      ensures Those(State().threads, LEFT) == old(Those(State().threads, LEFT))
    {
      var i := runListSize - 1;
      while i > 0
        invariant 0 <= i < runListSize && Sized() && Between(State()) && PhaseEnded(s0, State())
        invariant Those(State().threads, LEFT) == old(Those(State().threads, LEFT))
      {
        var j: nat :| j <= i;
        ghost var s := State();
        ShuffledBetween(s0, s, i, j);
        assert s.list[i] == runList[i] && s.list[j] == runList[j];
        SwapEntries(i, j);
        i := i - 1;
      }
    }

    // leave. A waiting thread may leave at any time, but it can only be sure to rejoin safely if it
    // stands where its index says; a running thread always does.
    method Leave(tid: nat)
      requires Valid() && tid < threads.Length
      requires threads[tid].state == RUNNING || threads[tid].state == WAITING
      modifies this, threads, runList
      ensures Valid()
      ensures if old(threads[tid].state) == RUNNING then AfterWake(LeaveStep(old(State()), tid), State())
              else State() == LeaveStep(old(State()), tid)
      ensures AllCanRejoin(old(State())) ==>
                (AllCanRejoin(State()) <==> old(IsAt(threads[..], runList[..runListSize], tid)))
    {
      ghost var s := State();
      LeavingOk(s, tid);
      var wasRunning := threads[tid].state == RUNNING;
      MarkLeft(tid);
      if wasRunning {
        TryWakeNext();
      } else {
        assert State() == Leaving(s, tid);
      }
    }

    method MarkLeft(tid: nat)
      requires Sized() && tid < threads.Length && (threads[tid].state == RUNNING ==> runningThreads > 0)
      modifies this`leftThreads, this`runningThreads, this`placed, threads
      ensures Sized() && State() == Leaving(old(State()), tid)
    {
      ghost var s := State();
      placed := Leaving(s, tid).placed;
      if threads[tid].state == RUNNING { runningThreads := runningThreads - 1; }
      threads[tid] := threads[tid].(state := LEFT);
      leftThreads := leftThreads + 1;
      assert State() == Leaving(s, tid);
    }

    // sync.
    method Sync(tid: nat)
      requires Valid() && tid < threads.Length && threads[tid].state == RUNNING
      modifies this, threads, runList
      ensures Valid() && AfterWake(SyncStep(old(State()), tid), State())
      ensures AllCanRejoin(old(State())) ==> AllCanRejoin(State())
    {
      ghost var s := State();
      SyncingOk(s, tid);
      threads[tid] := threads[tid].(futexWord := 1);
      threads[tid] := threads[tid].(state := WAITING);
      runningThreads := runningThreads - 1;
      assert State() == Syncing(s, tid);
      TryWakeNext();
    }
  }

  // Two threads have joined a barrier that runs one at a time, and the second has left while it
  // waited; y is what its index happened to be.
  ghost predicate OneLeft(s: Snap, y: nat) {
    && Ok(s) && s.limit == 1 && s.threads == [Info(RUNNING, 0, 0), Info(LEFT, 1, y)] && s.list == [0, 1]
    && s.cur == 1 && s.running == 1 && s.left == 1 && s.log == [Joined(0), Woken(0), Joined(1)]
  }

  method JoinTwoLeaveOne(x: nat, y: nat) returns (b: Barrier)
    ensures fresh(b) && fresh(b.threads) && fresh(b.runList) && b.Valid() && OneLeft(b.State(), y)
  {
    b := JoinTwo(x, y);
    ghost var s := b.State();
    assert b.threads[1] == s.threads[1];
    b.Leave(1);
    FirstLeave(s, y);
  }

  method JoinTwo(x: nat, y: nat) returns (b: Barrier)
    ensures fresh(b) && fresh(b.threads) && fresh(b.runList) && b.Valid() && TwoIn(b.State(), y)
  {
    b := JoinOne(x, y);
    ghost var s := b.State();
    SecondJoin(s, y);
    b.Join(1);
  }

  method JoinOne(x: nat, y: nat) returns (b: Barrier)
    ensures fresh(b) && fresh(b.threads) && fresh(b.runList) && b.Valid() && OneIn(b.State(), y)
  {
    b := new Barrier(1, 2, t => if t == 0 then x else y);
    ghost var s := b.State();
    assert s.threads == [Info(OFFLINE, 0, x), Info(OFFLINE, 0, y)];
    FirstJoin(s, x, y);
    b.Join(0);
  }

  ghost predicate OneIn(s: Snap, y: nat) {
    && Ok(s) && s.limit == 1 && s.threads == [Info(RUNNING, 0, 0), Info(OFFLINE, 0, y)] && s.list == [0]
    && s.cur == 1 && s.running == 1 && s.left == 0 && s.log == [Joined(0), Woken(0)]
  }

  ghost predicate TwoIn(s: Snap, y: nat) {
    && Ok(s) && s.limit == 1 && s.threads == [Info(RUNNING, 0, 0), Info(WAITING, 1, y)] && s.list == [0, 1]
    && s.cur == 1 && s.running == 1 && s.left == 0 && s.log == [Joined(0), Woken(0), Joined(1)]
  }

  lemma FirstLeave(s: Snap, y: nat)
    requires TwoIn(s, y)
    ensures OneLeft(Leaving(s, 1), y)
  {
    LeavingOk(s, 1);
    assert Leaving(s, 1).threads == [Info(RUNNING, 0, 0), Info(LEFT, 1, y)];
  }

  // The left thread has a stale index: were it to rejoin, the assert that its run-list entry is where
  // lastIdx says would fail.
  method StaleIndex() returns (b: Barrier)
    ensures fresh(b) && b.Valid() && b.threads.Length == 2 && b.threads[1].state == LEFT
    ensures b.curThreadIdx > b.threads[1].lastIdx && b.threads[1].lastIdx < b.runListSize
    ensures b.runList[b.threads[1].lastIdx] != 1
  {
    b := JoinTwoLeaveOne(0, 0);
    ghost var s := b.State();
    assert b.threads[1] == s.threads[1] && b.runList[0] == s.list[0];
  }

  // With an index from further on no assert stands in the way. The other thread leaves as well; when
  // thread 1 then rejoins, it waits behind the cursor and its own join ends the phase, without it
  // having run.
  method MissesPhase(x: nat, y: nat) returns (b: Barrier)
    requires y >= 2
    ensures fresh(b) && b.Valid() && |b.log| >= 5
    ensures b.log[..5] == [Joined(0), Woken(0), Joined(1), Missed(1), Ended({1})]
  {
    b := AllLeave(x, y);
    ghost var s := b.State();
    IsLate(s, y);
    b.Join(1);
    LateRejoin(s, b.State(), y);
  }

  method AllLeave(x: nat, y: nat) returns (b: Barrier)
    ensures fresh(b) && fresh(b.threads) && fresh(b.runList) && b.Valid() && BothLeft(b.State(), y)
  {
    b := JoinTwoLeaveOne(x, y);
    ghost var s := b.State();
    assert b.threads[0] == s.threads[0];
    b.Leave(0);
    LastLeave(s, b.State(), y);
  }

  // Both threads have left, and thread 1 is behind the cursor.
  ghost predicate BothLeft(s: Snap, y: nat) {
    && Ok(s) && s.limit == 1 && s.threads == [Info(LEFT, 0, 0), Info(LEFT, 1, y)] && s.list == [0, 1]
    && s.cur == 2 && s.running == 0 && s.left == 2 && s.log == [Joined(0), Woken(0), Joined(1)]
  }

  lemma LastLeave(s: Snap, s': Snap, y: nat)
    requires OneLeft(s, y) && Ok(Leaving(s, 0)) && AfterWake(Leaving(s, 0), s')
    ensures BothLeft(s', y)
  {
    var l := Leaving(s, 0);
    LookedOk(l);
    assert Looked(l) == l.(cur := 2);
    assert Scan(l) == Scan(Looked(l)) == Looked(l);
  }

  lemma IsLate(s: Snap, y: nat)
    requires BothLeft(s, y) && y >= 2
    ensures MayJoin(s, 1) && !CanJoin(s, 1) && JoinStep(s, 1).log == s.log + [Missed(1)]
    ensures CanEnd(JoinStep(s, 1)) && Participants(JoinStep(s, 1).threads) == {1}
  {
    assert s.list[0] != 1;
    InTime(s, 1);
    LateJoin(s, 1);
    assert JoinStep(s, 1).threads == [Info(LEFT, 0, 0), Info(WAITING, 1, y)];
  }

  lemma LateRejoin(s: Snap, s': Snap, y: nat)
    requires BothLeft(s, y) && y >= 2 && MayJoin(s, 1) && AfterWake(JoinStep(s, 1), s')
    ensures |s'.log| >= |s.log| + 2 && s'.log[..|s.log| + 2] == s.log + [Missed(1), Ended({1})]
  {
    IsLate(s, y);
    EndedBeforeScan(JoinStep(s, 1), s');
  }

  // A step that can end the phase at once does.
  lemma EndedBeforeScan(r: Snap, s': Snap)
    requires Ok(r) && CanEnd(r) && AfterWake(r, s')
    ensures |s'.log| > |r.log| && s'.log[..|r.log| + 1] == r.log + [Ended(Participants(r.threads))]
  {
    var mid :| Ok(mid) && EndStep(Scan(r), mid) && s' == Scan(mid);
    ScanOk(mid);
  }

  lemma FirstJoin(s: Snap, x: nat, y: nat)
    requires Ok(s) && s.limit == 1 && s.threads == [Info(OFFLINE, 0, x), Info(OFFLINE, 0, y)]
    requires s.list == [] && s.cur == 0 && s.running == 0 && s.left == 0 && s.log == []
    ensures CanJoin(s, 0) && MayJoin(s, 0) && OneIn(AfterJoin(s, 0), y)
  {
    var j := JoinStep(s, 0);
    assert j.threads == [Info(WAITING, 1, x), Info(OFFLINE, 0, y)] && j.list == [0];
    LookedOk(j);
    assert Looked(j).threads == [Info(RUNNING, 0, 0), Info(OFFLINE, 0, y)];
    assert Scan(j) == Scan(Looked(j)) == Looked(j);
  }

  lemma SecondJoin(s: Snap, y: nat)
    requires OneIn(s, y)
    ensures CanJoin(s, 1) && MayJoin(s, 1) && TwoIn(AfterJoin(s, 1), y)
  {
    var j := JoinStep(s, 1);
    assert j.threads == [Info(RUNNING, 0, 0), Info(WAITING, 1, y)];
    assert Scan(j) == j;
  }
}
