// One cache, its children and their in-flight requests, with invalidations from above landing
// anywhere between the moment a request leaves and the moment it is handled.
//
// Each step is one stretch of code under the locks. An upward call drops the caller's lock, so
// it is two steps: the request leaves, and the answer arrives.

module RaceFilter {
  import opened MesiTypes

  datatype Raced = Raced(skip: bool, t: AccessType)

  // The asserts and the panic of CheckForMESIRace.
  predicate RaceLegal(t: AccessType, now: State, initial: State) {
    now != initial ==>
      match t
      case PUTS => now == I || now == S
      case PUTX => now == I || now == S
      case GETX => initial == S && now == I
      case GETS => false
  }

  function Filtered(t: AccessType, now: State, initial: State): Raced {
    if now == initial then Raced(false, t)
    else match t
      case PUTS => Raced(now == I, PUTS)
      case PUTX => if now == I then Raced(true, PUTX) else Raced(false, PUTS)
      case _ => Raced(false, t)
  }

  // CheckForMESIRace, which may rewrite the request type.
  method CheckForMESIRace(t: AccessType, now: State, initial: State) returns (skip: bool, newType: AccessType)
    requires RaceLegal(t, now, initial)
    ensures Raced(skip, newType) == Filtered(t, now, initial)
    // a PUT whose line has gone meanwhile is dropped, and nothing else is
    ensures skip <==> (t == PUTS || t == PUTX) && now != initial && now == I
    ensures !skip ==> newType == if t == PUTX && now != initial then PUTS else t
    // what survives the filter is a request that the child's present state allows
    ensures !skip && initial != I && (t == PUTX <==> initial == M) && (t == PUTS || t == PUTX) ==>
              now != I && (newType == PUTX ==> now == M)
  {
    skip, newType := false, t;
    if now != initial {
      if t == PUTS || t == PUTX {
        if now == I {
          skip := true;
        } else {
          assert now == S;
          if t == PUTX { newType := PUTS; }
        }
      } else if t == GETX {
        assert initial == S && now == I;
      } else {
        assert false;
      }
    }
  }
}

module RaceMachine {
  import opened MesiTypes
  import opened Directory
  import opened RaceFilter

  datatype Req = NoReq | Req(t: AccessType, initial: State, flags: Flags)

  // What the cache itself is waiting for from above.
  datatype Pending =
    | Idle
    | Fetching(child: nat, t: AccessType, initial: State, flags: Flags)
    | Evicting(put: AccessType, initial: State)

  datatype Sys = Sys(own: State, d: Dir, reqs: seq<Req>, pending: Pending)

  // `below` says that dirty data turned up further down, under a child that is itself in E.
  datatype Label =
    | Issue(c: nat, t: AccessType, flags: Flags)
    | SilentWrite(c: nat)
    | Start(c: nat, below: bool)
    | Granted(grant: State, below: bool)
    | EvictLine(below: bool)
    | EvictDone
    | FromAbove(inval: InvType, below: bool)

  // A request in flight and the states its sender may be in by now.
  ghost predicate ReqOk(now: State, r: Req) {
    match r
    case NoReq => true
    case Req(GETS, init, _) => init == I && now == I
    case Req(GETX, init, _) => (init == I && now == I) || (init == S && (now == S || now == I))
    case Req(PUTS, init, _) => (init == S && (now == S || now == I)) || (init == E && now != M)
    case Req(PUTX, init, _) => init == M && now != E
  }

  ghost predicate PendingOk(s: Sys) {
    match s.pending
    case Idle => true
    case Fetching(c, t, init, _) =>
      && c < |s.reqs| && c < |s.d.kids| && s.reqs[c] == NoReq
      && ((t == GETS && init == I) || (t == GETX && (init == I || init == S)))
      && ReqOk(s.own, Req(t, init, s.pending.flags)) && s.d.kids[c] != E && s.d.kids[c] != M
      && (t == GETS ==> s.d.kids[c] == I)
    case Evicting(put, init) =>
      && (put == PUTS || put == PUTX)
      && ReqOk(s.own, Req(put, init, Flags(false, false)))
      && AllInvalid(s.d)
  }

  // The coherence invariant.
  ghost predicate Inv(s: Sys) {
    && DirOk(s.d) && |s.reqs| == |s.d.kids|
    && (forall c | 0 <= c < |s.reqs| :: ReqOk(s.d.kids[c], s.reqs[c]))
    && Included(s.d, s.own)
    && PendingOk(s)
  }

  // When a step can happen. These are facts about the sender of each event, not about the
  // handlers: a cache only asks for what it lacks, a parent only invalidates what it tracks.
  ghost predicate Enabled(s: Sys, l: Label) {
    match l
    case Issue(c, t, flags) =>
      && c < |s.reqs| && c < |s.d.kids| && s.reqs[c] == NoReq && !(s.pending.Fetching? && s.pending.child == c)
      && (match t
          case GETS => s.d.kids[c] == I
          case GETX => s.d.kids[c] == I || s.d.kids[c] == S
          case PUTS => s.d.kids[c] == S || s.d.kids[c] == E
          case PUTX => s.d.kids[c] == M)
    case SilentWrite(c) => c < |s.reqs| && c < |s.d.kids| && s.reqs[c] == NoReq && s.d.kids[c] == E
    case Start(c, below) => c < |s.reqs| && s.reqs[c].Req? && s.pending == Idle && (below ==> SomeExclusive(s.d))
    case Granted(grant, below) =>
      && s.pending.Fetching? && (below ==> SomeExclusive(s.d))
      && (if s.pending.t == GETX then grant == M else grant == S || grant == E)
    case EvictLine(below) => s.pending == Idle && s.own != I && (below ==> SomeExclusive(s.d))
    case EvictDone => s.pending.Evicting?
    case FromAbove(inval, below) => InvalLegal(s.own, inval) && (below ==> SomeExclusive(s.d))
  }

  // processAccess of the top controller plus processWritebackOnAccess of the bottom one.
  ghost function Serve(s: Sys, c: nat, t: AccessType, flags: Flags, below: bool): Sys
    requires DirOk(s.d) && c < |s.d.kids| && AccessLegal(s.d, t, c, Exclusive(s.own), flags)
  {
    var induced := (t == GETX || (t == GETS && IsExclusive(s.d))) && (HasDirtyKid(s.d) || below);
    s.(d := AfterAccess(s.d, t, c, Exclusive(s.own), flags), own := if induced then M else s.own, pending := Idle)
  }

  // startAccess, then either the whole access or its part before the upward call.
  ghost function Begin(s: Sys, c: nat, below: bool): Sys
    requires Inv(s) && Enabled(s, Start(c, below))
  {
    var req := s.reqs[c];
    assert RaceLegal(req.t, s.d.kids[c], req.initial);
    var r := Filtered(req.t, s.d.kids[c], req.initial);
    var s1 := s.(reqs := s.reqs[c := NoReq]);
    if r.skip then s1
    else match r.t
      case PUTS =>
        assert s.own != I;  // else: "we lost inclusion"
        Serve(s1, c, PUTS, req.flags, false)
      case PUTX =>
        assert Exclusive(s.own);
        OwnerIsAlone(s.d, c);
        Serve(s1.(own := M), c, PUTX, req.flags, false)
      case GETS =>
        if s.own == I then s1.(pending := Fetching(c, GETS, I, req.flags))
        else Serve(s1, c, GETS, req.flags, below)
      case GETX =>
        if Exclusive(s.own) then
          OwnerIsAlone(s.d, c);
          Serve(s1.(own := M), c, GETX, req.flags, below)
        else s1.(pending := Fetching(c, GETX, s.own, req.flags))
  }

  ghost function Next(s: Sys, l: Label): Sys
    requires Inv(s) && Enabled(s, l)
  {
    match l
    case Issue(c, t, flags) => s.(reqs := s.reqs[c := Req(t, s.d.kids[c], flags)])
    case SilentWrite(c) => s.(d := s.d.(kids := s.d.kids[c := M]))
    case Start(c, below) => Begin(s, c, below)
    case Granted(grant, below) =>
      var q := s.pending;
      assert RaceLegal(q.t, s.own, q.initial) && !Filtered(q.t, s.own, q.initial).skip;
      OwnerIsAlone(s.d, q.child);
      Serve(s.(own := grant), q.child, q.t, q.flags, below)
    case EvictLine(below) =>
      var writeback := HasDirtyKid(s.d) || below;
      assert writeback ==> Exclusive(s.own);
      var own := if writeback then M else s.own;
      s.(own := own, d := AfterInvalidates(s.d, INV), pending := Evicting(if own == M then PUTX else PUTS, own))
    case EvictDone =>
      assert RaceLegal(s.pending.put, s.own, s.pending.initial);
      s.(own := if Filtered(s.pending.put, s.own, s.pending.initial).skip then s.own else I, pending := Idle)
    case FromAbove(inval, _) =>
      if inval == FWD then s
      else s.(own := AfterInval(s.own, inval), d := AfterInvalidates(s.d, inval))
  }

  lemma ServeKeepsInv(s: Sys, c: nat, t: AccessType, flags: Flags, below: bool)
    requires DirOk(s.d) && |s.reqs| == |s.d.kids| && c < |s.d.kids| && s.reqs[c] == NoReq
    requires AccessLegal(s.d, t, c, Exclusive(s.own), flags) && s.own != I
    requires forall k | 0 <= k < |s.reqs| :: ReqOk(s.d.kids[k], s.reqs[k])
    requires SomeExclusive(s.d) || t == GETX ==> Exclusive(s.own)
    requires below ==> SomeExclusive(s.d)
    ensures Inv(Serve(s, c, t, flags, below))
  {
    AccessKeepsDir(s.d, t, c, Exclusive(s.own), flags);
    if t == GETS { GetsKeepsDir(s.d, c, Exclusive(s.own), flags); }
    if t == GETX { GetxKeepsDir(s.d, c, flags); }
  }

  lemma FromAboveKeepsInv(s: Sys, t: InvType, below: bool)
    requires Inv(s) && Enabled(s, FromAbove(t, below))
    ensures Inv(Next(s, FromAbove(t, below)))
  {
    if t != FWD { InvalidatesKeepDir(s.d, t); }
  }

  lemma EvictKeepsInv(s: Sys, below: bool)
    requires Inv(s) && Enabled(s, EvictLine(below))
    ensures Inv(Next(s, EvictLine(below)))
  {
    InvalidatesKeepDir(s.d, INV);
  }

  lemma BeginKeepsInv(s: Sys, c: nat, below: bool)
    requires Inv(s) && Enabled(s, Start(c, below))
    ensures Inv(Begin(s, c, below))
  {
    var req := s.reqs[c];
    var r := Filtered(req.t, s.d.kids[c], req.initial);
    var s1 := s.(reqs := s.reqs[c := NoReq]);
    OwnerIsAlone(s.d, c);
    if !r.skip {
      match r.t
      case PUTS => ServeKeepsInv(s1, c, PUTS, req.flags, false);
      case PUTX => ServeKeepsInv(s1.(own := M), c, PUTX, req.flags, false);
      case GETS => if s.own != I { ServeKeepsInv(s1, c, GETS, req.flags, below); }
      case GETX => if Exclusive(s.own) { ServeKeepsInv(s1.(own := M), c, GETX, req.flags, below); }
    }
  }

  // Every step keeps the invariant. That Next is well formed is part of the result: its body
  // passes through every assert and panic of the handlers.
  lemma NextKeepsInv(s: Sys, l: Label)
    requires Inv(s) && Enabled(s, l)
    ensures Inv(Next(s, l))
  {
    match l
    case Issue(c, t, flags) =>
    case SilentWrite(c) => OwnerIsAlone(s.d, c);
    case Start(c, below) => BeginKeepsInv(s, c, below);
    case Granted(grant, below) =>
      OwnerIsAlone(s.d, s.pending.child);
      ServeKeepsInv(s.(own := grant), s.pending.child, s.pending.t, s.pending.flags, below);
    case EvictLine(below) => EvictKeepsInv(s, below);
    case EvictDone =>
    case FromAbove(inval, below) => FromAboveKeepsInv(s, inval, below);
  }

  // The cache or a child of it holds a modified copy.
  ghost predicate Dirty(s: Sys) {
    s.own == M || exists c :: 0 <= c < |s.d.kids| && s.d.kids[c] == M
  }

  // What each step brings about

  // A request leaves with the state its sender is in; a silent write only changes that state.
  lemma RequestLeaves(s: Sys, c: nat, t: AccessType, flags: Flags)
    requires Inv(s) && Enabled(s, Issue(c, t, flags))
    ensures Next(s, Issue(c, t, flags)) == s.(reqs := Next(s, Issue(c, t, flags)).reqs)
    ensures forall k | 0 <= k < |s.reqs| ::
              Next(s, Issue(c, t, flags)).reqs[k] == if k == c then Req(t, s.d.kids[c], flags) else s.reqs[k]
    ensures Enabled(s, SilentWrite(c)) ==>
              Next(s, SilentWrite(c)) == s.(d := s.d.(kids := s.d.kids[c := M]))
  {
  }

  // A PUT takes the line from its sender, whatever raced with it; with keepExcl a sender that still
  // has the dirty data keeps it, clean. Nobody else notices.
  lemma PutIsServed(s: Sys, c: nat, below: bool)
    requires Inv(s) && Enabled(s, Start(c, below)) && (s.reqs[c].t == PUTS || s.reqs[c].t == PUTX)
    ensures var (s', q, now) := (Next(s, Start(c, below)), s.reqs[c], s.d.kids[c]);
      && |s'.d.kids| == |s.d.kids|
      && s'.d.kids[c] == (if q.t == PUTX && q.flags.keepExcl && now == M then E else I)
      && (forall k | 0 <= k < |s.d.kids| && k != c :: s'.d.kids[k] == s.d.kids[k])
      && s'.own == (if q.t == PUTX && now == M then M else s.own)
      && s'.reqs == s.reqs[c := NoReq] && s'.pending == Idle
  {
    OwnerIsAlone(s.d, c);
  }

  // A GETS is served where the line is held: its sender gets it in E if nobody else has it, the
  // cache is exclusive and E is wanted, else in S, and a sibling in E or M goes to S. Where the line is
  // not held the parent is asked.
  lemma GetsIsServed(s: Sys, c: nat, below: bool)
    requires Inv(s) && Enabled(s, Start(c, below)) && s.reqs[c].t == GETS
    ensures var (s', q) := (Next(s, Start(c, below)), s.reqs[c]);
      && s'.reqs == s.reqs[c := NoReq]
      && if s.own == I then s'.own == I && s'.d == s.d && s'.pending == Fetching(c, GETS, I, q.flags)
         else
           && |s'.d.kids| == |s.d.kids| && s'.pending == Idle
           && s'.d.kids[c] == (
                if !q.flags.noExcl && (s.own == E || s.own == M) && forall k | 0 <= k < |s.d.kids| :: s.d.kids[k] == I
                then E else S)
           && (forall k | 0 <= k < |s.d.kids| && k != c ::
                 s'.d.kids[k] == if s.d.kids[k] == E || s.d.kids[k] == M then S else s.d.kids[k])
           && s'.own == if below || exists k :: 0 <= k < |s.d.kids| && s.d.kids[k] == M then M else s.own
  {
    if s.own != I { ServedShared(s.(reqs := s.reqs[c := NoReq]), c, s.reqs[c].flags, below); }
  }

  ghost predicate GotShared(s: Sys, s': Sys, c: nat, own: State, noExcl: bool, below: bool)
    requires c < |s.d.kids|
  {
    && |s'.d.kids| == |s.d.kids| && s'.pending == Idle
    && s'.d.kids[c] == (if Exclusive(own) && !noExcl && AllInvalid(s.d) then E else S)
    && (forall k | 0 <= k < |s.d.kids| && k != c ::
          s'.d.kids[k] == if s.d.kids[k] == E || s.d.kids[k] == M then S else s.d.kids[k])
    && s'.own == if below || exists k :: 0 <= k < |s.d.kids| && s.d.kids[k] == M then M else own
  }

  lemma ServedShared(s: Sys, c: nat, flags: Flags, below: bool)
    requires DirOk(s.d) && c < |s.d.kids| && AccessLegal(s.d, GETS, c, Exclusive(s.own), flags)
    requires below ==> SomeExclusive(s.d)
    ensures GotShared(s, Serve(s, c, GETS, flags, below), c, s.own, flags.noExcl, below)
  {
    GetsKeepsDir(s.d, c, Exclusive(s.own), flags);
  }

  // A GETX is served where the line is held in E or M: its sender is in M, every sibling in I, and the
  // cache itself in M. Elsewhere the parent is asked.
  lemma GetxIsServed(s: Sys, c: nat, below: bool)
    requires Inv(s) && Enabled(s, Start(c, below)) && s.reqs[c].t == GETX
    ensures var (s', q) := (Next(s, Start(c, below)), s.reqs[c]);
      && s'.reqs == s.reqs[c := NoReq]
      && if s.own == E || s.own == M then
           && |s'.d.kids| == |s.d.kids| && s'.pending == Idle && s'.own == M
           && forall k | 0 <= k < |s.d.kids| :: s'.d.kids[k] == if k == c then M else I
         else s'.own == s.own && s'.d == s.d && s'.pending == Fetching(c, GETX, s.own, q.flags)
  {
    OwnerIsAlone(s.d, c);
    if Exclusive(s.own) { GetxKeepsDir(s.d, c, s.reqs[c].flags); }
  }

  // The parent's grant serves the request that waits for it.
  lemma GrantIsServed(s: Sys, grant: State, below: bool)
    requires Inv(s) && Enabled(s, Granted(grant, below))
    ensures var (s', q) := (Next(s, Granted(grant, below)), s.pending);
      && s'.reqs == s.reqs
      && if q.t == GETS then
           && |s'.d.kids| == |s.d.kids| && s'.pending == Idle
           && s'.d.kids[q.child] == (
                if !q.flags.noExcl && (grant == E || grant == M) && forall k | 0 <= k < |s.d.kids| :: s.d.kids[k] == I
                then E else S)
           && (forall k | 0 <= k < |s.d.kids| && k != q.child ::
                 s'.d.kids[k] == if s.d.kids[k] == E || s.d.kids[k] == M then S else s.d.kids[k])
           && s'.own == if below || exists k :: 0 <= k < |s.d.kids| && s.d.kids[k] == M then M else grant
         else
           && |s'.d.kids| == |s.d.kids| && s'.pending == Idle && s'.own == M
           && forall k | 0 <= k < |s.d.kids| :: s'.d.kids[k] == if k == q.child then M else I
  {
    var q := s.pending;
    OwnerIsAlone(s.d, q.child);
    if q.t == GETS {
      ServedShared(s.(own := grant), q.child, q.flags, below);
    } else {
      GetxKeepsDir(s.d, q.child, q.flags);
    }
  }

  // An eviction recalls the line from every child, and what goes up is a PUTX exactly if some copy was
  // dirty; once the parent has dealt with the PUT the line is in I, whatever raced with it.
  lemma EvictionIsServed(s: Sys, below: bool)
    requires Inv(s)
    ensures Enabled(s, EvictLine(below)) ==>
      var s' := Next(s, EvictLine(below));
      && AllInvalid(s'.d) && |s'.d.kids| == |s.d.kids| && s'.reqs == s.reqs
      && s'.own == (if Dirty(s) || below then M else s.own)
      && s'.pending == Evicting(if Dirty(s) || below then PUTX else PUTS, s'.own)
    ensures Enabled(s, EvictDone) ==> Next(s, EvictDone) == s.(own := I, pending := Idle)
  {
    if Enabled(s, EvictLine(below)) { InvalidatesKeepDir(s.d, INV); }
  }

  // An invalidation from above takes the line, a downgrade leaves it in S, here and in every child.
  lemma InvalidationReaches(s: Sys, t: InvType, below: bool)
    requires Inv(s) && Enabled(s, FromAbove(t, below))
    ensures var s' := Next(s, FromAbove(t, below));
      && |s'.d.kids| == |s.d.kids| && s'.reqs == s.reqs && s'.pending == s.pending
      && s'.own == (match t case INV => I case INVX => S case FWD => s.own)
      && forall k | 0 <= k < |s.d.kids| ::
           s'.d.kids[k] == match t
                           case INV => I
                           case INVX => if s.d.kids[k] == E || s.d.kids[k] == M then S else s.d.kids[k]
                           case FWD => s.d.kids[k]
  {
    if t != FWD { InvalidatesKeepDir(s.d, t); }
  }

  ghost predicate Initial(s: Sys) {
    && s.own == I && s.pending == Idle && AllInvalid(s.d)
    && |s.reqs| == |s.d.kids| == |s.d.sharers| && s.d.numSharers == 0 && !s.d.exclusive
    && (forall c | 0 <= c < |s.reqs| :: s.reqs[c] == NoReq && !s.d.sharers[c])
  }

  ghost predicate IsRun(run: seq<Sys>) {
    && |run| > 0 && Initial(run[0])
    && forall i | 0 <= i < |run| - 1 && Inv(run[i]) :: SomeStep(run[i], run[i + 1])
  }

  ghost predicate SomeStep(s: Sys, s': Sys)
    requires Inv(s)
  {
    exists l :: Enabled(s, l) && s' == Next(s, l)
  }

  lemma SomeStepKeepsInv(s: Sys, s': Sys)
    requires Inv(s) && SomeStep(s, s')
    ensures Inv(s')
  {
    var l :| Enabled(s, l) && s' == Next(s, l);
    NextKeepsInv(s, l);
  }

  lemma InitialOk(s: Sys)
    requires Initial(s)
    ensures Inv(s)
  {
    Sharers.CountZero(s.d.sharers);
  }

  // Coherence in every reachable state, over any number of children and any interleaving. (The
  // premise in IsRun only gives Next its meaning; after a bad state a run could do anything.)
  lemma {:induction false} RunsAreCoherent(run: seq<Sys>, i: nat)
    requires IsRun(run) && i < |run|
    ensures Inv(run[i])
  {
    if i == 0 {
      InitialOk(run[0]);
    } else {
      RunsAreCoherent(run, i - 1);
      assert SomeStep(run[i - 1], run[i - 1 + 1]);
      SomeStepKeepsInv(run[i - 1], run[i]);
    }
  }

  // No handler panics: every request in flight passes the race filter, and what is left of it meets
  // the asserts of both controllers, once the cache itself has the permission it asks for.
  lemma NoHandlerPanics(run: seq<Sys>, i: nat, c: nat)
    requires IsRun(run) && i < |run| && c < |run[i].reqs| && run[i].reqs[c].Req?
    ensures var s, req := run[i], run[i].reqs[c];
            && |s.d.sharers| == |s.d.kids| && c < |s.d.kids|
            && RaceLegal(req.t, s.d.kids[c], req.initial)
            && var r := Filtered(req.t, s.d.kids[c], req.initial);
            !r.skip ==>
              match r.t
              case PUTS => s.own != I && AccessLegal(s.d, PUTS, c, Exclusive(s.own), req.flags)
              case PUTX => Exclusive(s.own) && (!req.flags.keepExcl || s.d.kids[c] == M)
                           && AccessLegal(s.d, PUTX, c, true, req.flags)
              case GETS => AccessLegal(s.d, GETS, c, Exclusive(s.own), req.flags)
              case GETX => AccessLegal(s.d, GETX, c, true, req.flags)
  {
    RunsAreCoherent(run, i);
    OwnerIsAlone(run[i].d, c);
  }

  // What the invariant says to a reader of the directory entry.
  lemma CoherenceMeaning(s: Sys)
    requires Inv(s)
    ensures forall c | 0 <= c < |s.d.kids| :: s.d.sharers[c] <==> s.d.kids[c] != I
    ensures s.d.numSharers == Sharers.Count(s.d.sharers)
    ensures IsExclusive(s.d) <==> SomeExclusive(s.d)
    ensures forall a, b | 0 <= a < |s.d.kids| && 0 <= b < |s.d.kids| && a != b && Exclusive(s.d.kids[a]) ::
              s.d.kids[b] == I
  {
    forall a | 0 <= a < |s.d.kids| && Exclusive(s.d.kids[a])
      ensures forall b | 0 <= b < |s.d.kids| && a != b :: s.d.kids[b] == I
    {
      OwnerIsAlone(s.d, a);
    }
    if IsExclusive(s.d) {
      Sharers.CountZero(s.d.sharers);
      var c :| 0 <= c < |s.d.kids| && s.d.sharers[c];
      OwnerIsAlone(s.d, c);
    }
  }

  // Dirty data

  // The step lets a child write.
  predicate Stores(s: Sys, l: Label) {
    match l
    case SilentWrite(_) => true
    case Start(c, _) => c < |s.reqs| && s.reqs[c].Req? && s.reqs[c].t == GETX && Exclusive(s.own)
    case Granted(_, _) => s.pending.Fetching? && s.pending.t == GETX
    case _ => false
  }

  // The step sends data up: its PUT is still a PUTX when the parent handles it, or the invalidation
  // finds a modified copy here, in a child or further down and raises the writeback flag.
  ghost predicate WritesBack(s: Sys, l: Label) {
    match l
    case EvictDone =>
      && s.pending.Evicting?
      && Filtered(s.pending.put, s.own, s.pending.initial) == Raced(false, PUTX)
    case FromAbove(inval, below) => inval != FWD && (Dirty(s) || below)
    case _ => false
  }

  // Dirty data from further down turns up.
  predicate Surfaces(l: Label) {
    (l.Start? || l.Granted? || l.EvictLine? || l.FromAbove?) && l.below
  }

  // One step loses no dirty data and makes none up, whatever it races with.
  ghost predicate DirtFollows(s: Sys, l: Label, s': Sys) {
    && (Dirty(s) || Stores(s, l) ==> Dirty(s') || WritesBack(s, l))
    && (WritesBack(s, l) ==> (Dirty(s) || Surfaces(l)) && !Dirty(s'))
    && (Dirty(s') ==> Dirty(s) || Stores(s, l) || Surfaces(l))
  }

  lemma ServeKeepsDirt(s: Sys, c: nat, t: AccessType, flags: Flags, below: bool)
    requires DirOk(s.d) && c < |s.d.kids| && AccessLegal(s.d, t, c, Exclusive(s.own), flags)
    requires t == PUTX ==> s.own == M
    requires t == PUTS ==> s.d.kids[c] != M
    ensures var s' := Serve(s, c, t, flags, below);
            && (Dirty(s) || t == GETX ==> Dirty(s'))
            && (Dirty(s') ==> Dirty(s) || t == GETX || below)
  {
    var s' := Serve(s, c, t, flags, below);
    if t == GETS { GetsKeepsDir(s.d, c, Exclusive(s.own), flags); }
    if t == GETX { GetxKeepsDir(s.d, c, flags); }
    if k :| 0 <= k < |s.d.kids| && s.d.kids[k] == M {
      OwnerIsAlone(s.d, k);
      assert HasDirtyKid(s.d);
    }
  }

  lemma BeginKeepsDirt(s: Sys, c: nat, below: bool)
    requires Inv(s) && Enabled(s, Start(c, below))
    ensures DirtFollows(s, Start(c, below), Begin(s, c, below))
  {
    var req := s.reqs[c];
    var r := Filtered(req.t, s.d.kids[c], req.initial);
    var s1 := s.(reqs := s.reqs[c := NoReq]);
    OwnerIsAlone(s.d, c);
    if !r.skip {
      match r.t
      case PUTS => ServeKeepsDirt(s1, c, PUTS, req.flags, false);
      case PUTX => ServeKeepsDirt(s1.(own := M), c, PUTX, req.flags, false);
      case GETS => if s.own != I { ServeKeepsDirt(s1, c, GETS, req.flags, below); }
      case GETX => if Exclusive(s.own) { ServeKeepsDirt(s1.(own := M), c, GETX, req.flags, below); }
    }
  }

  lemma FromAboveKeepsDirt(s: Sys, t: InvType, below: bool)
    requires Inv(s) && Enabled(s, FromAbove(t, below))
    ensures DirtFollows(s, FromAbove(t, below), Next(s, FromAbove(t, below)))
  {
    if t != FWD { InvalidatesKeepDir(s.d, t); }
  }

  lemma EvictKeepsDirt(s: Sys, below: bool)
    requires Inv(s) && Enabled(s, EvictLine(below))
    ensures DirtFollows(s, EvictLine(below), Next(s, EvictLine(below)))
  {
    InvalidatesKeepDir(s.d, INV);
  }

  lemma NextKeepsDirt(s: Sys, l: Label)
    requires Inv(s) && Enabled(s, l)
    ensures DirtFollows(s, l, Next(s, l))
  {
    match l
    case Issue(c, t, flags) =>
    case SilentWrite(c) => assert Next(s, l).d.kids[c] == M;
    case Start(c, below) => BeginKeepsDirt(s, c, below);
    case Granted(grant, below) =>
      OwnerIsAlone(s.d, s.pending.child);
      ServeKeepsDirt(s.(own := grant), s.pending.child, s.pending.t, s.pending.flags, below);
    case EvictLine(below) => EvictKeepsDirt(s, below);
    case EvictDone =>
    case FromAbove(inval, below) => FromAboveKeepsDirt(s, inval, below);
  }

  ghost predicate IsRunOf(run: seq<Sys>, labels: seq<Label>) {
    && |run| == |labels| + 1 && Initial(run[0])
    && forall i | 0 <= i < |labels| && Inv(run[i]) ::
         Enabled(run[i], labels[i]) && run[i + 1] == Next(run[i], labels[i])
  }

  lemma RunIsOk(run: seq<Sys>, labels: seq<Label>, i: nat)
    requires IsRunOf(run, labels) && i < |run|
    ensures Inv(run[i])
  {
    forall k | 0 <= k < |run| - 1 && Inv(run[k])
      ensures SomeStep(run[k], run[k + 1])
    {
      assert Enabled(run[k], labels[k]);
    }
    RunsAreCoherent(run, i);
  }

  // No store is lost, whichever PUTs and invalidations race: after it there is a modified copy, or
  // data has been sent up since.
  lemma {:induction false} StoresSurvive(run: seq<Sys>, labels: seq<Label>, i: nat, j: nat)
    requires IsRunOf(run, labels) && i < j <= |labels| && Stores(run[i], labels[i])
    ensures Dirty(run[j]) || exists k :: i <= k < j && WritesBack(run[k], labels[k])
  {
    DirtStep(run, labels, j - 1);
    if i < j - 1 { StoresSurvive(run, labels, i, j - 1); }
    assert Dirty(run[j]) || WritesBack(run[j - 1], labels[j - 1])
           || exists k :: i <= k < j - 1 && WritesBack(run[k], labels[k]);
  }

  // Step i brought dirty data, and none has been sent up from then to before step j.
  ghost predicate StoredSince(run: seq<Sys>, labels: seq<Label>, i: nat, j: nat) {
    && i < j <= |labels| < |run|
    && (Stores(run[i], labels[i]) || Surfaces(labels[i]))
    && forall k | i <= k < j :: !WritesBack(run[k], labels[k])
  }

  // And data is only held as modified because of a store (or of dirty data from further down) since
  // the last time it was sent up.
  lemma {:induction false} DirtHasAStore(run: seq<Sys>, labels: seq<Label>, j: nat) returns (i: nat)
    requires IsRunOf(run, labels) && j <= |labels| && Dirty(run[j])
    ensures StoredSince(run, labels, i, j)
  {
    if j == 0 {
      assert false;
    } else {
      DirtStep(run, labels, j - 1);
      if Stores(run[j - 1], labels[j - 1]) || Surfaces(labels[j - 1]) {
        i := j - 1;
      } else {
        i := DirtHasAStore(run, labels, j - 1);
      }
    }
  }

  lemma DirtStep(run: seq<Sys>, labels: seq<Label>, j: nat)
    requires IsRunOf(run, labels) && j < |labels|
    ensures DirtFollows(run[j], labels[j], run[j + 1])
  {
    RunIsOk(run, labels, j);
    NextKeepsDirt(run[j], labels[j]);
  }

  // So is data sent up, unless the very step finds it further down.
  lemma WritebackHasAStore(run: seq<Sys>, labels: seq<Label>, j: nat) returns (i: nat)
    requires IsRunOf(run, labels) && j < |labels| && WritesBack(run[j], labels[j])
    ensures StoredSince(run, labels, i, j) || Surfaces(labels[j])
  {
    DirtStep(run, labels, j);
    if Dirty(run[j]) { i := DirtHasAStore(run, labels, j); } else { i := j; }
  }
}
