// The controllers as the objects they are: one line of MESIBottomCC, MESITopCC and MESICC, with
// the children's line states updated in place. Each method is tied to the functions of module
// Directory; its preconditions are the asserts of the handler.

module MesiControllers {
  import opened MesiTypes
  import opened Directory
  import Sharers

  // The state the bottom controller is in after an access, when a parent that had to be asked
  // answered with `grant`.
  function AfterBottomAccess(s: State, t: AccessType, grant: State): State {
    match t
    case PUTS => s
    case PUTX => M
    case GETS => if s == I then grant else s
    case GETX => if Exclusive(s) then M else grant
  }

  predicate BottomAccessLegal(s: State, t: AccessType, grant: State) {
    match t
    case PUTS => s != I
    case PUTX => Exclusive(s)
    case GETS => s == I ==> grant == S || grant == E
    case GETX => !Exclusive(s) ==> grant == M
  }

  class MESIBottomCC {
    var state: State

    constructor ()
      ensures state == I
    {
      state := I;
    }

    method ProcessAccess(t: AccessType, grant: State)
      requires BottomAccessLegal(state, t, grant)
      modifies this
      ensures state == AfterBottomAccess(old(state), t, grant)
      ensures t == GETX || t == PUTX ==> state == M
      ensures t == GETS ==> state == if old(state) == I then grant else old(state)
      ensures t == PUTS ==> state == old(state)
    {
      match t {
        case PUTS =>
          assert state != I;
        case PUTX =>
          assert state == M || state == E;
          if state == E { state := M; }
        case GETS =>
          if state == I {
            state := grant;
            assert state == S || state == E;
          }
        case GETX =>
          if state == I || state == S {
            state := grant;
          } else if state == E {
            state := M;
          }
          assert state == M;
      }
    }

    method ProcessWritebackOnAccess()
      requires Exclusive(state)
      modifies this
      ensures state == M
    {
      if state == E { state := M; }
    }

    method ProcessInval(t: InvType, wb: bool) returns (reqWriteback: bool)
      requires InvalLegal(state, t)
      modifies this
      ensures state == AfterInval(old(state), t)
      ensures reqWriteback <==> wb || (t != FWD && old(state) == M)
    {
      reqWriteback := wb;
      assert t != FWD ==> state != I;
      match t {
        case INVX =>
          assert state == E || state == M;
          if state == M { reqWriteback := true; }
          state := S;
        case INV =>
          if state == M { reqWriteback := true; }
          state := I;
        case FWD =>
          assert state == S;
      }
    }

    // The PUT this line owes on an eviction; the parent's handler leaves the line in I.
    method ProcessEviction(lowerLevelWriteback: bool) returns (sent: bool, put: AccessType)
      requires lowerLevelWriteback ==> Exclusive(state)
      modifies this
      ensures state == I
      ensures sent <==> old(state) != I
      ensures sent ==> put == if lowerLevelWriteback || old(state) == M then PUTX else PUTS
    {
      if lowerLevelWriteback {
        assert state == M || state == E;
        state := M;
      }
      sent, put := state != I, PUTS;
      match state {
        case I =>
        case S => put := PUTS;
        case E => put := PUTS;
        case M => put := PUTX;
      }
      state := I;
    }
  }

  class MESITopCC {
    const children: seq<MESIBottomCC>
    const sharers: array<bool>
    var numSharers: nat
    var exclusive: bool

    ghost predicate Shaped() {
      && sharers.Length == |children|
      && forall a, b | 0 <= a < b < |children| :: children[a] != children[b]
    }

    ghost function States(): (s: seq<State>)
      reads children
      ensures |s| == |children| && forall c | 0 <= c < |s| :: s[c] == children[c].state
    {
      seq(|children|, c requires 0 <= c < |children| reads children => children[c].state)
    }

    ghost function View(): Dir
      reads this, sharers, children
    {
      Dir(sharers[..], numSharers, exclusive, States())
    }

    ghost predicate Valid()
      reads this, sharers, children
    {
      Shaped() && DirOk(View())
    }

    constructor (children: seq<MESIBottomCC>)
      requires forall a, b | 0 <= a < b < |children| :: children[a] != children[b]
      requires forall c | 0 <= c < |children| :: children[c].state == I
      ensures Valid() && this.children == children && fresh(sharers)
      ensures AllInvalid(View()) && numSharers == 0
    {
      this.children := children;
      sharers := new bool[|children|](_ => false);
      numSharers, exclusive := 0, false;
      new;
      Sharers.CountZero(sharers[..]);
    }

    // What the loop of sendInvalidates has done to the first n children.
    ghost predicate Sent(d: Dir, t: InvType, n: nat)
      reads sharers, children
      requires Shaped() && |d.sharers| == |d.kids| == |children| && n <= |children|
    {
      forall c | 0 <= c < |children| ::
        && sharers[c] == (if c < n && t == INV then false else d.sharers[c])
        && children[c].state == (if c < n && d.sharers[c] then AfterInval(d.kids[c], t) else d.kids[c])
    }

    // One iteration of that loop.
    method SendOne(ghost d: Dir, t: InvType, c: nat, wb: bool) returns (reqWriteback: bool)
      requires Shaped() && |d.sharers| == |d.kids| == |children| && c < |children|
      requires Sent(d, t, c) && t != FWD && d.sharers[c] && InvalLegal(d.kids[c], t)
      modifies sharers, children
      ensures Sent(d, t, c + 1)
      ensures reqWriteback <==> wb || d.kids[c] == M
    {
      reqWriteback := children[c].ProcessInval(t, wb);
      if t == INV { sharers[c] := false; }
    }

    ghost predicate DirtyBelow(d: Dir, n: nat)
      requires n <= |d.sharers| == |d.kids|
    {
      exists k :: 0 <= k < n && d.sharers[k] && d.kids[k] == M
    }

    lemma NextChild(d: Dir, t: InvType, c: nat)
      requires Shaped() && |d.sharers| == |d.kids| == |children| && c < |children| && Sent(d, t, c)
      ensures sharers[c] == d.sharers[c] && (!d.sharers[c] ==> Sent(d, t, c + 1))
      ensures Sharers.Count(d.sharers[..c + 1]) == Sharers.Count(d.sharers[..c]) + (if d.sharers[c] then 1 else 0)
      ensures DirtyBelow(d, c + 1) <==> DirtyBelow(d, c) || (d.sharers[c] && d.kids[c] == M)
    {
      assert d.sharers[..c + 1][..c] == d.sharers[..c];
    }

    method SendToSharers(t: InvType, wb: bool) returns (reqWriteback: bool)
      requires Shaped() && t != FWD && numSharers == Sharers.Count(sharers[..])
      requires forall c | 0 <= c < |children| && sharers[c] :: InvalLegal(children[c].state, t)
      modifies sharers, children
      ensures Sent(old(View()), t, |children|)
      ensures reqWriteback <==> wb || HasDirtyKid(old(View()))
    {
      ghost var d := View();
      reqWriteback := wb;
      var sentInvs, c := 0, 0;
      while c < |children|
        invariant 0 <= c <= |children| && Sent(d, t, c)
        invariant sentInvs == Sharers.Count(d.sharers[..c])
        invariant reqWriteback <==> wb || DirtyBelow(d, c)
      {
        NextChild(d, t, c);
        if sharers[c] {
          reqWriteback := SendOne(d, t, c, reqWriteback);
          sentInvs := sentInvs + 1;
        }
        c := c + 1;
      }
      assert d.sharers[..c] == d.sharers;
      assert sentInvs == numSharers;
    }

    method SendInvalidates(t: InvType, wb: bool) returns (reqWriteback: bool)
      requires Shaped() && t != FWD && numSharers == Sharers.Count(sharers[..])
      requires t == INV || IsExclusive(View()) ==>
        forall c | 0 <= c < |children| && sharers[c] :: InvalLegal(children[c].state, t)
      modifies this`numSharers, this`exclusive, sharers, children
      ensures View() == AfterInvalidates(old(View()), t)
      ensures reqWriteback <==>
        wb || ((t == INV || IsExclusive(old(View()))) && HasDirtyKid(old(View())))
    {
      ghost var d := View();
      reqWriteback := wb;
      if t == INVX && !(numSharers == 1 && exclusive) { return; }
      Sharers.CountZero(d.sharers);
      if numSharers != 0 {
        reqWriteback := SendToSharers(t, wb);
        if t == INV {
          numSharers := 0;
        } else {
          assert exclusive && numSharers == 1;
          exclusive := false;
        }
      }
      assert sharers[..] == AfterInvalidates(d, t).sharers;
      assert States() == AfterInvalidates(d, t).kids;
    }

    // processAccess: *childState is the state of the child's line.
    method ProcessAccess(t: AccessType, childId: nat, haveExclusive: bool, flags: Flags)
      returns (inducedWriteback: bool)
      requires Valid() && childId < |children| && AccessLegal(View(), t, childId, haveExclusive, flags)
      modifies this`numSharers, this`exclusive, sharers, children
      ensures Valid() && View() == AfterAccess(old(View()), t, childId, haveExclusive, flags)
      ensures inducedWriteback <==>
        (t == GETX || (t == GETS && IsExclusive(old(View())))) && HasDirtyKid(old(View()))
    {
      AccessKeepsDir(View(), t, childId, haveExclusive, flags);
      inducedWriteback := false;
      match t {
        case PUTX =>
          assert numSharers == 1 && exclusive;
          if flags.keepExcl {
            assert sharers[childId] && children[childId].state == M;
            SetChild(childId, E);
          } else {
            ProcessPut(childId);
          }
        case PUTS => ProcessPut(childId);
        case GETS => inducedWriteback := ProcessGets(childId, haveExclusive, flags);
        case GETX => inducedWriteback := ProcessGetx(childId, flags);
      }
    }

    method SetChild(childId: nat, s: State)
      requires Shaped() && childId < |children|
      modifies children
      ensures View() == old(View()).(kids := old(View()).kids[childId := s])
    {
      children[childId].state := s;
      assert States() == old(States())[childId := s];
    }

    // The cases PUTS and PUTX.
    method ProcessPut(childId: nat)
      requires Valid() && childId < |children| && sharers[childId]
      modifies this`numSharers, sharers, children
      ensures View() == Dropped(old(View()), childId).(kids := old(View()).kids[childId := I])
    {
      Sharers.CountOne(sharers[..], childId);
      sharers[childId] := false;
      numSharers := numSharers - 1;
      assert sharers[..] == old(sharers[..])[childId := false];
      SetChild(childId, I);
    }

    // Sets the sharer bit, the count and the flag, and writes the child's new state.
    method Add(childId: nat, excl: bool, s: State)
      requires Shaped() && childId < |children|
      modifies this`numSharers, this`exclusive, sharers, children
      ensures View() == Added(old(View()), childId, excl, s)
    {
      sharers[childId] := true;
      numSharers := numSharers + 1;
      exclusive := excl;
      assert sharers[..] == old(sharers[..])[childId := true];
      SetChild(childId, s);
    }

    // The case GETS.
    method ProcessGets(childId: nat, haveExclusive: bool, flags: Flags) returns (inducedWriteback: bool)
      requires Valid() && childId < |children| && !sharers[childId]
      modifies this`numSharers, this`exclusive, sharers, children
      ensures View() == AfterAccess(old(View()), GETS, childId, haveExclusive, flags)
      ensures inducedWriteback <==> IsExclusive(old(View())) && HasDirtyKid(old(View()))
    {
      inducedWriteback := false;
      if numSharers == 0 && haveExclusive && !flags.noExcl {
        Add(childId, true, E);
      } else {
        if numSharers == 1 && exclusive {
          InvalidatesKeepDir(View(), INVX);
          inducedWriteback := SendInvalidates(INVX, false);
        }
        assert !(numSharers == 1 && exclusive);
        Add(childId, false, S);
      }
    }

    // The case GETX.
    method ProcessGetx(childId: nat, flags: Flags) returns (inducedWriteback: bool)
      requires Valid() && childId < |children| && AccessLegal(View(), GETX, childId, true, flags)
      modifies this`numSharers, this`exclusive, sharers, children
      ensures View() == AfterAccess(old(View()), GETX, childId, true, flags)
      ensures inducedWriteback <==> HasDirtyKid(old(View()))
    {
      TakenOutIsSafe(View(), childId, flags);
      TakeOut(childId, flags);
      assert forall c | 0 <= c < |children| :: children[c].state == View().kids[c];
      inducedWriteback := SendInvalidates(INV, false);
      Add(childId, true, M);
      assert numSharers == 1;
    }

    // On an upgrade miss the requester is taken out of the sharers first.
    method TakeOut(childId: nat, flags: Flags)
      requires Valid() && childId < |children| && AccessLegal(View(), GETX, childId, true, flags)
      modifies this`numSharers, sharers
      ensures View() == if old(sharers[childId]) then Dropped(old(View()), childId) else old(View())
    {
      ghost var d := View();
      if sharers[childId] {
        assert !(numSharers == 1 && exclusive);
        Sharers.CountOne(d.sharers, childId);
        sharers[childId] := false;
        numSharers := numSharers - 1;
        assert sharers[..] == d.sharers[childId := false];
        assert States() == d.kids;
      }
    }
  }

  // The non-terminal controller: the sequences of the two halves.
  class MESICC {
    const tcc: MESITopCC
    const bcc: MESIBottomCC

    ghost predicate Valid()
      reads this, tcc, tcc.sharers, tcc.children, bcc
    {
      tcc.Valid() && bcc !in tcc.children && Included(tcc.View(), bcc.state)
    }

    constructor (tcc: MESITopCC, bcc: MESIBottomCC)
      requires tcc.Valid() && bcc !in tcc.children && AllInvalid(tcc.View())
      ensures Valid() && this.tcc == tcc && this.bcc == bcc
    {
      this.tcc, this.bcc := tcc, bcc;
    }

    // processAccess, when the parent (if it has to be asked) grants `grant`. The access either
    // panics nowhere or the request was not one the child could send. A prefetch only touches our
    // own state, whatever the child's is.
    method ProcessAccess(t: AccessType, childId: nat, grant: State, flags: Flags, isPrefetch: bool)
      requires Valid() && childId < |tcc.children| && BottomAccessLegal(bcc.state, t, grant)
      requires if isPrefetch then t == GETS else Sendable(t, tcc.children[childId].state, flags)
      modifies bcc, tcc`numSharers, tcc`exclusive, tcc.sharers, tcc.children
      ensures Valid()
      ensures var own := AfterBottomAccess(old(bcc.state), t, grant);
        if isPrefetch then bcc.state == own && tcc.View() == old(tcc.View())
        else
          && AccessLegal(old(tcc.View()), t, childId, Exclusive(own), flags)
          && tcc.View() == AfterAccess(old(tcc.View()), t, childId, Exclusive(own), flags)
          && bcc.state == if t == GETS && HasDirtyKid(old(tcc.View())) then M else own
    {
      BottomFirst(t, grant);
      if !isPrefetch {
        AccessKeepsInclusion(old(tcc.View()), old(bcc.state), t, childId, grant, flags);
        var lowerLevelWriteback := tcc.ProcessAccess(t, childId, bcc.state == E || bcc.state == M, flags);
        if lowerLevelWriteback {
          Writeback();
        }
      }
    }

    // The bottom controller's steps leave the directory alone.
    method BottomFirst(t: AccessType, grant: State)
      requires tcc.Valid() && bcc !in tcc.children && BottomAccessLegal(bcc.state, t, grant)
      modifies bcc
      ensures bcc.state == AfterBottomAccess(old(bcc.state), t, grant)
      ensures tcc.Valid() && tcc.View() == old(tcc.View())
    {
      ghost var d := tcc.View();
      bcc.ProcessAccess(t, grant);
      assert tcc.States() == d.kids;
    }

    method Writeback()
      requires tcc.Valid() && bcc !in tcc.children && Exclusive(bcc.state)
      modifies bcc
      ensures bcc.state == M && tcc.Valid() && tcc.View() == old(tcc.View())
    {
      ghost var d := tcc.View();
      bcc.ProcessWritebackOnAccess();
      assert tcc.States() == d.kids;
    }

    // processInv: the children first, then our own state.
    method ProcessInv(t: InvType) returns (writeback: bool)
      requires Valid() && InvalLegal(bcc.state, t)
      modifies bcc, tcc`numSharers, tcc`exclusive, tcc.sharers, tcc.children
      ensures Valid()
      ensures bcc.state == AfterInval(old(bcc.state), t)
      ensures tcc.View() == if t == FWD then old(tcc.View()) else AfterInvalidates(old(tcc.View()), t)
      ensures writeback <==> t != FWD && (old(bcc.state) == M || HasDirtyKid(old(tcc.View())))
    {
      ghost var d := tcc.View();
      assert forall c | 0 <= c < |d.kids| :: tcc.children[c].state == d.kids[c];
      writeback := false;
      if t != FWD {
        InvalidatesKeepDir(d, t);
        DirtyMeansExclusive(d);
        writeback := tcc.SendInvalidates(t, writeback);
      }
      writeback := bcc.ProcessInval(t, writeback);
    }

    // processEviction: the line is recalled from the children and handed up.
    method ProcessEviction() returns (sent: bool, put: AccessType)
      requires Valid()
      modifies bcc, tcc`numSharers, tcc`exclusive, tcc.sharers, tcc.children
      ensures Valid() && bcc.state == I && AllInvalid(tcc.View())
      ensures sent <==> old(bcc.state) != I
      ensures sent ==> put == if old(bcc.state) == M || HasDirtyKid(old(tcc.View())) then PUTX else PUTS
    {
      ghost var d := tcc.View();
      assert forall c | 0 <= c < |d.kids| :: tcc.children[c].state == d.kids[c];
      InvalidatesKeepDir(d, INV);
      DirtyMeansExclusive(d);
      var lowerLevelWriteback := tcc.SendInvalidates(INV, false);
      sent, put := bcc.ProcessEviction(lowerLevelWriteback);
    }
  }

  // The requests a child in state s can have pending once the race filter has seen them.
  predicate Sendable(t: AccessType, s: State, flags: Flags) {
    match t
    case PUTX => Exclusive(s) && (flags.keepExcl ==> s == M)
    case PUTS => s != I
    case GETS => s == I
    case GETX => !Exclusive(s)
  }

  // An access to a coherent directory meets no assert and keeps inclusion.
  lemma AccessKeepsInclusion(d: Dir, own0: State, t: AccessType, child: nat, grant: State, flags: Flags)
    requires DirOk(d) && Included(d, own0) && child < |d.kids|
    requires BottomAccessLegal(own0, t, grant) && Sendable(t, d.kids[child], flags)
    ensures var own := AfterBottomAccess(own0, t, grant);
      && AccessLegal(d, t, child, Exclusive(own), flags)
      && DirOk(AfterAccess(d, t, child, Exclusive(own), flags))
      && (HasDirtyKid(d) ==> Exclusive(own) && IsExclusive(d))
      && (t == GETX ==> own == M)
      && Included(AfterAccess(d, t, child, Exclusive(own), flags), if t == GETS && HasDirtyKid(d) then M else own)
  {
    var own := AfterBottomAccess(own0, t, grant);
    OwnerIsAlone(d, child);
    AccessKeepsDir(d, t, child, Exclusive(own), flags);
    if t == GETS { GetsKeepsDir(d, child, Exclusive(own), flags); }
  }
}
