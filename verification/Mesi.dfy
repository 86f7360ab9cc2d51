// The MESI protocol between a cache and its children, for one line address.

module MesiTypes {
  datatype State = I | S | E | M
  datatype AccessType = GETS | GETX | PUTS | PUTX
  datatype InvType = INV | INVX | FWD

  predicate Exclusive(s: State) { s == E || s == M }

  // A child's state after an invalidation.
  function AfterInval(s: State, t: InvType): State {
    match t case INV => I case INVX => S case FWD => s
  }

  // The asserts of MESIBottomCC::processInval.
  predicate InvalLegal(s: State, t: InvType) {
    match t case INV => s != I case INVX => Exclusive(s) case FWD => s == S
  }
}

module Sharers {
  ghost function Count(s: seq<bool>): nat {
    if |s| == 0 then 0 else Count(s[..|s| - 1]) + (if s[|s| - 1] then 1 else 0)
  }

  lemma {:induction false} CountUpdate(s: seq<bool>, i: nat, b: bool)
    requires i < |s|
    ensures Count(s[i := b]) == Count(s) + (if b then 1 else 0) - (if s[i] then 1 else 0)
    decreases |s|
  {
    var n := |s| - 1;
    if i < n {
      CountUpdate(s[..n], i, b);
      assert s[i := b][..n] == s[..n][i := b];
    } else {
      assert s[i := b][..n] == s[..n];
    }
  }

  lemma {:induction false} CountZero(s: seq<bool>)
    ensures Count(s) == 0 <==> forall i | 0 <= i < |s| :: !s[i]
    decreases |s|
  {
    if |s| > 0 {
      var n := |s| - 1;
      CountZero(s[..n]);
      assert forall i | 0 <= i < n :: s[..n][i] == s[i];
    }
  }

  lemma CountOne(s: seq<bool>, i: nat)
    requires i < |s| && s[i]
    ensures Count(s) >= 1
    ensures Count(s) == 1 <==> forall j | 0 <= j < |s| && j != i :: !s[j]
  {
    CountUpdate(s, i, false);
    CountZero(s[i := false]);
    assert forall j | 0 <= j < |s| && j != i :: s[i := false][j] == s[j];
  }
}

// The directory entry of MESITopCC together with the states of the children it tracks.
module Directory {
  import opened MesiTypes
  import opened Sharers

  datatype Dir = Dir(sharers: seq<bool>, numSharers: nat, exclusive: bool, kids: seq<State>)

  datatype Flags = Flags(noExcl: bool, keepExcl: bool)

  predicate IsExclusive(d: Dir) { d.numSharers == 1 && d.exclusive }

  // The directory tells the truth about the children.
  ghost predicate DirOk(d: Dir) {
    && |d.sharers| == |d.kids|
    && (forall c | 0 <= c < |d.kids| :: d.sharers[c] <==> d.kids[c] != I)
    && d.numSharers == Count(d.sharers)
    && (d.exclusive ==> d.numSharers <= 1)
    && (forall c | 0 <= c < |d.kids| :: Exclusive(d.kids[c]) ==> IsExclusive(d))
    && (IsExclusive(d) ==> forall c | 0 <= c < |d.kids| && d.sharers[c] :: Exclusive(d.kids[c]))
  }

  ghost predicate AllInvalid(d: Dir) {
    forall c | 0 <= c < |d.kids| :: d.kids[c] == I
  }

  ghost predicate SomeExclusive(d: Dir) {
    exists c :: 0 <= c < |d.kids| && Exclusive(d.kids[c])
  }

  // Inclusion: a valid child needs a valid line, an exclusive child an exclusive one.
  ghost predicate Included(d: Dir, own: State) {
    (!AllInvalid(d) ==> own != I) && (SomeExclusive(d) ==> Exclusive(own))
  }

  // sendInvalidates: downgrades go to an exclusive child only, invalidations to every sharer.
  ghost function AfterInvalidates(d: Dir, t: InvType): (r: Dir)
    requires |d.sharers| == |d.kids| && t != FWD
    ensures |r.sharers| == |r.kids| == |d.kids|
  {
    if t == INVX && !IsExclusive(d) then d
    else
      var kids := seq(|d.kids|, c requires 0 <= c < |d.kids| =>
        if d.sharers[c] then AfterInval(d.kids[c], t) else d.kids[c]);
      if t == INVX then d.(exclusive := false, kids := kids)
      else d.(sharers := seq(|d.sharers|, c => false), numSharers := 0, kids := kids)
  }

  // Some tracked child holds dirty data of its own.
  ghost predicate HasDirtyKid(d: Dir)
    requires |d.sharers| == |d.kids|
  {
    exists c :: 0 <= c < |d.kids| && d.sharers[c] && d.kids[c] == M
  }

  // The asserts at the head of each case of MESITopCC::processAccess.
  predicate AccessLegal(d: Dir, t: AccessType, child: nat, haveExclusive: bool, flags: Flags)
    requires |d.sharers| == |d.kids| && child < |d.kids|
  {
    match t
    case PUTX => IsExclusive(d) && d.sharers[child] && (flags.keepExcl ==> d.kids[child] == M)
    case PUTS => d.sharers[child]
    case GETS => !d.sharers[child]
    case GETX => haveExclusive && (d.sharers[child] ==> !IsExclusive(d))
  }

  // MESITopCC::processAccess.
  ghost function AfterAccess(d: Dir, t: AccessType, child: nat, haveExclusive: bool, flags: Flags): (r: Dir)
    requires DirOk(d) && child < |d.kids| && AccessLegal(d, t, child, haveExclusive, flags)
    ensures |r.sharers| == |r.kids| == |d.kids|
  {
    match t
    case PUTX =>
      if flags.keepExcl then d.(kids := d.kids[child := E]) else Dropped(d, child).(kids := d.kids[child := I])
    case PUTS => Dropped(d, child).(kids := d.kids[child := I])
    case GETS =>
      if d.numSharers == 0 && haveExclusive && !flags.noExcl then Added(d, child, true, E)
      else Added(if IsExclusive(d) then AfterInvalidates(d, INVX) else d, child, false, S)
    case GETX =>
      Added(AfterInvalidates(if d.sharers[child] then Dropped(d, child) else d, INV), child, true, M)
  }

  ghost function Dropped(d: Dir, child: nat): (r: Dir)
    requires child < |d.sharers| && d.sharers[child] && d.numSharers == Count(d.sharers)
    ensures |r.sharers| == |d.sharers| && r.kids == d.kids
  {
    CountOne(d.sharers, child);
    d.(sharers := d.sharers[child := false], numSharers := d.numSharers - 1)
  }

  ghost function Added(d: Dir, child: nat, exclusive: bool, s: State): Dir
    requires |d.sharers| == |d.kids| && child < |d.kids|
  {
    Dir(d.sharers[child := true], d.numSharers + 1, exclusive, d.kids[child := s])
  }

  // What an exclusive directory entry means: one child in E or M, all the others in I.
  lemma OwnerIsAlone(d: Dir, owner: nat)
    requires DirOk(d) && owner < |d.kids|
    ensures Exclusive(d.kids[owner]) ==>
      IsExclusive(d) && forall c | 0 <= c < |d.kids| && c != owner :: d.kids[c] == I
    ensures d.kids[owner] != I && IsExclusive(d) ==> Exclusive(d.kids[owner])
  {
    if d.sharers[owner] { CountOne(d.sharers, owner); }
  }

  lemma InvalidatesKeepDir(d: Dir, t: InvType)
    requires DirOk(d) && t != FWD
    ensures DirOk(AfterInvalidates(d, t))
    ensures forall c | 0 <= c < |d.kids| :: AfterInvalidates(d, t).kids[c] ==
              (if t == INV then I else if Exclusive(d.kids[c]) then S else d.kids[c])
    ensures forall c | 0 <= c < |d.kids| && d.sharers[c] :: t == INV || IsExclusive(d) ==> InvalLegal(d.kids[c], t)
  {
    CountZero(AfterInvalidates(d, t).sharers);
  }

  // A PUT hands the line back; a PUTX that keeps exclusivity leaves it clean with its sender. Nobody
  // else notices.
  lemma PutKeepsDir(d: Dir, t: AccessType, child: nat, haveExclusive: bool, flags: Flags)
    requires DirOk(d) && child < |d.kids| && AccessLegal(d, t, child, haveExclusive, flags)
    requires t == PUTS || t == PUTX
    ensures var r := AfterAccess(d, t, child, haveExclusive, flags);
      DirOk(r) && r.kids == d.kids[child := if t == PUTX && flags.keepExcl then E else I]
  {
    if t == PUTX && flags.keepExcl {
      OwnerIsAlone(d, child);
    } else {
      CountUpdate(d.sharers, child, false);
      CountOne(d.sharers, child);
    }
  }

  // A GETS is granted E when nobody else has the line and the cache itself is exclusive, S
  // otherwise; an exclusive sibling is downgraded.
  lemma GetsKeepsDir(d: Dir, child: nat, haveExclusive: bool, flags: Flags)
    requires DirOk(d) && child < |d.kids| && !d.sharers[child]
    ensures var r := AfterAccess(d, GETS, child, haveExclusive, flags);
      && DirOk(r)
      && (r.kids[child] == if haveExclusive && !flags.noExcl && AllInvalid(d) then E else S)
      && (forall c | 0 <= c < |d.kids| && c != child ::
            r.kids[c] == if Exclusive(d.kids[c]) then S else d.kids[c])
  {
    CountZero(d.sharers);
    InvalidatesKeepDir(d, INVX);
    var d1 := if IsExclusive(d) then AfterInvalidates(d, INVX) else d;
    CountUpdate(d1.sharers, child, true);
    CountOne(d1.sharers[child := true], child);
  }

  // Taking the requester of an upgrade out of the sharers loses no dirty copy.
  lemma TakenOutIsSafe(d: Dir, child: nat, flags: Flags)
    requires DirOk(d) && child < |d.kids| && AccessLegal(d, GETX, child, true, flags)
    ensures var r := if d.sharers[child] then Dropped(d, child) else d;
      && r.numSharers == Count(r.sharers)
      && (HasDirtyKid(r) <==> HasDirtyKid(d))
      && forall c | 0 <= c < |d.kids| && r.sharers[c] :: InvalLegal(d.kids[c], INV)
  {
    OwnerIsAlone(d, child);
    CountUpdate(d.sharers, child, false);
  }

  // A GETX leaves the requester in M and every other child in I.
  lemma GetxKeepsDir(d: Dir, child: nat, flags: Flags)
    requires DirOk(d) && child < |d.kids| && AccessLegal(d, GETX, child, true, flags)
    ensures var r := AfterAccess(d, GETX, child, true, flags);
      && DirOk(r) && r.kids[child] == M
      && forall c | 0 <= c < |d.kids| && c != child :: r.kids[c] == I
  {
    var d1 := AfterInvalidates(if d.sharers[child] then Dropped(d, child) else d, INV);
    CountZero(d1.sharers);
    CountUpdate(d1.sharers, child, true);
    CountOne(d1.sharers[child := true], child);
  }

  lemma AccessKeepsDir(d: Dir, t: AccessType, child: nat, haveExclusive: bool, flags: Flags)
    requires DirOk(d) && child < |d.kids| && AccessLegal(d, t, child, haveExclusive, flags)
    ensures DirOk(AfterAccess(d, t, child, haveExclusive, flags))
  {
    match t
    case PUTX => PutKeepsDir(d, PUTX, child, haveExclusive, flags);
    case PUTS => PutKeepsDir(d, PUTS, child, haveExclusive, flags);
    case GETS => GetsKeepsDir(d, child, haveExclusive, flags);
    case GETX => GetxKeepsDir(d, child, flags);
  }

  lemma DirtyMeansExclusive(d: Dir)
    requires DirOk(d)
    ensures HasDirtyKid(d) ==> IsExclusive(d) && SomeExclusive(d)
  {
  }
}
