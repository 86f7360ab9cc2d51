// A cache tree of any depth under one memory, for one line address: loads, stores, evictions and
// invalidations, each run to completion.

module MesiTree {
  import opened MesiTypes
  import opened Directory
  import opened Controllers = MesiControllers

  datatype Node = Node(state: State, sharers: seq<bool>, numSharers: nat, exclusive: bool, kids: seq<Node>)

  function States(kids: seq<Node>): (s: seq<State>)
    ensures |s| == |kids| && forall c | 0 <= c < |s| :: s[c] == kids[c].state
  {
    seq(|kids|, c requires 0 <= c < |kids| => kids[c].state)
  }

  function DirOf(n: Node): Dir {
    Dir(n.sharers, n.numSharers, n.exclusive, States(n.kids))
  }

  function Rebuilt(own: State, d: Dir, kids: seq<Node>): Node {
    Node(own, d.sharers, d.numSharers, d.exclusive, kids)
  }

  // Every directory of the tree is truthful and every cache includes its children.
  ghost predicate TreeOk(n: Node)
    decreases n
  {
    && DirOk(DirOf(n)) && Included(DirOf(n), n.state)
    && forall c | 0 <= c < |n.kids| :: TreeOk(n.kids[c])
  }

  ghost predicate HasM(n: Node)
    decreases n
  {
    n.state == M || exists c :: 0 <= c < |n.kids| && HasM(n.kids[c])
  }

  lemma {:induction false} CleanBelow(n: Node)
    requires TreeOk(n) && !Exclusive(n.state)
    ensures !HasM(n)
    decreases n
  {
    forall c | 0 <= c < |n.kids| ensures !HasM(n.kids[c]) {
      assert !Exclusive(DirOf(n).kids[c]);
      CleanBelow(n.kids[c]);
    }
  }

  // Invalidations

  // Which children sendInvalidates calls.
  ghost predicate Called(d: Dir, t: InvType, c: nat)
    requires c < |d.sharers|
  {
    d.sharers[c] && (t == INV || IsExclusive(d))
  }

  // The subtree after processInv at its top.
  ghost function Inval(n: Node, t: InvType): (r: Node)
    requires TreeOk(n) && InvalLegal(n.state, t) && t != FWD
    ensures r.state == AfterInval(n.state, t) && |r.kids| == |n.kids|
    ensures DirOf(r) == AfterInvalidates(DirOf(n), t)
    decreases n
  {
    var d := DirOf(n);
    var r := AfterInvalidates(d, t);
    var kids := seq(|n.kids|, c requires 0 <= c < |n.kids| =>
      assert n.kids[c].state == d.kids[c];
      if Called(d, t, c) then Inval(n.kids[c], t) else n.kids[c]);
    assert States(kids) == r.kids;
    Rebuilt(AfterInval(n.state, t), r, kids)
  }

  // The reqWriteback flag it raises.
  ghost predicate Writeback(n: Node, t: InvType)
    requires TreeOk(n) && InvalLegal(n.state, t) && t != FWD
    decreases n
  {
    assert forall c | 0 <= c < |n.kids| :: n.kids[c].state == DirOf(n).kids[c];
    n.state == M || exists c :: 0 <= c < |n.kids| && Called(DirOf(n), t, c) && Writeback(n.kids[c], t)
  }

  lemma {:induction false} InvalKeepsTree(n: Node, t: InvType)
    requires TreeOk(n) && InvalLegal(n.state, t) && t != FWD
    ensures TreeOk(Inval(n, t)) && !HasM(Inval(n, t))
    ensures Writeback(n, t) <==> HasM(n)
    decreases n
  {
    var d, r := DirOf(n), Inval(n, t);
    InvalidatesKeepDir(d, t);
    forall c | 0 <= c < |n.kids|
      ensures TreeOk(r.kids[c]) && !HasM(r.kids[c])
      ensures HasM(n.kids[c]) ==> Called(d, t, c) && Writeback(n.kids[c], t)
      ensures Called(d, t, c) && Writeback(n.kids[c], t) ==> HasM(n.kids[c])
    {
      assert n.kids[c].state == d.kids[c];
      if Called(d, t, c) {
        InvalKeepsTree(n.kids[c], t);
      } else {
        CleanBelow(n.kids[c]);
      }
    }
  }

  // Loads and stores

  // A path of child numbers from a cache down to a terminal cache.
  predicate IsLeafPath(n: Node, path: seq<nat>)
    decreases |path|
  {
    if path == [] then n.kids == [] else path[0] < |n.kids| && IsLeafPath(n.kids[path[0]], path[1..])
  }

  predicate AsksParent(s: State, t: AccessType) {
    if t == GETS then s == I else !Exclusive(s)
  }

  // Does the request of the leaf at the end of the path leave this subtree upwards?
  predicate Reaches(n: Node, path: seq<nat>, t: AccessType)
    requires IsLeafPath(n, path)
    decreases |path|
  {
    (path == [] || Reaches(n.kids[path[0]], path[1..], t)) && AsksParent(n.state, t)
  }

  // Which other children the top controller calls on behalf of child c's request.
  ghost predicate Recalled(d: Dir, t: AccessType, c: nat, k: nat)
    requires k < |d.sharers|
  {
    k != c && d.sharers[k] && (t == GETX || IsExclusive(d))
  }

  function RecallType(t: AccessType): InvType { if t == GETX then INV else INVX }

  predicate GrantOk(t: AccessType, grant: State) {
    if t == GETX then grant == M else t == GETS && (grant == S || grant == E)
  }

  // The subtree after the leaf's GETS or GETX; `grant` is the parent's answer, if it is asked.
  ghost function Access(n: Node, path: seq<nat>, t: AccessType, grant: State, noExcl: bool): (r: Node)
    requires TreeOk(n) && IsLeafPath(n, path) && GrantOk(t, grant)
    ensures |r.kids| == |n.kids|
    decreases |path|
  {
    if path == [] then n.(state := AfterBottomAccess(n.state, t, grant))
    else
      var c := path[0];
      if !Reaches(n.kids[c], path[1..], t) then
        n.(kids := n.kids[c := Access(n.kids[c], path[1..], t, grant, noExcl)])
      else
        var own := AfterBottomAccess(n.state, t, grant);
        var kids := Recall(n, t, c);
        var d := Answered(n, path, t, grant, noExcl);
        Rebuilt(if InducedWriteback(n, t, c) then M else own, d,
                kids[c := Access(n.kids[c], path[1..], t, d.kids[c], noExcl)])
  }

  // The directory after the top controller has answered child path[0].
  ghost function Answered(n: Node, path: seq<nat>, t: AccessType, grant: State, noExcl: bool): (d: Dir)
    requires TreeOk(n) && path != [] && IsLeafPath(n, path) && GrantOk(t, grant)
    requires Reaches(n.kids[path[0]], path[1..], t)
    ensures |d.kids| == |d.sharers| == |n.kids| && GrantOk(t, d.kids[path[0]])
  {
    RequestIsLegal(n, path, t, grant, noExcl);
    AfterAccess(DirOf(n), t, path[0], Exclusive(AfterBottomAccess(n.state, t, grant)), Flags(noExcl, false))
  }

  ghost function Recall(n: Node, t: AccessType, c: nat): (kids: seq<Node>)
    requires TreeOk(n) && (t == GETX || t == GETS)
    ensures |kids| == |n.kids|
  {
    seq(|n.kids|, k requires 0 <= k < |n.kids| =>
      assert n.kids[k].state == DirOf(n).kids[k];
      if Recalled(DirOf(n), t, c, k) then Inval(n.kids[k], RecallType(t)) else n.kids[k])
  }

  ghost predicate InducedWriteback(n: Node, t: AccessType, c: nat)
    requires TreeOk(n) && (t == GETX || t == GETS)
  {
    assert forall k | 0 <= k < |n.kids| :: n.kids[k].state == DirOf(n).kids[k];
    exists k :: 0 <= k < |n.kids| && Recalled(DirOf(n), t, c, k) && Writeback(n.kids[k], RecallType(t))
  }

  // A request that arrives from a child meets no assert, and the child gets what it asked for.
  lemma RequestIsLegal(n: Node, path: seq<nat>, t: AccessType, grant: State, noExcl: bool)
    requires TreeOk(n) && path != [] && IsLeafPath(n, path) && GrantOk(t, grant)
    requires Reaches(n.kids[path[0]], path[1..], t)
    ensures var own := AfterBottomAccess(n.state, t, grant);
      var flags := Flags(noExcl, false);
      && AccessLegal(DirOf(n), t, path[0], Exclusive(own), flags)
      && GrantOk(t, AfterAccess(DirOf(n), t, path[0], Exclusive(own), flags).kids[path[0]])
  {
    var d := DirOf(n);
    AccessKeepsInclusion(d, n.state, t, path[0], grant, Flags(noExcl, false));
    var own := AfterBottomAccess(n.state, t, grant);
    if t == GETS { GetsKeepsDir(d, path[0], Exclusive(own), Flags(noExcl, false)); }
  }

  // After the recall no other child has dirty data, and the flag tells whether one had.
  lemma RecallOne(n: Node, t: AccessType, c: nat, k: nat)
    requires TreeOk(n) && (t == GETX || t == GETS) && c < |n.kids| && k < |n.kids| && k != c
    ensures TreeOk(Recall(n, t, c)[k]) && !HasM(Recall(n, t, c)[k])
    ensures HasM(n.kids[k]) ==> Recalled(DirOf(n), t, c, k) && Writeback(n.kids[k], RecallType(t))
    ensures Recalled(DirOf(n), t, c, k) && Writeback(n.kids[k], RecallType(t)) ==> HasM(n.kids[k])
    ensures Recall(n, t, c)[k].state ==
              if t == GETX then I else if Exclusive(n.kids[k].state) then S else n.kids[k].state
  {
    assert n.kids[k].state == DirOf(n).kids[k];
    if Recalled(DirOf(n), t, c, k) { InvalKeepsTree(n.kids[k], RecallType(t)); }
    else { CleanBelow(n.kids[k]); }
  }

  ghost predicate OtherHasM(n: Node, c: nat) {
    exists k :: 0 <= k < |n.kids| && k != c && HasM(n.kids[k])
  }

  lemma InducedIsOther(n: Node, t: AccessType, c: nat)
    requires TreeOk(n) && (t == GETX || t == GETS) && c < |n.kids|
    ensures InducedWriteback(n, t, c) <==> OtherHasM(n, c)
  {
    forall k | 0 <= k < |n.kids| && k != c
      ensures HasM(n.kids[k]) ==> Recalled(DirOf(n), t, c, k) && Writeback(n.kids[k], RecallType(t))
      ensures Recalled(DirOf(n), t, c, k) && Writeback(n.kids[k], RecallType(t)) ==> HasM(n.kids[k])
    {
      RecallOne(n, t, c, k);
    }
  }

  lemma AnsweredStates(n: Node, path: seq<nat>, t: AccessType, grant: State, noExcl: bool)
    requires TreeOk(n) && path != [] && IsLeafPath(n, path) && GrantOk(t, grant)
    requires Reaches(n.kids[path[0]], path[1..], t)
    ensures var own := AfterBottomAccess(n.state, t, grant);
      var d := Answered(n, path, t, grant, noExcl);
      && DirOk(d) && Included(d, if OtherHasM(n, path[0]) then M else own) && own != I
      && (OtherHasM(n, path[0]) ==> Exclusive(own))
      && (t == GETX ==> own == M)
    ensures forall k | 0 <= k < |n.kids| && k != path[0] ::
              Answered(n, path, t, grant, noExcl).kids[k] ==
              if t == GETX then I else if Exclusive(n.kids[k].state) then S else n.kids[k].state
  {
    var d0, c, flags := DirOf(n), path[0], Flags(noExcl, false);
    var own := AfterBottomAccess(n.state, t, grant);
    AccessKeepsInclusion(d0, n.state, t, c, grant, flags);
    assert forall k | 0 <= k < |n.kids| :: n.kids[k].state == d0.kids[k];
    if t == GETS { GetsKeepsDir(d0, c, Exclusive(own), flags); } else { GetxKeepsDir(d0, c, flags); }
    WritebackMeansExclusive(n, c);
  }

  function StateAt(n: Node, path: seq<nat>): State
    requires IsPath(n, path)
    decreases |path|
  {
    if path == [] then n.state else StateAt(n.kids[path[0]], path[1..])
  }

  predicate IsPath(n: Node, path: seq<nat>)
    decreases |path|
  {
    path == [] || (path[0] < |n.kids| && IsPath(n.kids[path[0]], path[1..]))
  }

  lemma {:induction false} LeafPathIsPath(n: Node, path: seq<nat>)
    requires IsLeafPath(n, path)
    ensures IsPath(n, path)
    decreases |path|
  {
    if path != [] { LeafPathIsPath(n.kids[path[0]], path[1..]); }
  }

  // What an access leaves behind.
  ghost predicate AccessResult(n: Node, path: seq<nat>, t: AccessType, grant: State, r: Node)
    requires IsLeafPath(n, path)
  {
    && TreeOk(r) && IsLeafPath(r, path) && IsPath(r, path)
    && (if Reaches(n, path, t) then r.state == grant else r.state == n.state || (n.state == E && r.state == M))
    && (t == GETX ==> HasM(r) && StateAt(r, path) == M)
    && (t == GETS ==> (HasM(r) <==> HasM(n)) && StateAt(r, path) != I)
  }

  lemma {:induction false} AccessKeepsTree(n: Node, path: seq<nat>, t: AccessType, grant: State, noExcl: bool)
    requires TreeOk(n) && IsLeafPath(n, path) && GrantOk(t, grant)
    ensures AccessResult(n, path, t, grant, Access(n, path, t, grant, noExcl))
    decreases |path|
  {
    if path != [] {
      var c := path[0];
      if Reaches(n.kids[c], path[1..], t) {
        var d := Answered(n, path, t, grant, noExcl);
        AccessKeepsTree(n.kids[c], path[1..], t, d.kids[c], noExcl);
        AccessIsAnswered(n, path, t, grant, noExcl);
        AnswerKeepsTree(n, path, t, grant, noExcl, Access(n.kids[c], path[1..], t, d.kids[c], noExcl));
      } else {
        AccessKeepsTree(n.kids[c], path[1..], t, grant, noExcl);
        PassThroughKeepsTree(n, path, t, grant, Access(n.kids[c], path[1..], t, grant, noExcl));
      }
    }
  }

  // The request was served further down; at most a silent E->M change is visible here.
  lemma PassThroughKeepsTree(n: Node, path: seq<nat>, t: AccessType, grant: State, kid: Node)
    requires TreeOk(n) && path != [] && IsLeafPath(n, path) && GrantOk(t, grant)
    requires !Reaches(n.kids[path[0]], path[1..], t)
    requires AccessResult(n.kids[path[0]], path[1..], t, grant, kid)
    ensures AccessResult(n, path, t, grant, n.(kids := n.kids[path[0] := kid]))
  {
    var c, r := path[0], n.(kids := n.kids[path[0] := kid]);
    assert r.kids[c] == kid;
    KidChangesSilently(n, c, kid);
    OtherKidsStay(n, r, c);
  }

  // A child may go from E to M without telling; the directory stays right.
  lemma KidChangesSilently(n: Node, c: nat, kid: Node)
    requires TreeOk(n) && c < |n.kids| && TreeOk(kid)
    requires kid.state == n.kids[c].state || (n.kids[c].state == E && kid.state == M)
    ensures TreeOk(n.(kids := n.kids[c := kid]))
  {
    var r := n.(kids := n.kids[c := kid]);
    var d := DirOf(n);
    assert n.kids[c].state == d.kids[c];
    assert forall k | 0 <= k < |n.kids| :: r.kids[k] == if k == c then kid else n.kids[k];
    SilentDir(d, n.state, c, kid.state);
    RebuiltOk(n.state, d.(kids := d.kids[c := kid.state]), r.kids);
  }

  lemma SilentDir(d: Dir, own: State, c: nat, s: State)
    requires DirOk(d) && Included(d, own) && c < |d.kids|
    requires s == d.kids[c] || (d.kids[c] == E && s == M)
    ensures DirOk(d.(kids := d.kids[c := s])) && Included(d.(kids := d.kids[c := s]), own)
  {
  }

  lemma OtherKidsStay(n: Node, r: Node, c: nat)
    requires c < |n.kids| && |r.kids| == |n.kids|
    requires forall k | 0 <= k < |n.kids| && k != c :: r.kids[k] == n.kids[k]
    ensures HasM(n) <==> n.state == M || HasM(n.kids[c]) || OtherHasM(n, c)
    ensures HasM(r) <==> r.state == M || HasM(r.kids[c]) || OtherHasM(n, c)
  {
    if OtherHasM(n, c) {
      var k :| 0 <= k < |n.kids| && k != c && HasM(n.kids[k]);
      assert HasM(r.kids[k]);
    }
  }

  ghost function AnsweredTree(n: Node, path: seq<nat>, t: AccessType, grant: State, noExcl: bool, kid: Node): Node
    requires TreeOk(n) && path != [] && IsLeafPath(n, path) && GrantOk(t, grant)
    requires Reaches(n.kids[path[0]], path[1..], t)
  {
    Rebuilt(if OtherHasM(n, path[0]) then M else AfterBottomAccess(n.state, t, grant),
            Answered(n, path, t, grant, noExcl), Recall(n, t, path[0])[path[0] := kid])
  }

  // The request was answered here: the new tree, and which parts of it are dirty.
  lemma AnswerShape(n: Node, path: seq<nat>, t: AccessType, grant: State, noExcl: bool, kid: Node)
    requires TreeOk(n) && path != [] && IsLeafPath(n, path) && GrantOk(t, grant)
    requires Reaches(n.kids[path[0]], path[1..], t)
    requires TreeOk(kid) && kid.state == Answered(n, path, t, grant, noExcl).kids[path[0]]
    ensures var r := AnsweredTree(n, path, t, grant, noExcl, kid);
      && |r.kids| == |n.kids| && r.kids[path[0]] == kid && TreeOk(r)
      && (forall k | 0 <= k < |n.kids| && k != path[0] :: !HasM(r.kids[k]))
  {
    AnsweredStates(n, path, t, grant, noExcl);
    AnsweredKids(n, path, t, grant, noExcl, kid);
    var own := if OtherHasM(n, path[0]) then M else AfterBottomAccess(n.state, t, grant);
    RebuiltOk(own, Answered(n, path, t, grant, noExcl), Recall(n, t, path[0])[path[0] := kid]);
  }

  lemma AnsweredKids(n: Node, path: seq<nat>, t: AccessType, grant: State, noExcl: bool, kid: Node)
    requires TreeOk(n) && path != [] && IsLeafPath(n, path) && GrantOk(t, grant)
    requires Reaches(n.kids[path[0]], path[1..], t)
    requires TreeOk(kid) && kid.state == Answered(n, path, t, grant, noExcl).kids[path[0]]
    ensures var kids := Recall(n, t, path[0])[path[0] := kid];
      && |kids| == |n.kids|
      && (forall k | 0 <= k < |n.kids| ::
            TreeOk(kids[k]) && kids[k].state == Answered(n, path, t, grant, noExcl).kids[k])
      && (forall k | 0 <= k < |n.kids| && k != path[0] :: !HasM(kids[k]))
  {
    RecalledKids(n, path, t, grant, noExcl);
  }

  lemma RecalledKids(n: Node, path: seq<nat>, t: AccessType, grant: State, noExcl: bool)
    requires TreeOk(n) && path != [] && IsLeafPath(n, path) && GrantOk(t, grant)
    requires Reaches(n.kids[path[0]], path[1..], t)
    ensures var kids := Recall(n, t, path[0]);
      forall k | 0 <= k < |n.kids| && k != path[0] ::
        TreeOk(kids[k]) && kids[k].state == Answered(n, path, t, grant, noExcl).kids[k] && !HasM(kids[k])
  {
    AnsweredStates(n, path, t, grant, noExcl);
    forall k | 0 <= k < |n.kids| && k != path[0]
      ensures TreeOk(Recall(n, t, path[0])[k]) && !HasM(Recall(n, t, path[0])[k])
      ensures Recall(n, t, path[0])[k].state == Answered(n, path, t, grant, noExcl).kids[k]
    {
      RecallOne(n, t, path[0], k);
    }
  }

  lemma RebuiltOk(own: State, d: Dir, kids: seq<Node>)
    requires DirOk(d) && Included(d, own) && |kids| == |d.kids|
    requires forall k | 0 <= k < |kids| :: TreeOk(kids[k]) && kids[k].state == d.kids[k]
    ensures TreeOk(Rebuilt(own, d, kids))
  {
    assert States(kids) == d.kids;
    assert DirOf(Rebuilt(own, d, kids)) == d;
  }

  lemma AccessIsAnswered(n: Node, path: seq<nat>, t: AccessType, grant: State, noExcl: bool)
    requires TreeOk(n) && path != [] && IsLeafPath(n, path) && GrantOk(t, grant)
    requires Reaches(n.kids[path[0]], path[1..], t)
    ensures Access(n, path, t, grant, noExcl) == AnsweredTree(n, path, t, grant, noExcl,
              Access(n.kids[path[0]], path[1..], t, Answered(n, path, t, grant, noExcl).kids[path[0]], noExcl))
  {
    InducedIsOther(n, t, path[0]);
  }

  lemma AnswerKeepsTree(n: Node, path: seq<nat>, t: AccessType, grant: State, noExcl: bool, kid: Node)
    requires TreeOk(n) && path != [] && IsLeafPath(n, path) && GrantOk(t, grant)
    requires Reaches(n.kids[path[0]], path[1..], t)
    requires AccessResult(n.kids[path[0]], path[1..], t, Answered(n, path, t, grant, noExcl).kids[path[0]], kid)
    ensures AccessResult(n, path, t, grant, AnsweredTree(n, path, t, grant, noExcl, kid))
  {
    AnswerShape(n, path, t, grant, noExcl, kid);
    AnswerKeepsDirt(n, path, t, grant, noExcl, kid);
    WritebackMeansExclusive(n, path[0]);
  }

  lemma AnswerKeepsDirt(n: Node, path: seq<nat>, t: AccessType, grant: State, noExcl: bool, kid: Node)
    requires TreeOk(n) && path != [] && IsLeafPath(n, path) && GrantOk(t, grant)
    requires Reaches(n.kids[path[0]], path[1..], t)
    requires TreeOk(kid) && kid.state == Answered(n, path, t, grant, noExcl).kids[path[0]]
    requires if t == GETX then HasM(kid) else HasM(kid) <==> HasM(n.kids[path[0]])
    ensures HasM(AnsweredTree(n, path, t, grant, noExcl, kid)) <==> t == GETX || HasM(n)
  {
    AnswerShape(n, path, t, grant, noExcl, kid);
    OneDirtyKid(AnsweredTree(n, path, t, grant, noExcl, kid), path[0]);
    AskerIsClean(n, path[0], t);
    CleanBelow(n.kids[path[0]]);
  }

  lemma OneDirtyKid(r: Node, c: nat)
    requires c < |r.kids| && forall k | 0 <= k < |r.kids| && k != c :: !HasM(r.kids[k])
    ensures HasM(r) <==> r.state == M || HasM(r.kids[c])
  {
  }

  lemma AskerIsClean(n: Node, c: nat, t: AccessType)
    requires TreeOk(n) && c < |n.kids| && AsksParent(n.kids[c].state, t)
    ensures HasM(n) <==> n.state == M || OtherHasM(n, c)
  {
    CleanBelow(n.kids[c]);
    OtherKidsStay(n, n, c);
  }

  lemma WritebackMeansExclusive(n: Node, c: nat)
    requires TreeOk(n) && c < |n.kids|
    ensures OtherHasM(n, c) ==> Exclusive(n.state)
  {
    forall k | 0 <= k < |n.kids| && HasM(n.kids[k]) ensures Exclusive(DirOf(n).kids[k]) {
      if !Exclusive(n.kids[k].state) { CleanBelow(n.kids[k]); }
    }
  }

  // Evictions

  // The tree after the cache at the end of the path has evicted the line: it recalls its own
  // children and its parent handles the PUT.
  ghost function Evict(n: Node, path: seq<nat>): (r: Node)
    requires TreeOk(n) && path != [] && IsPath(n, path)
    decreases |path|
  {
    var c := path[0];
    var kid := n.kids[c];
    if |path| > 1 then n.(kids := n.kids[c := Evict(kid, path[1..])])
    else if kid.state == I then n
    else
      Rebuilt(PutOwn(n, c), PutDir(n, c), n.kids[c := Inval(kid, INV)])
  }

  // The PUT that child c's eviction sends up, and what it makes of the state and the directory here.
  ghost function PutType(n: Node, c: nat): AccessType
    requires TreeOk(n) && c < |n.kids| && n.kids[c].state != I
  {
    if Writeback(n.kids[c], INV) then PUTX else PUTS
  }

  ghost function PutOwn(n: Node, c: nat): State
    requires TreeOk(n) && c < |n.kids| && n.kids[c].state != I
  {
    PutIsLegal(n, c);
    AfterBottomAccess(n.state, PutType(n, c), S)
  }

  ghost function PutDir(n: Node, c: nat): Dir
    requires TreeOk(n) && c < |n.kids| && n.kids[c].state != I
  {
    PutIsLegal(n, c);
    AfterAccess(DirOf(n), PutType(n, c), c, Exclusive(PutOwn(n, c)), Flags(false, false))
  }

  // The PUT of an eviction finds the line in the parent, exclusive if the data is dirty.
  lemma PutIsLegal(n: Node, c: nat)
    requires TreeOk(n) && c < |n.kids| && n.kids[c].state != I
    ensures var put := PutType(n, c);
      && BottomAccessLegal(n.state, put, S)
      && AccessLegal(DirOf(n), put, c, Exclusive(AfterBottomAccess(n.state, put, S)), Flags(false, false))
  {
    var kid := n.kids[c];
    assert kid.state == DirOf(n).kids[c];
    InvalKeepsTree(kid, INV);
    if !Exclusive(kid.state) { CleanBelow(kid); }
  }

  ghost predicate EvictResult(n: Node, path: seq<nat>, r: Node) {
    && TreeOk(r) && IsPath(r, path) && StateAt(r, path) == I
    && (r.state == n.state || (n.state == E && r.state == M))
    && (HasM(r) <==> HasM(n))
  }

  lemma {:induction false} EvictKeepsTree(n: Node, path: seq<nat>)
    requires TreeOk(n) && path != [] && IsPath(n, path)
    ensures EvictResult(n, path, Evict(n, path))
    decreases |path|
  {
    var c := path[0];
    var kid, r := n.kids[c], Evict(n, path);
    if |path| > 1 {
      EvictKeepsTree(kid, path[1..]);
      assert r.kids[c] == Evict(kid, path[1..]);
      KidChangesSilently(n, c, r.kids[c]);
      OtherKidsStay(n, r, c);
    } else if kid.state != I {
      PutHereKeepsTree(n, c);
      assert path[1..] == [];
    } else {
      assert path[1..] == [];
    }
  }

  lemma PutHereKeepsTree(n: Node, c: nat)
    requires TreeOk(n) && c < |n.kids| && n.kids[c].state != I
    ensures var r := Evict(n, [c]);
      && TreeOk(r) && |r.kids| == |n.kids| && r.kids[c].state == I
      && (r.state == n.state || (n.state == E && r.state == M))
      && (HasM(r) <==> HasM(n))
  {
    var kid, r := n.kids[c], Evict(n, [c]);
    PutHereDir(n, c);
    InvalKeepsTree(kid, INV);
    RebuiltOk(PutOwn(n, c), PutDir(n, c), r.kids);
    OtherKidsStay(n, r, c);
  }

  lemma PutHereDir(n: Node, c: nat)
    requires TreeOk(n) && c < |n.kids| && n.kids[c].state != I
    ensures var (own, d) := (PutOwn(n, c), PutDir(n, c));
      && DirOk(d) && Included(d, own) && d.kids == States(n.kids)[c := I]
      && (own == n.state || (n.state == E && own == M))
      && (own == M <==> n.state == M || PutType(n, c) == PUTX)
  {
    PutIsLegal(n, c);
    assert n.kids[c].state == DirOf(n).kids[c];
    AccessKeepsInclusion(DirOf(n), n.state, PutType(n, c), c, S, Flags(false, false));
  }

  // Whole runs

  datatype Op =
    | Load(path: seq<nat>, noExcl: bool)
    | Store(path: seq<nat>)
    | EvictAt(path: seq<nat>)
    | FromAbove(inval: InvType)

  ghost predicate OpOk(root: Node, op: Op) {
    match op
    case Load(path, _) => IsLeafPath(root, path)
    case Store(path) => IsLeafPath(root, path)
    case EvictAt(path) => IsPath(root, path)
    case FromAbove(inval) => inval != FWD && InvalLegal(root.state, inval)
  }

  // The memory grants E (S if asked for no exclusivity) on a GETS and M on a GETX.
  ghost function Apply(root: Node, op: Op): Node
    requires TreeOk(root) && OpOk(root, op)
  {
    match op
    case Load(path, noExcl) => Access(root, path, GETS, if noExcl then S else E, noExcl)
    case Store(path) => Access(root, path, GETX, M, false)
    case EvictAt(path) =>
      if path != [] then Evict(root, path) else if root.state == I then root else Inval(root, INV)
    case FromAbove(inval) => Inval(root, inval)
  }

  // Does dirty data leave the tree upwards: a PUTX to memory, or a raised writeback flag?
  ghost predicate WritesBack(root: Node, op: Op)
    requires TreeOk(root) && OpOk(root, op)
  {
    match op
    case EvictAt(path) => path == [] && root.state != I && Writeback(root, INV)
    case FromAbove(inval) => Writeback(root, inval)
    case _ => false
  }

  lemma ApplyKeepsTree(root: Node, op: Op)
    requires TreeOk(root) && OpOk(root, op)
    ensures TreeOk(Apply(root, op))
    ensures HasM(Apply(root, op)) <==> (op.Store? || HasM(root)) && !WritesBack(root, op)
    ensures WritesBack(root, op) ==> HasM(root)
    ensures op.Load? ==> IsPath(Apply(root, op), op.path) && StateAt(Apply(root, op), op.path) != I
    ensures op.Store? ==> IsPath(Apply(root, op), op.path) && StateAt(Apply(root, op), op.path) == M
  {
    match op
    case Load(path, noExcl) => AccessKeepsTree(root, path, GETS, if noExcl then S else E, noExcl);
    case Store(path) => AccessKeepsTree(root, path, GETX, M, false);
    case EvictAt(path) =>
      if path != [] { EvictKeepsTree(root, path); }
      else if root.state == I { CleanBelow(root); }
      else { InvalKeepsTree(root, INV); }
    case FromAbove(inval) => InvalKeepsTree(root, inval);
  }

  ghost predicate Runnable(root: Node, ops: seq<Op>)
    requires TreeOk(root)
    decreases |ops|
  {
    ops == [] || (OpOk(root, ops[0]) && (ApplyKeepsTree(root, ops[0]); Runnable(Apply(root, ops[0]), ops[1..])))
  }

  ghost function Final(root: Node, ops: seq<Op>): (r: Node)
    requires TreeOk(root) && Runnable(root, ops)
    ensures TreeOk(r)
    decreases |ops|
  {
    if ops == [] then root else ApplyKeepsTree(root, ops[0]); Final(Apply(root, ops[0]), ops[1..])
  }

  // Has there been a store since dirty data last left the tree?
  ghost predicate Unwritten(root: Node, ops: seq<Op>, before: bool)
    requires TreeOk(root) && Runnable(root, ops)
    decreases |ops|
  {
    if ops == [] then before
    else
      ApplyKeepsTree(root, ops[0]);
      Unwritten(Apply(root, ops[0]), ops[1..], (ops[0].Store? || before) && !WritesBack(root, ops[0]))
  }

  // No dirty data is lost or invented: after any run, some cache is in M exactly if a store has
  // not been written back yet.
  lemma {:induction false} DirtyDataIsKept(root: Node, ops: seq<Op>, before: bool)
    requires TreeOk(root) && Runnable(root, ops) && (HasM(root) <==> before)
    ensures HasM(Final(root, ops)) <==> Unwritten(root, ops, before)
    decreases |ops|
  {
    if ops != [] {
      ApplyKeepsTree(root, ops[0]);
      DirtyDataIsKept(Apply(root, ops[0]), ops[1..],
                      (ops[0].Store? || before) && !WritesBack(root, ops[0]));
    }
  }

  // Inclusion along a path: whatever a cache holds, all the caches above it hold too.
  lemma {:induction false} AncestorsInclude(n: Node, path: seq<nat>)
    requires TreeOk(n) && IsPath(n, path)
    ensures StateAt(n, path) != I ==> n.state != I
    ensures Exclusive(StateAt(n, path)) ==> Exclusive(n.state)
    decreases |path|
  {
    if path != [] {
      AncestorsInclude(n.kids[path[0]], path[1..]);
      assert n.kids[path[0]].state == DirOf(n).kids[path[0]];
    }
  }

  // Single writer: two caches neither of which is above the other cannot both hold the line if
  // one of them holds it in E or M.
  lemma {:induction false} SingleWriter(n: Node, p: seq<nat>, q: seq<nat>)
    requires TreeOk(n) && IsPath(n, p) && IsPath(n, q) && !(p <= q) && !(q <= p)
    ensures Exclusive(StateAt(n, p)) ==> StateAt(n, q) == I
    decreases |p|
  {
    var d := DirOf(n);
    if p[0] == q[0] {
      assert p == [p[0]] + p[1..] && q == [q[0]] + q[1..];
      SingleWriter(n.kids[p[0]], p[1..], q[1..]);
    } else {
      AncestorsInclude(n.kids[p[0]], p[1..]);
      AncestorsInclude(n.kids[q[0]], q[1..]);
      assert n.kids[p[0]].state == d.kids[p[0]] && n.kids[q[0]].state == d.kids[q[0]];
      OwnerIsAlone(d, p[0]);
    }
  }

  // What an operation leaves in every cache of the tree

  // The cache k steps down a path.
  function NodeOn(n: Node, path: seq<nat>, k: nat): Node
    requires IsPath(n, path) && k <= |path|
    decreases |path|
  {
    if k == 0 then n else NodeOn(n.kids[path[0]], path[1..], k - 1)
  }

  // How long two paths run together.
  function Common(p: seq<nat>, q: seq<nat>): (m: nat)
    ensures m <= |p| && m <= |q|
  {
    if p == [] || q == [] || p[0] != q[0] then 0 else 1 + Common(p[1..], q[1..])
  }

  // An invalidation takes the line from every cache below, a downgrade its exclusivity.
  lemma {:induction false} InvalStates(n: Node, t: InvType, q: seq<nat>)
    requires TreeOk(n) && InvalLegal(n.state, t) && t != FWD && IsPath(n, q)
    ensures IsPath(Inval(n, t), q)
    ensures StateAt(Inval(n, t), q) ==
              if t == INV then I else if Exclusive(StateAt(n, q)) then S else StateAt(n, q)
    decreases |q|
  {
    if q != [] {
      var kid := n.kids[q[0]];
      assert kid.state == DirOf(n).kids[q[0]];
      if Called(DirOf(n), t, q[0]) { InvalStates(kid, t, q[1..]); } else { AncestorsInclude(kid, q[1..]); }
    }
  }

  // The same for what the top controller does to the other children of a requester.
  lemma RecallStates(n: Node, t: AccessType, c: nat, k: nat, q: seq<nat>)
    requires TreeOk(n) && (t == GETX || t == GETS) && c < |n.kids| && k < |n.kids| && k != c && IsPath(n.kids[k], q)
    ensures IsPath(Recall(n, t, c)[k], q)
    ensures StateAt(Recall(n, t, c)[k], q) ==
              if t == GETX then I else if Exclusive(StateAt(n.kids[k], q)) then S else StateAt(n.kids[k], q)
  {
    assert n.kids[k].state == DirOf(n).kids[k];
    if Recalled(DirOf(n), t, c, k) { InvalStates(n.kids[k], RecallType(t), q); }
    else { AncestorsInclude(n.kids[k], q); }
  }

  // The cache d steps down the path is the lowest on it that can serve the request; -1 if none can.
  ghost predicate ServedAt(n: Node, path: seq<nat>, t: AccessType, d: int)
    requires IsPath(n, path)
  {
    && -1 <= d <= |path|
    && (d >= 0 ==> !AsksParent(NodeOn(n, path, d).state, t))
    && forall k: nat | d < k <= |path| :: AsksParent(NodeOn(n, path, k).state, t)
  }

  // There is exactly one such d.
  lemma {:induction false} ServerOf(n: Node, path: seq<nat>, t: AccessType, m: nat) returns (d: int)
    requires IsPath(n, path) && m <= |path|
    requires forall k: nat | m < k <= |path| :: AsksParent(NodeOn(n, path, k).state, t)
    ensures ServedAt(n, path, t, d)
    ensures forall e | ServedAt(n, path, t, e) :: e == d
  {
    if !AsksParent(NodeOn(n, path, m).state, t) { d := m; }
    else if m == 0 { d := -1; }
    else { d := ServerOf(n, path, t, m - 1); }
  }

  lemma ServedBelow(n: Node, path: seq<nat>, t: AccessType, d: int)
    requires IsPath(n, path) && path != [] && ServedAt(n, path, t, d)
    ensures ServedAt(n.kids[path[0]], path[1..], t, if d > 0 then d - 1 else -1)
  {
    var (kid, e) := (n.kids[path[0]], if d > 0 then d - 1 else -1);
    forall k: nat | e < k < |path| ensures AsksParent(NodeOn(kid, path[1..], k).state, t) {
      assert NodeOn(n, path, k + 1) == NodeOn(kid, path[1..], k);
    }
  }

  lemma {:induction false} ServedReaches(n: Node, path: seq<nat>, t: AccessType, d: int)
    requires IsLeafPath(n, path) && IsPath(n, path) && ServedAt(n, path, t, d)
    ensures Reaches(n, path, t) <==> d == -1
    decreases |path|
  {
    if path != [] {
      ServedBelow(n, path, t, d);
      ServedReaches(n.kids[path[0]], path[1..], t, if d > 0 then d - 1 else -1);
    }
    assert NodeOn(n, path, 0) == n;
  }

  // A load that the cache d steps down serves, or that has `grant` from above, the line being new to
  // all caches below. They get it in E if the server is exclusive, nobody else under it has the line
  // and E is wanted, and in S otherwise. The server is in M if there was dirty data under it; its other
  // descendants lose their exclusivity. All other caches stay as they are.
  ghost function LoadState(n: Node, path: seq<nat>, grant: State, noExcl: bool, d: int, q: seq<nat>): State
    requires IsPath(n, path) && IsPath(n, q) && -1 <= d <= |path|
  {
    var was := StateAt(n, q);
    if Common(path, q) < |q| then if Common(path, q) >= d && Exclusive(was) then S else was
    else if |q| < d then was
    else if |q| == d then if HasM(NodeOn(n, path, d)) then M else was
    else if q == [] then grant
    else if GrantsE(n, path, grant, noExcl, d) then E else S
  }

  ghost predicate GrantsE(n: Node, path: seq<nat>, grant: State, noExcl: bool, d: int)
    requires IsPath(n, path) && -1 <= d <= |path|
  {
    && !noExcl
    && if d == -1 then Exclusive(grant)
       else
         && Exclusive(NodeOn(n, path, d).state)
         && forall kid | kid in NodeOn(n, path, d).kids :: kid.state == I
  }

  // Seen from the child on the path, when that has the request served ...
  lemma LoadStateBelow(n: Node, path: seq<nat>, grant: State, noExcl: bool, d: int, q: seq<nat>)
    requires IsPath(n, path) && IsPath(n, q) && path != [] && 0 < d <= |path|
    ensures LoadState(n, path, grant, noExcl, d, q) ==
              if q != [] && q[0] == path[0]
              then LoadState(n.kids[path[0]], path[1..], grant, noExcl, d - 1, q[1..])
              else StateAt(n, q)
  {
    assert NodeOn(n, path, d) == NodeOn(n.kids[path[0]], path[1..], d - 1);
  }

  // ... and when it is granted the line.
  lemma LoadStateGranted(n: Node, path: seq<nat>, grant: State, noExcl: bool, d: int, q: seq<nat>)
    requires TreeOk(n) && IsPath(n, path) && IsPath(n, q) && path != [] && -1 <= d <= 0
    requires q != [] && q[0] == path[0] && n.kids[path[0]].state == I
    ensures var g := if GrantsE(n, path, grant, noExcl, d) then E else S;
            LoadState(n, path, grant, noExcl, d, q) == LoadState(n.kids[path[0]], path[1..], g, noExcl, -1, q[1..])
  {
    AncestorsInclude(n.kids[path[0]], q[1..]);
  }

  lemma {:induction false} LoadStates(n: Node, path: seq<nat>, grant: State, noExcl: bool, d: int, q: seq<nat>)
    requires TreeOk(n) && IsLeafPath(n, path) && IsPath(n, path) && GrantOk(GETS, grant)
    requires ServedAt(n, path, GETS, d) && IsPath(n, q)
    ensures IsPath(Access(n, path, GETS, grant, noExcl), q)
    ensures StateAt(Access(n, path, GETS, grant, noExcl), q) == LoadState(n, path, grant, noExcl, d, q)
    decreases |path|
  {
    assert NodeOn(n, path, 0) == n;
    if path != [] {
      var (c, e) := (path[0], if d > 0 then d - 1 else -1);
      ServedBelow(n, path, GETS, d);
      ServedReaches(n.kids[c], path[1..], GETS, e);
      if d > 0 {
        LoadStateBelow(n, path, grant, noExcl, d, q);
        if q != [] && q[0] == c { LoadStates(n.kids[c], path[1..], grant, noExcl, e, q[1..]); }
      } else if q != [] && q[0] == c {
        AnsweredE(n, path, grant, noExcl, d);
        LoadStates(n.kids[c], path[1..], Answered(n, path, GETS, grant, noExcl).kids[c], noExcl, -1, q[1..]);
        LoadStateGranted(n, path, grant, noExcl, d, q);
      } else {
        LoadElsewhere(n, path, grant, noExcl, d, q);
      }
    }
  }

  lemma LoadElsewhere(n: Node, path: seq<nat>, grant: State, noExcl: bool, d: int, q: seq<nat>)
    requires TreeOk(n) && IsLeafPath(n, path) && IsPath(n, path) && GrantOk(GETS, grant) && path != []
    requires ServedAt(n, path, GETS, d) && d <= 0 && Reaches(n.kids[path[0]], path[1..], GETS)
    requires IsPath(n, q) && !(q != [] && q[0] == path[0])
    ensures IsPath(Access(n, path, GETS, grant, noExcl), q)
    ensures StateAt(Access(n, path, GETS, grant, noExcl), q) == LoadState(n, path, grant, noExcl, d, q)
  {
    var c := path[0];
    assert NodeOn(n, path, 0) == n;
    AccessIsAnswered(n, path, GETS, grant, noExcl);
    if q == [] {
      AskerIsClean(n, c, GETS);
      WritebackMeansExclusive(n, c);
    } else {
      RecallStates(n, GETS, c, q[0], q[1..]);
    }
  }

  lemma AnsweredE(n: Node, path: seq<nat>, grant: State, noExcl: bool, d: int)
    requires TreeOk(n) && IsLeafPath(n, path) && IsPath(n, path) && GrantOk(GETS, grant) && path != []
    requires ServedAt(n, path, GETS, d) && d <= 0 && Reaches(n.kids[path[0]], path[1..], GETS)
    ensures Answered(n, path, GETS, grant, noExcl).kids[path[0]]
            == if GrantsE(n, path, grant, noExcl, d) then E else S
  {
    var own := AfterBottomAccess(n.state, GETS, grant);
    RequestIsLegal(n, path, GETS, grant, noExcl);
    GetsKeepsDir(DirOf(n), path[0], Exclusive(own), Flags(noExcl, false));
    assert NodeOn(n, path, 0) == n;
    assert forall c | 0 <= c < |n.kids| :: DirOf(n).kids[c] == n.kids[c].state;
  }

  // After a store every cache from the server down to the leaf is in M, every other one below the
  // server in I, and all other caches are as they were.
  function StoreState(n: Node, path: seq<nat>, d: int, q: seq<nat>): State
    requires IsPath(n, q)
  {
    if Common(path, q) < d then StateAt(n, q) else if Common(path, q) < |q| then I else M
  }

  lemma {:induction false} StoreStates(n: Node, path: seq<nat>, d: int, q: seq<nat>)
    requires TreeOk(n) && IsLeafPath(n, path) && IsPath(n, path)
    requires ServedAt(n, path, GETX, d) && IsPath(n, q)
    ensures IsPath(Access(n, path, GETX, M, false), q)
    ensures StateAt(Access(n, path, GETX, M, false), q) == StoreState(n, path, d, q)
    decreases |path|
  {
    assert NodeOn(n, path, 0) == n;
    if path != [] {
      var (c, e) := (path[0], if d > 0 then d - 1 else -1);
      ServedBelow(n, path, GETX, d);
      ServedReaches(n.kids[c], path[1..], GETX, e);
      if d > 0 {
        if q != [] && q[0] == c { StoreStates(n.kids[c], path[1..], e, q[1..]); }
      } else {
        AccessIsAnswered(n, path, GETX, M, false);
        if q == [] {
        } else if q[0] == c {
          StoreStates(n.kids[c], path[1..], -1, q[1..]);
        } else {
          RecallStates(n, GETX, c, q[0], q[1..]);
        }
      }
    }
  }

  // An eviction takes the line from the cache and all below it, and leaves its dirty data with the
  // parent. All other caches stay as they are.
  lemma {:induction false} EvictStates(n: Node, path: seq<nat>, q: seq<nat>)
    requires TreeOk(n) && path != [] && IsPath(n, path) && IsPath(n, q)
    ensures IsPath(Evict(n, path), q)
    ensures StateAt(Evict(n, path), q) ==
              if path <= q then I
              else if q == path[..|path| - 1] && HasM(NodeOn(n, path, |path|)) then M
              else StateAt(n, q)
    decreases |path|
  {
    var c := path[0];
    if |path| > 1 {
      assert NodeOn(n, path, |path|) == NodeOn(n.kids[c], path[1..], |path| - 1);
      if q != [] && q[0] == c {
        PathsBelow(path, q);
        EvictStates(n.kids[c], path[1..], q[1..]);
      }
    } else {
      EvictedHere(n, path, q);
    }
  }

  lemma PathsBelow(p: seq<nat>, q: seq<nat>)
    requires |p| > 1 && q != [] && q[0] == p[0]
    ensures p <= q <==> p[1..] <= q[1..]
    ensures q == p[..|p| - 1] <==> q[1..] == p[1..][..|p| - 2]
  {
    assert p == [p[0]] + p[1..] && q == [q[0]] + q[1..];
  }

  lemma EvictedHere(n: Node, path: seq<nat>, q: seq<nat>)
    requires TreeOk(n) && |path| == 1 && IsPath(n, path) && IsPath(n, q)
    ensures IsPath(Evict(n, path), q)
    ensures StateAt(Evict(n, path), q) ==
              if path <= q then I
              else if q == [] && HasM(n.kids[path[0]]) then M
              else StateAt(n, q)
  {
    var kid := n.kids[path[0]];
    if kid.state == I {
      CleanBelow(kid);
      if path <= q { AncestorsInclude(kid, q[1..]); }
    } else {
      PutHereDir(n, path[0]);
      InvalKeepsTree(kid, INV);
      if path <= q { InvalStates(kid, INV, q[1..]); }
    }
  }

  // A load that misses everywhere brings the line to the whole path in E, or in S if E is not wanted.
  lemma ColdLoad(root: Node, path: seq<nat>, noExcl: bool, k: nat)
    requires TreeOk(root) && root.state == I && IsLeafPath(root, path) && k <= |path|
    ensures IsPath(Apply(root, Load(path, noExcl)), path[..k])
    ensures StateAt(Apply(root, Load(path, noExcl)), path[..k]) == if noExcl then S else E
  {
    LeafPathIsPath(root, path);
    PrefixIsPath(root, path, k);
    forall j: nat | j <= |path| ensures NodeOn(root, path, j).state == I { ColdPath(root, path, j); }
    LoadStates(root, path, if noExcl then S else E, noExcl, -1, path[..k]);
    CommonPrefix(path, k);
  }

  lemma {:induction false} CommonPrefix(path: seq<nat>, k: nat)
    requires k <= |path|
    ensures Common(path, path[..k]) == k
  {
    if k > 0 {
      CommonPrefix(path[1..], k - 1);
      assert path[..k][1..] == path[1..][..k - 1];
    }
  }

  lemma {:induction false} PrefixIsPath(n: Node, path: seq<nat>, k: nat)
    requires IsPath(n, path) && k <= |path|
    ensures IsPath(n, path[..k])
    decreases |path|
  {
    if k > 0 {
      PrefixIsPath(n.kids[path[0]], path[1..], k - 1);
      assert path[..k][1..] == path[1..][..k - 1];
    }
  }

  lemma {:induction false} ColdPath(n: Node, path: seq<nat>, j: nat)
    requires TreeOk(n) && n.state == I && IsPath(n, path) && j <= |path|
    ensures NodeOn(n, path, j).state == I
    decreases |path|
  {
    if j > 0 {
      assert n.kids[path[0]].state == DirOf(n).kids[path[0]];
      ColdPath(n.kids[path[0]], path[1..], j - 1);
    }
  }

  // The load, cache by cache, when the lowest on the path that holds the line is d steps down, or none
  // does and d is -1. Above it nothing changes. It keeps its state or takes over dirty data from
  // further down. Below it, and so in the leaf, the line is in E if that is wanted and memory grants it
  // or a cache in E or M none of whose children has the line, and in S otherwise.
  lemma LoadedOnPath(root: Node, path: seq<nat>, noExcl: bool, d: int, k: nat)
    requires TreeOk(root) && IsLeafPath(root, path) && IsPath(root, path) && -1 <= d <= |path| && k <= |path|
    requires d >= 0 ==> NodeOn(root, path, d).state != I
    requires forall j: nat | d < j <= |path| :: NodeOn(root, path, j).state == I
    ensures IsPath(root, path[..k]) && IsPath(Apply(root, Load(path, noExcl)), path[..k])
    ensures var (was, now) := (StateAt(root, path[..k]), StateAt(Apply(root, Load(path, noExcl)), path[..k]));
            if k < d then now == was
            else if k == d then now == was || now == M
            else
              var give := d < 0 ||
                (var server := NodeOn(root, path, d);
                 (server.state == E || server.state == M) && forall kid | kid in server.kids :: kid.state == I);
              now == if give && !noExcl then E else S
  {
    PrefixIsPath(root, path, k);
    LoadStates(root, path, if noExcl then S else E, noExcl, d, path[..k]);
    CommonPrefix(path, k);
  }

  // A leaf that holds the line keeps its state.
  lemma LoadedAgain(root: Node, path: seq<nat>, noExcl: bool)
    requires TreeOk(root) && IsLeafPath(root, path) && IsPath(root, path) && StateAt(root, path) != I
    ensures IsPath(Apply(root, Load(path, noExcl)), path)
    ensures StateAt(Apply(root, Load(path, noExcl)), path) == StateAt(root, path)
  {
    LeafHolds(root, path);
    LoadStates(root, path, if noExcl then S else E, noExcl, |path|, path);
    CommonMeans(path, path, 0);
  }

  lemma {:induction false} LeafHolds(n: Node, path: seq<nat>)
    requires IsLeafPath(n, path) && IsPath(n, path)
    ensures NodeOn(n, path, |path|).state == StateAt(n, path)
    ensures HasM(NodeOn(n, path, |path|)) <==> StateAt(n, path) == M
    decreases |path|
  {
    if path != [] { LeafHolds(n.kids[path[0]], path[1..]); }
  }

  // Beside the path nothing changes, but for those that are below the server and give up E or M.
  lemma LoadedBeside(root: Node, path: seq<nat>, noExcl: bool, d: int, q: seq<nat>)
    requires TreeOk(root) && IsLeafPath(root, path) && IsPath(root, path) && -1 <= d <= |path|
    requires d >= 0 ==> NodeOn(root, path, d).state != I
    requires forall j: nat | d < j <= |path| :: NodeOn(root, path, j).state == I
    requires IsPath(root, q) && !(q <= path)
    ensures IsPath(Apply(root, Load(path, noExcl)), q)
    ensures var was := StateAt(root, q);
            StateAt(Apply(root, Load(path, noExcl)), q) ==
              if (d >= 0 ==> path[..d] <= q) && (was == E || was == M) then S else was
  {
    LoadStates(root, path, if noExcl then S else E, noExcl, d, q);
    CommonMeans(path, q, if d < 0 then 0 else d);
  }

  lemma {:induction false} CommonMeans(p: seq<nat>, q: seq<nat>, k: nat)
    requires k <= |p|
    ensures Common(p, q) == |q| <==> q <= p
    ensures Common(p, q) >= k <==> p[..k] <= q
  {
    if p != [] && q != [] && p[0] == q[0] {
      CommonMeans(p[1..], q[1..], if k > 0 then k - 1 else 0);
      assert p == [p[0]] + p[1..] && q == [q[0]] + q[1..];
      if k > 0 { assert p[..k] == [p[0]] + p[1..][..k - 1]; }
    }
  }

  // The store, cache by cache: the lowest on the path in E or M is d steps down, or -1. From it to the
  // leaf the path is in M, what is below it beside the path in I, and all else as it was.
  lemma StoredStates(root: Node, path: seq<nat>, d: int, q: seq<nat>)
    requires TreeOk(root) && IsLeafPath(root, path) && IsPath(root, path) && -1 <= d <= |path|
    requires d >= 0 ==> NodeOn(root, path, d).state == E || NodeOn(root, path, d).state == M
    requires forall j: nat | d < j <= |path| :: NodeOn(root, path, j).state == I || NodeOn(root, path, j).state == S
    requires IsPath(root, q)
    ensures IsPath(Apply(root, Store(path)), q)
    ensures StateAt(Apply(root, Store(path)), q) ==
              if d >= 0 && !(path[..d] <= q) then StateAt(root, q) else if q <= path then M else I
  {
    StoreStates(root, path, d, q);
    CommonMeans(path, q, if d < 0 then 0 else d);
  }

  // All of it for the operations of a run: memory grants what is asked for.
  lemma ApplyStates(root: Node, op: Op, d: int, q: seq<nat>)
    requires TreeOk(root) && OpOk(root, op) && IsPath(root, q)
    requires op.Load? || op.Store? ==>
               IsPath(root, op.path) && ServedAt(root, op.path, if op.Load? then GETS else GETX, d)
    ensures IsPath(Apply(root, op), q)
    ensures op.Load? ==>
              StateAt(Apply(root, op), q) == LoadState(root, op.path, if op.noExcl then S else E, op.noExcl, d, q)
    ensures op.Store? ==> StateAt(Apply(root, op), q) == StoreState(root, op.path, d, q)
    ensures op.EvictAt? ==>
              StateAt(Apply(root, op), q) ==
              if op.path <= q then I
              else if q == op.path[..|op.path| - 1] && HasM(NodeOn(root, op.path, |op.path|)) then M
              else StateAt(root, q)
    ensures op.FromAbove? ==>
              StateAt(Apply(root, op), q) ==
              if op.inval == INV then I else if Exclusive(StateAt(root, q)) then S else StateAt(root, q)
  {
    match op
    case Load(path, noExcl) => LoadStates(root, path, if noExcl then S else E, noExcl, d, q);
    case Store(path) => StoreStates(root, path, d, q);
    case EvictAt(path) =>
      if path != [] { EvictStates(root, path, q); }
      else if root.state == I { AncestorsInclude(root, q); }
      else { InvalStates(root, INV, q); }
    case FromAbove(t) => InvalStates(root, t, q);
  }
}
