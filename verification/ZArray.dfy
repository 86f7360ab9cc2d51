// The zcache array: a breadth-first walk over replacement candidates, then a chain of
// relocations that makes room for the new line. To its users it is a plain map.

module ZLayout {
  import opened Arith

  // `numSets` is a power of two, so the mask of the code is the remainder by numSets.
  datatype Shape = Shape(ways: nat, numSets: nat, hash: (nat, nat) -> nat) {
    // The position way w offers to an address.
    function Pos(w: nat, a: nat): nat
      requires numSets > 0
    {
      w * numSets + hash(w, a) % numSets
    }

    ghost predicate Offers(a: nat, p: nat)
      requires numSets > 0
    {
      exists w: nat :: w < ways && Pos(w, a) == p
    }

    lemma PosBound(w: nat, a: nat)
      requires numSets > 0 && w < ways
      ensures Pos(w, a) < ways * numSets
    {
      MulStep(w, ways, numSets);
    }

    lemma PosDistinct(v: nat, w: nat, a: nat, b: nat)
      requires numSets > 0 && v < w
      ensures Pos(v, a) < Pos(w, b)
    {
      MulStep(v, w, numSets);
    }
  }

  // lookup maps positions to line ids; tags maps line ids to addresses, 0 for an empty line.
  ghost predicate IsPermutation(lookup: seq<nat>) {
    && (forall p | 0 <= p < |lookup| :: lookup[p] < |lookup|)
    && forall p, q | 0 <= p < q < |lookup| :: lookup[p] != lookup[q]
  }

  ghost predicate Distinct(tags: seq<nat>) {
    forall i, j | 0 <= i < j < |tags| && tags[i] != 0 :: tags[i] != tags[j]
  }

  // Every cached address is at a position that one of its own ways offers.
  ghost predicate Findable(sh: Shape, tags: seq<nat>, lookup: seq<nat>)
    requires sh.numSets > 0
  {
    forall line | 0 <= line < |tags| && tags[line] != 0 :: At(sh, lookup, tags[line], line)
  }

  ghost predicate At(sh: Shape, lookup: seq<nat>, a: nat, line: nat)
    requires sh.numSets > 0
  {
    exists p :: 0 <= p < |lookup| && lookup[p] == line && sh.Offers(a, p)
  }

  ghost predicate LayoutOk(sh: Shape, tags: seq<nat>, lookup: seq<nat>) {
    && sh.numSets > 0 && sh.ways > 1
    && |tags| == |lookup| == sh.ways * sh.numSets
    && IsPermutation(lookup) && Distinct(tags) && Findable(sh, tags, lookup)
  }

  // The abstract value: addresses to line ids.
  ghost function Contents(tags: seq<nat>): (m: map<nat, nat>)
    requires Distinct(tags)
    ensures forall a :: a in m <==> a != 0 && a in tags
    ensures forall i | 0 <= i < |tags| && tags[i] != 0 :: tags[i] in m && m[tags[i]] == i
  {
    map i | 0 <= i < |tags| && tags[i] != 0 :: tags[i] := i
  }

  // A chain of positions along which lines can move: each line after the first may move to the
  // position before it, and the last position is one the new address offers.
  ghost predicate Chain(sh: Shape, tags: seq<nat>, lookup: seq<nat>, swap: seq<nat>, a: nat, victim: nat) {
    && sh.numSets > 0 && |swap| > 0 && |tags| == |lookup| && IsPermutation(lookup)
    && (forall k | 0 <= k < |swap| :: swap[k] < |lookup|)
    && (forall k, l | 0 <= k < l < |swap| :: swap[k] != swap[l])
    && lookup[swap[0]] == victim
    && (forall k | 0 < k < |swap| :: sh.Offers(tags[lookup[swap[k]]], swap[k - 1]))
    && sh.Offers(a, swap[|swap| - 1])
  }

  // The line ids along the chain moved by one, the first one to the end.
  ghost predicate Rotated(lookup: seq<nat>, after: seq<nat>, swap: seq<nat>)
    requires |swap| > 0 && forall k | 0 <= k < |swap| :: swap[k] < |lookup|
  {
    && |after| == |lookup|
    && (forall k | 0 < k < |swap| :: after[swap[k - 1]] == lookup[swap[k]])
    && after[swap[|swap| - 1]] == lookup[swap[0]]
    && forall p | 0 <= p < |lookup| && p !in swap :: after[p] == lookup[p]
  }

  // Where the line id now at position p was before.
  ghost function Source(swap: seq<nat>, p: nat): (q: nat)
    requires |swap| > 0
    ensures p in swap <==> q in swap
    ensures p !in swap ==> q == p
    ensures p in swap ==> exists k :: 0 <= k < |swap| && swap[k] == p && q == swap[if k < |swap| - 1 then k + 1 else 0]
  {
    if p in swap then
      var k :| 0 <= k < |swap| && swap[k] == p;
      swap[if k < |swap| - 1 then k + 1 else 0]
    else p
  }

  lemma RotatedSource(lookup: seq<nat>, after: seq<nat>, swap: seq<nat>, p: nat)
    requires |swap| > 0 && forall k | 0 <= k < |swap| :: swap[k] < |lookup|
    requires Rotated(lookup, after, swap) && p < |lookup|
    ensures Source(swap, p) < |lookup| && after[p] == lookup[Source(swap, p)]
  {
    if p in swap {
      var k :| 0 <= k < |swap| && swap[k] == p && Source(swap, p) == swap[if k < |swap| - 1 then k + 1 else 0];
      if k < |swap| - 1 { assert after[swap[k + 1 - 1]] == lookup[swap[k + 1]]; }
    }
  }

  lemma RotatedPermutes(lookup: seq<nat>, after: seq<nat>, swap: seq<nat>)
    requires |swap| > 0 && forall k | 0 <= k < |swap| :: swap[k] < |lookup|
    requires forall k, l | 0 <= k < l < |swap| :: swap[k] != swap[l]
    requires Rotated(lookup, after, swap) && IsPermutation(lookup)
    ensures IsPermutation(after)
  {
    forall p | 0 <= p < |after| ensures after[p] < |after| { RotatedSource(lookup, after, swap, p); }
    forall p, q | 0 <= p < q < |after| ensures after[p] != after[q] {
      RotatedSource(lookup, after, swap, p);
      RotatedSource(lookup, after, swap, q);
      assert Source(swap, p) != Source(swap, q);
    }
  }

  lemma RotatedFindable(sh: Shape, tags: seq<nat>, lookup: seq<nat>, after: seq<nat>, swap: seq<nat>, a: nat,
                        victim: nat, line: nat)
    requires LayoutOk(sh, tags, lookup) && Chain(sh, tags, lookup, swap, a, victim)
    requires Rotated(lookup, after, swap) && line < |tags|
    ensures line == victim ==> At(sh, after, a, line)
    ensures line != victim && tags[line] != 0 ==> At(sh, after, tags[line], line)
  {
    if line == victim {
      assert after[swap[|swap| - 1]] == victim;
    } else if tags[line] != 0 {
      assert At(sh, lookup, tags[line], line);
      var p :| 0 <= p < |lookup| && lookup[p] == line && sh.Offers(tags[line], p);
      if p in swap {
        var k :| 0 <= k < |swap| && swap[k] == p;
        assert after[swap[k - 1]] == line;
      }
    }
  }

  lemma ReplacedContents(tags: seq<nat>, victim: nat, a: nat)
    requires Distinct(tags) && victim < |tags| && a != 0 && a !in tags
    ensures Distinct(tags[victim := a])
    ensures Contents(tags[victim := a]) == (Contents(tags) - {tags[victim]})[a := victim]
  {
    var tags' := tags[victim := a];
    var m, m' := Contents(tags), Contents(tags');
    forall x ensures x in m' <==> x in (m - {tags[victim]})[a := victim] {
      if x in m && x != tags[victim] {
        var i :| 0 <= i < |tags| && tags[i] == x;
        assert tags'[i] == x;
      }
      if x in m' && x != a {
        var i :| 0 <= i < |tags'| && tags'[i] == x;
        assert tags[i] == x;
      }
      if x == a { assert tags'[victim] == a; }
    }
    forall x | x in m' ensures m'[x] == (m - {tags[victim]})[a := victim][x] {
      var i :| 0 <= i < |tags'| && tags'[i] == x;
    }
  }

  // Relocation keeps the layout, and to the outside only the victim is replaced.
  lemma RotatedKeepsLayout(sh: Shape, tags: seq<nat>, lookup: seq<nat>, after: seq<nat>, swap: seq<nat>, a: nat,
                           victim: nat)
    requires LayoutOk(sh, tags, lookup) && Chain(sh, tags, lookup, swap, a, victim)
    requires a != 0 && a !in tags && Rotated(lookup, after, swap)
    ensures LayoutOk(sh, tags[victim := a], after)
    ensures Contents(tags[victim := a]) == (Contents(tags) - {tags[victim]})[a := victim]
  {
    RotatedPermutes(lookup, after, swap);
    ReplacedContents(tags, victim, a);
    var tags' := tags[victim := a];
    forall line | 0 <= line < |tags'| && tags'[line] != 0 ensures At(sh, after, tags'[line], line) {
      RotatedFindable(sh, tags, lookup, after, swap, a, victim, line);
    }
  }
}

module ZWalk {
  import opened Arith
  import opened ZLayout

  // One node of the walk: a position, the line there, and the node whose line could move to that
  // position (-1 for a position offered to the incoming address itself).
  datatype Node = Node(pos: nat, lineId: nat, parentIdx: int)

  // The first n entries of the candidate array after `fringe` complete expansions; of the
  // fringe node the ways below w have been expanded too.
  ghost predicate WalkOk(sh: Shape, tags: seq<nat>, lookup: seq<nat>, a: nat, cs: seq<Node>, fringe: nat, w: nat)
    requires LayoutOk(sh, tags, lookup)
  {
    && sh.ways <= |cs| && fringe < |cs| && w <= sh.ways
    && EntriesOk(sh, tags, lookup, a, cs, if w == 0 then fringe else fringe + 1)
    && ExploredUpTo(sh, tags, lookup, cs, fringe, w)
  }

  ghost predicate EntriesOk(sh: Shape, tags: seq<nat>, lookup: seq<nat>, a: nat, cs: seq<Node>, parents: nat)
    requires sh.numSets > 0 && sh.ways <= |cs|
  {
    && (forall i | 0 <= i < |cs| :: cs[i].pos < |lookup| && cs[i].lineId == lookup[cs[i].pos])
    && (forall i | 0 <= i < sh.ways :: cs[i].parentIdx == -1 && sh.Offers(a, cs[i].pos))
    && (forall i | sh.ways <= i < |cs| :: GrowsFrom(sh, tags, cs, i) && cs[i].parentIdx < parents)
    && (forall i, j | sh.ways <= i < j < |cs| :: cs[i].parentIdx <= cs[j].parentIdx)
  }

  ghost predicate ExploredUpTo(sh: Shape, tags: seq<nat>, lookup: seq<nat>, cs: seq<Node>, fringe: nat, w: nat)
    requires sh.numSets > 0
  {
    forall f, v: nat | 0 <= f < |cs| && v < sh.ways && (f < fringe || (f == fringe && v < w)) ::
      Explored(sh, tags, lookup, cs, f, v)
  }

  // Entry i was reached from the line of its parent.
  ghost predicate GrowsFrom(sh: Shape, tags: seq<nat>, cs: seq<Node>, i: nat)
    requires i < |cs| && sh.numSets > 0
  {
    && 0 <= cs[i].parentIdx && cs[i].parentIdx + sh.ways <= i
    && cs[cs[i].parentIdx].lineId < |tags|
    && cs[i].lineId != cs[cs[i].parentIdx].lineId
    && tags[cs[cs[i].parentIdx].lineId] != 0
    && sh.Offers(tags[cs[cs[i].parentIdx].lineId], cs[i].pos)
  }

  // What way v of node f leads to is a child of f, unless it leads back to f itself.
  ghost predicate Explored(sh: Shape, tags: seq<nat>, lookup: seq<nat>, cs: seq<Node>, f: nat, v: nat)
    requires f < |cs| && sh.numSets > 0
  {
    cs[f].lineId < |tags| && sh.Pos(v, tags[cs[f].lineId]) < |lookup| &&
    (lookup[sh.Pos(v, tags[cs[f].lineId])] == cs[f].lineId ||
     exists i :: sh.ways <= i < |cs| && cs[i].parentIdx == f && cs[i].lineId == lookup[sh.Pos(v, tags[cs[f].lineId])])
  }

  ghost predicate FirstWithLine(cs: seq<Node>, i: nat)
    requires i < |cs|
  {
    forall j | 0 <= j < i :: cs[j].lineId != cs[i].lineId
  }

  // A line explored before the parent of node i leads to node i's line before i.
  lemma SameChildEarlier(sh: Shape, tags: seq<nat>, lookup: seq<nat>, a: nat, cs: seq<Node>, fringe: nat, j: nat,
                         i: nat)
    requires LayoutOk(sh, tags, lookup) && WalkOk(sh, tags, lookup, a, cs, fringe, 0)
    requires sh.ways <= i < |cs| && j < cs[i].parentIdx && cs[j].lineId == cs[cs[i].parentIdx].lineId
    ensures !FirstWithLine(cs, i)
  {
    assert GrowsFrom(sh, tags, cs, i);
    var v: nat :| v < sh.ways && sh.Pos(v, tags[cs[j].lineId]) == cs[i].pos;
    assert Explored(sh, tags, lookup, cs, j, v);
    var k :| sh.ways <= k < |cs| && cs[k].parentIdx == j && cs[k].lineId == cs[i].lineId;
  }

  // The key step: the parent of a node that is the first one with its line is the first one with
  // its own line. Otherwise the earlier node with the parent's line would have had the same
  // children, and earlier.
  lemma ParentIsFirst(sh: Shape, tags: seq<nat>, lookup: seq<nat>, a: nat, cs: seq<Node>, fringe: nat, i: nat)
    requires LayoutOk(sh, tags, lookup) && WalkOk(sh, tags, lookup, a, cs, fringe, 0)
    requires sh.ways <= i < |cs| && FirstWithLine(cs, i)
    ensures 0 <= cs[i].parentIdx < i && FirstWithLine(cs, cs[i].parentIdx)
  {
    assert GrowsFrom(sh, tags, cs, i);
    forall j | 0 <= j < cs[i].parentIdx && cs[j].lineId == cs[cs[i].parentIdx].lineId ensures false {
      SameChildEarlier(sh, tags, lookup, a, cs, fringe, j, i);
    }
  }

  // Exactly one way of a cached address leads back to its own line.
  lemma OwnWay(sh: Shape, tags: seq<nat>, lookup: seq<nat>, line: nat) returns (own: nat)
    requires LayoutOk(sh, tags, lookup) && line < |tags| && tags[line] != 0
    ensures own < sh.ways
    ensures forall v: nat | v < sh.ways :: sh.Pos(v, tags[line]) < |lookup| &&
              (lookup[sh.Pos(v, tags[line])] == line <==> v == own)
  {
    assert At(sh, lookup, tags[line], line);
    own :| own < sh.ways && sh.Pos(own, tags[line]) < |lookup| && lookup[sh.Pos(own, tags[line])] == line;
    forall v: nat | v < sh.ways
      ensures sh.Pos(v, tags[line]) < |lookup| && (lookup[sh.Pos(v, tags[line])] == line <==> v == own)
    {
      sh.PosBound(v, tags[line]);
      if v < own { sh.PosDistinct(v, own, tags[line], tags[line]); }
      if own < v { sh.PosDistinct(own, v, tags[line], tags[line]); }
    }
  }

  // Expanding one way of the fringe node.
  lemma ExpandWay(sh: Shape, tags: seq<nat>, lookup: seq<nat>, a: nat, cs: seq<Node>, fringe: nat, w: nat)
    requires LayoutOk(sh, tags, lookup) && WalkOk(sh, tags, lookup, a, cs, fringe, w) && w < sh.ways
    requires tags[cs[fringe].lineId] != 0 && fringe + sh.ways <= |cs|
    ensures var pos := sh.Pos(w, tags[cs[fringe].lineId]);
      && pos < |lookup|
      && (lookup[pos] != cs[fringe].lineId ==>
            WalkOk(sh, tags, lookup, a, cs + [Node(pos, lookup[pos], fringe)], fringe, w + 1))
      && (lookup[pos] == cs[fringe].lineId ==> WalkOk(sh, tags, lookup, a, cs, fringe, w + 1))
  {
    var pos := sh.Pos(w, tags[cs[fringe].lineId]);
    sh.PosBound(w, tags[cs[fringe].lineId]);
    if lookup[pos] != cs[fringe].lineId {
      AppendEntry(sh, tags, lookup, a, cs, fringe, w);
      AppendExplored(sh, tags, lookup, cs, fringe, w);
    }
  }

  lemma AppendEntry(sh: Shape, tags: seq<nat>, lookup: seq<nat>, a: nat, cs: seq<Node>, fringe: nat, w: nat)
    requires sh.numSets > 0 && w < sh.ways <= |cs| && EntriesOk(sh, tags, lookup, a, cs, fringe + 1)
    requires fringe + sh.ways <= |cs| && cs[fringe].lineId < |tags| && tags[cs[fringe].lineId] != 0
    requires var pos := sh.Pos(w, tags[cs[fringe].lineId]); pos < |lookup| && lookup[pos] != cs[fringe].lineId
    ensures var pos := sh.Pos(w, tags[cs[fringe].lineId]);
      EntriesOk(sh, tags, lookup, a, cs + [Node(pos, lookup[pos], fringe)], fringe + 1)
  {
    var pos := sh.Pos(w, tags[cs[fringe].lineId]);
    var cs' := cs + [Node(pos, lookup[pos], fringe)];
    assert forall i | 0 <= i < |cs| :: cs'[i] == cs[i];
    forall i | sh.ways <= i < |cs'| ensures GrowsFrom(sh, tags, cs', i) && cs'[i].parentIdx < fringe + 1 {
      if i < |cs| { assert GrowsFrom(sh, tags, cs, i); }
    }
  }

  lemma AppendExplored(sh: Shape, tags: seq<nat>, lookup: seq<nat>, cs: seq<Node>, fringe: nat, w: nat)
    requires sh.numSets > 0 && w < sh.ways <= |cs| && ExploredUpTo(sh, tags, lookup, cs, fringe, w)
    requires fringe + sh.ways <= |cs| && cs[fringe].lineId < |tags|
    requires var pos := sh.Pos(w, tags[cs[fringe].lineId]); pos < |lookup|
    ensures var pos := sh.Pos(w, tags[cs[fringe].lineId]);
      ExploredUpTo(sh, tags, lookup, cs + [Node(pos, lookup[pos], fringe)], fringe, w + 1)
  {
    var pos := sh.Pos(w, tags[cs[fringe].lineId]);
    var cs' := cs + [Node(pos, lookup[pos], fringe)];
    forall f, v: nat | 0 <= f < |cs'| && v < sh.ways && (f < fringe || (f == fringe && v < w + 1))
      ensures Explored(sh, tags, lookup, cs', f, v)
    {
      if f < fringe || v < w {
        assert Explored(sh, tags, lookup, cs, f, v);
        StillExplored(sh, tags, lookup, cs, cs', f, v);
      } else {
        assert cs'[|cs|].parentIdx == f;
      }
    }
  }

  // With all its ways expanded, the next node is the fringe.
  lemma NextFringe(sh: Shape, tags: seq<nat>, lookup: seq<nat>, a: nat, cs: seq<Node>, fringe: nat)
    requires LayoutOk(sh, tags, lookup) && WalkOk(sh, tags, lookup, a, cs, fringe, sh.ways) && fringe + 1 < |cs|
    ensures WalkOk(sh, tags, lookup, a, cs, fringe + 1, 0)
  {
    forall f, v: nat | 0 <= f < |cs| && v < sh.ways && f < fringe + 1 ensures Explored(sh, tags, lookup, cs, f, v) {
    }
  }

  lemma StillExplored(sh: Shape, tags: seq<nat>, lookup: seq<nat>, cs: seq<Node>, cs': seq<Node>, f: nat, v: nat)
    requires sh.numSets > 0 && f < |cs| <= |cs'| && cs'[..|cs|] == cs
    requires Explored(sh, tags, lookup, cs, f, v)
    ensures Explored(sh, tags, lookup, cs', f, v)
  {
    assert forall i | 0 <= i < |cs| :: cs'[i] == cs'[..|cs|][i];
    if lookup[sh.Pos(v, tags[cs[f].lineId])] != cs[f].lineId {
      var i :| sh.ways <= i < |cs| && cs[i].parentIdx == f && cs[i].lineId == lookup[sh.Pos(v, tags[cs[f].lineId])];
      assert cs'[i].parentIdx == f;
    }
  }

  // The walk by line ids

  // The line at the position that way w offers to an address.
  function LineAt(sh: Shape, lookup: seq<nat>, w: nat, a: nat): nat
    requires sh.numSets > 0 && w < sh.ways && |lookup| == sh.ways * sh.numSets
  {
    sh.PosBound(w, a);
    lookup[sh.Pos(w, a)]
  }

  // The lines at the positions of an address.
  ghost function Seeds(sh: Shape, lookup: seq<nat>, a: nat): seq<nat>
    requires sh.numSets > 0 && |lookup| == sh.ways * sh.numSets
  {
    seq(sh.ways, w requires 0 <= w < sh.ways => LineAt(sh, lookup, w, a))
  }

  // The lines that the line's address could go instead of, by its first n ways.
  ghost function Others(sh: Shape, tags: seq<nat>, lookup: seq<nat>, line: nat, n: nat): seq<nat>
    requires sh.numSets > 0 && n <= sh.ways && |lookup| == sh.ways * sh.numSets && line < |tags|
  {
    if n == 0 then []
    else
      var there := LineAt(sh, lookup, n - 1, tags[line]);
      Others(sh, tags, lookup, line, n - 1) + if there != line then [there] else []
  }

  // Breadth first: the lines at the positions of the new address, and then the others of the first,
  // the second and so on of all these, n times.
  ghost function Breadth(sh: Shape, tags: seq<nat>, lookup: seq<nat>, a: nat, n: nat): seq<nat>
    requires LayoutOk(sh, tags, lookup)
  {
    if n == 0 then Seeds(sh, lookup, a)
    else
      var before := Breadth(sh, tags, lookup, a, n - 1);
      if n <= |before| && before[n - 1] < |tags|
      then before + Others(sh, tags, lookup, before[n - 1], sh.ways)
      else before
  }

  predicate NoneEmpty(tags: seq<nat>, lines: seq<nat>) {
    forall i | 0 <= i < |lines| :: lines[i] < |tags| && tags[lines[i]] != 0
  }

  // It goes on until there are enough or one of them is an empty line.
  ghost predicate GoesOn(sh: Shape, tags: seq<nat>, lookup: seq<nat>, a: nat, cands: nat, n: nat)
    requires LayoutOk(sh, tags, lookup)
  {
    |Breadth(sh, tags, lookup, a, n)| < cands && NoneEmpty(tags, Breadth(sh, tags, lookup, a, n))
  }

  // The lines that the replacement policy has to choose from.
  ghost predicate Offered(sh: Shape, tags: seq<nat>, lookup: seq<nat>, a: nat, cands: nat, lines: seq<nat>)
    requires LayoutOk(sh, tags, lookup)
  {
    exists n :: EndsAt(sh, tags, lookup, a, cands, n) && lines == UpTo(Breadth(sh, tags, lookup, a, n), cands)
  }

  ghost predicate EndsAt(sh: Shape, tags: seq<nat>, lookup: seq<nat>, a: nat, cands: nat, n: nat)
    requires LayoutOk(sh, tags, lookup)
  {
    !GoesOn(sh, tags, lookup, a, cands, n) && forall m: nat | m < n :: GoesOn(sh, tags, lookup, a, cands, m)
  }

  function UpTo(all: seq<nat>, cands: nat): (lines: seq<nat>)
    ensures |lines| <= cands && lines <= all && (|lines| == cands || lines == all)
  {
    if |all| > cands then all[..cands] else all
  }

  // The lines at the line's other positions, way by way, its own being at way own.
  ghost predicate OtherWays(sh: Shape, tags: seq<nat>, lookup: seq<nat>, line: nat, others: seq<nat>, own: nat)
    requires LayoutOk(sh, tags, lookup)
  {
    && line < |tags| && own < sh.ways && |others| == sh.ways - 1
    && forall v: nat | v < sh.ways ::
         LineAt(sh, lookup, v, tags[line]) == if v == own then line else others[if v < own then v else v - 1]
  }

  // Candidate f and those its expansion finds: where they stand.
  ghost predicate Block(sh: Shape, tags: seq<nat>, lookup: seq<nat>, lines: seq<nat>, f: nat)
    requires LayoutOk(sh, tags, lookup)
  {
    && f < |lines| && First(sh, f) <= First(sh, f + 1) <= |lines|
    && Displaced(sh, tags, lookup, lines[f], lines[First(sh, f)..First(sh, f + 1)])
  }

  ghost predicate Displaced(sh: Shape, tags: seq<nat>, lookup: seq<nat>, line: nat, others: seq<nat>)
    requires LayoutOk(sh, tags, lookup)
  {
    exists own :: OtherWays(sh, tags, lookup, line, others, own)
  }

  // The place of the first line that the expansion of line f finds.
  function First(sh: Shape, f: nat): (i: nat)
    requires sh.ways > 0
    ensures i >= sh.ways
  {
    if f == 0 then sh.ways else First(sh, f - 1) + sh.ways - 1
  }

  lemma {:induction false} OthersAre(sh: Shape, tags: seq<nat>, lookup: seq<nat>, line: nat, own: nat, n: nat)
    requires LayoutOk(sh, tags, lookup) && line < |tags| && n <= sh.ways
    requires forall v: nat | v < sh.ways :: LineAt(sh, lookup, v, tags[line]) == line <==> v == own
    ensures var others := Others(sh, tags, lookup, line, n);
            && |others| == n - (if own < n then 1 else 0)
            && forall v: nat | v < n && v != own ::
                 others[if v < own then v else v - 1] == LineAt(sh, lookup, v, tags[line])
  {
    if n > 0 { OthersAre(sh, tags, lookup, line, own, n - 1); }
  }

  lemma {:induction false} FirstStep(sh: Shape, n: nat)
    requires sh.ways > 1
    ensures First(sh, n + 1) == First(sh, n) + sh.ways - 1 && First(sh, n) > n
  {
    if n > 0 { FirstStep(sh, n - 1); }
  }

  lemma {:induction false} FirstMonotone(sh: Shape, m: nat, n: nat)
    requires sh.ways > 1 && m < n
    ensures First(sh, m) < First(sh, n)
  {
    FirstStep(sh, n - 1);
    if m < n - 1 { FirstMonotone(sh, m, n - 1); }
  }

  lemma {:induction false} BreadthBlocks(sh: Shape, tags: seq<nat>, lookup: seq<nat>, a: nat, cands: nat,
                                         n: nat, f: nat)
    requires LayoutOk(sh, tags, lookup) && forall m: nat | m < n :: GoesOn(sh, tags, lookup, a, cands, m)
    ensures var lines := Breadth(sh, tags, lookup, a, n);
            && |lines| == First(sh, n) && lines[..sh.ways] == Seeds(sh, lookup, a)
            && (f < n ==> Block(sh, tags, lookup, lines, f))
  {
    FirstStep(sh, n);
    if n > 0 {
      BreadthBlocks(sh, tags, lookup, a, cands, n - 1, f);
      assert GoesOn(sh, tags, lookup, a, cands, n - 1);
      MoreBlocks(sh, tags, lookup, Breadth(sh, tags, lookup, a, n - 1), n - 1, f);
    }
  }

  lemma MoreBlocks(sh: Shape, tags: seq<nat>, lookup: seq<nat>, before: seq<nat>, n: nat, f: nat)
    requires LayoutOk(sh, tags, lookup) && |before| == First(sh, n) && NoneEmpty(tags, before)
    requires f < n ==> Block(sh, tags, lookup, before, f)
    ensures n < |before| && before[n] < |tags| && sh.ways <= |before|
    ensures var lines := before + Others(sh, tags, lookup, before[n], sh.ways);
            && |lines| == First(sh, n + 1) && lines[..sh.ways] == before[..sh.ways]
            && (f <= n ==> Block(sh, tags, lookup, lines, f))
  {
    FirstStep(sh, n);
    LastBlock(sh, tags, lookup, before, n);
    if f < n { SameBlock(sh, tags, lookup, before, Others(sh, tags, lookup, before[n], sh.ways), f); }
  }

  lemma LastBlock(sh: Shape, tags: seq<nat>, lookup: seq<nat>, before: seq<nat>, f: nat)
    requires LayoutOk(sh, tags, lookup) && |before| == First(sh, f) > f && NoneEmpty(tags, before)
    ensures var lines := before + Others(sh, tags, lookup, before[f], sh.ways);
            |lines| == First(sh, f + 1) && Block(sh, tags, lookup, lines, f)
  {
    var others := Others(sh, tags, lookup, before[f], sh.ways);
    FirstStep(sh, f);
    OthersDisplaced(sh, tags, lookup, before[f]);
    assert (before + others)[First(sh, f)..First(sh, f + 1)] == others;
  }

  lemma OthersDisplaced(sh: Shape, tags: seq<nat>, lookup: seq<nat>, line: nat)
    requires LayoutOk(sh, tags, lookup) && line < |tags| && tags[line] != 0
    ensures var others := Others(sh, tags, lookup, line, sh.ways);
            |others| == sh.ways - 1 && Displaced(sh, tags, lookup, line, others)
  {
    var own := OwnWay(sh, tags, lookup, line);
    OthersAre(sh, tags, lookup, line, own, sh.ways);
    assert OtherWays(sh, tags, lookup, line, Others(sh, tags, lookup, line, sh.ways), own);
  }

  lemma SameBlock(sh: Shape, tags: seq<nat>, lookup: seq<nat>, lines: seq<nat>, more: seq<nat>, f: nat)
    requires LayoutOk(sh, tags, lookup) && First(sh, f + 1) <= |lines|
    ensures Block(sh, tags, lookup, lines + more, f) <==> Block(sh, tags, lookup, lines, f)
  {
    FirstStep(sh, f);
    assert (lines + more)[First(sh, f)..First(sh, f + 1)] == lines[First(sh, f)..First(sh, f + 1)];
  }

  // What the policy is offered, by places: the lines at the address's own positions come first, then
  // block after block the lines at the other positions of line f, its own being in way own.
  lemma OfferedMeans(sh: Shape, tags: seq<nat>, lookup: seq<nat>, a: nat, cands: nat, lines: seq<nat>, f: nat, x: nat)
    returns (own: nat)
    requires LayoutOk(sh, tags, lookup) && cands >= sh.ways && Offered(sh, tags, lookup, a, cands, lines)
    requires x < sh.ways - 1
    ensures sh.ways <= |lines| <= cands
    ensures forall w: nat | w < sh.ways :: lines[w] == (sh.PosBound(w, a); lookup[sh.Pos(w, a)])
    ensures First(sh, f) + x < |lines| ==>
              && f < |lines| && lines[f] < |tags| && own < sh.ways
              && LineAt(sh, lookup, own, tags[lines[f]]) == lines[f]
              && LineAt(sh, lookup, if x < own then x else x + 1, tags[lines[f]]) == lines[First(sh, f) + x]
  {
    var n :| EndsAt(sh, tags, lookup, a, cands, n) && lines == UpTo(Breadth(sh, tags, lookup, a, n), cands);
    var all := Breadth(sh, tags, lookup, a, n);
    BreadthBlocks(sh, tags, lookup, a, cands, n, f);
    forall w: nat | w < sh.ways ensures lines[w] == LineAt(sh, lookup, w, a) {
      assert all[w] == all[..sh.ways][w];
    }
    FirstStep(sh, f);
    own := 0;
    if First(sh, f) + x < |lines| {
      if f > n { FirstMonotone(sh, n, f); }
      own := InBlock(sh, tags, lookup, all, f, x);
    }
  }

  lemma {:induction false} FirstIs(sh: Shape, f: nat)
    requires sh.ways > 0
    ensures First(sh, f) == sh.ways + f * (sh.ways - 1)
  {
    if f > 0 {
      FirstIs(sh, f - 1);
      assert f * (sh.ways - 1) == (f - 1) * (sh.ways - 1) + (sh.ways - 1);
    }
  }

  lemma InBlock(sh: Shape, tags: seq<nat>, lookup: seq<nat>, lines: seq<nat>, f: nat, x: nat) returns (own: nat)
    requires LayoutOk(sh, tags, lookup) && Block(sh, tags, lookup, lines, f) && First(sh, f) + x < First(sh, f + 1)
    requires First(sh, f + 1) == First(sh, f) + sh.ways - 1
    ensures own < sh.ways && lines[f] < |tags|
    ensures LineAt(sh, lookup, own, tags[lines[f]]) == lines[f]
    ensures LineAt(sh, lookup, if x < own then x else x + 1, tags[lines[f]]) == lines[First(sh, f) + x]
  {
    var others := lines[First(sh, f)..First(sh, f + 1)];
    own :| OtherWays(sh, tags, lookup, lines[f], others, own);
    assert others[x] == lines[First(sh, f) + x];
  }

  // There are as many as asked for, unless one of them is an empty line; its block is then the last.
  lemma OfferedEnds(sh: Shape, tags: seq<nat>, lookup: seq<nat>, a: nat, cands: nat, lines: seq<nat>, f: nat)
    requires LayoutOk(sh, tags, lookup) && cands >= sh.ways && Offered(sh, tags, lookup, a, cands, lines)
    ensures |lines| == cands || exists i :: 0 <= i < |lines| && (lines[i] < |tags| ==> tags[lines[i]] == 0)
    ensures forall i | 0 <= i < |lines| && i < First(sh, f) && lines[i] < |tags| && tags[lines[i]] == 0 ::
              |lines| <= First(sh, f)
  {
    var n :| EndsAt(sh, tags, lookup, a, cands, n) && lines == UpTo(Breadth(sh, tags, lookup, a, n), cands);
    BreadthBlocks(sh, tags, lookup, a, cands, n, 0);
    if f < n {
      assert GoesOn(sh, tags, lookup, a, cands, f);
      BreadthBlocks(sh, tags, lookup, a, cands, f, 0);
      BreadthGrows(sh, tags, lookup, a, f, n);
    } else if f > n {
      FirstMonotone(sh, n, f);
    }
  }

  lemma {:induction false} BreadthGrows(sh: Shape, tags: seq<nat>, lookup: seq<nat>, a: nat, m: nat, n: nat)
    requires LayoutOk(sh, tags, lookup) && m <= n
    ensures Breadth(sh, tags, lookup, a, m) <= Breadth(sh, tags, lookup, a, n)
  {
    if m < n { BreadthGrows(sh, tags, lookup, a, m, n - 1); }
  }

  ghost function Ids(cs: seq<Node>): (lines: seq<nat>)
    ensures |lines| == |cs| && forall i | 0 <= i < |cs| :: lines[i] == cs[i].lineId
  {
    seq(|cs|, i requires 0 <= i < |cs| => cs[i].lineId)
  }

  // The walk has come to these nodes after n rounds.
  ghost predicate Walking(sh: Shape, tags: seq<nat>, lookup: seq<nat>, a: nat, cands: nat, nodes: seq<Node>, n: nat,
                          allValid: bool) {
    && LayoutOk(sh, tags, lookup) && n + sh.ways <= |nodes| && WalkOk(sh, tags, lookup, a, nodes, n, 0)
    && Came(sh, tags, lookup, a, cands, nodes, n, allValid)
  }

  ghost predicate Came(sh: Shape, tags: seq<nat>, lookup: seq<nat>, a: nat, cands: nat, nodes: seq<Node>, n: nat,
                       allValid: bool)
    requires LayoutOk(sh, tags, lookup)
  {
    && Ids(nodes) == Breadth(sh, tags, lookup, a, n)
    && (forall m: nat | m < n :: GoesOn(sh, tags, lookup, a, cands, m))
    && (allValid <==> NoneEmpty(tags, Ids(nodes)))
  }

  // What the expansion of the fringe node has come to after w ways; before are the lines it began
  // with.
  ghost predicate Growing(sh: Shape, tags: seq<nat>, lookup: seq<nat>, a: nat, nodes: seq<Node>, fringe: nat, w: nat,
                          before: seq<nat>, allValid: bool) {
    && LayoutOk(sh, tags, lookup) && fringe + sh.ways <= |nodes| && WalkOk(sh, tags, lookup, a, nodes, fringe, w)
    && FringeCached(tags, nodes, fringe)
    && Ids(nodes) == before + Others(sh, tags, lookup, nodes[fringe].lineId, w)
    && (allValid <==> NoneEmpty(tags, Ids(nodes)))
  }

  predicate FringeCached(tags: seq<nat>, nodes: seq<Node>, fringe: nat) {
    fringe < |nodes| && nodes[fringe].lineId < |tags| && tags[nodes[fringe].lineId] != 0
  }

  lemma SeedsWalk(sh: Shape, tags: seq<nat>, lookup: seq<nat>, a: nat, cands: nat, nodes: seq<Node>, allValid: bool)
    requires LayoutOk(sh, tags, lookup) && |nodes| == sh.ways
    requires forall i | 0 <= i < sh.ways ::
               && nodes[i].pos == sh.Pos(i, a) < |lookup| && nodes[i].lineId == lookup[nodes[i].pos]
               && nodes[i].parentIdx == -1
    requires allValid <==> forall i | 0 <= i < sh.ways :: tags[nodes[i].lineId] != 0
    ensures Walking(sh, tags, lookup, a, cands, nodes, 0, allValid)
  {
    assert Ids(nodes) == Seeds(sh, lookup, a);
  }

  lemma GrowNone(sh: Shape, tags: seq<nat>, lookup: seq<nat>, a: nat, cands: nat, nodes: seq<Node>, fringe: nat)
    requires Walking(sh, tags, lookup, a, cands, nodes, fringe, true)
    ensures Growing(sh, tags, lookup, a, nodes, fringe, 0, Ids(nodes), true)
  {
    assert Ids(nodes)[fringe] == nodes[fringe].lineId;
    assert Ids(nodes) == Ids(nodes) + [];
  }

  lemma GrowOne(sh: Shape, tags: seq<nat>, lookup: seq<nat>, a: nat, nodes: seq<Node>, fringe: nat, w: nat,
                before: seq<nat>, allValid: bool)
    requires Growing(sh, tags, lookup, a, nodes, fringe, w, before, allValid) && w < sh.ways
    ensures var pos := sh.Pos(w, tags[nodes[fringe].lineId]);
            && pos < |lookup| && lookup[pos] < |tags|
            && if lookup[pos] == nodes[fringe].lineId
               then Growing(sh, tags, lookup, a, nodes, fringe, w + 1, before, allValid)
               else Growing(sh, tags, lookup, a, nodes + [Node(pos, lookup[pos], fringe)], fringe, w + 1, before,
                            allValid && tags[lookup[pos]] != 0)
  {
    ExpandWay(sh, tags, lookup, a, nodes, fringe, w);
    var pos := sh.Pos(w, tags[nodes[fringe].lineId]);
    if lookup[pos] != nodes[fringe].lineId {
      assert Ids(nodes + [Node(pos, lookup[pos], fringe)]) == Ids(nodes) + [lookup[pos]];
      OneMoreLine(tags, Ids(nodes), lookup[pos]);
    }
  }

  lemma OneMoreLine(tags: seq<nat>, lines: seq<nat>, line: nat)
    requires line < |tags|
    ensures NoneEmpty(tags, lines + [line]) <==> NoneEmpty(tags, lines) && tags[line] != 0
  {
    assert (lines + [line])[|lines|] == line;
    assert forall i | 0 <= i < |lines| :: (lines + [line])[i] == lines[i];
  }

  lemma WalkEnds(sh: Shape, tags: seq<nat>, lookup: seq<nat>, a: nat, cands: nat, nodes: seq<Node>, n: nat,
                 allValid: bool)
    requires Walking(sh, tags, lookup, a, cands, nodes, n, allValid) && (|nodes| >= cands || !allValid)
    ensures EndsAt(sh, tags, lookup, a, cands, n) && Ids(nodes) == Breadth(sh, tags, lookup, a, n)
  {
  }

  lemma RoundDone(sh: Shape, tags: seq<nat>, lookup: seq<nat>, a: nat, cands: nat, nodes: seq<Node>, n: nat,
                  nodes': seq<Node>, allValid: bool)
    requires LayoutOk(sh, tags, lookup) && Came(sh, tags, lookup, a, cands, nodes, n, true) && |nodes| < cands
    requires n + sh.ways <= |nodes| < |nodes'| && nodes'[n] == nodes[n]
    requires Growing(sh, tags, lookup, a, nodes', n, sh.ways, Ids(nodes), allValid)
    ensures Walking(sh, tags, lookup, a, cands, nodes', n + 1, allValid)
  {
    NextFringe(sh, tags, lookup, a, nodes', n);
    RoundCame(sh, tags, lookup, a, cands, nodes, n, nodes', allValid);
  }

  lemma RoundCame(sh: Shape, tags: seq<nat>, lookup: seq<nat>, a: nat, cands: nat, nodes: seq<Node>, n: nat,
                  nodes': seq<Node>, allValid: bool)
    requires LayoutOk(sh, tags, lookup) && Came(sh, tags, lookup, a, cands, nodes, n, true) && |nodes| < cands
    requires FringeCached(tags, nodes, n) && (allValid <==> NoneEmpty(tags, Ids(nodes')))
    requires Ids(nodes') == Ids(nodes) + Others(sh, tags, lookup, nodes[n].lineId, sh.ways)
    ensures Came(sh, tags, lookup, a, cands, nodes', n + 1, allValid)
  {
    RoundLines(sh, tags, lookup, a, cands, nodes, n);
  }

  lemma RoundLines(sh: Shape, tags: seq<nat>, lookup: seq<nat>, a: nat, cands: nat, nodes: seq<Node>, n: nat)
    requires LayoutOk(sh, tags, lookup) && |nodes| < cands && FringeCached(tags, nodes, n)
    requires Ids(nodes) == Breadth(sh, tags, lookup, a, n) && NoneEmpty(tags, Ids(nodes))
    ensures Ids(nodes) + Others(sh, tags, lookup, nodes[n].lineId, sh.ways) == Breadth(sh, tags, lookup, a, n + 1)
    ensures GoesOn(sh, tags, lookup, a, cands, n)
  {
    assert Ids(nodes)[n] == nodes[n].lineId;
  }

  // n nodes each at least `ways` entries apart.
  function Span(n: nat, ways: nat): nat { if n == 0 then 0 else Span(n - 1, ways) + ways }

  lemma {:induction false} SpanIs(n: nat, ways: nat)
    ensures Span(n, ways) == n * ways
  {
    if n > 0 {
      SpanIs(n - 1, ways);
      MulDistributes(n - 1, 1, ways);
    }
  }

  // The nodes from `top` up through the parents, as far as index `idx`: each one the first with
  // its line, and each parent at least `ways` entries before its child.
  ghost predicate Climb(sh: Shape, cs: seq<Node>, nodes: seq<nat>, top: nat, idx: int) {
    && top < |cs| && idx < |cs|
    && (forall k | 0 <= k < |nodes| :: nodes[k] < |cs| && FirstWithLine(cs, nodes[k]))
    && (forall k | 0 < k < |nodes| :: nodes[k] == cs[nodes[k - 1]].parentIdx)
    && (forall k | 0 <= k < |nodes| :: nodes[k] > idx)
    && (forall k, l | 0 <= k < l < |nodes| :: nodes[k] > nodes[l])
    && (if |nodes| == 0 then idx == top else nodes[0] == top && idx == cs[nodes[|nodes| - 1]].parentIdx)
    && (idx >= 0 ==> FirstWithLine(cs, idx) && idx + Span(|nodes|, sh.ways) <= top)
    && idx >= -1
  }

  // From every first node with its line the climb goes on to another, or is at the end.
  ghost predicate Climbable(sh: Shape, cs: seq<Node>) {
    forall i | 0 <= i < |cs| && FirstWithLine(cs, i) :: ClimbsOn(sh, cs, i)
  }

  ghost predicate ClimbsOn(sh: Shape, cs: seq<Node>, i: nat)
    requires i < |cs|
  {
    var p := cs[i].parentIdx;
    p == -1 || (0 <= p && p + sh.ways <= i && p < i && FirstWithLine(cs, p))
  }

  lemma WalkIsClimbable(sh: Shape, tags: seq<nat>, lookup: seq<nat>, a: nat, cs: seq<Node>, fringe: nat)
    requires LayoutOk(sh, tags, lookup) && WalkOk(sh, tags, lookup, a, cs, fringe, 0)
    ensures Climbable(sh, cs)
  {
    forall i | sh.ways <= i < |cs| && FirstWithLine(cs, i) ensures ClimbsOn(sh, cs, i) {
      assert GrowsFrom(sh, tags, cs, i);
      ParentIsFirst(sh, tags, lookup, a, cs, fringe, i);
    }
  }

  lemma ClimbOn(sh: Shape, cs: seq<Node>, nodes: seq<nat>, top: nat, idx: nat)
    requires Climb(sh, cs, nodes, top, idx) && ClimbsOn(sh, cs, idx)
    ensures Climb(sh, cs, nodes + [idx], top, cs[idx].parentIdx)
  {
  }

  // The finished climb is a chain along which lines can be relocated.
  lemma ClimbIsChain(sh: Shape, tags: seq<nat>, lookup: seq<nat>, a: nat, cs: seq<Node>, fringe: nat,
                     nodes: seq<nat>, top: nat, swap: seq<nat>)
    requires LayoutOk(sh, tags, lookup) && WalkOk(sh, tags, lookup, a, cs, fringe, 0)
    requires Climb(sh, cs, nodes, top, -1) && |nodes| > 0
    requires |swap| == |nodes| && forall k | 0 <= k < |nodes| :: swap[k] == cs[nodes[k]].pos
    ensures Chain(sh, tags, lookup, swap, a, cs[top].lineId)
  {
    forall k, l | 0 <= k < l < |swap| ensures swap[k] != swap[l] {
      assert FirstWithLine(cs, nodes[k]);
      assert cs[nodes[l]].lineId != cs[nodes[k]].lineId;
    }
    forall k | 0 < k < |swap| ensures sh.Offers(tags[lookup[swap[k]]], swap[k - 1]) {
      assert nodes[k] == cs[nodes[k - 1]].parentIdx;
      assert GrowsFrom(sh, tags, cs, nodes[k - 1]);
    }
    var last := nodes[|nodes| - 1];
    assert last >= sh.ways ==> GrowsFrom(sh, tags, cs, last);
  }
}

module ZArrays {
  import opened Arith
  import opened ZLayout
  import opened ZWalk

  class ZArray {
    const shape: Shape
    const cands: nat
    const numLines: nat
    const tags: array<nat>         // line id to address ("array" in the source)
    const lookupArray: array<nat>  // position to line id
    const swapArray: array<nat>    // set by Preinsert, used by Postinsert
    var swapArrayLen: nat
    var lastCandIdx: nat

    ghost predicate Shaped() {
      && shape.numSets > 0 && shape.ways > 1 && cands >= shape.ways
      && numLines == shape.ways * shape.numSets
      && tags.Length == lookupArray.Length == numLines
      && swapArray.Length == cands / shape.ways + 2
      && tags != lookupArray && tags != swapArray && lookupArray != swapArray
    }

    ghost predicate Valid()
      reads tags, lookupArray
    {
      Shaped() && LayoutOk(shape, tags[..], lookupArray[..])
    }

    ghost function Value(): map<nat, nat>
      requires Valid()
      reads tags, lookupArray
    {
      Contents(tags[..])
    }

    // What Preinsert hands to Postinsert.
    ghost predicate Prepared(a: nat, victim: nat)
      reads this, tags, lookupArray, swapArray
    {
      Valid() && 0 < swapArrayLen <= swapArray.Length &&
      Chain(shape, tags[..], lookupArray[..], swapArray[..swapArrayLen], a, victim)
    }

    constructor (ways: nat, numSets: nat, cands: nat, hash: (nat, nat) -> nat)
      requires ways > 1 && numSets > 0 && cands >= ways
      ensures Valid() && Value() == map[]
      ensures shape == Shape(ways, numSets, hash) && this.cands == cands
      ensures fresh(tags) && fresh(lookupArray) && fresh(swapArray)
    {
      shape := Shape(ways, numSets, hash);
      this.cands := cands;
      numLines := ways * numSets;
      lookupArray := new nat[ways * numSets](i => i);
      tags := new nat[ways * numSets](_ => 0);
      swapArray := new nat[cands / ways + 2](_ => 0);
      swapArrayLen, lastCandIdx := 0, 0;
    }

    // The line id of a cached address, -1 for any other.
    method Lookup(lineAddr: nat) returns (r: int)
      requires Valid() && lineAddr != 0
      ensures r == if lineAddr in Value() then Value()[lineAddr] else -1
    {
      if lineAddr in Value() { SomeWayFinds(lineAddr); }
      for w := 0 to shape.ways
        invariant forall v: nat | v < w :: shape.Pos(v, lineAddr) < numLines &&
                    tags[lookupArray[shape.Pos(v, lineAddr)]] != lineAddr
      {
        shape.PosBound(w, lineAddr);
        var lineId := lookupArray[shape.Pos(w, lineAddr)];
        if tags[lineId] == lineAddr {
          assert tags[..][lineId] == lineAddr;
          return lineId;
        }
      }
      r := -1;
    }

    lemma SomeWayFinds(lineAddr: nat)
      requires Valid() && lineAddr in Value()
      ensures exists w: nat :: w < shape.ways && shape.Pos(w, lineAddr) < numLines &&
                tags[lookupArray[shape.Pos(w, lineAddr)]] == lineAddr
    {
      var line := Value()[lineAddr];
      assert tags[..][line] == lineAddr;
      assert At(shape, lookupArray[..], tags[..][line], line);
      var w: nat :| w < shape.ways && shape.Pos(w, lineAddr) < numLines && lookupArray[shape.Pos(w, lineAddr)] == line;
    }

    // rankCands: the replacement policy chooses among the lines of the first n candidates.
    method RankCands(policy: seq<nat> -> nat, cs: array<Node>, n: nat) returns (best: nat)
      requires 0 < n <= cs.Length && forall lines | lines != [] :: policy(lines) in lines
      ensures best == policy(Ids(cs[..n])) && exists i :: 0 <= i < n && cs[i].lineId == best
    {
      var lines := seq(n, i requires 0 <= i < n <= cs.Length reads cs => cs[i].lineId);
      assert lines == Ids(cs[..n]);
      best := policy(lines);
      assert best in lines;
    }

    ghost predicate Walked(cs: array<Node>, num: nat, a: nat, fringe: nat, w: nat)
      requires Valid()
      reads tags, lookupArray, cs
    {
      num <= cs.Length && WalkOk(shape, tags[..], lookupArray[..], a, cs[..num], fringe, w)
    }

    method Seed(cs: array<Node>, lineAddr: nat) returns (allValid: bool)
      requires Valid() && cs.Length == cands + shape.ways
      modifies cs
      ensures Walking(shape, tags[..], lookupArray[..], lineAddr, cands, cs[..shape.ways], 0, allValid)
    {
      allValid := true;
      for w := 0 to shape.ways
        invariant forall i | 0 <= i < w :: cs[i].pos < numLines && cs[i].lineId == lookupArray[cs[i].pos] &&
                    cs[i].parentIdx == -1 && cs[i].pos == shape.Pos(i, lineAddr)
        invariant allValid <==> forall i | 0 <= i < w :: tags[cs[i].lineId] != 0
      {
        shape.PosBound(w, lineAddr);
        var pos := shape.Pos(w, lineAddr);
        var lineId := lookupArray[pos];
        cs[w] := Node(pos, lineId, -1);
        allValid := allValid && tags[lineId] != 0;
      }
      SeedsWalk(shape, tags[..], lookupArray[..], lineAddr, cands, cs[..shape.ways], allValid);
    }

    // One round of the walk: expands the fringe node along all its ways. It adds exactly
    // ways - 1 candidates.
    method Expand(cs: array<Node>, num: nat, lineAddr: nat, fringe: nat, ghost nodes: seq<Node>)
      returns (num': nat, allValid: bool, ghost nodes': seq<Node>)
      requires Valid() && cs.Length == cands + shape.ways && num < cands
      requires cs[..num] == nodes && Walking(shape, tags[..], lookupArray[..], lineAddr, cands, nodes, fringe, true)
      modifies cs
      ensures num' == num + shape.ways - 1 && cs[..num'] == nodes'
      ensures Walking(shape, tags[..], lookupArray[..], lineAddr, cands, nodes', fringe + 1, allValid)
    {
      GrowNone(shape, tags[..], lookupArray[..], lineAddr, cands, nodes, fringe);
      num', allValid, nodes' := ExpandWays(cs, num, lineAddr, fringe, nodes);
      RoundDone(shape, tags[..], lookupArray[..], lineAddr, cands, nodes, fringe, nodes', allValid);
    }

    // The loop over the ways; one of them leads back to the fringe line.
    method ExpandWays(cs: array<Node>, num: nat, lineAddr: nat, fringe: nat, ghost nodes: seq<Node>)
      returns (num': nat, allValid: bool, ghost nodes': seq<Node>)
      requires Valid() && cs.Length == cands + shape.ways && num < cands && cs[..num] == nodes
      requires fringe + shape.ways <= num
      requires Growing(shape, tags[..], lookupArray[..], lineAddr, nodes, fringe, 0, Ids(nodes), true)
      modifies cs
      ensures num' == num + shape.ways - 1 && cs[..num'] == nodes' && nodes'[fringe] == nodes[fringe]
      ensures Growing(shape, tags[..], lookupArray[..], lineAddr, nodes', fringe, shape.ways, Ids(nodes), allValid)
    {
      ghost var ids := Ids(nodes);
      ghost var own := OwnWay(shape, tags[..], lookupArray[..], nodes[fringe].lineId);
      nodes' := nodes;
      num', allValid := num, true;
      var w := 0;
      while w < shape.ways
        invariant 0 <= w <= shape.ways && num' == num + w - (if own < w then 1 else 0)
        invariant num <= num' && cs[..num'] == nodes' && nodes'[fringe] == nodes[fringe]
        invariant Growing(shape, tags[..], lookupArray[..], lineAddr, nodes', fringe, w, ids, allValid)
      {
        num', allValid, nodes' := ExpandOne(cs, num', lineAddr, fringe, w, allValid, nodes', ids);
        w := w + 1;
      }
    }

    // Expands one way; the fringe line's own way adds nothing.
    method ExpandOne(cs: array<Node>, num: nat, lineAddr: nat, fringe: nat, w: nat, allSoFar: bool,
                     ghost nodes: seq<Node>, ghost before: seq<nat>)
      returns (num': nat, allValid: bool, ghost nodes': seq<Node>)
      requires Valid() && w < shape.ways && num < cs.Length && cs[..num] == nodes
      requires fringe + shape.ways <= num
      requires Growing(shape, tags[..], lookupArray[..], lineAddr, nodes, fringe, w, before, allSoFar)
      modifies cs
      ensures num' <= cs.Length && cs[..num'] == nodes' && |nodes'| >= |nodes| && nodes'[fringe] == nodes[fringe]
      ensures Growing(shape, tags[..], lookupArray[..], lineAddr, nodes', fringe, w + 1, before, allValid)
      ensures var pos := shape.Pos(w, tags[nodes[fringe].lineId]);
              pos < numLines && num' == if lookupArray[pos] != nodes[fringe].lineId then num + 1 else num
    {
      GrowOne(shape, tags[..], lookupArray[..], lineAddr, nodes, fringe, w, before, allSoFar);
      assert cs[fringe] == nodes[fringe];
      var fringeId := cs[fringe].lineId;
      var pos := shape.Pos(w, tags[fringeId]);
      var lineId := lookupArray[pos];
      cs[num] := Node(pos, lineId, fringe);
      assert cs[..num] == nodes && cs[..num + 1] == nodes + [Node(pos, lineId, fringe)];
      allValid := allSoFar && tags[lineId] != 0;
      num' := num + (if lineId != fringeId then 1 else 0);
      nodes' := cs[..num'];
    }

    // preinsert: chooses a victim and the relocations that free a position for the address.
    method Preinsert(lineAddr: nat, policy: seq<nat> -> nat) returns (victim: nat, wbLineAddr: nat)
      requires Valid() && lineAddr != 0 && lineAddr !in Value()
      requires forall lines | lines != [] :: policy(lines) in lines
      modifies this`swapArrayLen, this`lastCandIdx, swapArray
      ensures Prepared(lineAddr, victim) && victim < numLines && wbLineAddr == tags[victim]
      ensures exists lines ::
                Offered(shape, tags[..], lookupArray[..], lineAddr, cands, lines) && victim == policy(lines)
    {
      var cs, walked, fringe := Walk(lineAddr);
      var numCandidates := if walked > cands then cands else walked;
      victim := RankCands(policy, cs, numCandidates);
      assert Ids(cs[..numCandidates]) == UpTo(Ids(cs[..walked]), cands);
      TakeVictim(cs, walked, numCandidates, lineAddr, fringe, victim);
      wbLineAddr := tags[victim];
    }

    // Records the relocations that free the victim.
    method TakeVictim(cs: array<Node>, ghost walked: nat, numCandidates: nat, ghost lineAddr: nat, ghost fringe: nat,
                      victim: nat)
      requires Valid() && Walked(cs, walked, lineAddr, fringe, 0) && numCandidates <= walked && numCandidates <= cands
      requires exists i :: 0 <= i < numCandidates && cs[i].lineId == victim
      modifies this`swapArrayLen, this`lastCandIdx, swapArray
      ensures Prepared(lineAddr, victim) && victim < numLines
    {
      var minIdx := FirstIndex(cs, numCandidates, victim);
      lastCandIdx := minIdx;
      assert FirstWithLine(cs[..walked], minIdx);
      FillSwapArray(cs, walked, lineAddr, fringe, minIdx);
    }

    method Walk(lineAddr: nat) returns (cs: array<Node>, numCandidates: nat, ghost fringe: nat)
      requires Valid()
      ensures fresh(cs) && Walked(cs, numCandidates, lineAddr, fringe, 0) && numCandidates > 0
      ensures Ids(cs[..numCandidates]) == Breadth(shape, tags[..], lookupArray[..], lineAddr, fringe)
      ensures EndsAt(shape, tags[..], lookupArray[..], lineAddr, cands, fringe)
    {
      cs := new Node[cands + shape.ways](_ => Node(0, 0, -1));
      var allValid := Seed(cs, lineAddr);
      var fringeStart := 0;
      numCandidates := shape.ways;
      ghost var nodes := cs[..numCandidates];
      while numCandidates < cands && allValid
        invariant numCandidates <= cs.Length && cs[..numCandidates] == nodes
        invariant Walking(shape, tags[..], lookupArray[..], lineAddr, cands, nodes, fringeStart, allValid)
        decreases cands - numCandidates
      {
        numCandidates, allValid, nodes := Expand(cs, numCandidates, lineAddr, fringeStart, nodes);
        fringeStart := fringeStart + 1;
      }
      assert !allValid || numCandidates >= cands;
      WalkEnds(shape, tags[..], lookupArray[..], lineAddr, cands, nodes, fringeStart, allValid);
      fringe := fringeStart;
    }

    // The minimum index of the candidates with the victim's line.
    method FirstIndex(cs: array<Node>, n: nat, victim: nat) returns (minIdx: nat)
      requires n <= cs.Length && exists i :: 0 <= i < n && cs[i].lineId == victim
      ensures minIdx < n && cs[minIdx].lineId == victim
      ensures forall j | 0 <= j < minIdx :: cs[j].lineId != victim
    {
      minIdx := 0;
      while cs[minIdx].lineId != victim
        invariant minIdx < n && exists i :: minIdx <= i < n && cs[i].lineId == victim
        invariant forall j | 0 <= j < minIdx :: cs[j].lineId != victim
        decreases n - minIdx
      {
        minIdx := minIdx + 1;
      }
    }

    // Writes the positions from the chosen candidate up to its seed; they fit the swap array.
    method FillSwapArray(cs: array<Node>, ghost num: nat, ghost a: nat, ghost fringe: nat, minIdx: nat)
      requires Valid() && Walked(cs, num, a, fringe, 0) && minIdx < num && minIdx < cands
      requires FirstWithLine(cs[..num], minIdx)
      modifies this`swapArrayLen, swapArray
      ensures Prepared(a, cs[minIdx].lineId)
    {
      ghost var all := cs[..num];
      WalkIsClimbable(shape, tags[..], lookupArray[..], a, all, fringe);
      ghost var nodes := ClimbUp(cs, all, minIdx);
      ClimbDone(num, a, fringe, all, nodes, minIdx);
    }

    method ClimbUp(cs: array<Node>, ghost all: seq<Node>, minIdx: nat) returns (ghost nodes: seq<nat>)
      requires Shaped() && swapArray != lookupArray && |all| <= cs.Length && cs[..|all|] == all
      requires minIdx < |all| && minIdx < cands && FirstWithLine(all, minIdx) && Climbable(shape, all)
      modifies this`swapArrayLen, swapArray
      ensures Climb(shape, all, nodes, minIdx, -1) && swapArrayLen == |nodes| <= swapArray.Length
      ensures forall k | 0 <= k < swapArrayLen :: swapArray[k] == all[nodes[k]].pos
    {
      nodes := [];
      var idx: int := minIdx;
      var swapIdx := 0;
      while idx >= 0
        invariant Climb(shape, all, nodes, minIdx, idx) && swapIdx == |nodes| <= swapArray.Length
        invariant forall k | 0 <= k < swapIdx :: swapArray[k] == all[nodes[k]].pos
        decreases idx
      {
        FitsSwapArray(swapIdx, shape.ways, idx, cands);
        assert ClimbsOn(shape, all, idx);
        ClimbOn(shape, all, nodes, minIdx, idx);
        assert cs[idx] == all[idx];
        swapArray[swapIdx] := cs[idx].pos;
        nodes := nodes + [idx as nat];
        swapIdx := swapIdx + 1;
        idx := cs[idx].parentIdx;
      }
      swapArrayLen := swapIdx;
    }

    lemma ClimbDone(num: nat, a: nat, fringe: nat, all: seq<Node>, nodes: seq<nat>, minIdx: nat)
      requires Valid() && WalkOk(shape, tags[..], lookupArray[..], a, all, fringe, 0)
      requires Climb(shape, all, nodes, minIdx, -1) && swapArrayLen == |nodes| <= swapArray.Length
      requires forall k | 0 <= k < swapArrayLen :: swapArray[k] == all[nodes[k]].pos
      ensures Prepared(a, all[minIdx].lineId)
    {
      ClimbIsChain(shape, tags[..], lookupArray[..], a, all, fringe, nodes, minIdx, swapArray[..swapArrayLen]);
    }

    lemma FitsSwapArray(k: nat, ways: nat, idx: nat, cands: nat)
      requires ways > 0 && idx + Span(k, ways) < cands
      ensures k < cands / ways + 2
    {
      SpanIs(k, ways);
      assert (cands / ways) * ways + cands % ways == cands;
      if k > cands / ways { MulStep(cands / ways, k, ways); }
    }

    // The relocations: each position takes the line id of the next, the last one the victim's.
    method Relocate(candidate: nat)
      requires swapArray != lookupArray && 0 < swapArrayLen <= swapArray.Length && lookupArray.Length == numLines
      requires forall k | 0 <= k < swapArrayLen :: swapArray[k] < numLines
      requires forall k, l | 0 <= k < l < swapArrayLen :: swapArray[k] != swapArray[l]
      requires lookupArray[swapArray[0]] == candidate
      modifies lookupArray
      ensures Rotated(old(lookupArray[..]), lookupArray[..], swapArray[..swapArrayLen])
    {
      ghost var lookup, swap := lookupArray[..], swapArray[..swapArrayLen];
      var i := 0;
      while i < swapArrayLen - 1
        invariant 0 <= i <= swapArrayLen - 1
        invariant forall k | 0 < k <= i :: lookupArray[swap[k - 1]] == lookup[swap[k]]
        invariant forall k | i <= k < |swap| :: lookupArray[swap[k]] == lookup[swap[k]]
        invariant forall p | 0 <= p < numLines && p !in swap :: lookupArray[p] == lookup[p]
      {
        assert swapArray[i] == swap[i] && swapArray[i + 1] == swap[i + 1];
        lookupArray[swapArray[i]] := lookupArray[swapArray[i + 1]];
        i := i + 1;
      }
      assert swapArray[swapArrayLen - 1] == swap[|swap| - 1];
      lookupArray[swapArray[swapArrayLen - 1]] := candidate;
    }

    // postinsert: does the relocations and puts the address at the victim's line id.
    method Postinsert(lineAddr: nat, candidate: nat)
      requires Prepared(lineAddr, candidate) && lineAddr != 0 && lineAddr !in Value()
      modifies tags, lookupArray
      ensures Valid()
      ensures Value() == (old(Value()) - {old(tags[candidate])})[lineAddr := candidate]
    {
      ghost var lookup, swap := lookupArray[..], swapArray[..swapArrayLen];
      assert forall k | 0 <= k < swapArrayLen :: swapArray[k] == swap[k];
      Relocate(candidate);
      RotatedKeepsLayout(shape, tags[..], lookup, lookupArray[..], swap, lineAddr, candidate);
      tags[candidate] := lineAddr;
      assert tags[..] == old(tags[..])[candidate := lineAddr];
    }
  }
}
