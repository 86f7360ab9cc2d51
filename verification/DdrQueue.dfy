// The per-bank request queues: first-ready, first-come-first-served order with a limit on how many
// requests to one row may go ahead in a row.

module FrFcfs {
  import opened Arith
  import opened Sets

  datatype Req = Req(bank: nat, row: int, write: bool, rowHitSeq: nat, arrivalCycle: int, startSysCycle: nat)

  // The index of the last request to a row, or -1.
  function LastOfRow(q: seq<Req>, row: int): (i: int)
    ensures -1 <= i < |q|
    ensures i >= 0 ==> q[i].row == row
    ensures forall j | i < j < |q| :: q[j].row != row
  {
    if q == [] then -1
    else if q[|q| - 1].row == row then |q| - 1
    else LastOfRow(q[..|q| - 1], row)
  }

  // What queue needs to know of the bank.
  datatype RowBuffer = RowBuffer(open: bool, openRow: int, curRowHits: nat)

  // Where a new request goes, and with what sequence number.
  function Slot(q: seq<Req>, row: int, limit: nat, b: RowBuffer): (p: (nat, nat))
    ensures p.0 <= |q|
  {
    var i := LastOfRow(q, row);
    if i >= 0 then
      if q[i].rowHitSeq < limit then (i + 1, q[i].rowHitSeq + 1) else (|q|, 0)
    else if b.open && row == b.openRow && b.curRowHits < limit && q == [] then (0, b.curRowHits + 1)
    else (|q|, 0)
  }

  function Splice<T>(s: seq<T>, k: nat, x: T): seq<T>
    requires k <= |s|
  {
    s[..k] + [x] + s[k..]
  }

  function Queued(q: seq<Req>, r: Req, limit: nat, b: RowBuffer): seq<Req> {
    var (k, n) := Slot(q, r.row, limit, b);
    Splice(q, k, r.(rowHitSeq := n))
  }

  // First ready, first come first served: a new request goes directly behind the last one to its
  // row, i, while that run is within the limit, and to an empty queue with its row open as one more
  // hit of that; otherwise it goes last and starts a run.
  lemma QueuedExact(q: seq<Req>, r: Req, limit: nat, b: RowBuffer, i: int)
    requires -1 <= i < |q| && (i >= 0 ==> q[i].row == r.row)
    requires forall j | i < j < |q| :: q[j].row != r.row
    ensures Queued(q, r, limit, b) ==
              if i >= 0 && q[i].rowHitSeq < limit then
                q[..i + 1] + [r.(rowHitSeq := q[i].rowHitSeq + 1)] + q[i + 1..]
              else if q == [] && b.open && b.openRow == r.row && b.curRowHits < limit then
                [r.(rowHitSeq := b.curRowHits + 1)]
              else
                q + [r.(rowHitSeq := 0)]
    ensures Slot(q, r.row, limit, b).0 == if i >= 0 && q[i].rowHitSeq < limit then i + 1 else |q|
  {
    LastIs(q, r.row, i);
    var (k, n) := Slot(q, r.row, limit, b);
    if k == |q| { AtEnd(q, r.(rowHitSeq := n)); }
  }

  lemma LastIs(q: seq<Req>, row: int, i: int)
    requires -1 <= i < |q| && (i >= 0 ==> q[i].row == row)
    requires forall j | i < j < |q| :: q[j].row != row
    ensures LastOfRow(q, row) == i
  {
    var last := LastOfRow(q, row);
    assert (i >= 0 ==> q[i].row == row) && (last >= 0 ==> q[last].row == row);
  }

  lemma AtEnd<T>(s: seq<T>, x: T)
    ensures Splice(s, |s|, x) == s + [x]
  {
    assert s[..|s|] == s && s[|s|..] == [];
  }

  // Sequence numbers stay within the limit.
  ghost predicate Limited(q: seq<Req>, limit: nat) {
    forall r | r in q :: r.rowHitSeq <= limit
  }

  // What a sequence number means: a request with a nonzero one directly follows the request to
  // the same row that has the number before, or that one was the last to issue.
  ghost predicate Runs(q: seq<Req>, b: RowBuffer) {
    FrontFollows(q, b) && InChain(q)
  }

  ghost predicate FrontFollows(q: seq<Req>, b: RowBuffer) {
    q != [] && q[0].rowHitSeq > 0 ==> b.openRow == q[0].row && q[0].rowHitSeq == b.curRowHits + 1
  }

  ghost predicate InChain(q: seq<Req>) {
    forall i, j | 0 <= i < j < |q| && j == i + 1 && q[j].rowHitSeq > 0 ::
      q[i].row == q[j].row && q[j].rowHitSeq == q[i].rowHitSeq + 1
  }

  // The request that a new one goes in front of does not continue a run.
  lemma AfterSlot(q: seq<Req>, row: int, limit: nat, b: RowBuffer)
    requires InChain(q)
    ensures var k := Slot(q, row, limit, b).0; k < |q| ==> k > 0 && q[k].rowHitSeq == 0
  {
    var k := Slot(q, row, limit, b).0;
    if k < |q| { assert q[k - 1].row == row && q[k].row != row; }
  }

  lemma QueuedKeeps(q: seq<Req>, r: Req, limit: nat, b: RowBuffer)
    requires Limited(q, limit) && Runs(q, b)
    ensures Limited(Queued(q, r, limit, b), limit)
    ensures Runs(Queued(q, r, limit, b), b)
  {
    var (k, n) := Slot(q, r.row, limit, b);
    AfterSlot(q, r.row, limit, b);
    QueuedChain(q, r, limit, b);
    forall x | x in Queued(q, r, limit, b) ensures x.rowHitSeq <= limit {
      assert x == r.(rowHitSeq := n) || x in q[..k] || x in q[k..];
    }
  }

  lemma QueuedChain(q: seq<Req>, r: Req, limit: nat, b: RowBuffer)
    requires InChain(q)
    ensures InChain(Queued(q, r, limit, b))
    ensures FrontFollows(q, b) ==> FrontFollows(Queued(q, r, limit, b), b)
  {
    var k := Slot(q, r.row, limit, b).0;
    var q' := Queued(q, r, limit, b);
    AfterSlot(q, r.row, limit, b);
    forall i, j | 0 <= i < j < |q'| && j == i + 1 && q'[j].rowHitSeq > 0
      ensures q'[i].row == q'[j].row && q'[j].rowHitSeq == q'[i].rowHitSeq + 1
    {
      if j < k {
        assert q'[i] == q[i] && q'[j] == q[j];
      } else if i > k {
        assert q'[i] == q[i - 1] && q'[j] == q[j - 1];
      } else if j == k {
        assert q'[i] == q[k - 1];
      }
    }
  }

  // Issuing the front request leaves its row open and its number as the count.
  lemma IssueKeeps(q: seq<Req>, limit: nat, b: RowBuffer)
    requires q != [] && Limited(q, limit) && Runs(q, b)
    ensures Limited(q[1..], limit)
    ensures Runs(q[1..], RowBuffer(true, q[0].row, q[0].rowHitSeq))
  {
  }

  function OfRow(q: seq<Req>, row: int): seq<Req> {
    if q == [] then []
    else if q[0].row == row then [q[0]] + OfRow(q[1..], row)
    else OfRow(q[1..], row)
  }

  lemma {:induction false} OfRowConcat(a: seq<Req>, b: seq<Req>, row: int)
    ensures OfRow(a + b, row) == OfRow(a, row) + OfRow(b, row)
  {
    if a == [] {
      assert a + b == b;
    } else {
      assert (a + b)[1..] == a[1..] + b;
      OfRowConcat(a[1..], b, row);
    }
  }

  lemma {:induction false} OfRowNone(a: seq<Req>, row: int)
    requires forall i | 0 <= i < |a| :: a[i].row != row
    ensures OfRow(a, row) == []
  {
    if a != [] { OfRowNone(a[1..], row); }
  }

  // First come, first served within a row, and no request is lost, copied or reordered otherwise.
  lemma RowFifo(q: seq<Req>, r: Req, limit: nat, b: RowBuffer, row: int)
    ensures var (k, n) := Slot(q, r.row, limit, b);
            OfRow(Queued(q, r, limit, b), row) == OfRow(q, row) + if row == r.row then [r.(rowHitSeq := n)] else []
  {
    var (k, n) := Slot(q, r.row, limit, b);
    if row == r.row {
      assert forall i | 0 <= i < |q[k..]| :: q[k..][i] == q[k + i];
      OfRowNone(q[k..], row);
    }
    OfRowSpliced(q, k, r.(rowHitSeq := n), row);
  }

  lemma OfRowSpliced(q: seq<Req>, k: nat, x: Req, row: int)
    requires k <= |q|
    ensures var here := if row == x.row then [x] else [];
            OfRow(Splice(q, k, x), row) == OfRow(q[..k], row) + here + OfRow(q[k..], row)
    ensures OfRow(q, row) == OfRow(q[..k], row) + OfRow(q[k..], row)
  {
    assert q == q[..k] + q[k..];
    OfRowConcat(q[..k], q[k..], row);
    OfRowConcat(q[..k] + [x], q[k..], row);
    OfRowConcat(q[..k], [x], row);
    assert [x][1..] == [];
  }

  // What happens to a bank queue: a request arrives, with the bank in some state, or the front
  // request issues.
  datatype Op = Arrive(req: Req, bank: RowBuffer) | Issue

  // How many requests that arrive in ops are placed ahead of the one at pos while it waits.
  function Bypasses(q: seq<Req>, pos: nat, ops: seq<Op>, limit: nat): nat
    requires pos < |q|
    decreases |ops|
  {
    if ops == [] then 0
    else
      match ops[0]
      case Issue => if pos == 0 then 0 else Bypasses(q[1..], pos - 1, ops[1..], limit)
      case Arrive(r, b) =>
        var k := Slot(q, r.row, limit, b).0;
        var q' := Queued(q, r, limit, b);
        if k <= pos then 1 + Bypasses(q', pos + 1, ops[1..], limit)
        else Bypasses(q', pos, ops[1..], limit)
  }

  // The queue after all of ops.
  function Evolved(q: seq<Req>, ops: seq<Op>, limit: nat): seq<Req>
    decreases |ops|
  {
    if ops == [] then q
    else
      match ops[0]
      case Issue => Evolved(if q == [] then [] else q[1..], ops[1..], limit)
      case Arrive(r, b) => Evolved(Queued(q, r, limit, b), ops[1..], limit)
  }

  lemma {:induction false} EvolvedConcat(q: seq<Req>, ops: seq<Op>, more: seq<Op>, limit: nat)
    ensures Evolved(q, ops + more, limit) == Evolved(Evolved(q, ops, limit), more, limit)
    decreases |ops|
  {
    if ops == [] {
      assert ops + more == more;
    } else {
      assert (ops + more)[1..] == ops[1..] + more;
      match ops[0]
      case Issue => EvolvedConcat(if q == [] then [] else q[1..], ops[1..], more, limit);
      case Arrive(r, b) => EvolvedConcat(Queued(q, r, limit, b), ops[1..], more, limit);
    }
  }

  function Rows(q: seq<Req>): set<int> { set r | r in q :: r.row }

  // How many more requests can still be placed ahead: for each row whose last request is ahead,
  // what is left of the limit. seen: the rows of the requests behind.
  function Credit(ahead: seq<Req>, seen: set<int>, limit: nat): nat {
    if ahead == [] then 0
    else
      var n := |ahead| - 1;
      var last := ahead[n];
      if last.row in seen then Credit(ahead[..n], seen, limit)
      else
        (if last.rowHitSeq < limit then limit - last.rowHitSeq else 0)
        + Credit(ahead[..n], seen + {last.row}, limit)
  }

  lemma {:induction false} CreditMonotone(ahead: seq<Req>, seen: set<int>, row: int, limit: nat)
    ensures Credit(ahead, seen + {row}, limit) <= Credit(ahead, seen, limit)
  {
    if ahead != [] {
      var n := |ahead| - 1;
      var last := ahead[n];
      if last.row in seen {
        CreditMonotone(ahead[..n], seen, row, limit);
      } else if last.row != row {
        assert seen + {row} + {last.row} == seen + {last.row} + {row};
        CreditMonotone(ahead[..n], seen + {last.row}, row, limit);
      }
    }
  }

  lemma {:induction false} CreditTail(ahead: seq<Req>, seen: set<int>, limit: nat)
    requires ahead != []
    ensures Credit(ahead[1..], seen, limit) <= Credit(ahead, seen, limit)
  {
    var n := |ahead| - 1;
    if n > 0 {
      assert ahead[1..][..n - 1] == ahead[..n][1..];
      CreditTail(ahead[..n], if ahead[n].row in seen then seen else seen + {ahead[n].row}, limit);
    }
  }

  // A request placed after the last one of its row, ahead, uses up one.
  lemma {:induction false} CreditSpent(ahead: seq<Req>, seen: set<int>, limit: nat, k: nat, x: Req)
    requires k < |ahead| && ahead[k].row == x.row && x.row !in seen
    requires forall j | k < j < |ahead| :: ahead[j].row != x.row
    requires x.rowHitSeq == ahead[k].rowHitSeq + 1 <= limit
    ensures Credit(ahead[..k + 1] + [x] + ahead[k + 1..], seen, limit) == Credit(ahead, seen, limit) - 1
  {
    var n := |ahead| - 1;
    var after := ahead[..k + 1] + [x] + ahead[k + 1..];
    if k == n {
      assert after[..n + 1] == ahead;
      assert after[n + 1] == x;
      var s := seen + {x.row};
      assert Credit(ahead, s, limit) == Credit(ahead[..n], s, limit);
    } else {
      assert after[..n + 1] == ahead[..n][..k + 1] + [x] + ahead[..n][k + 1..];
      CreditSpent(ahead[..n], if ahead[n].row in seen then seen else seen + {ahead[n].row}, limit, k, x);
    }
  }

  lemma {:induction false} CreditBound(ahead: seq<Req>, seen: set<int>, limit: nat)
    ensures Credit(ahead, seen, limit) <= limit * |Rows(ahead) - seen|
  {
    if ahead == [] {
    } else {
      var n := |ahead| - 1;
      var row := ahead[n].row;
      RowsSplit(ahead, seen);
      if row in seen {
        CreditBound(ahead[..n], seen, limit);
      } else {
        CreditBound(ahead[..n], seen + {row}, limit);
        MulSucc(limit, |Rows(ahead[..n]) - (seen + {row})|);
      }
    }
  }

  lemma RowsSplit(ahead: seq<Req>, seen: set<int>)
    requires ahead != []
    ensures var n := |ahead| - 1;
            var row := ahead[n].row;
            if row in seen then Rows(ahead) - seen == Rows(ahead[..n]) - seen
            else |Rows(ahead) - seen| == |Rows(ahead[..n]) - (seen + {row})| + 1
  {
    var n := |ahead| - 1;
    var row := ahead[n].row;
    assert ahead == ahead[..n] + [ahead[n]];
    assert Rows(ahead) == Rows(ahead[..n]) + {row};
    if row !in seen {
      assert Rows(ahead) - seen == (Rows(ahead[..n]) - (seen + {row})) + {row};
    }
  }

  // One arrival: the credit ahead of the request at pos pays for it if it is placed ahead.
  lemma ArrivalPaid(q: seq<Req>, pos: nat, r: Req, limit: nat, b: RowBuffer)
    requires pos < |q|
    ensures var k := Slot(q, r.row, limit, b).0;
            var q' := Queued(q, r, limit, b);
            var pos' := if k <= pos then pos + 1 else pos;
            && q'[pos'] == q[pos]
            && Credit(q'[..pos'], Rows(q'[pos'..]), limit) + (if k <= pos then 1 else 0)
               <= Credit(q[..pos], Rows(q[pos..]), limit)
  {
    var (k, n) := Slot(q, r.row, limit, b);
    if k <= pos {
      PlacedAhead(q, pos, r.(rowHitSeq := n), k, limit);
    } else {
      PlacedBehind(q, pos, r.(rowHitSeq := n), k, limit);
    }
  }

  lemma PlacedAhead(q: seq<Req>, pos: nat, x: Req, k: nat, limit: nat)
    requires 0 < k <= pos < |q| && q[k - 1].row == x.row
    requires forall j | k <= j < |q| :: q[j].row != x.row
    requires x.rowHitSeq == q[k - 1].rowHitSeq + 1 <= limit
    ensures var q' := q[..k] + [x] + q[k..];
            Credit(q'[..pos + 1], Rows(q'[pos + 1..]), limit) == Credit(q[..pos], Rows(q[pos..]), limit) - 1
  {
    var q' := q[..k] + [x] + q[k..];
    assert q'[..pos + 1] == q[..pos][..k] + [x] + q[..pos][k..];
    assert q'[pos + 1..] == q[pos..];
    forall y | y in q[pos..] ensures y.row != x.row {
      var i :| 0 <= i < |q| - pos && q[pos..][i] == y;
      assert y == q[pos + i];
    }
    CreditSpent(q[..pos], Rows(q[pos..]), limit, k - 1, x);
  }

  lemma PlacedBehind(q: seq<Req>, pos: nat, x: Req, k: nat, limit: nat)
    requires pos < k <= |q|
    ensures var q' := q[..k] + [x] + q[k..];
            Credit(q'[..pos], Rows(q'[pos..]), limit) <= Credit(q[..pos], Rows(q[pos..]), limit)
  {
    var q' := q[..k] + [x] + q[k..];
    assert q'[..pos] == q[..pos];
    assert q'[pos..] == q[pos..][..k - pos] + [x] + q[pos..][k - pos..];
    assert q[pos..] == q[pos..][..k - pos] + q[pos..][k - pos..];
    assert Rows(q'[pos..]) == Rows(q[pos..]) + {x.row};
    CreditMonotone(q[..pos], Rows(q[pos..]), x.row, limit);
  }

  lemma {:induction false} BypassesPaid(q: seq<Req>, pos: nat, ops: seq<Op>, limit: nat)
    requires pos < |q|
    ensures Bypasses(q, pos, ops, limit) <= Credit(q[..pos], Rows(q[pos..]), limit)
    decreases |ops|
  {
    if ops != [] {
      match ops[0]
      case Issue =>
        if pos > 0 {
          BypassesPaid(q[1..], pos - 1, ops[1..], limit);
          assert q[1..][..pos - 1] == q[..pos][1..];
          assert q[1..][pos - 1..] == q[pos..];
          CreditTail(q[..pos], Rows(q[pos..]), limit);
        }
      case Arrive(r, b) =>
        var k := Slot(q, r.row, limit, b).0;
        BypassesPaid(Queued(q, r, limit, b), if k <= pos then pos + 1 else pos, ops[1..], limit);
        ArrivalPaid(q, pos, r, limit, b);
    }
  }

  // Bounded bypass: over any run, the requests that arrive later and are placed ahead of a waiting
  // one number at most rowHitLimit for each distinct row that was ahead of it.
  lemma BoundedBypass(q: seq<Req>, pos: nat, ops: seq<Op>, limit: nat)
    requires pos < |q|
    ensures Bypasses(q, pos, ops, limit) <= limit * |Rows(q[..pos])|
  {
    BypassesPaid(q, pos, ops, limit);
    var seen := Rows(q[pos..]);
    CreditBound(q[..pos], seen, limit);
    SubsetSize(Rows(q[..pos]) - seen, Rows(q[..pos]));
    MulMonotone(|Rows(q[..pos]) - seen|, |Rows(q[..pos])|, limit);
  }
}

module BankQueue {
  import opened FrFcfs
  import opened IntrusiveList

  ghost function Elems(s: seq<InListNode<Req>>): seq<Req>
    reads s
  {
    seq(|s|, i requires 0 <= i < |s| reads s => s[i].elem)
  }

  lemma ElemsSpliced(s: seq<InListNode<Req>>, req: InListNode<Req>, k: nat)
    requires k <= |s|
    ensures Elems(Splice(s, k, req)) == Splice(Elems(s), k, req.elem)
  {
  }

  lemma NotOnIt(q: InList<Req>, req: InListNode<Req>)
    requires q.Valid() && req.Free()
    ensures req !in q.nodes
  {
  }

  lemma {:induction false} LastOfRowIs(q: seq<Req>, row: int, i: int)
    requires -1 <= i < |q| && (i >= 0 ==> q[i].row == row)
    requires forall j | i < j < |q| :: q[j].row != row
    ensures LastOfRow(q, row) == i
  {
    if i < |q| - 1 {
      LastOfRowIs(q[..|q| - 1], row, i);
    }
  }

  // The queue s with contents e is now t with contents f: req, holding r, has gone in.
  ghost predicate WentIn(s: seq<InListNode<Req>>, e: seq<Req>, req: InListNode<Req>, r: Req,
                         limit: nat, bank: RowBuffer, t: seq<InListNode<Req>>, f: seq<Req>)
    requires |s| == |e|
  {
    f == Queued(e, r, limit, bank) && t == Splice(s, Slot(e, r.row, limit, bank).0, req)
  }

  // From the back, the last request to the row.
  method FindRow(q: InList<Req>, row: int) returns (m: InListNode?<Req>, ghost i: int)
    requires q.Valid()
    ensures i == LastOfRow(Elems(q.nodes), row)
    ensures var last := LastOfRow(Elems(q.nodes), row); m == if last == -1 then null else q.nodes[last]
  {
    ghost var s := q.nodes;
    m := q.tail;
    i := |s| - 1;
    forall k: nat | k < |s| ensures s[k].prev == if k == 0 then null else s[k - 1] {
      q.Around(k);
    }
    while m != null && m.elem.row != row
      invariant -1 <= i < |s| && m == if i == -1 then null else s[i]
      invariant forall j | i < j < |s| :: Elems(s)[j].row != row
      decreases i
    {
      m := m.prev;
      i := i - 1;
    }
    LastOfRowIs(Elems(s), row, i);
  }

  method SetSeq(q: InList<Req>, req: InListNode<Req>, n: nat)
    requires q.Valid() && req.Free()
    modifies req`elem
    ensures q.Valid() && req.elem == old(req.elem).(rowHitSeq := n)
    ensures Elems(q.nodes) == old(Elems(q.nodes))
  {
    NotOnIt(q, req);
    req.elem := req.elem.(rowHitSeq := n);
  }

  method PlaceAfter(q: InList<Req>, m: InListNode<Req>, req: InListNode<Req>, ghost i: nat)
    requires q.Valid() && req.Free() && i < |q.nodes| && q.nodes[i] == m
    modifies q, req, q.nodes`next, q.nodes`prev
    ensures q.Valid() && q.nodes == Splice(old(q.nodes), i + 1, req)
    ensures Elems(q.nodes) ==
            Splice(old(Elems(q.nodes)), i + 1, old(req.elem).(rowHitSeq := old(m.elem).rowHitSeq + 1))
  {
    SetSeq(q, req, m.elem.rowHitSeq + 1);
    q.InsertAfter(m, req, i);
    assert Elems(old(q.nodes)) == old(Elems(q.nodes));
    ElemsSpliced(old(q.nodes), req, i + 1);
  }

  method PlaceFirst(q: InList<Req>, req: InListNode<Req>, n: nat)
    requires q.Valid() && req.Free()
    modifies q, req, q.nodes`next, q.nodes`prev
    ensures q.Valid() && q.nodes == Splice(old(q.nodes), 0, req)
    ensures Elems(q.nodes) == Splice(old(Elems(q.nodes)), 0, old(req.elem).(rowHitSeq := n))
  {
    SetSeq(q, req, n);
    q.PushFront(req);
    assert q.nodes == Splice(old(q.nodes), 0, req);
    assert Elems(old(q.nodes)) == old(Elems(q.nodes));
    ElemsSpliced(old(q.nodes), req, 0);
  }

  method PlaceLast(q: InList<Req>, req: InListNode<Req>)
    requires q.Valid() && req.Free()
    modifies q, req, q.nodes`next, q.nodes`prev
    ensures q.Valid() && q.nodes == Splice(old(q.nodes), |old(q.nodes)|, req)
    ensures Elems(q.nodes) == Splice(old(Elems(q.nodes)), |old(q.nodes)|, old(req.elem).(rowHitSeq := 0))
  {
    SetSeq(q, req, 0);
    q.PushBack(req);
    assert q.nodes == Splice(old(q.nodes), |old(q.nodes)|, req);
    assert Elems(old(q.nodes)) == old(Elems(q.nodes));
    ElemsSpliced(old(q.nodes), req, |old(q.nodes)|);
  }

  // The second half of DDRMemory::queue.
  method Enqueue(q: InList<Req>, req: InListNode<Req>, rowHitLimit: nat, bank: RowBuffer)
    requires q.Valid() && req.Free()
    modifies q, req, q.nodes`next, q.nodes`prev
    ensures q.Valid()
    ensures WentIn(old(q.nodes), old(Elems(q.nodes)), req, old(req.elem), rowHitLimit, bank, q.nodes, Elems(q.nodes))
  {
    var m, i := FindRow(q, req.elem.row);
    if m != null {
      AfterMatch(q, m, req, i, rowHitLimit, bank);
    } else {
      NoMatch(q, req, rowHitLimit, bank);
    }
  }

  method AfterMatch(q: InList<Req>, m: InListNode<Req>, req: InListNode<Req>, ghost i: nat,
                    rowHitLimit: nat, ghost bank: RowBuffer)
    requires q.Valid() && req.Free() && i < |q.nodes| && q.nodes[i] == m
    requires LastOfRow(Elems(q.nodes), req.elem.row) == i
    modifies q, req, q.nodes`next, q.nodes`prev
    ensures q.Valid()
    ensures WentIn(old(q.nodes), old(Elems(q.nodes)), req, old(req.elem), rowHitLimit, bank, q.nodes, Elems(q.nodes))
  {
    if m.elem.rowHitSeq < rowHitLimit {
      // Behind the last request to the same row.
      PlaceAfter(q, m, req, i);
    } else {
      PlaceLast(q, req);
    }
  }

  method NoMatch(q: InList<Req>, req: InListNode<Req>, rowHitLimit: nat, bank: RowBuffer)
    requires q.Valid() && req.Free()
    requires LastOfRow(Elems(q.nodes), req.elem.row) == -1
    modifies q, req, q.nodes`next, q.nodes`prev
    ensures q.Valid()
    ensures WentIn(old(q.nodes), old(Elems(q.nodes)), req, old(req.elem), rowHitLimit, bank, q.nodes, Elems(q.nodes))
  {
    if bank.open && req.elem.row == bank.openRow && bank.curRowHits < rowHitLimit && q.Empty() {
      PlaceFirst(q, req, bank.curRowHits + 1);
    } else {
      PlaceLast(q, req);
    }
  }
}
