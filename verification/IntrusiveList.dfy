// The doubly linked list under the DDR queues. A node holds its own links and knows the list it is
// on; a list keeps its two ends and a count. nodes is the list as a sequence.

module IntrusiveList {
  class InListNode<T> {
    var elem: T
    var next: InListNode?<T>
    var prev: InListNode?<T>
    var owner: InList?<T>

    constructor (e: T)
      ensures Free() && elem == e
    {
      elem, next, prev, owner := e, null, null, null;
    }

    // On no list.
    predicate Free()
      reads this
    {
      next == null && prev == null && owner == null
    }

    method Unlink(lst: InList<T>)
      requires owner == lst && next != this && prev != this && (next != null ==> next != prev)
      modifies `next, `prev, `owner
      modifies (if next == null then {} else {next})`prev
      modifies (if prev == null then {} else {prev})`next
      ensures Free()
      ensures old(next) != null ==> old(next).prev == old(prev)
      ensures old(prev) != null ==> old(prev).next == old(next)
    {
      if next != null { next.prev := prev; }
      if prev != null { prev.next := next; }
      next, prev, owner := null, null, null;
    }

    method LinkPrev(p: InListNode<T>, lst: InList<T>)
      requires Free() && p != this && p.next != this && p.next != p
      modifies `next, `prev, `owner, p`next
      modifies (if p.next == null then {} else {p.next})`prev
      ensures next == old(p.next) && prev == p && owner == lst && p.next == this
      ensures next != null ==> next.prev == this
    {
      if p.next != null {
        p.next.prev := this;
        next := p.next;
      }
      p.next := this;
      prev := p;
      owner := lst;
    }
  }

  class InList<T> {
    var head: InListNode?<T>
    var tail: InListNode?<T>
    var elems: nat
    ghost var nodes: seq<InListNode<T>>

    ghost predicate Valid()
      reads this, nodes
    {
      && Linked(nodes)
      && elems == |nodes|
      && head == (if nodes == [] then null else nodes[0])
      && tail == (if nodes == [] then null else nodes[|nodes| - 1])
    }

    ghost predicate Linked(s: seq<InListNode<T>>)
      reads s
    {
      && (forall i | 0 <= i < |s| :: s[i].owner == this)
      && (s != [] ==> s[0].prev == null && s[|s| - 1].next == null)
      && (forall i, j | 0 <= i < j < |s| && j == i + 1 :: s[i].next == s[j] && s[j].prev == s[i])
      && (forall i, j | 0 <= i < j < |s| :: s[i] != s[j])
    }

    // The links of the node at i.
    lemma Around(i: nat)
      requires Valid() && i < |nodes|
      ensures nodes[i].prev == if i == 0 then null else nodes[i - 1]
      ensures nodes[i].next == if i == |nodes| - 1 then null else nodes[i + 1]
      ensures i > 0 ==> nodes[i - 1] != nodes[i]
      ensures i < |nodes| - 1 ==> nodes[i + 1] != nodes[i] && (i > 0 ==> nodes[i - 1] != nodes[i + 1])
    {
    }

    constructor ()
      ensures Valid() && nodes == []
    {
      head, tail, elems, nodes := null, null, 0, [];
    }

    predicate Empty()
      reads this
    {
      head == null
    }

    method PushFront(e: InListNode<T>)
      requires Valid() && e.Free()
      modifies this, e`next, e`prev, e`owner, nodes`prev
      ensures Valid() && nodes == [e] + old(nodes)
    {
      if Empty() {
        head := e;
        tail := e;
      } else {
        e.next := head;
        head.prev := e;
        head := e;
      }
      e.owner := this;
      elems := elems + 1;
      nodes := [e] + nodes;
    }

    method PushBack(e: InListNode<T>)
      requires Valid() && e.Free()
      modifies this, e`next, e`prev, e`owner, nodes`next, nodes`prev
      ensures Valid() && nodes == old(nodes) + [e]
    {
      if Empty() {
        head := e;
        tail := e;
        e.owner := this;
      } else {
        e.LinkPrev(tail, this);
        tail := e;
      }
      elems := elems + 1;
      nodes := nodes + [e];
    }

    method PopFront()
      requires Valid()
      modifies this, nodes`next, nodes`prev, nodes`owner
      ensures Valid()
      ensures old(nodes) == [] ==> nodes == []
      ensures old(nodes) != [] ==> nodes == old(nodes)[1..] && old(nodes)[0].Free()
    {
      if Empty() { return; }
      Around(0);
      var e := head;
      head := e.next;
      e.Unlink(this);
      if head == null { tail := null; }
      elems := elems - 1;
      nodes := nodes[1..];
    }

    method PopBack()
      requires Valid()
      modifies this, nodes`next, nodes`prev, nodes`owner
      ensures Valid()
      ensures old(nodes) == [] ==> nodes == []
      ensures old(nodes) != [] ==> nodes == old(nodes)[..|old(nodes)| - 1] && old(nodes)[|old(nodes)| - 1].Free()
    {
      if Empty() { return; }
      Around(|nodes| - 1);
      var e := tail;
      tail := e.prev;
      e.Unlink(this);
      if tail == null { head := null; }
      elems := elems - 1;
      nodes := nodes[..|nodes| - 1];
    }

    // s with the node at i unlinked.
    ghost predicate LinkedBut(s: seq<InListNode<T>>, i: nat)
      requires i < |s|
      reads s
    {
      && (forall a | 0 <= a < |s| && a != i :: s[a].owner == this)
      && (i > 0 ==> s[i - 1].next == (if i == |s| - 1 then null else s[i + 1]) && s[0].prev == null)
      && (i < |s| - 1 ==> s[i + 1].prev == (if i == 0 then null else s[i - 1]) && s[|s| - 1].next == null)
      && (forall a, b | 0 <= a < b < |s| && b == a + 1 && a != i && b != i :: s[a].next == s[b] && s[b].prev == s[a])
      && (forall a, b | 0 <= a < b < |s| :: s[a] != s[b])
    }

    lemma CloseGap(s: seq<InListNode<T>>, i: nat)
      requires i < |s| && LinkedBut(s, i)
      ensures Linked(s[..i] + s[i + 1..])
    {
      var t := s[..i] + s[i + 1..];
      forall a, b | 0 <= a < b < |t| && b == a + 1 ensures t[a].next == t[b] && t[b].prev == t[a] {
        if b < i {
          assert t[a] == s[a] && t[b] == s[b];
        } else if a >= i {
          assert t[a] == s[a + 1] && t[b] == s[b + 1];
        }
      }
    }

    // i is where e is.
    method Remove(e: InListNode<T>, ghost i: nat)
      requires Valid() && i < |nodes| && nodes[i] == e
      modifies this, nodes`next, nodes`prev, nodes`owner
      ensures Valid() && nodes == old(nodes)[..i] + old(nodes)[i + 1..] && e.Free()
    {
      ghost var s := nodes;
      MoveEnds(e, i);
      UnlinkAt(e, i);
      elems := elems - 1;
      nodes := s[..i] + s[i + 1..];
    }

    method MoveEnds(e: InListNode<T>, ghost i: nat)
      requires Valid() && i < |nodes| && nodes[i] == e
      modifies `head, `tail
      ensures Linked(nodes)
      ensures var t := nodes[..i] + nodes[i + 1..];
              head == (if t == [] then null else t[0]) && tail == (if t == [] then null else t[|t| - 1])
    {
      EndsWithout(i);
      if e == head { head := e.next; }
      if e == tail { tail := e.prev; }
    }

    // The ends of the list once the node at i is gone.
    lemma EndsWithout(i: nat)
      requires Valid() && i < |nodes|
      ensures var t := nodes[..i] + nodes[i + 1..];
              && (if nodes[i] == head then nodes[i].next else head) == (if t == [] then null else t[0])
              && (if nodes[i] == tail then nodes[i].prev else tail) == (if t == [] then null else t[|t| - 1])
    {
      Around(i);
    }

    method UnlinkAt(e: InListNode<T>, ghost i: nat)
      requires Linked(nodes) && i < |nodes| && nodes[i] == e
      modifies nodes`next, nodes`prev, nodes`owner
      ensures Linked(nodes[..i] + nodes[i + 1..]) && e.Free()
    {
      assert i > 0 ==> e.prev == nodes[i - 1];
      assert i < |nodes| - 1 ==> e.next == nodes[i + 1];
      e.Unlink(this);
      CloseGap(nodes, i);
    }

    // s with e linked in after the node at i, but not yet on the sequence.
    ghost predicate LinkedPast(s: seq<InListNode<T>>, i: nat, e: InListNode<T>)
      requires i < |s|
      reads s, e
    {
      && e !in s && e.owner == this && (forall a | 0 <= a < |s| :: s[a].owner == this)
      && s[0].prev == null && e.prev == s[i] && s[i].next == e
      && e.next == (if i == |s| - 1 then null else s[i + 1])
      && (i < |s| - 1 ==> s[i + 1].prev == e && s[|s| - 1].next == null)
      && (forall a, b | 0 <= a < b < |s| && b == a + 1 && a != i :: s[a].next == s[b] && s[b].prev == s[a])
      && (forall a, b | 0 <= a < b < |s| :: s[a] != s[b])
    }

    lemma WidenGap(s: seq<InListNode<T>>, i: nat, e: InListNode<T>)
      requires i < |s| && LinkedPast(s, i, e)
      ensures Linked(s[..i + 1] + [e] + s[i + 1..])
    {
      var t := s[..i + 1] + [e] + s[i + 1..];
      forall a, b | 0 <= a < b < |t| && b == a + 1 ensures t[a].next == t[b] && t[b].prev == t[a] {
        if b <= i {
          assert t[a] == s[a] && t[b] == s[b];
        } else if a > i + 1 {
          assert t[a] == s[a - 1] && t[b] == s[b - 1];
        }
      }
    }

    method InsertAfter(p: InListNode<T>, e: InListNode<T>, ghost i: nat)
      requires Valid() && i < |nodes| && nodes[i] == p && e.Free()
      modifies this, e`next, e`prev, e`owner, nodes`next, nodes`prev
      ensures Valid() && nodes == old(nodes)[..i + 1] + [e] + old(nodes)[i + 1..]
    {
      var last := p == tail;
      Around(i);
      LinkAt(p, e, i);
      if last { tail := e; }
      elems := elems + 1;
      nodes := nodes[..i + 1] + [e] + nodes[i + 1..];
    }

    method LinkAt(p: InListNode<T>, e: InListNode<T>, ghost i: nat)
      requires Linked(nodes) && i < |nodes| && nodes[i] == p && e.Free()
      modifies e`next, e`prev, e`owner, nodes`next, nodes`prev
      ensures Linked(nodes[..i + 1] + [e] + nodes[i + 1..])
    {
      assert i < |nodes| - 1 ==> p.next == nodes[i + 1];
      e.LinkPrev(p, this);
      WidenGap(nodes, i, e);
    }
  }
}
