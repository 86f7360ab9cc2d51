// The controller's request pool: a fixed set of nodes, on either the list of requests in arrival
// order or the list of free nodes.

module RequestPool {
  import opened IntrusiveList

  class RequestQueue<T> {
    const reqList: InList<T>
    const freeList: InList<T>

    ghost predicate Valid()
      reads this, reqList, freeList, reqList.nodes, freeList.nodes
    {
      reqList != freeList && reqList.Valid() && freeList.Valid()
    }

    // A node is on one of the lists at most.
    lemma Apart()
      requires Valid()
      ensures forall n | n in reqList.nodes :: n !in freeList.nodes
    {
    }

    constructor (size: nat, blank: T)
      ensures Valid() && reqList.nodes == [] && |freeList.nodes| == size
      ensures fresh(reqList) && fresh(freeList)
    {
      reqList := new InList();
      freeList := new InList();
      new;
      for i := 0 to size
        invariant Valid() && reqList.nodes == [] && |freeList.nodes| == i
        invariant fresh(reqList) && fresh(freeList) && forall n | n in freeList.nodes :: fresh(n)
      {
        Grow(blank);
      }
    }

    // One more free node.
    method Grow(blank: T)
      requires Valid() && reqList.nodes == []
      modifies freeList, freeList.nodes`next, freeList.nodes`prev
      ensures Valid() && |freeList.nodes| == |old(freeList.nodes)| + 1
      ensures forall n | n in freeList.nodes :: n in old(freeList.nodes) || fresh(n)
    {
      var n := new InListNode(blank);
      freeList.PushBack(n);
    }

    predicate Empty()
      reads this, reqList
    {
      reqList.Empty()
    }

    predicate Full()
      reads this, freeList
    {
      freeList.Empty()
    }

    // The node freed last becomes the newest request.
    method Alloc() returns (n: InListNode<T>)
      requires Valid() && !Full()
      modifies reqList, freeList, reqList.nodes`next, reqList.nodes`prev
      modifies freeList.nodes`next, freeList.nodes`prev, freeList.nodes`owner
      ensures Valid()
      ensures reqList.nodes == old(reqList.nodes) + [n]
      ensures freeList.nodes + [n] == old(freeList.nodes)
    {
      Apart();
      n := freeList.tail;
      assert n !in reqList.nodes;
      freeList.PopBack();
      assert reqList.Valid() && freeList.Valid() && n !in freeList.nodes;
      reqList.PushBack(n);
    }

    // The request at i is done with; its node is the next to be used.
    method Remove(n: InListNode<T>, ghost i: nat)
      requires Valid() && i < |reqList.nodes| && reqList.nodes[i] == n
      modifies reqList, freeList, freeList.nodes`next, freeList.nodes`prev
      modifies reqList.nodes`next, reqList.nodes`prev, reqList.nodes`owner
      ensures Valid()
      ensures reqList.nodes == old(reqList.nodes)[..i] + old(reqList.nodes)[i + 1..]
      ensures freeList.nodes == old(freeList.nodes) + [n]
    {
      Apart();
      reqList.Remove(n, i);
      freeList.PushBack(n);
    }
  }
}
