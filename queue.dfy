/**
 * The singly linked FIFO queue of src/queue.h with the item counter of
 * src/collection.h.  The chain of nodes from the head to the tail is kept
 * as the sequence `items`; `cnt` is the counter the class maintains itself.
 */
module Queues {

  import opened Wrappers

  class Queue<T> {
    /** Data of the nodes, head first. */
    var items: seq<T>
    /** Collection::cnt_ */
    var cnt: nat
    /** Collection::autoDelete_ */
    var autoDelete: bool

    ghost predicate Valid()
      reads this
    {
      cnt == |items|
    }

    /** Queue(): an empty queue with auto deletion off. */
    constructor ()
      ensures Valid() && items == [] && cnt == 0 && !autoDelete
    {
      items := [];
      cnt := 0;
      autoDelete := false;
    }

    /** Collection::count */
    function Count(): (n: nat)
      reads this
      requires Valid()
      ensures n == |items|
    {
      cnt
    }

    /** Collection::isEmpty */
    function IsEmpty(): (b: bool)
      reads this
      requires Valid()
      ensures b <==> items == []
    {
      cnt == 0
    }

    /** Collection::setAutoDelete */
    method SetAutoDelete(ad: bool)
      modifies this
      ensures autoDelete == ad && items == old(items) && cnt == old(cnt)
    {
      autoDelete := ad;
    }

    /** first(): the head's data without removing it; null when empty. */
    method First() returns (r: Option<T>)
      requires Valid()
      ensures r == None <==> items == []
      ensures r.Some? ==> r.value == items[0]
    {
      if cnt == 0 {
        return None;
      }
      return Some(items[0]);
    }

    /** last(): the tail's data without removing it; null when empty. */
    method Last() returns (r: Option<T>)
      requires Valid()
      ensures r == None <==> items == []
      ensures r.Some? ==> r.value == items[|items| - 1]
    {
      if cnt == 0 {
        return None;
      }
      return Some(items[|items| - 1]);
    }

    /** enqueue(): the item becomes the new tail. */
    method Enqueue(item: T)
      requires Valid()
      modifies this
      ensures Valid()
      ensures items == old(items) + [item] && cnt == old(cnt) + 1
      ensures autoDelete == old(autoDelete)
    {
      items := items + [item];
      cnt := cnt + 1;
    }

    /** dequeue(): removes the head and returns its data; null and no change when empty. */
    method Dequeue() returns (r: Option<T>)
      requires Valid()
      modifies this
      ensures Valid() && autoDelete == old(autoDelete)
      ensures old(items) == [] ==> r == None && items == [] && cnt == old(cnt)
      ensures old(items) != [] ==>
                r == Some(old(items)[0]) && items == old(items)[1..] && cnt == old(cnt) - 1
    {
      if items == [] {
        return None;
      }
      r := Some(items[0]);
      items := items[1..];
      cnt := cnt - 1;
    }

    /** clear(): unlinks every node; the counter goes back to 0. */
    method Clear()
      requires Valid()
      modifies this
      ensures Valid() && items == [] && cnt == 0 && autoDelete == old(autoDelete)
    {
      while items != []
        invariant autoDelete == old(autoDelete)
        decreases |items|
      {
        items := items[1..];
      }
      cnt := 0;
    }
  }

  /** Dequeuing everything that was enqueued, in order, gives the items back in order. */
  method DrainInOrder<T>(xs: seq<T>) returns (ys: seq<T>)
    ensures ys == xs
  {
    var q := new Queue<T>();
    var i := 0;
    while i < |xs|
      invariant 0 <= i <= |xs|
      invariant q.Valid() && q.items == xs[..i]
    {
      q.Enqueue(xs[i]);
      i := i + 1;
      assert xs[..i] == xs[..i - 1] + [xs[i - 1]];
    }
    ys := [];
    while !q.IsEmpty()
      invariant q.Valid() && ys + q.items == xs
      decreases |q.items|
    {
      var x := q.Dequeue();
      ys := ys + [x.value];
    }
  }
}
