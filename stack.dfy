/**
 * The singly linked LIFO stack of src/stack.h with the item counter of
 * src/collection.h.  The chain of nodes from the bottom to the top is kept
 * as the sequence `items`, so the top is its last element.
 */
module Stacks {

  import opened Wrappers

  class Stack<T> {
    /** Data of the nodes, bottom first. */
    var items: seq<T>
    /** Collection::cnt_ */
    var cnt: nat
    /** Collection::autoDelete_ */
    var autoDelete: bool

    ghost predicate Valid()
      reads this
    {
      cnt == |items|
    }

    /** Stack(): an empty stack with auto deletion off. */
    constructor ()
      ensures Valid() && items == [] && cnt == 0 && !autoDelete
    {
      items := [];
      cnt := 0;
      autoDelete := false;
    }

    /** Collection::count */
    function Count(): (n: nat)
      reads this
      requires Valid()
      ensures n == |items|
    {
      cnt
    }

    /** Collection::isEmpty */
    function IsEmpty(): (b: bool)
      reads this
      requires Valid()
      ensures b <==> items == []
    {
      cnt == 0
    }

    /** Collection::setAutoDelete */
    method SetAutoDelete(ad: bool)
      modifies this
      ensures autoDelete == ad && items == old(items) && cnt == old(cnt)
    {
      autoDelete := ad;
    }

    /** top(): the most recently pushed item, without removing it; null when empty. */
    method Top() returns (r: Option<T>)
      requires Valid()
      ensures r == None <==> items == []
      ensures r.Some? ==> r.value == items[|items| - 1]
    {
      if cnt == 0 {
        return None;
      }
      return Some(items[|items| - 1]);
    }

    /** push(): the item becomes the new top. */
    method Push(item: T)
      requires Valid()
      modifies this
      ensures Valid()
      ensures items == old(items) + [item] && cnt == old(cnt) + 1
      ensures autoDelete == old(autoDelete)
    {
      items := items + [item];
      cnt := cnt + 1;
    }

    /** pop(): removes the top and returns its data; null and no change when empty. */
    method Pop() returns (r: Option<T>)
      requires Valid()
      modifies this
      ensures Valid() && autoDelete == old(autoDelete)
      ensures old(items) == [] ==> r == None && items == [] && cnt == old(cnt)
      ensures old(items) != [] ==>
                r == Some(old(items)[|old(items)| - 1]) && items == old(items)[..|old(items)| - 1]
                && cnt == old(cnt) - 1
    {
      if items == [] {
        return None;
      }
      r := Some(items[|items| - 1]);
      items := items[..|items| - 1];
      cnt := cnt - 1;
    }

    /** clear(): unlinks every node from the top down; the counter goes back to 0. */
    method Clear()
      requires Valid()
      modifies this
      ensures Valid() && items == [] && cnt == 0 && autoDelete == old(autoDelete)
    {
      while items != []
        invariant autoDelete == old(autoDelete)
        decreases |items|
      {
        items := items[..|items| - 1];
      }
      cnt := 0;
    }
  }

  /** The reverse of a sequence. */
  function Reverse<T>(s: seq<T>): (r: seq<T>)
    ensures |r| == |s|
  {
    if s == [] then [] else Reverse(s[1..]) + [s[0]]
  }

  lemma {:induction false} ReverseSnoc<T>(s: seq<T>, x: T)
    ensures Reverse(s + [x]) == [x] + Reverse(s)
  {
    if s != [] {
      assert (s + [x])[1..] == s[1..] + [x];
      ReverseSnoc(s[1..], x);
    } else {
      assert s + [x] == [x];
    }
  }

  /** Popping everything that was pushed gives the items back in reverse order. */
  method DrainReversed<T>(xs: seq<T>) returns (ys: seq<T>)
    ensures ys == Reverse(xs)
  {
    var st := new Stack<T>();
    var i := 0;
    while i < |xs|
      invariant 0 <= i <= |xs|
      invariant st.Valid() && st.items == xs[..i]
    {
      st.Push(xs[i]);
      i := i + 1;
      assert xs[..i] == xs[..i - 1] + [xs[i - 1]];
    }
    assert xs[..i] == xs;
    ys := [];
    while !st.IsEmpty()
      invariant st.Valid() && Reverse(xs) == ys + Reverse(st.items)
      decreases |st.items|
    {
      ghost var before := st.items;
      var x := st.Pop();
      ReverseSnoc(st.items, x.value);
      assert before == st.items + [x.value];
      ys := ys + [x.value];
    }
  }
}
