/**
 * The doubly linked list with a cursor of src/list.h, with the item counter
 * of src/collection.h.
 *
 * The heap of list nodes is the map `nodes` from node addresses to nodes; a
 * node is deleted by removing its address from the map, and a new node gets
 * the address `nextId`, which no live node uses.  The sequence of addresses
 * met by following next links from the first node (OrderOf) gives the list
 * order; the specification works on the items in that order (ItemsOf) and
 * on the index of the current node in it (CursorOf).
 *
 * Each operation that relinks nodes is proved in two parts: a lemma on the
 * plain values (InsertStep, RemoveStep) says what linking a node in or out
 * does to the invariant ListInv, the items and the cursor, and the method
 * performs the pointer updates of the source on local copies and stores
 * them in the fields.
 */
module Lists {

  import opened Wrappers

  type NodeId = nat

  /** ListLinkedList: links to the neighbours and the item's data. */
  datatype Node<T> = Node(prev: Option<NodeId>, next: Option<NodeId>, data: T)

  /** The address at index `i` of `order`, or null outside it. */
  function At(order: seq<NodeId>, i: int): Option<NodeId>
  {
    if 0 <= i < |order| then Some(order[i]) else None
  }

  /** No address occurs twice in `order` from index `i` on. */
  predicate UniqueFrom(order: seq<NodeId>, i: nat)
    decreases |order| - i
  {
    i >= |order| || (order[i] !in order[i + 1..] && UniqueFrom(order, i + 1))
  }

  predicate Distinct(order: seq<NodeId>)
  {
    UniqueFrom(order, 0)
  }

  lemma {:induction false} UniqueFromGives(order: seq<NodeId>, i: nat)
    requires UniqueFrom(order, i)
    ensures forall a, b :: i <= a < b < |order| ==> order[a] != order[b]
    decreases |order| - i
  {
    if i < |order| {
      UniqueFromGives(order, i + 1);
      forall b | i < b < |order|
        ensures order[i] != order[b]
      {
        assert order[b] == order[i + 1..][b - i - 1];
      }
    }
  }

  lemma {:induction false} UniqueFromOf(order: seq<NodeId>, i: nat)
    requires forall a, b :: i <= a < b < |order| ==> order[a] != order[b]
    ensures UniqueFrom(order, i)
    decreases |order| - i
  {
    if i < |order| {
      UniqueFromOf(order, i + 1);
    }
  }

  /** The node at index `i` of `order` is live and linked to its neighbours in `order`. */
  ghost predicate LinkedAt<T>(nodes: map<NodeId, Node<T>>, order: seq<NodeId>, i: nat)
    requires i < |order|
  {
    order[i] in nodes && nodes[order[i]].next == At(order, i + 1) && nodes[order[i]].prev == At(order, i - 1)
  }

  /** Every node of `order` from index `i` on is linked to its neighbours. */
  ghost predicate LinkedFrom<T>(nodes: map<NodeId, Node<T>>, order: seq<NodeId>, i: nat)
    decreases |order| - i
  {
    i >= |order| || (LinkedAt(nodes, order, i) && LinkedFrom(nodes, order, i + 1))
  }

  /**
   * The nodes of `order` form the doubly linked chain from `first` to
   * `last`: distinct, live, and linked to their neighbours both ways.
   */
  ghost predicate Chain<T>(nodes: map<NodeId, Node<T>>, first: Option<NodeId>, last: Option<NodeId>,
                           order: seq<NodeId>)
  {
    Distinct(order) && LinkedFrom(nodes, order, 0) &&
    first == At(order, 0) && last == At(order, |order| - 1)
  }

  lemma {:induction false} LinkedFromGives<T>(nodes: map<NodeId, Node<T>>, order: seq<NodeId>, i: nat, j: nat)
    requires LinkedFrom(nodes, order, i) && i <= j < |order|
    ensures LinkedAt(nodes, order, j)
    decreases j - i
  {
    if i < j {
      LinkedFromGives(nodes, order, i + 1, j);
    }
  }

  lemma {:induction false} LinkedFromOf<T>(nodes: map<NodeId, Node<T>>, order: seq<NodeId>, i: nat)
    requires forall j :: i <= j < |order| ==> LinkedAt(nodes, order, j)
    ensures LinkedFrom(nodes, order, i)
    decreases |order| - i
  {
    if i < |order| {
      LinkedFromOf(nodes, order, i + 1);
    }
  }

  /** What a chain says about its node at index `j`. */
  lemma ChainAt<T>(nodes: map<NodeId, Node<T>>, first: Option<NodeId>, last: Option<NodeId>,
                   order: seq<NodeId>, j: nat)
    requires Chain(nodes, first, last, order) && j < |order|
    ensures LinkedAt(nodes, order, j)
  {
    LinkedFromGives(nodes, order, 0, j);
  }

  /** The data of the nodes of `order` from index `i` on. */
  ghost function Items<T>(nodes: map<NodeId, Node<T>>, order: seq<NodeId>, i: nat): (s: seq<T>)
    requires i <= |order| && LinkedFrom(nodes, order, i)
    ensures |s| == |order| - i
    decreases |order| - i
  {
    if i >= |order| then [] else [nodes[order[i]].data] + Items(nodes, order, i + 1)
  }

  lemma {:induction false} ItemsAt<T>(nodes: map<NodeId, Node<T>>, order: seq<NodeId>, i: nat, j: nat)
    requires LinkedFrom(nodes, order, i) && i <= j < |order|
    ensures order[j] in nodes && Items(nodes, order, i)[j - i] == nodes[order[j]].data
    decreases j - i
  {
    if i < j {
      ItemsAt(nodes, order, i + 1, j);
    }
  }

  /** The addresses reached from `start` by following next links, at most `fuel` of them. */
  ghost function Walk<T>(nodes: map<NodeId, Node<T>>, start: Option<NodeId>, fuel: nat): seq<NodeId>
    decreases fuel
  {
    if fuel == 0 || start == None || start.value !in nodes then []
    else [start.value] + Walk(nodes, nodes[start.value].next, fuel - 1)
  }

  /** Following next links from index `i` visits the rest of `order`. */
  lemma {:induction false} WalkFrom<T>(nodes: map<NodeId, Node<T>>, order: seq<NodeId>, i: nat, fuel: nat)
    requires forall j :: 0 <= j < |order| ==> order[j] in nodes && nodes[order[j]].next == At(order, j + 1)
    requires i <= |order| && fuel > |order| - i
    ensures Walk(nodes, At(order, i), fuel) == order[i..]
    decreases |order| - i
  {
    if i < |order| {
      WalkFrom(nodes, order, i + 1, fuel - 1);
      assert order[i..] == [order[i]] + order[i + 1..];
    }
  }

  /** The nodes reachable from `first` are exactly those of `order`. */
  lemma ReachableIsOrder<T>(nodes: map<NodeId, Node<T>>, first: Option<NodeId>, last: Option<NodeId>,
                            order: seq<NodeId>)
    requires Chain(nodes, first, last, order)
    ensures Walk(nodes, first, |order| + 1) == order
  {
    forall j | 0 <= j < |order|
      ensures order[j] in nodes && nodes[order[j]].next == At(order, j + 1)
    {
      ChainAt(nodes, first, last, order, j);
    }
    WalkFrom(nodes, order, 0, |order| + 1);
  }

  // ---------------------------------------------------------------------
  // Linking a node in and out
  // ---------------------------------------------------------------------

  /** `order` with `id` placed at index `k`. */
  function InsertAt<U>(order: seq<U>, k: nat, id: U): (o: seq<U>)
    requires k <= |order|
    ensures |o| == |order| + 1
  {
    order[..k] + [id] + order[k..]
  }

  /** `order` without its element at index `k`. */
  function RemoveAt<U>(order: seq<U>, k: nat): (o: seq<U>)
    requires k < |order|
    ensures |o| == |order| - 1
  {
    order[..k] + order[k + 1..]
  }

  /**
   * The nodes after a new node `id` holding `item` is placed between
   * `prev` and `next` (either may be null): the new node points at both,
   * and they point back at it.
   */
  ghost function Link<T>(nodes: map<NodeId, Node<T>>, id: NodeId, prev: Option<NodeId>, next: Option<NodeId>,
                         item: T): map<NodeId, Node<T>>
    requires (prev.Some? ==> prev.value in nodes) && (next.Some? ==> next.value in nodes)
  {
    var n1 := nodes[id := Node(prev, next, item)];
    var n2 := if prev.Some? then n1[prev.value := nodes[prev.value].(next := Some(id))] else n1;
    if next.Some? then n2[next.value := nodes[next.value].(prev := Some(id))] else n2
  }

  /**
   * The nodes after node `c`, whose neighbours are `prev` and `next`, is
   * deleted: the neighbours point at each other instead.
   */
  ghost function Unlink<T>(nodes: map<NodeId, Node<T>>, c: NodeId, prev: Option<NodeId>, next: Option<NodeId>)
    : map<NodeId, Node<T>>
    requires (prev.Some? ==> prev.value in nodes) && (next.Some? ==> next.value in nodes)
  {
    var n1 := nodes - {c};
    var n2 := if prev.Some? then n1[prev.value := nodes[prev.value].(next := next)] else n1;
    if next.Some? then n2[next.value := nodes[next.value].(prev := prev)] else n2
  }

  /** The nodes after a new node `id` is linked in at index `k`. */
  ghost function Linked<T>(nodes: map<NodeId, Node<T>>, order: seq<NodeId>, k: nat, id: NodeId, item: T)
    : map<NodeId, Node<T>>
    requires k <= |order| && (k > 0 ==> order[k - 1] in nodes) && (k < |order| ==> order[k] in nodes)
  {
    Link(nodes, id, At(order, k - 1), At(order, k), item)
  }

  /** The nodes after the node at index `k` is unlinked and deleted. */
  ghost function Unlinked<T>(nodes: map<NodeId, Node<T>>, order: seq<NodeId>, k: nat): map<NodeId, Node<T>>
    requires k < |order| && (k > 0 ==> order[k - 1] in nodes) && (k + 1 < |order| ==> order[k + 1] in nodes)
  {
    Unlink(nodes, order[k], At(order, k - 1), At(order, k + 1))
  }

  lemma DistinctAt(order: seq<NodeId>, i: nat, j: nat)
    requires Distinct(order) && i < |order| && j < |order| && i != j
    ensures order[i] != order[j]
  {
    UniqueFromGives(order, 0);
  }

  lemma DistinctInsertAt(order: seq<NodeId>, k: nat, id: NodeId)
    requires Distinct(order) && k <= |order| && id !in order
    ensures Distinct(InsertAt(order, k, id))
  {
    UniqueFromGives(order, 0);
    var o := InsertAt(order, k, id);
    forall i, j | 0 <= i < j < |o|
      ensures o[i] != o[j]
    {
      if j < k {
        assert o[i] == order[i] && o[j] == order[j];
      } else if j == k {
        assert o[i] == order[i] && o[j] == id;
      } else if i < k {
        assert o[i] == order[i] && o[j] == order[j - 1];
      } else if i == k {
        assert o[i] == id && o[j] == order[j - 1];
      } else {
        assert o[i] == order[i - 1] && o[j] == order[j - 1];
      }
    }
    UniqueFromOf(o, 0);
  }

  lemma DistinctRemoveAt(order: seq<NodeId>, k: nat)
    requires Distinct(order) && k < |order|
    ensures Distinct(RemoveAt(order, k)) && order[k] !in RemoveAt(order, k)
  {
    UniqueFromGives(order, 0);
    var o := RemoveAt(order, k);
    forall i, j | 0 <= i < j < |o|
      ensures o[i] != o[j]
    {
      if j < k {
        assert o[i] == order[i] && o[j] == order[j];
      } else if i < k {
        assert o[i] == order[i] && o[j] == order[j + 1];
      } else {
        assert o[i] == order[i + 1] && o[j] == order[j + 1];
      }
    }
    forall i | 0 <= i < |o|
      ensures o[i] != order[k]
    {
      if i < k { assert o[i] == order[i]; } else { assert o[i] == order[i + 1]; }
    }
    UniqueFromOf(o, 0);
  }

  /** The data of a linked `order` is what its nodes hold, index by index. */
  lemma ItemsFrom<T>(nodes: map<NodeId, Node<T>>, order: seq<NodeId>, want: seq<T>)
    requires LinkedFrom(nodes, order, 0) && |want| == |order|
    requires forall i :: 0 <= i < |order| ==> order[i] in nodes && nodes[order[i]].data == want[i]
    ensures Items(nodes, order, 0) == want
  {
    forall i | 0 <= i < |order|
      ensures Items(nodes, order, 0)[i] == want[i]
    {
      ItemsAt(nodes, order, 0, i);
    }
  }

  /** The node at index `i` after linking in, and its data. */
  lemma LinkedNode<T>(nodes: map<NodeId, Node<T>>, first: Option<NodeId>, last: Option<NodeId>,
                      order: seq<NodeId>, k: nat, id: NodeId, item: T, i: nat)
    requires Chain(nodes, first, last, order) && k <= |order| && id !in nodes && i <= |order|
    requires k > 0 ==> order[k - 1] in nodes
    requires k < |order| ==> order[k] in nodes
    ensures var o := InsertAt(order, k, id);
            var m := Linked(nodes, order, k, id, item);
            LinkedAt(m, o, i) && (i == k ==> m[o[i]].data == item) &&
            (i != k ==> o[i] in nodes && m[o[i]].data == nodes[o[i]].data)
  {
    var o := InsertAt(order, k, id);
    if i < k {
      ChainAt(nodes, first, last, order, i);
      assert o[i] == order[i] && o[i] != id;
      assert i + 1 < k ==> o[i + 1] == order[i + 1];
      assert i > 0 ==> o[i - 1] == order[i - 1];
      if i + 1 < k { DistinctAt(order, i, k - 1); }
      if k < |order| { DistinctAt(order, i, k); }
    } else if i == k {
      assert o[i] == id;
      assert k > 0 ==> o[k - 1] == order[k - 1] && order[k - 1] != id;
      assert k < |order| ==> o[k + 1] == order[k] && order[k] != id;
    } else {
      ChainAt(nodes, first, last, order, i - 1);
      assert o[i] == order[i - 1] && o[i] != id;
      assert i + 1 < |o| ==> o[i + 1] == order[i];
      assert i > k + 1 ==> o[i - 1] == order[i - 2];
      if k > 0 { DistinctAt(order, i - 1, k - 1); }
      if i > k + 1 { DistinctAt(order, i - 1, k); }
    }
  }

  /** Linking in adds exactly the new address. */
  lemma LinkedKeys<T>(nodes: map<NodeId, Node<T>>, order: seq<NodeId>, k: nat, id: NodeId, item: T)
    requires k <= |order| && (k > 0 ==> order[k - 1] in nodes) && (k < |order| ==> order[k] in nodes)
    requires forall x :: x in nodes ==> x < id
    ensures var m := Linked(nodes, order, k, id, item);
            |m| == |nodes| + 1 && (forall x :: x in m ==> x < id + 1)
  {
  }

  /** Unlinking removes exactly the unlinked address. */
  lemma UnlinkedKeys<T>(nodes: map<NodeId, Node<T>>, order: seq<NodeId>, k: nat, bound: nat)
    requires k < |order| && (k > 0 ==> order[k - 1] in nodes) && (k + 1 < |order| ==> order[k + 1] in nodes)
    requires order[k] in nodes && (k > 0 ==> order[k - 1] != order[k]) && (k + 1 < |order| ==> order[k + 1] != order[k])
    requires forall x :: x in nodes ==> x < bound
    ensures var m := Unlinked(nodes, order, k);
            |m| == |nodes| - 1 && (forall x :: x in m ==> x < bound)
  {
  }

  /** Linking a fresh node in at index `k` keeps the chain and inserts its data at `k`. */
  lemma ChainLinked<T>(nodes: map<NodeId, Node<T>>, first: Option<NodeId>, last: Option<NodeId>,
                       order: seq<NodeId>, k: nat, id: NodeId, item: T)
    requires Chain(nodes, first, last, order) && k <= |order| && id !in nodes
    ensures k > 0 ==> order[k - 1] in nodes
    ensures k < |order| ==> order[k] in nodes
    ensures var o := InsertAt(order, k, id);
            var m := Linked(nodes, order, k, id, item);
            Chain(m, At(o, 0), At(o, |o| - 1), o) && Walk(m, At(o, 0), |o| + 1) == o &&
            Items(m, o, 0) == InsertAt(Items(nodes, order, 0), k, item)
  {
    if k > 0 { ChainAt(nodes, first, last, order, k - 1); }
    if k < |order| { ChainAt(nodes, first, last, order, k); }
    var o := InsertAt(order, k, id);
    var m := Linked(nodes, order, k, id, item);
    var want := InsertAt(Items(nodes, order, 0), k, item);
    forall i | 0 <= i < |o|
      ensures LinkedAt(m, o, i) && m[o[i]].data == want[i]
    {
      LinkedNode(nodes, first, last, order, k, id, item, i);
      if i < k {
        ItemsAt(nodes, order, 0, i);
      } else if i > k {
        ItemsAt(nodes, order, 0, i - 1);
      }
    }
    LinkedFromOf(m, o, 0);
    forall j | 0 <= j < |order|
      ensures order[j] != id
    {
      ChainAt(nodes, first, last, order, j);
    }
    DistinctInsertAt(order, k, id);
    ItemsFrom(m, o, want);
    ReachableIsOrder(m, At(o, 0), At(o, |o| - 1), o);
  }

  /** The node at index `i` after unlinking the one at `k`, and its data. */
  lemma UnlinkedNode<T>(nodes: map<NodeId, Node<T>>, first: Option<NodeId>, last: Option<NodeId>,
                        order: seq<NodeId>, k: nat, i: nat)
    requires Chain(nodes, first, last, order) && k < |order| && i < |order| - 1
    requires k > 0 ==> order[k - 1] in nodes
    requires k + 1 < |order| ==> order[k + 1] in nodes
    ensures var o := RemoveAt(order, k);
            var m := Unlinked(nodes, order, k);
            LinkedAt(m, o, i) && m[o[i]].data == nodes[o[i]].data && o[i] == (if i < k then order[i] else order[i + 1])
  {
    var o := RemoveAt(order, k);
    if i < k {
      ChainAt(nodes, first, last, order, i);
      assert o[i] == order[i];
      assert i + 1 < k ==> o[i + 1] == order[i + 1];
      assert i + 1 == k && k + 1 < |order| ==> o[i + 1] == order[k + 1];
      assert i > 0 ==> o[i - 1] == order[i - 1];
      DistinctAt(order, i, k);
      if i + 1 < k { DistinctAt(order, i, k - 1); }
      if k + 1 < |order| { DistinctAt(order, i, k + 1); }
    } else {
      ChainAt(nodes, first, last, order, i + 1);
      assert o[i] == order[i + 1];
      assert i + 1 < |o| ==> o[i + 1] == order[i + 2];
      assert i > k ==> o[i - 1] == order[i];
      assert i == k && k > 0 ==> o[i - 1] == order[k - 1];
      DistinctAt(order, i + 1, k);
      if k > 0 { DistinctAt(order, i + 1, k - 1); }
      if i > k { DistinctAt(order, i + 1, k + 1); }
    }
  }

  /** Unlinking the node at index `k` keeps the chain and removes its data. */
  lemma ChainUnlinked<T>(nodes: map<NodeId, Node<T>>, first: Option<NodeId>, last: Option<NodeId>,
                         order: seq<NodeId>, k: nat)
    requires Chain(nodes, first, last, order) && k < |order|
    ensures LinkedAt(nodes, order, k)
    ensures k > 0 ==> order[k - 1] in nodes
    ensures k + 1 < |order| ==> order[k + 1] in nodes
    ensures var o := RemoveAt(order, k);
            var m := Unlinked(nodes, order, k);
            Chain(m, At(o, 0), At(o, |o| - 1), o) && Walk(m, At(o, 0), |o| + 1) == o &&
            Items(m, o, 0) == RemoveAt(Items(nodes, order, 0), k) && order[k] !in m
  {
    ChainAt(nodes, first, last, order, k);
    if k > 0 { ChainAt(nodes, first, last, order, k - 1); }
    if k + 1 < |order| { ChainAt(nodes, first, last, order, k + 1); }
    var o := RemoveAt(order, k);
    var m := Unlinked(nodes, order, k);
    var want := RemoveAt(Items(nodes, order, 0), k);
    forall i | 0 <= i < |o|
      ensures LinkedAt(m, o, i) && m[o[i]].data == want[i]
    {
      UnlinkedNode(nodes, first, last, order, k, i);
      if i < k { ItemsAt(nodes, order, 0, i); } else { ItemsAt(nodes, order, 0, i + 1); }
    }
    LinkedFromOf(m, o, 0);
    DistinctRemoveAt(order, k);
    ItemsFrom(m, o, want);
    ReachableIsOrder(m, At(o, 0), At(o, |o| - 1), o);
  }

  // ---------------------------------------------------------------------
  // The code as written
  // ---------------------------------------------------------------------

  /**
   * The nodes after `insert` with a null cursor on a non-empty list, as
   * written: the new node `id` points at the old first node and that node
   * points back at it, but `firstNode_` is not moved to the new node.
   */
  ghost function InsertAsWrittenNodes<T>(nodes: map<NodeId, Node<T>>, first: NodeId, id: NodeId, item: T)
    : map<NodeId, Node<T>>
    requires first in nodes
  {
    nodes[id := Node(None, Some(first), item)][first := nodes[first].(prev := Some(id))]
  }

  /**
   * After the insert as written the walk from the unchanged first node
   * still visits only the old nodes: the new node is unreachable, although
   * the counter was incremented.
   */
  lemma InsertAsWrittenOrphans<T>(nodes: map<NodeId, Node<T>>, first: Option<NodeId>, last: Option<NodeId>,
                                  order: seq<NodeId>, id: NodeId, item: T)
    requires Chain(nodes, first, last, order) && order != [] && id !in nodes
    ensures var m := InsertAsWrittenNodes(nodes, first.value, id, item);
            Walk(m, first, |order| + 2) == order && id !in Walk(m, first, |order| + 2)
  {
    var m := InsertAsWrittenNodes(nodes, first.value, id, item);
    forall i | 0 <= i < |order|
      ensures order[i] in m && m[order[i]].next == At(order, i + 1) && order[i] != id
    {
      ChainAt(nodes, first, last, order, i);
    }
    WalkFrom(m, order, 0, |order| + 2);
  }

  /** A map with no keys is the empty map. */
  lemma EmptyMap<K, V>(m: map<K, V>)
    requires |m| == 0
    ensures m == map[]
  {
  }

  /** In a sequence without repetitions the first occurrence of `s[k]` is at `k`. */
  lemma IndexOfDistinct(s: seq<NodeId>, k: nat)
    requires Distinct(s) && k < |s|
    ensures IndexOf(s, s[k]) == k
  {
    var i := IndexOf(s, s[k]);
    if i != k {
      DistinctAt(s, i, k);
    }
  }

  /** The index of the first occurrence of `x` in `s`, or |s| when there is none. */
  function IndexOf<U(==)>(s: seq<U>, x: U): (i: nat)
    ensures i <= |s| && (i < |s| ==> s[i] == x)
    ensures forall j :: 0 <= j < i ==> s[j] != x
    ensures i == |s| <==> x !in s
  {
    if s == [] then 0
    else if s[0] == x then 0
    else 1 + IndexOf(s[1..], x)
  }

  // ---------------------------------------------------------------------
  // The list state
  // ---------------------------------------------------------------------

  /** The addresses met by following next links from `first`. */
  ghost function OrderOf<T>(nodes: map<NodeId, Node<T>>, first: Option<NodeId>): seq<NodeId>
  {
    Walk(nodes, first, |nodes| + 1)
  }

  /**
   * The nodes met from `first` form the doubly linked chain that ends at
   * `last`; they are all the live nodes (the chain has distinct nodes and
   * as many as there are live ones); `cnt` counts them; every live address
   * is below `nextId`; the current node is one of them or null.
   */
  ghost predicate ListInv<T>(nodes: map<NodeId, Node<T>>, first: Option<NodeId>, last: Option<NodeId>,
                             current: Option<NodeId>, cnt: nat, nextId: NodeId)
  {
    var o := OrderOf(nodes, first);
    Chain(nodes, first, last, o) && |nodes| == |o| && cnt == |nodes| &&
    (forall id :: id in nodes ==> id < nextId) &&
    (current.Some? ==> current.value in o)
  }

  /** The items of the list, in list order. */
  ghost function ItemsOf<T>(nodes: map<NodeId, Node<T>>, first: Option<NodeId>): (s: seq<T>)
    requires LinkedFrom(nodes, OrderOf(nodes, first), 0)
    ensures |s| == |OrderOf(nodes, first)|
  {
    Items(nodes, OrderOf(nodes, first), 0)
  }

  /** The index of the current node in list order, or None when it is null. */
  ghost function CursorOf<T>(nodes: map<NodeId, Node<T>>, first: Option<NodeId>, current: Option<NodeId>)
    : (c: Option<nat>)
    requires current.Some? ==> current.value in OrderOf(nodes, first)
    ensures c == None <==> current == None
    ensures c.Some? ==> c.value < |OrderOf(nodes, first)| && OrderOf(nodes, first)[c.value] == current.value
  {
    if current == None then None else Some(IndexOf(OrderOf(nodes, first), current.value))
  }

  /**
   * Linking a fresh node `nextId` in at index `k` of a valid list, between
   * the nodes at `k - 1` and `k`, with the new node as first (last) node
   * when `k` is the first (last) position: the nodes reached from the
   * first one are the old ones with `nextId` at index `k`, and they form a
   * chain ending at the last node.
   */
  lemma InsertChain<T>(nodes: map<NodeId, Node<T>>, first: Option<NodeId>, last: Option<NodeId>,
                       current: Option<NodeId>, cnt: nat, nextId: NodeId, k: nat, item: T)
    requires ListInv(nodes, first, last, current, cnt, nextId) && k <= |OrderOf(nodes, first)|
    ensures var o0 := OrderOf(nodes, first);
            var prev := At(o0, k - 1);
            var next := At(o0, k);
            (prev.Some? ==> prev.value in nodes && nodes[prev.value].next == next) &&
            (next.Some? ==> next.value in nodes && nodes[next.value].prev == prev) &&
            (k == 0 ==> next == first) && (k == |o0| ==> prev == last) &&
            (first == None <==> o0 == []) && (last == None <==> o0 == [])
    ensures var o0 := OrderOf(nodes, first);
            var o := InsertAt(o0, k, nextId);
            var m := Link(nodes, nextId, At(o0, k - 1), At(o0, k), item);
            var f := if k == 0 then Some(nextId) else first;
            var l := if k == |o0| then Some(nextId) else last;
            Chain(m, f, l, o) && OrderOf(m, f) == o && |m| == |o| && (forall x :: x in m ==> x < nextId + 1) &&
            Items(m, o, 0) == InsertAt(ItemsOf(nodes, first), k, item)
  {
    var o0 := OrderOf(nodes, first);
    ChainLinked(nodes, first, last, o0, k, nextId, item);
    LinkedKeys(nodes, o0, k, nextId, item);
    if k > 0 { ChainAt(nodes, first, last, o0, k - 1); }
    if k < |o0| { ChainAt(nodes, first, last, o0, k); }
    var o := InsertAt(o0, k, nextId);
    if k > 0 { assert o[0] == o0[0]; }
    if k < |o0| { assert o[|o| - 1] == o0[|o0| - 1]; }
  }

  /**
   * Linking a fresh node in at index `k` of a valid list (as in
   * InsertChain), with the new node as current node: the result is a valid
   * list holding `item` at index `k`, and the cursor is at `k`.
   */
  lemma InsertStep<T>(nodes: map<NodeId, Node<T>>, first: Option<NodeId>, last: Option<NodeId>,
                      current: Option<NodeId>, cnt: nat, nextId: NodeId, k: nat, item: T)
    requires ListInv(nodes, first, last, current, cnt, nextId) && k <= |OrderOf(nodes, first)|
    ensures var o0 := OrderOf(nodes, first);
            var prev := At(o0, k - 1);
            var next := At(o0, k);
            (prev.Some? ==> prev.value in nodes && nodes[prev.value].next == next) &&
            (next.Some? ==> next.value in nodes && nodes[next.value].prev == prev) &&
            (k == 0 ==> next == first) && (k == |o0| ==> prev == last) &&
            (first == None <==> o0 == []) && (last == None <==> o0 == [])
    ensures var o0 := OrderOf(nodes, first);
            var n := Link(nodes, nextId, At(o0, k - 1), At(o0, k), item);
            var f := if k == 0 then Some(nextId) else first;
            var l := if k == |o0| then Some(nextId) else last;
            ListInv(n, f, l, Some(nextId), cnt + 1, nextId + 1) &&
            ItemsOf(n, f) == InsertAt(ItemsOf(nodes, first), k, item) &&
            CursorOf(n, f, Some(nextId)) == Some(k)
  {
    InsertChain(nodes, first, last, current, cnt, nextId, k, item);
    var o0 := OrderOf(nodes, first);
    var o := InsertAt(o0, k, nextId);
    assert o[k] == nextId;
    IndexOfDistinct(o, k);
  }

  /**
   * Deleting the node at index `k` of a valid list: its neighbours are
   * live and linked to it, and once they are linked to each other, with a
   * null neighbour making the other one the new first (last) node, the
   * nodes reached from the first one are the old ones without it, and they
   * form a chain ending at the last node.
   */
  lemma RemoveChain<T>(nodes: map<NodeId, Node<T>>, first: Option<NodeId>, last: Option<NodeId>,
                       current: Option<NodeId>, cnt: nat, nextId: NodeId, k: nat)
    requires ListInv(nodes, first, last, current, cnt, nextId) && k < |OrderOf(nodes, first)|
    ensures var o0 := OrderOf(nodes, first);
            var c := o0[k];
            c in nodes && nodes[c].prev == At(o0, k - 1) && nodes[c].next == At(o0, k + 1) &&
            (k > 0 ==> o0[k - 1] in nodes) && (k + 1 < |o0| ==> o0[k + 1] in nodes) &&
            nodes[c].data == ItemsOf(nodes, first)[k]
    ensures var o0 := OrderOf(nodes, first);
            var o := RemoveAt(o0, k);
            var m := Unlink(nodes, o0[k], At(o0, k - 1), At(o0, k + 1));
            var f := if k == 0 then At(o0, 1) else first;
            var l := if k + 1 == |o0| then At(o0, k - 1) else last;
            Chain(m, f, l, o) && OrderOf(m, f) == o && |m| == |o| && (forall x :: x in m ==> x < nextId) &&
            Items(m, o, 0) == RemoveAt(ItemsOf(nodes, first), k)
  {
    var o0 := OrderOf(nodes, first);
    ChainUnlinked(nodes, first, last, o0, k);
    ItemsAt(nodes, o0, 0, k);
    if k > 0 { DistinctAt(o0, k - 1, k); }
    if k + 1 < |o0| { DistinctAt(o0, k + 1, k); }
    UnlinkedKeys(nodes, o0, k, nextId);
    var o := RemoveAt(o0, k);
    var m := Unlinked(nodes, o0, k);
    var f := if k == 0 then At(o0, 1) else first;
    var l := if k + 1 == |o0| then At(o0, k - 1) else last;
    assert f == At(o, 0) by {
      if k > 0 { assert o[0] == o0[0]; }
    }
    assert l == At(o, |o| - 1) by {
      if k + 1 < |o0| { assert o[|o| - 1] == o0[|o0| - 1]; }
    }
    assert |m| == |o| && OrderOf(m, f) == o;
  }

  /**
   * Deleting node `c` (index `k`) of a valid list as in RemoveChain, with
   * the successor of `c` as current node: the result is a valid list
   * holding the items without the one at `k`, with the cursor still at `k`
   * (null when `c` was last).
   */
  lemma RemoveStep<T>(nodes: map<NodeId, Node<T>>, first: Option<NodeId>, last: Option<NodeId>,
                      current: Option<NodeId>, cnt: nat, nextId: NodeId, c: NodeId)
    requires ListInv(nodes, first, last, current, cnt, nextId) && c in OrderOf(nodes, first)
    ensures c in nodes && (nodes[c].prev.Some? ==> nodes[c].prev.value in nodes) &&
            (nodes[c].next.Some? ==> nodes[c].next.value in nodes)
    ensures var k := IndexOf(OrderOf(nodes, first), c);
            nodes[c].data == ItemsOf(nodes, first)[k] && (k == 0 <==> nodes[c].prev == None) &&
            (first == Some(c) ==> k == 0)
    ensures var p := nodes[c];
            var k := IndexOf(OrderOf(nodes, first), c);
            var n := Unlink(nodes, c, p.prev, p.next);
            var f := if p.prev == None then p.next else first;
            var l := if p.next == None then p.prev else last;
            ListInv(n, f, l, p.next, cnt - 1, nextId) &&
            ItemsOf(n, f) == RemoveAt(ItemsOf(nodes, first), k) &&
            CursorOf(n, f, p.next) == (if k < |OrderOf(n, f)| then Some(k) else None)
  {
    var o0 := OrderOf(nodes, first);
    var k := IndexOf(o0, c);
    RemoveChain(nodes, first, last, current, cnt, nextId, k);
    var o := RemoveAt(o0, k);
    if k < |o| {
      assert o[k] == o0[k + 1];
      IndexOfDistinct(o, k);
    }
  }

  // ---------------------------------------------------------------------
  // The list
  // ---------------------------------------------------------------------

  class List<T(==)> {
    var nodes: map<NodeId, Node<T>>
    /** firstNode_, lastNode_, currentNode_ */
    var firstNode: Option<NodeId>
    var lastNode: Option<NodeId>
    var currentNode: Option<NodeId>
    /** Collection::cnt_ */
    var cnt: nat
    /** Collection::autoDelete_ */
    var autoDelete: bool
    /** An address no live node uses (what NEW returns). */
    var nextId: NodeId

    /** The addresses met by following next links from the first node. */
    ghost function Order(): seq<NodeId>
      reads this
    {
      OrderOf(nodes, firstNode)
    }

    ghost predicate Valid()
      reads this
    {
      ListInv(nodes, firstNode, lastNode, currentNode, cnt, nextId)
    }

    /** The items in list order. */
    ghost function Contents(): (s: seq<T>)
      reads this
      requires Valid()
      ensures |s| == |Order()|
    {
      ItemsOf(nodes, firstNode)
    }

    /** The index of the current node in list order, or None when it is null. */
    ghost function Cursor(): (c: Option<nat>)
      reads this
      requires Valid()
      ensures c == None <==> currentNode == None
      ensures c.Some? ==> c.value < |Order()| && Order()[c.value] == currentNode.value
    {
      CursorOf(nodes, firstNode, currentNode)
    }

    /** List(): an empty list with no current item. */
    constructor ()
      ensures Valid() && Contents() == [] && currentNode == None && !autoDelete
    {
      nodes := map[];
      firstNode, lastNode, currentNode := None, None, None;
      cnt := 0;
      autoDelete := false;
      nextId := 0;
    }

    /** Collection::count: the number of nodes reachable from the first one. */
    function Count(): (n: nat)
      reads this
      requires Valid()
      ensures n == |Order()| && n == |Contents()|
    {
      cnt
    }

    /** Collection::isEmpty */
    function IsEmpty(): (b: bool)
      reads this
      requires Valid()
      ensures b <==> Contents() == []
    {
      cnt == 0
    }

    /** Collection::setAutoDelete */
    method SetAutoDelete(ad: bool)
      modifies this`autoDelete
      ensures autoDelete == ad
    {
      autoDelete := ad;
    }

    // -------------------------------------------------------------------
    // Cursor navigation
    // -------------------------------------------------------------------

    /** first(): the first item becomes current; null (and no change) when empty. */
    method First() returns (r: Option<T>)
      requires Valid()
      modifies this`currentNode
      ensures Valid()
      ensures Order() == [] ==> r == None && currentNode == old(currentNode)
      ensures Order() != [] ==> r == Some(Contents()[0]) && Cursor() == Some(0)
    {
      if firstNode == None {
        return None;
      }
      ItemsAt(nodes, Order(), 0, 0);
      currentNode := firstNode;
      return Some(nodes[firstNode.value].data);
    }

    /** last(): the last item becomes current; null (and no change) when empty. */
    method Last() returns (r: Option<T>)
      requires Valid()
      modifies this`currentNode
      ensures Valid()
      ensures Order() == [] ==> r == None && currentNode == old(currentNode)
      ensures Order() != [] ==> r == Some(Contents()[|Order()| - 1]) && Cursor() == Some(|Order()| - 1)
    {
      if lastNode == None {
        return None;
      }
      ghost var o := Order();
      ItemsAt(nodes, o, 0, |o| - 1);
      IndexOfDistinct(o, |o| - 1);
      currentNode := lastNode;
      return Some(nodes[lastNode.value].data);
    }

    /** current(): the current item, or null. */
    method Current() returns (r: Option<T>)
      requires Valid()
      ensures Cursor() == None ==> r == None
      ensures Cursor().Some? ==> r == Some(Contents()[Cursor().value])
    {
      if currentNode == None {
        return None;
      }
      ItemsAt(nodes, Order(), 0, Cursor().value);
      return Some(nodes[currentNode.value].data);
    }

    /** next(): moves the cursor forward; past the end it returns null and clears the cursor. */
    method Next() returns (r: Option<T>)
      requires Valid()
      modifies this`currentNode
      ensures Valid()
      ensures old(Cursor()) == None ==> r == None && Cursor() == None
      ensures old(Cursor()).Some? && old(Cursor()).value + 1 < |Order()| ==>
                Cursor() == Some(old(Cursor()).value + 1) && r == Some(Contents()[old(Cursor()).value + 1])
      ensures old(Cursor()).Some? && old(Cursor()).value + 1 == |Order()| ==> r == None && Cursor() == None
    {
      if currentNode == None {
        return None;
      }
      ghost var o := Order();
      ghost var i := Cursor().value;
      ChainAt(nodes, firstNode, lastNode, o, i);
      var node := nodes[currentNode.value];
      if node.next == None {
        currentNode := None;
        return None;
      }
      ItemsAt(nodes, o, 0, i + 1);
      IndexOfDistinct(o, i + 1);
      currentNode := node.next;
      return Some(nodes[node.next.value].data);
    }

    /** prev(): moves the cursor back; before the start it returns null and clears the cursor. */
    method Prev() returns (r: Option<T>)
      requires Valid()
      modifies this`currentNode
      ensures Valid()
      ensures old(Cursor()) == None ==> r == None && Cursor() == None
      ensures old(Cursor()).Some? && old(Cursor()).value > 0 ==>
                Cursor() == Some(old(Cursor()).value - 1) && r == Some(Contents()[old(Cursor()).value - 1])
      ensures old(Cursor()) == Some(0) ==> r == None && Cursor() == None
    {
      if currentNode == None {
        return None;
      }
      ghost var o := Order();
      ghost var i := Cursor().value;
      ChainAt(nodes, firstNode, lastNode, o, i);
      var node := nodes[currentNode.value];
      if node.prev == None {
        currentNode := None;
        return None;
      }
      ItemsAt(nodes, o, 0, i - 1);
      IndexOfDistinct(o, i - 1);
      currentNode := node.prev;
      return Some(nodes[node.prev.value].data);
    }

    // -------------------------------------------------------------------
    // Adding items
    // -------------------------------------------------------------------

    /**
     * insert() as intended: the item goes after the current item, or to
     * the front when there is no current item, and becomes current.
     */
    method Insert(item: T)
      requires Valid()
      modifies this`nodes, this`firstNode, this`lastNode, this`currentNode, this`cnt, this`nextId
      ensures Valid()
      ensures var k := if old(currentNode) == None then 0 else old(Cursor()).value + 1;
              Contents() == InsertAt(old(Contents()), k, item) && Cursor() == Some(k)
      ensures cnt == old(cnt) + 1 && currentNode == Some(old(nextId))
    {
      var pom := nextId;
      ghost var o0 := Order();
      ghost var k := if currentNode == None then 0 else Cursor().value + 1;
      InsertStep(nodes, firstNode, lastNode, currentNode, cnt, nextId, k, item);
      var n, f, l := nodes, firstNode, lastNode;
      if firstNode == None {
        n := nodes[pom := Node(None, None, item)];
        f, l := Some(pom), Some(pom);
      } else if currentNode == None {
        var first := firstNode.value;
        n := nodes[pom := Node(None, firstNode, item)];
        n := n[first := nodes[first].(prev := Some(pom))];
        f := Some(pom);
      } else {
        var c := currentNode.value;
        var next := nodes[c].next;
        n := nodes[pom := Node(currentNode, next, item)];
        n := n[c := nodes[c].(next := Some(pom))];
        if next == None {
          l := Some(pom);
        } else {
          n := n[next.value := nodes[next.value].(prev := Some(pom))];
        }
      }
      assert n == Link(old(nodes), pom, At(o0, k - 1), At(o0, k), item);
      nodes := n;
      firstNode := f;
      lastNode := l;
      currentNode := Some(pom);
      cnt := cnt + 1;
      nextId := nextId + 1;
    }

    /**
     * insert() as written.  With a null cursor on a non-empty list the new
     * node is linked in front of the first node but `firstNode_` keeps
     * pointing at the old first node: the list walked from the first node
     * is unchanged, the new node is live but unreachable, and the counter
     * no longer equals the number of reachable nodes.
     */
    method InsertAsWritten(item: T)
      requires Valid()
      modifies this`nodes, this`firstNode, this`lastNode, this`currentNode, this`cnt, this`nextId
      ensures cnt == old(cnt) + 1 && currentNode == Some(old(nextId))
      ensures old(firstNode) == None || old(currentNode).Some? ==>
                Valid() && Contents() == InsertAt(old(Contents()), if old(currentNode) == None then 0
                                                                  else old(Cursor()).value + 1, item)
      ensures old(firstNode).Some? && old(currentNode) == None ==>
                firstNode == old(firstNode) && lastNode == old(lastNode) &&
                nodes == InsertAsWrittenNodes(old(nodes), old(firstNode).value, old(nextId), item) &&
                Order() == old(Order()) && old(nextId) in nodes && old(nextId) !in Order() &&
                cnt == |Order()| + 1
    {
      if firstNode != None && currentNode == None {
        var pom := nextId;
        var first := firstNode.value;
        ghost var o0 := Order();
        InsertAsWrittenOrphans(nodes, firstNode, lastNode, o0, pom, item);
        var n := nodes[pom := Node(None, firstNode, item)];
        n := n[first := nodes[first].(prev := Some(pom))];
        assert |n| == |nodes| + 1;
        nodes := n;
        currentNode := Some(pom);
        cnt := cnt + 1;
        nextId := nextId + 1;
      } else {
        Insert(item);
      }
    }

    /** append(): the item becomes the last item and the current one. */
    method Append(item: T)
      requires Valid()
      modifies this`nodes, this`firstNode, this`lastNode, this`currentNode, this`cnt, this`nextId
      ensures Valid()
      ensures Contents() == old(Contents()) + [item] && cnt == old(cnt) + 1
      ensures Cursor() == Some(|Order()| - 1)
    {
      var pom := nextId;
      ghost var o0 := Order();
      InsertStep(nodes, firstNode, lastNode, currentNode, cnt, nextId, |o0|, item);
      var n := nodes[pom := Node(lastNode, None, item)];
      var f := firstNode;
      if firstNode == None {
        f := Some(pom);
      } else {
        n := n[lastNode.value := nodes[lastNode.value].(next := Some(pom))];
      }
      assert n == Link(nodes, pom, At(o0, |o0| - 1), At(o0, |o0|), item);
      nodes := n;
      firstNode := f;
      lastNode := Some(pom);
      currentNode := Some(pom);
      cnt := cnt + 1;
      nextId := nextId + 1;
    }

    /** prepend(): the item becomes the first item and the current one. */
    method Prepend(item: T)
      requires Valid()
      modifies this`nodes, this`firstNode, this`lastNode, this`currentNode, this`cnt, this`nextId
      ensures Valid()
      ensures Contents() == [item] + old(Contents()) && cnt == old(cnt) + 1
      ensures Cursor() == Some(0)
    {
      var pom := nextId;
      ghost var o0 := Order();
      InsertStep(nodes, firstNode, lastNode, currentNode, cnt, nextId, 0, item);
      var n := nodes[pom := Node(None, firstNode, item)];
      var l := lastNode;
      if lastNode == None {
        l := Some(pom);
      } else {
        n := n[firstNode.value := nodes[firstNode.value].(prev := Some(pom))];
      }
      assert n == Link(nodes, pom, At(o0, -1), At(o0, 0), item);
      nodes := n;
      lastNode := l;
      firstNode := Some(pom);
      currentNode := Some(pom);
      cnt := cnt + 1;
      nextId := nextId + 1;
    }

    // -------------------------------------------------------------------
    // Removing items
    // -------------------------------------------------------------------

    /** remove(): deletes the current node; its successor becomes current. */
    method Remove() returns (removed: bool)
      requires Valid()
      modifies this`nodes, this`firstNode, this`lastNode, this`currentNode, this`cnt
      ensures Valid()
      ensures removed <==> old(currentNode).Some?
      ensures !removed ==> Contents() == old(Contents()) && currentNode == None && cnt == old(cnt)
      ensures removed ==>
                var k := old(Cursor()).value;
                Contents() == RemoveAt(old(Contents()), k) && cnt == old(cnt) - 1 &&
                Cursor() == (if k < |Order()| then Some(k) else None)
    {
      if currentNode == None {
        return false;
      }
      var c := currentNode.value;
      RemoveStep(nodes, firstNode, lastNode, currentNode, cnt, nextId, c);
      ghost var k := IndexOf(Order(), c);
      ghost var items := Contents();
      assert Cursor() == Some(k);
      var pom1 := nodes[c].prev;
      var pom2 := nodes[c].next;
      var n := nodes - {c};
      var f, l := firstNode, lastNode;
      if pom1 != None {
        n := n[pom1.value := nodes[pom1.value].(next := pom2)];
      } else {
        f := pom2;
      }
      if pom2 != None {
        n := n[pom2.value := nodes[pom2.value].(prev := pom1)];
      } else {
        l := pom1;
      }
      assert n == Unlink(nodes, c, pom1, pom2);
      nodes := n;
      firstNode := f;
      lastNode := l;
      cnt := cnt - 1;
      currentNode := pom2;
      assert Contents() == RemoveAt(items, k);
      return true;
    }

    /** remove(item): removes the first node holding `item`, which then gives way to its successor. */
    method RemoveItem(item: T) returns (removed: bool)
      requires Valid()
      modifies this`nodes, this`firstNode, this`lastNode, this`currentNode, this`cnt
      ensures Valid()
      ensures removed <==> item in old(Contents())
      ensures !removed ==> Contents() == old(Contents()) && currentNode == old(currentNode) && cnt == old(cnt)
      ensures removed ==>
                var k := IndexOf(old(Contents()), item);
                Contents() == RemoveAt(old(Contents()), k) && cnt == old(cnt) - 1 &&
                Cursor() == (if k < |Order()| then Some(k) else None)
    {
      ghost var o := Order();
      var pom := firstNode;
      ghost var k := 0;
      while pom != None && nodes[pom.value].data != item
        modifies {}
        invariant k <= |o| && pom == At(o, k)
        invariant pom.Some? ==> pom.value in nodes && nodes[pom.value].data == Contents()[k]
        invariant forall j :: 0 <= j < k ==> Contents()[j] != item
        decreases |o| - k
      {
        ChainAt(nodes, firstNode, lastNode, o, k);
        pom := nodes[pom.value].next;
        k := k + 1;
        if k < |o| { ItemsAt(nodes, o, 0, k); }
      }
      if pom == None {
        assert item !in Contents();
        return false;
      }
      assert IndexOf(Contents(), item) == k;
      IndexOfDistinct(o, k);
      currentNode := pom;
      removed := Remove();
    }

    /** contains(item): whether some node holds `item`. */
    method Contains(item: T) returns (found: bool)
      requires Valid()
      ensures found <==> item in Contents()
    {
      ghost var o := Order();
      var pom := firstNode;
      ghost var k := 0;
      while pom != None
        invariant k <= |o| && pom == At(o, k)
        invariant forall j :: 0 <= j < k ==> Contents()[j] != item
        decreases |o| - k
      {
        ItemsAt(nodes, o, 0, k);
        if nodes[pom.value].data == item {
          return true;
        }
        ChainAt(nodes, firstNode, lastNode, o, k);
        pom := nodes[pom.value].next;
        k := k + 1;
      }
      return false;
    }

    /**
     * getFirst() as intended: removes the first item and returns it (null
     * when empty); the new first item becomes current, and an emptied list
     * has no last node either.
     */
    method GetFirst() returns (r: Option<T>)
      requires Valid()
      modifies this`nodes, this`firstNode, this`lastNode, this`currentNode, this`cnt
      ensures Valid()
      ensures old(Order()) == [] ==> r == None && Contents() == [] && currentNode == old(currentNode)
      ensures old(Order()) != [] ==>
                r == Some(old(Contents())[0]) && Contents() == old(Contents())[1..] &&
                cnt == old(cnt) - 1 && Cursor() == (if Order() == [] then None else Some(0))
    {
      if firstNode == None {
        return None;
      }
      var pom := firstNode.value;
      assert pom == Order()[0];
      RemoveStep(nodes, firstNode, lastNode, currentNode, cnt, nextId, pom);
      r := Some(nodes[pom].data);
      var f := nodes[pom].next;
      var n := nodes - {pom};
      var l := lastNode;
      if f != None {
        n := n[f.value := nodes[f.value].(prev := None)];
      } else {
        l := None;
      }
      assert n == Unlink(nodes, pom, None, f);
      firstNode := f;
      lastNode := l;
      currentNode := f;
      nodes := n;
      cnt := cnt - 1;
      assert RemoveAt(old(Contents()), 0) == old(Contents())[1..];
    }

    /**
     * getFirst() as written: `lastNode_` is never touched, so when the only
     * node is removed it still points at the deleted node while
     * `firstNode_` is null and no node is left.
     */
    method GetFirstAsWritten() returns (r: Option<T>)
      requires Valid()
      modifies this`nodes, this`firstNode, this`currentNode, this`cnt
      ensures old(Order()) == [] ==> r == None && Valid() && Contents() == []
      ensures |old(Order())| > 1 ==> Valid() && r == Some(old(Contents())[0]) && Contents() == old(Contents())[1..]
      ensures |old(Order())| == 1 ==>
                r == Some(old(Contents())[0]) && nodes == map[] && cnt == 0 && firstNode == None &&
                lastNode.Some? && lastNode.value !in nodes
    {
      if firstNode == None {
        return None;
      }
      var pom := firstNode.value;
      assert pom == Order()[0];
      RemoveStep(nodes, firstNode, lastNode, currentNode, cnt, nextId, pom);
      r := Some(nodes[pom].data);
      var f := nodes[pom].next;
      var n := nodes - {pom};
      if f != None {
        n := n[f.value := nodes[f.value].(prev := None)];
      }
      assert n == Unlink(nodes, pom, None, f);
      if f == None {
        EmptyMap(n);
      }
      firstNode := f;
      currentNode := f;
      nodes := n;
      cnt := cnt - 1;
      assert RemoveAt(old(Contents()), 0) == old(Contents())[1..];
    }

    /** clear(): deletes every node from the first on; all pointers become null and the counter 0. */
    method Clear()
      requires Valid()
      modifies this`nodes, this`firstNode, this`lastNode, this`currentNode, this`cnt
      ensures Valid() && Contents() == []
      ensures firstNode == None && lastNode == None && currentNode == None && cnt == 0 && nodes == map[]
    {
      ghost var o := Order();
      ghost var n0 := nodes;
      ghost var k := 0;
      forall j | 0 <= j < |o|
        ensures o[j] in nodes
      {
        ChainAt(nodes, firstNode, lastNode, o, j);
      }
      while firstNode != None
        invariant Chain(n0, old(firstNode), old(lastNode), o)
        invariant k <= |o| && firstNode == At(o, k) && |nodes| == |o| - k
        invariant forall j :: k <= j < |o| ==> o[j] in nodes && nodes[o[j]] == n0[o[j]]
        decreases |o| - k
      {
        var f := firstNode.value;
        ChainAt(n0, old(firstNode), old(lastNode), o, k);
        forall j | k < j < |o|
          ensures o[j] != f
        {
          DistinctAt(o, k, j);
        }
        firstNode := nodes[f].next;
        nodes := nodes - {f};
        k := k + 1;
      }
      EmptyMap(nodes);
      firstNode, lastNode, currentNode := None, None, None;
      cnt := 0;
    }
  }
}
