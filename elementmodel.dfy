/**
 * ElementModeler: the per-element graph of the adaptive XML model.
 *
 * Each element name has a graph whose nodes are the start node, the end
 * node, character nodes and element nodes (references to the modeler of a
 * child element).  Edges carry a frequency count and an id; a node's edges
 * are numbered 1..n in creation order and the node remembers its most
 * probable transition (mpt).  The modeler walks the graph while a document
 * is coded, creating nodes and edges as it goes, and keeps a stack of the
 * element nodes it has entered and a yes/no predictor for attributes.
 *
 * Nodes are kept in creation order in `nodes` (the node list), so a node's
 * index is its id and stands for a pointer to it; an edge's to and the
 * mpt are indices.  The start node's attribute counters are fields of the
 * modeler.  `Modeler` is the observable state, the `...Of` functions are the
 * operations, and the class `ElementModeler` runs them on its fields.
 */
module ElementModels {
  import opened Wrappers

  /** The identity of an element modeler (stands for an ElementModeler pointer). */
  type ModelerId = nat

  /** ElementModel::NodeType */
  datatype NodeType = NoNode | StartNode | EndNode | CharactersNode | ElementNode

  /** ElementModel::TransitionState */
  datatype TransitionState = Definite | Indefinite | NewNodeCreated | Impossible

  /** An edge: its frequency count, its id and the index of the node it leads to. */
  datatype Transition = Transition(frequency: nat, id: nat, node: nat)

  /**
   * A graph node: its id, its type, its outgoing edges in creation order,
   * the position of the most probable one when there is one, and the
   * modeler it refers to (null for character nodes).
   */
  datatype GraphNode = GraphNode(id: nat, kind: NodeType, successors: seq<Transition>,
                       mpt: Option<nat>, modeler: Option<ModelerId>)

  /**
   * The state of a modeler: the element name, the node list (start node at
   * 0, end node at 1), the current node, the node stack (top last), the
   * attribute counters and prediction of the start node, and the reference
   * count.
   */
  datatype Modeler = Modeler(name: seq<char>, nodes: seq<GraphNode>, current: nat, stack: seq<nat>,
                             noAttrCnt: nat, yesAttrCnt: nat, hasAttr: bool, refCount: nat)

  /** The result of moveToDesiredNode: the new state, the returned state, the id
      stored into *edgeId (None: left untouched) and whether *elementPushes grew. */
  datatype MoveResult = MoveResult(m: Modeler, result: TransitionState, edgeId: Option<nat>, pushed: bool)

  /** The result of moveForward and followEdge: the new state, the returned type,
      the node stored into *node and the element name passed to endElement. */
  datatype StepResult = StepResult(m: Modeler, kind: NodeType, node: Option<nat>, ended: Option<seq<char>>)

  /** The mpt of a node points to one of its edges. */
  predicate MptInRange(n: GraphNode)
  {
    n.mpt.Some? ==> n.mpt.value < |n.successors|
  }

  /** The mpt has a frequency no other edge of the node exceeds. */
  predicate MptMaximal(n: GraphNode)
    requires MptInRange(n)
  {
    n.mpt.Some? ==>
      forall k :: 0 <= k < |n.successors| ==> n.successors[k].frequency <= n.successors[n.mpt.value].frequency
  }

  /**
   * What holds of every node: edges numbered 1..n in order, each used at
   * least once and leading to one of the `count` nodes, and an mpt exactly
   * when there is an edge, of maximal frequency.
   */
  predicate NodeOk(n: GraphNode, count: nat)
  {
    && (forall k :: 0 <= k < |n.successors| ==>
          n.successors[k].id == k + 1 && n.successors[k].frequency >= 1 && n.successors[k].node < count)
    && (n.mpt.None? <==> n.successors == [])
    && MptInRange(n) && MptMaximal(n)
  }

  /** Every node of a node list is well formed and has its position as id. */
  predicate NodesOk(nodes: seq<GraphNode>)
  {
    forall i :: 0 <= i < |nodes| ==> nodes[i].id == i && NodeOk(nodes[i], |nodes|)
  }

  /** The attribute prediction follows the majority of the updates. */
  predicate AttrConsistent(g: Modeler)
  {
    (g.yesAttrCnt > g.noAttrCnt ==> g.hasAttr) && (g.noAttrCnt > g.yesAttrCnt ==> !g.hasAttr)
  }

  /** The invariant of a modeler state; the end node is the only node of its type. */
  predicate WellFormed(g: Modeler)
  {
    && |g.nodes| >= 2 && g.nodes[0].kind == StartNode && g.nodes[1].kind == EndNode
    && (forall i :: 0 <= i < |g.nodes| && g.nodes[i].kind == EndNode ==> i == 1)
    && NodesOk(g.nodes)
    && g.current < |g.nodes|
    && (forall j :: 0 <= j < |g.stack| ==> g.stack[j] < |g.nodes|)
    && AttrConsistent(g)
  }

  /** The constructor: a start node (id 0) and an end node (id 1), both of this
      modeler, current = start, an empty stack, no attributes expected, one reference. */
  function NewModeler(name: seq<char>, me: ModelerId): (g: Modeler)
    ensures WellFormed(g)
    ensures g.nodes[0].id == 0 && g.nodes[0].kind == StartNode && g.nodes[1].id == 1 && g.nodes[1].kind == EndNode
    ensures g.current == 0 && g.stack == [] && g.refCount == 1
    ensures g.yesAttrCnt == 0 && g.noAttrCnt == 0 && !g.hasAttr
  {
    Modeler(name, [GraphNode(0, StartNode, [], None, Some(me)), GraphNode(1, EndNode, [], None, Some(me))],
            0, [], 0, 0, false, 1)
  }

  /**
   * INC_TRANSITION_FREQUENCY: adds 1 to the k-th edge; the mpt moves to that
   * edge when there was none or when the edge now has at least the mpt's
   * frequency.
   */
  function IncFrequency(n: GraphNode, k: nat): (r: GraphNode)
    requires k < |n.successors| && MptInRange(n)
    ensures r.id == n.id && r.kind == n.kind && r.modeler == n.modeler
    ensures |r.successors| == |n.successors| && MptInRange(r) && r.mpt.Some?
    ensures r.successors[k] == n.successors[k].(frequency := n.successors[k].frequency + 1)
    ensures forall j :: 0 <= j < |n.successors| && j != k ==> r.successors[j] == n.successors[j]
    ensures r.mpt == Some(k) || r.mpt == n.mpt
  {
    var tr := n.successors[k].(frequency := n.successors[k].frequency + 1);
    var s := n.successors[k := tr];
    var mpt :=
      if n.mpt == Some(k) then n.mpt
      else if n.mpt.None? then Some(k)
      else if tr.frequency == s[n.mpt.value].frequency then Some(k)
      else if tr.frequency > s[n.mpt.value].frequency then Some(k)
      else n.mpt;
    n.(successors := s, mpt := mpt)
  }

  /** Incrementing an edge keeps the mpt of maximal frequency. */
  lemma IncKeepsMptMaximal(n: GraphNode, k: nat)
    requires k < |n.successors| && MptInRange(n) && MptMaximal(n)
    requires n.mpt.None? ==> |n.successors| == 1
    ensures MptMaximal(IncFrequency(n, k))
  {
    var r := IncFrequency(n, k);
    var m := r.mpt.value;
    forall j | 0 <= j < |r.successors|
      ensures r.successors[j].frequency <= r.successors[m].frequency
    {
      if n.mpt.Some? && j != k && m != k {
        assert r.successors[j] == n.successors[j];
      }
    }
  }

  /**
   * CREATE_GRAPH_TRANSITION: a new edge to `to`, with id (number of existing
   * edges) + 1, counted once.
   */
  function CreateTransition(n: GraphNode, target: nat): (r: GraphNode)
    requires MptInRange(n)
    ensures |r.successors| == |n.successors| + 1 && r.successors[..|n.successors|] == n.successors
    ensures r.successors[|n.successors|] == Transition(1, |n.successors| + 1, target)
    ensures r.id == n.id && r.kind == n.kind && r.modeler == n.modeler && MptInRange(r)
  {
    var s := n.successors + [Transition(0, |n.successors| + 1, target)];
    var r := IncFrequency(n.(successors := s), |n.successors|);
    assert r.successors[..|n.successors|] == n.successors by {
      forall j | 0 <= j < |n.successors| ensures r.successors[j] == n.successors[j] {
        assert s[j] == n.successors[j];
      }
    }
    r
  }

  /** CREATE_GRAPH_NODE: appends a node of the given type, whose id is the node
      count, and an edge to it from `pred` when a predecessor is given. */
  function CreateNode(nodes: seq<GraphNode>, pred: Option<nat>, t: NodeType, who: Option<ModelerId>): (r: seq<GraphNode>)
    requires pred.Some? ==> pred.value < |nodes| && MptInRange(nodes[pred.value])
    ensures |r| == |nodes| + 1 && r[|nodes|] == GraphNode(|nodes|, t, [], None, who)
    ensures forall i :: 0 <= i < |nodes| && Some(i) != pred ==> r[i] == nodes[i]
    ensures pred.Some? ==> r[pred.value] == CreateTransition(nodes[pred.value], |nodes|)
  {
    var r := nodes + [GraphNode(|nodes|, t, [], None, who)];
    if pred.Some? then r[pred.value := CreateTransition(nodes[pred.value], |nodes|)] else r
  }

  /** Whether an edge leads to a node of type t, and for element nodes to one
      referring to modeler `who` (the test of FIND_TRANSITION). */
  predicate Leads(nodes: seq<GraphNode>, tr: Transition, t: NodeType, who: Option<ModelerId>)
  {
    tr.node < |nodes| && nodes[tr.node].kind == t && (t != ElementNode || nodes[tr.node].modeler == who)
  }

  /** FIND_TRANSITION from position k on: the first edge that leads to the desired node. */
  function FindFrom(nodes: seq<GraphNode>, s: seq<Transition>, t: NodeType, who: Option<ModelerId>, k: nat): (r: Option<nat>)
    requires k <= |s|
    ensures r.Some? ==> k <= r.value < |s| && Leads(nodes, s[r.value], t, who)
    ensures r.Some? ==> forall j :: k <= j < r.value ==> !Leads(nodes, s[j], t, who)
    ensures r.None? ==> forall j :: k <= j < |s| ==> !Leads(nodes, s[j], t, who)
    decreases |s| - k
  {
    if k == |s| then None
    else if Leads(nodes, s[k], t, who) then Some(k)
    else FindFrom(nodes, s, t, who, k + 1)
  }

  /** The first edge in a node's list with the given id (the loop of followEdge). */
  function FindEdge(s: seq<Transition>, id: nat, k: nat): (r: Option<nat>)
    requires k <= |s|
    ensures r.Some? ==> k <= r.value < |s| && s[r.value].id == id
    ensures r.Some? ==> forall j :: k <= j < r.value ==> s[j].id != id
    ensures r.None? ==> forall j :: k <= j < |s| ==> s[j].id != id
    decreases |s| - k
  {
    if k == |s| then None
    else if s[k].id == id then Some(k)
    else FindEdge(s, id, k + 1)
  }

  /** Edges are numbered 1..n, so the edge with a given id is at position id - 1. */
  lemma {:induction false} FindEdgeNumbered(n: GraphNode, count: nat, id: nat, k: nat)
    requires NodeOk(n, count) && k <= |n.successors|
    requires k < id
    ensures FindEdge(n.successors, id, k) == if id <= |n.successors| then Some(id - 1) else None
    decreases |n.successors| - k
  {
    if k < |n.successors| && n.successors[k].id != id {
      FindEdgeNumbered(n, count, id, k + 1);
    }
  }

  /** The node state after the current node's k-th edge is counted once more. */
  function Counted(g: Modeler, k: nat): seq<GraphNode>
    requires g.current < |g.nodes| && k < |g.nodes[g.current].successors| && MptInRange(g.nodes[g.current])
  {
    g.nodes[g.current := IncFrequency(g.nodes[g.current], k)]
  }

  /**
   * moveToDesiredNode: looks for an edge from the current node to the
   * desired node (counting it when found).
   *  - None: creates the node (an element node is also pushed on the stack;
   *    an end node is the shared one, reached by a new edge) and answers
   *    NewNodeCreated.
   *  - Found: moves along it, stores its id, and answers Definite when it
   *    was the mpt before the move and Indefinite otherwise; moving to an
   *    element node pushes it and counts one element push.  Start and
   *    "no node" requests answer Impossible without moving.
   */
  function MoveToDesiredNodeOf(g: Modeler, t: NodeType, who: Option<ModelerId>): (r: MoveResult)
    requires WellFormed(g)
    ensures r.result == NewNodeCreated <==>
      FindFrom(g.nodes, g.nodes[g.current].successors, t, who, 0).None?
    ensures r.result == Definite <==>
      var f := FindFrom(g.nodes, g.nodes[g.current].successors, t, who, 0);
      f.Some? && f == g.nodes[g.current].mpt && t in {EndNode, CharactersNode, ElementNode}
    ensures r.edgeId.Some? <==> r.result in {Definite, Indefinite}
    ensures r.edgeId.Some? ==>
      var f := FindFrom(g.nodes, g.nodes[g.current].successors, t, who, 0);
      f.Some? && r.edgeId.value == g.nodes[g.current].successors[f.value].id == f.value + 1
    ensures r.pushed <==> r.result in {Definite, Indefinite} && t == ElementNode
    ensures r.m.stack == if r.result != Impossible && t == ElementNode then g.stack + [r.m.current] else g.stack
    ensures t == EndNode && r.result != Impossible ==> r.m.current == 1 && |r.m.nodes| == |g.nodes|
    ensures r.result != Impossible ==> r.m.current < |r.m.nodes| && r.m.nodes[r.m.current].kind == t
    ensures r.result != Impossible && t == ElementNode ==> r.m.nodes[r.m.current].modeler == who
    ensures r.result == Impossible ==> r.m.current == g.current
  {
    var c := g.current;
    var n := g.nodes[c];
    var f := FindFrom(g.nodes, n.successors, t, who, 0);
    FirstEdgeNumbered(g, t, who);
    if f.None? then
      MoveResult(if t == EndNode then ConnectEnd(g) else NewSuccessor(g, t, who), NewNodeCreated, None, false)
    else
      var k := f.value;
      if t !in {EndNode, CharactersNode, ElementNode} then
        MoveResult(g.(nodes := Counted(g, k)), Impossible, None, false)
      else
        var state := if f == n.mpt then Definite else Indefinite;
        MoveResult(Along(g, k), state, Some(n.successors[k].id), t == ElementNode)
  }

  /** The new-node branch of moveToDesiredNode: a node of the desired type (an element
      node for modeler `who`, any other node for none) becomes the current node, and
      an element node is pushed. */
  function NewSuccessor(g: Modeler, t: NodeType, who: Option<ModelerId>): (r: Modeler)
    requires WellFormed(g)
  {
    var k := |g.nodes|;
    if t == ElementNode then
      g.(nodes := CreateNode(g.nodes, Some(g.current), t, who), current := k, stack := g.stack + [k])
    else
      g.(nodes := CreateNode(g.nodes, Some(g.current), t, None), current := k)
  }

  /** The end-node branch of moveToDesiredNode: a new edge to the shared end node. */
  function ConnectEnd(g: Modeler): (r: Modeler)
    requires WellFormed(g)
  {
    g.(nodes := g.nodes[g.current := CreateTransition(g.nodes[g.current], 1)], current := 1)
  }

  /** Moving along the current node's k-th edge, counted, pushing an element node. */
  function Along(g: Modeler, k: nat): (r: Modeler)
    requires WellFormed(g) && k < |g.nodes[g.current].successors|
  {
    var n := g.nodes[g.current];
    assert NodeOk(n, |g.nodes|);
    var target := n.successors[k].node;
    var stack := if g.nodes[target].kind == ElementNode then g.stack + [target] else g.stack;
    g.(nodes := Counted(g, k), current := target, stack := stack)
  }

  /** The edge FIND_TRANSITION finds carries the id of its position. */
  lemma FirstEdgeNumbered(g: Modeler, t: NodeType, who: Option<ModelerId>)
    requires WellFormed(g)
    ensures var s := g.nodes[g.current].successors;
      var f := FindFrom(g.nodes, s, t, who, 0);
      f.Some? ==> s[f.value].id == f.value + 1 && s[f.value].node < |g.nodes|
  {
    assert NodeOk(g.nodes[g.current], |g.nodes|);
  }

  /**
   * moveForward: with no mpt answers NoNode and changes nothing; otherwise
   * counts the mpt, moves along it, stores the new node, emits endElement
   * for the end node and pushes an element node, and returns its type.
   */
  function MoveForwardOf(g: Modeler): (r: StepResult)
    requires WellFormed(g)
    ensures g.nodes[g.current].mpt.None? ==> r == StepResult(g, NoNode, None, None)
    ensures g.nodes[g.current].mpt.Some? ==>
      var n := g.nodes[g.current];
      n.mpt.value < |n.successors| && r == Enter(g, n.mpt.value)
  {
    var n := g.nodes[g.current];
    assert NodeOk(n, |g.nodes|);
    match n.mpt
    case None => StepResult(g, NoNode, None, None)
    case Some(k) => Enter(g, k)
  }

  /** Moving along the current node's k-th edge, as moveForward and followEdge do
      once they have their edge. */
  function Enter(g: Modeler, k: nat): (r: StepResult)
    requires WellFormed(g) && k < |g.nodes[g.current].successors|
    ensures var target := g.nodes[g.current].successors[k].node;
      target < |g.nodes| && r.kind == g.nodes[target].kind && r.node == Some(target) && r.m.current == target
    ensures r.ended.Some? <==> r.kind == EndNode
    ensures r.ended.Some? ==> r.ended.value == g.name
    ensures r.m.stack == if r.kind == ElementNode then g.stack + [r.m.current] else g.stack
  {
    var n := g.nodes[g.current];
    assert NodeOk(n, |g.nodes|);
    var target := n.successors[k].node;
    var kind := g.nodes[target].kind;
    StepResult(Along(g, k), kind, Some(target), if kind == EndNode then Some(g.name) else None)
  }

  /** followEdge: the edge with the given id, if any, as moveForward does for the mpt;
      NoNode and no change when there is none. */
  function FollowEdgeOf(g: Modeler, id: nat): (r: StepResult)
    requires WellFormed(g)
    ensures var n := g.nodes[g.current];
      r == if 1 <= id <= |n.successors| then Enter(g, id - 1) else StepResult(g, NoNode, None, None)
  {
    FollowEdgeFinds(g, id);
    var n := g.nodes[g.current];
    match FindEdge(n.successors, id, 0)
    case None => StepResult(g, NoNode, None, None)
    case Some(k) => Enter(g, k)
  }

  /** Since edges are numbered 1..n, followEdge finds exactly the ids 1..n, and
      moves along the edge at position id - 1. */
  lemma FollowEdgeFinds(g: Modeler, id: nat)
    requires WellFormed(g)
    ensures var n := g.nodes[g.current];
      FindEdge(n.successors, id, 0) == if 1 <= id <= |n.successors| then Some(id - 1) else None
  {
    var n := g.nodes[g.current];
    assert NodeOk(n, |g.nodes|);
    if id == 0 {
      assert forall j :: 0 <= j < |n.successors| ==> n.successors[j].id != 0;
    } else {
      FindEdgeNumbered(n, |g.nodes|, id, 0);
    }
  }

  /** popCurrentNode: the current node becomes the popped top of the stack; an
      empty stack changes nothing. */
  function PopCurrentNodeOf(g: Modeler): (r: Modeler)
    ensures g.stack == [] ==> r == g
    ensures g.stack != [] ==> r == g.(current := g.stack[|g.stack| - 1], stack := g.stack[..|g.stack| - 1])
  {
    if g.stack == [] then g else g.(current := g.stack[|g.stack| - 1], stack := g.stack[..|g.stack| - 1])
  }

  /** setAttributes: returns the prediction held before the update; a yes-update sets
      it when yes >= no, a no-update clears it when no >= yes. */
  function SetAttributesOf(g: Modeler, attributes: bool): (r: (Modeler, bool))
    ensures r.1 == g.hasAttr
    ensures attributes ==> r.0 == g.(yesAttrCnt := g.yesAttrCnt + 1, hasAttr := r.0.hasAttr)
    ensures !attributes ==> r.0 == g.(noAttrCnt := g.noAttrCnt + 1, hasAttr := r.0.hasAttr)
  {
    if attributes then
      var y := g.yesAttrCnt + 1;
      (g.(yesAttrCnt := y, hasAttr := if y >= g.noAttrCnt then true else g.hasAttr), g.hasAttr)
    else
      var no := g.noAttrCnt + 1;
      (g.(noAttrCnt := no, hasAttr := if no >= g.yesAttrCnt then false else g.hasAttr), g.hasAttr)
  }

  /** The attribute prediction is the majority of the updates, a tie going to the
      most recent one. */
  lemma SetAttributesMajority(g: Modeler, attributes: bool)
    requires AttrConsistent(g)
    ensures var h := SetAttributesOf(g, attributes).0;
      AttrConsistent(h) && (h.yesAttrCnt == h.noAttrCnt ==> h.hasAttr == attributes)
  {
  }

  /** A node stays well formed when nodes are added to the graph. */
  lemma NodeOkGrows(n: GraphNode, count: nat, more: nat)
    requires NodeOk(n, count) && count <= more
    ensures NodeOk(n, more)
  {
  }

  /** INC_TRANSITION_FREQUENCY keeps a node well formed. */
  lemma IncKeepsNodeOk(n: GraphNode, count: nat, k: nat)
    requires NodeOk(n, count) && k < |n.successors|
    ensures NodeOk(IncFrequency(n, k), count)
  {
    IncKeepsMptMaximal(n, k);
  }

  /** CREATE_GRAPH_TRANSITION keeps a node well formed: the new edge gets the
      next id and the mpt stays maximal. */
  lemma CreateTransitionKeepsNodeOk(n: GraphNode, count: nat, target: nat)
    requires NodeOk(n, count) && target < count
    ensures NodeOk(CreateTransition(n, target), count)
  {
    var s := n.successors + [Transition(0, |n.successors| + 1, target)];
    IncKeepsMptMaximal(n.(successors := s), |n.successors|);
  }

  /** Creating a successor of the current node keeps the nodes well formed. */
  lemma CreateNodeOk(g: Modeler, t: NodeType, who: Option<ModelerId>)
    requires WellFormed(g)
    ensures NodesOk(CreateNode(g.nodes, Some(g.current), t, who))
  {
    var c := g.current;
    var nodes := CreateNode(g.nodes, Some(c), t, who);
    assert NodeOk(g.nodes[c], |g.nodes|);
    NodeOkGrows(g.nodes[c], |g.nodes|, |nodes|);
    CreateTransitionKeepsNodeOk(g.nodes[c], |nodes|, |g.nodes|);
    forall i | 0 <= i < |nodes| ensures nodes[i].id == i && NodeOk(nodes[i], |nodes|) {
      if i < |g.nodes| && i != c {
        NodeOkGrows(g.nodes[i], |g.nodes|, |nodes|);
      }
    }
  }

  /** Connecting the current node to the end node keeps the nodes well formed. */
  lemma ConnectEndOk(g: Modeler)
    requires WellFormed(g)
    ensures NodesOk(g.nodes[g.current := CreateTransition(g.nodes[g.current], 1)])
  {
    assert NodeOk(g.nodes[g.current], |g.nodes|);
    CreateTransitionKeepsNodeOk(g.nodes[g.current], |g.nodes|, 1);
  }

  /** Counting an edge of the current node keeps the nodes well formed. */
  lemma CountedOk(g: Modeler, k: nat)
    requires WellFormed(g) && k < |g.nodes[g.current].successors|
    ensures NodesOk(Counted(g, k))
  {
    assert NodeOk(g.nodes[g.current], |g.nodes|);
    IncKeepsNodeOk(g.nodes[g.current], |g.nodes|, k);
  }

  /** The three ways moveToDesiredNode, moveForward and followEdge change a
      modeler keep its invariant. */
  lemma NewSuccessorValid(g: Modeler, t: NodeType, who: Option<ModelerId>)
    requires WellFormed(g) && t != EndNode
    ensures WellFormed(NewSuccessor(g, t, who))
  {
    CreateNodeOk(g, t, if t == ElementNode then who else None);
  }

  lemma ConnectEndValid(g: Modeler)
    requires WellFormed(g)
    ensures WellFormed(ConnectEnd(g))
  {
    ConnectEndOk(g);
  }

  lemma AlongValid(g: Modeler, k: nat)
    requires WellFormed(g) && k < |g.nodes[g.current].successors|
    ensures WellFormed(Along(g, k)) && WellFormed(g.(nodes := Counted(g, k)))
  {
    CountedOk(g, k);
    assert NodeOk(g.nodes[g.current], |g.nodes|);
  }

  /** moveToDesiredNode keeps the modeler invariant. */
  lemma MoveToDesiredNodeValid(g: Modeler, t: NodeType, who: Option<ModelerId>)
    requires WellFormed(g)
    ensures WellFormed(MoveToDesiredNodeOf(g, t, who).m)
  {
    var n := g.nodes[g.current];
    var f := FindFrom(g.nodes, n.successors, t, who, 0);
    if f.None? {
      if t == EndNode {
        ConnectEndValid(g);
      } else {
        NewSuccessorValid(g, t, who);
      }
    } else {
      AlongValid(g, f.value);
    }
  }

  /**
   * A move keeps the modeler every existing node refers to; the node it
   * creates, if any, refers to `who` when it is an element node and to no
   * modeler otherwise.
   */
  lemma MoveKeepsReferences(g: Modeler, t: NodeType, who: Option<ModelerId>)
    requires WellFormed(g)
    ensures var r := MoveToDesiredNodeOf(g, t, who).m;
            && |g.nodes| <= |r.nodes|
            && (forall i :: 0 <= i < |g.nodes| ==> r.nodes[i].modeler == g.nodes[i].modeler)
            && (forall i :: |g.nodes| <= i < |r.nodes| ==> r.nodes[i].modeler == if t == ElementNode then who else None)
  {
    var m := MoveToDesiredNodeOf(g, t, who).m;
    MoveNodes(g, t, who);
    if FindFrom(g.nodes, g.nodes[g.current].successors, t, who, 0).None? && t != EndNode {
      NewSuccessorKeepsReferences(g, t, who);
    } else {
      UpdateKeepsModelers(g.nodes, g.current, m.nodes[g.current]);
    }
  }

  /** The nodes after a move: one node more on the new-node branch, else the current node replaced. */
  lemma MoveNodes(g: Modeler, t: NodeType, who: Option<ModelerId>)
    requires WellFormed(g)
    ensures var m := MoveToDesiredNodeOf(g, t, who).m;
      if FindFrom(g.nodes, g.nodes[g.current].successors, t, who, 0).None? && t != EndNode then m == NewSuccessor(g, t, who)
      else m.nodes == g.nodes[g.current := m.nodes[g.current]] && m.nodes[g.current].modeler == g.nodes[g.current].modeler
  {
    var n := g.nodes[g.current];
    var f := FindFrom(g.nodes, n.successors, t, who, 0);
    if f.Some? {
      FirstEdgeNumbered(g, t, who);
    }
  }

  /** Replacing one node by a node of the same modeler keeps every node's modeler. */
  lemma UpdateKeepsModelers(nodes: seq<GraphNode>, c: nat, n: GraphNode)
    requires c < |nodes| && n.modeler == nodes[c].modeler
    ensures forall i :: 0 <= i < |nodes| ==> nodes[c := n][i].modeler == nodes[i].modeler
  {
  }

  /** The new-node branch keeps the old nodes' modelers; the new node refers to `who` only as an element node. */
  lemma NewSuccessorKeepsReferences(g: Modeler, t: NodeType, who: Option<ModelerId>)
    requires WellFormed(g)
    ensures var r := NewSuccessor(g, t, who).nodes;
            && |r| == |g.nodes| + 1
            && (forall i :: 0 <= i < |g.nodes| ==> r[i].modeler == g.nodes[i].modeler)
            && r[|g.nodes|].modeler == if t == ElementNode then who else None
  {
    var r := NewSuccessor(g, t, who).nodes;
    forall i | 0 <= i < |g.nodes| ensures r[i].modeler == g.nodes[i].modeler {
      if i == g.current {
        assert r[i] == CreateTransition(g.nodes[i], |g.nodes|);
      }
    }
  }

  /** A move leaves the attribute prediction, the reference count and the name alone. */
  lemma MoveKeepsPrediction(g: Modeler, t: NodeType, who: Option<ModelerId>)
    requires WellFormed(g)
    ensures var r := MoveToDesiredNodeOf(g, t, who).m;
            r.hasAttr == g.hasAttr && r.yesAttrCnt == g.yesAttrCnt && r.noAttrCnt == g.noAttrCnt
            && r.refCount == g.refCount && r.name == g.name
  {
  }

  /** A move to an element node of a modeler no node refers to yet creates a node. */
  lemma UnseenModelerCreates(g: Modeler, who: ModelerId)
    requires WellFormed(g) && forall i :: 0 <= i < |g.nodes| ==> g.nodes[i].modeler != Some(who)
    ensures MoveToDesiredNodeOf(g, ElementNode, Some(who)).result == NewNodeCreated
  {
  }

  /** moveForward and followEdge keep the modeler invariant. */
  lemma MoveForwardValid(g: Modeler, id: nat)
    requires WellFormed(g)
    ensures WellFormed(MoveForwardOf(g).m) && WellFormed(FollowEdgeOf(g, id).m)
  {
    var n := g.nodes[g.current];
    if n.mpt.Some? {
      AlongValid(g, n.mpt.value);
    }
    if 1 <= id <= |n.successors| {
      AlongValid(g, id - 1);
    }
  }

  /** popCurrentNode, resetCurrentNode, setAttributes and increaseRefCount keep
      the modeler invariant. */
  lemma SmallStepsValid(g: Modeler, attributes: bool)
    requires WellFormed(g)
    ensures WellFormed(PopCurrentNodeOf(g)) && WellFormed(g.(current := 0)) && WellFormed(g.(refCount := g.refCount + 1))
    ensures WellFormed(SetAttributesOf(g, attributes).0)
  {
    SetAttributesMajority(g, attributes);
  }

  /**
   * The decoder keeps in step with the encoder: when moveToDesiredNode answers
   * Definite, moveForward (the decoder's move along the mpt) reaches the same
   * state, and when it answers with an edge id, followEdge with that id does.
   */
  lemma DecoderFollowsEncoder(g: Modeler, t: NodeType, who: Option<ModelerId>)
    requires WellFormed(g)
    ensures var mv := MoveToDesiredNodeOf(g, t, who);
      (mv.result == Definite ==> MoveForwardOf(g).m == mv.m && MoveForwardOf(g).kind == t)
      && (mv.edgeId.Some? ==> FollowEdgeOf(g, mv.edgeId.value).m == mv.m && FollowEdgeOf(g, mv.edgeId.value).kind == t)
  {
    var n := g.nodes[g.current];
    var f := FindFrom(g.nodes, n.successors, t, who, 0);
    FirstEdgeNumbered(g, t, who);
    if f.Some? {
      FollowEdgeFinds(g, f.value + 1);
    }
  }
}
