/**
 * The ElementModeler object: the fields of the C++ class, updated in place
 * by its methods, each proved to follow the value-level operation of
 * ElementModels.
 */
module ElementModelerObject {
  import opened Wrappers
  import opened ElementModels

  /**
   * ElementModeler.  The fields are those of the C++ class, the node list
   * holding the nodes by value; `me` stands for the object's own address,
   * which the start and end nodes record as their modeler.
   */
  class ElementModeler {
    const name: seq<char>
    const me: ModelerId
    var nodes: seq<GraphNode>
    var current: nat
    var nodeStack: seq<nat>
    var noAttrCnt: nat
    var yesAttrCnt: nat
    var hasAttr: bool
    var refCount: nat

    /** The modeler's state as a value. */
    function State(): Modeler
      reads this
    {
      Modeler(name, nodes, current, nodeStack, noAttrCnt, yesAttrCnt, hasAttr, refCount)
    }

    predicate Valid()
      reads this
    {
      WellFormed(State())
    }

    /** The constructor creates the start and the end node and sets current = start. */
    constructor (elementName: seq<char>, identity: ModelerId)
      ensures Valid() && State() == NewModeler(elementName, identity) && me == identity
    {
      name := elementName;
      me := identity;
      nodes := [GraphNode(0, StartNode, [], None, Some(identity)), GraphNode(1, EndNode, [], None, Some(identity))];
      current := 0;
      nodeStack := [];
      noAttrCnt, yesAttrCnt, hasAttr := 0, 0, false;
      refCount := 1;
    }

    /** CREATE_GRAPH_NODE, with an edge from `pred` when one is given. */
    method CreateGraphNode(pred: Option<nat>, t: NodeType, who: Option<ModelerId>) returns (k: nat)
      requires pred.Some? ==> pred.value < |nodes| && MptInRange(nodes[pred.value])
      modifies this`nodes
      ensures k == |old(nodes)| && nodes == CreateNode(old(nodes), pred, t, who)
    {
      k := |nodes|;
      nodes := nodes + [GraphNode(k, t, [], None, who)];
      if pred.Some? {
        CreateGraphTransition(pred.value, k);
      }
    }

    /** CREATE_GRAPH_TRANSITION from node i to node `to`. */
    method CreateGraphTransition(i: nat, target: nat)
      requires i < |nodes| && MptInRange(nodes[i])
      modifies this`nodes
      ensures nodes == old(nodes)[i := CreateTransition(old(nodes)[i], target)]
    {
      var n := nodes[i];
      var tr := Transition(0, |n.successors| + 1, target);
      nodes := nodes[i := n.(successors := n.successors + [tr])];
      IncTransitionFrequency(i, |n.successors|);
    }

    /** INC_TRANSITION_FREQUENCY on the k-th edge of node i. */
    method IncTransitionFrequency(i: nat, k: nat)
      requires i < |nodes| && k < |nodes[i].successors| && MptInRange(nodes[i])
      modifies this`nodes
      ensures nodes == old(nodes)[i := IncFrequency(old(nodes)[i], k)]
    {
      var n := nodes[i];
      var tr := n.successors[k];
      tr := tr.(frequency := tr.frequency + 1);
      var s := n.successors[k := tr];
      var mpt := n.mpt;
      if mpt == Some(k) {
      } else if mpt.None? {
        mpt := Some(k);
      } else if tr.frequency == s[mpt.value].frequency {
        mpt := Some(k);
      } else if tr.frequency > s[mpt.value].frequency {
        mpt := Some(k);
      }
      nodes := nodes[i := n.(successors := s, mpt := mpt)];
    }

    /** resetCurrentNode: back to the start node. */
    method ResetCurrentNode()
      modifies this`current
      ensures current == 0
    {
      current := 0;
    }

    /** popCurrentNode */
    method PopCurrentNode()
      requires Valid()
      modifies this`current, this`nodeStack
      ensures Valid() && State() == PopCurrentNodeOf(old(State()))
    {
      SmallStepsValid(State(), false);
      if nodeStack != [] {
        current := nodeStack[|nodeStack| - 1];
        nodeStack := nodeStack[..|nodeStack| - 1];
      }
    }

    /** getCurrentNode  */
    method GetCurrentNode() returns (node: GraphNode)
      requires Valid()
      ensures node == nodes[current] && node.id == current
    {
      node := nodes[current];
    }

    /** The loop of FIND_TRANSITION over the current node's edges (without the count). */
    method FindTransition(t: NodeType, who: Option<ModelerId>) returns (f: Option<nat>)
      requires Valid()
      ensures f == FindFrom(nodes, nodes[current].successors, t, who, 0)
    {
      var s := nodes[current].successors;
      var i := 0;
      while i < |s|
        invariant i <= |s|
        invariant FindFrom(nodes, s, t, who, i) == FindFrom(nodes, s, t, who, 0)
      {
        var target := s[i].node;
        if target < |nodes| && nodes[target].kind == t && (t != ElementNode || nodes[target].modeler == who) {
          return Some(i);
        }
        i := i + 1;
      }
      return None;
    }

    /**
     * moveToDesiredNode.  `edgeId` and `elementPushes` are the values behind the
     * two pointer arguments; the method returns them as the call leaves them.
     */
    method MoveToDesiredNode(t: NodeType, edgeId: nat, elementPushes: nat, who: Option<ModelerId>)
      returns (r: TransitionState, edgeIdOut: nat, elementPushesOut: nat)
      requires Valid()
      modifies this`nodes, this`current, this`nodeStack
      ensures Valid()
      ensures var mv := MoveToDesiredNodeOf(old(State()), t, who);
        State() == mv.m && r == mv.result
        && edgeIdOut == (if mv.edgeId.Some? then mv.edgeId.value else edgeId)
        && elementPushesOut == (if mv.pushed then elementPushes + 1 else elementPushes)
    {
      ghost var g := State();
      MoveToDesiredNodeValid(g, t, who);
      FirstEdgeNumbered(g, t, who);
      var mpt := nodes[current].mpt;
      var f := FindTransition(t, who);
      edgeIdOut, elementPushesOut := edgeId, elementPushes;
      if f.None? {
        AddSuccessor(t, who);
        return NewNodeCreated, edgeIdOut, elementPushesOut;
      }
      var k := f.value;
      var id := nodes[current].successors[k].id;
      if t !in {EndNode, CharactersNode, ElementNode} {
        IncTransitionFrequency(current, k);
        return Impossible, edgeIdOut, elementPushesOut;
      }
      r := if f == mpt then Definite else Indefinite;
      AlongEdge(k);
      if t == ElementNode {
        elementPushesOut := elementPushes + 1;
      }
      edgeIdOut := id;
    }

    /** The branch of moveToDesiredNode that creates the desired node. */
    method AddSuccessor(t: NodeType, who: Option<ModelerId>)
      requires Valid()
      modifies this`nodes, this`current, this`nodeStack
      ensures State() == if t == EndNode then ConnectEnd(old(State())) else NewSuccessor(old(State()), t, who)
    {
      if t == ElementNode {
        var k := CreateGraphNode(Some(current), t, who);
        nodeStack := nodeStack + [k];
        current := k;
      } else if t == EndNode {
        CreateGraphTransition(current, 1);
        current := 1;
      } else {
        var k := CreateGraphNode(Some(current), t, None);
        current := k;
      }
    }

    /** Counting the current node's k-th edge and moving along it, pushing an
        element node. */
    method AlongEdge(k: nat)
      requires Valid() && k < |nodes[current].successors|
      modifies this`nodes, this`current, this`nodeStack
      ensures State() == Along(old(State()), k)
    {
      assert NodeOk(nodes[current], |nodes|);
      var target := nodes[current].successors[k].node;
      IncTransitionFrequency(current, k);
      if nodes[target].kind == ElementNode {
        nodeStack := nodeStack + [target];
      }
      current := target;
    }

    /** Moving along the current node's k-th edge (the common tail of moveForward
        and followEdge). */
    method EnterEdge(k: nat) returns (kind: NodeType, node: Option<nat>, ended: Option<seq<char>>)
      requires Valid() && k < |nodes[current].successors|
      modifies this`nodes, this`current, this`nodeStack
      ensures Valid() && StepResult(State(), kind, node, ended) == Enter(old(State()), k)
    {
      AlongValid(State(), k);
      AlongEdge(k);
      node := Some(current);
      kind := nodes[current].kind;
      ended := if kind == EndNode then Some(name) else None;
    }

    /** moveForward */
    method MoveForward() returns (kind: NodeType, node: Option<nat>, ended: Option<seq<char>>)
      requires Valid()
      modifies this`nodes, this`current, this`nodeStack
      ensures Valid() && StepResult(State(), kind, node, ended) == MoveForwardOf(old(State()))
    {
      assert NodeOk(nodes[current], |nodes|);
      var mpt := nodes[current].mpt;
      if mpt.None? {
        return NoNode, None, None;
      }
      kind, node, ended := EnterEdge(mpt.value);
    }

    /** followEdge: the first edge whose id is `edgeId`. */
    method FollowEdge(edgeId: nat) returns (kind: NodeType, node: Option<nat>, ended: Option<seq<char>>)
      requires Valid()
      modifies this`nodes, this`current, this`nodeStack
      ensures Valid() && StepResult(State(), kind, node, ended) == FollowEdgeOf(old(State()), edgeId)
    {
      var s := nodes[current].successors;
      var i := 0;
      while i < |s|
        invariant i <= |s|
        invariant FindEdge(s, edgeId, i) == FindEdge(s, edgeId, 0)
      {
        if s[i].id == edgeId {
          break;
        }
        i := i + 1;
      }
      FollowEdgeFinds(State(), edgeId);
      if i == |s| {
        return NoNode, None, None;
      }
      kind, node, ended := EnterEdge(i);
    }

    /** currentNodeType */
    method CurrentNodeType() returns (t: NodeType)
      requires Valid()
      ensures t == nodes[current].kind
    {
      t := nodes[current].kind;
    }

    /** setAttributes */
    method SetAttributes(attributes: bool) returns (before: bool)
      requires Valid()
      modifies this`noAttrCnt, this`yesAttrCnt, this`hasAttr
      ensures Valid() && (State(), before) == SetAttributesOf(old(State()), attributes)
    {
      SmallStepsValid(State(), attributes);
      before := hasAttr;
      if attributes {
        yesAttrCnt := yesAttrCnt + 1;
        if yesAttrCnt >= noAttrCnt {
          hasAttr := true;
        }
      } else {
        noAttrCnt := noAttrCnt + 1;
        if noAttrCnt >= yesAttrCnt {
          hasAttr := false;
        }
      }
    }

    /** hasAttributes: the current prediction. */
    method HasAttributes() returns (b: bool)
      ensures b == hasAttr
    {
      b := hasAttr;
    }

    /** increaseRefCount */
    method IncreaseRefCount()
      modifies this`refCount
      ensures refCount == old(refCount) + 1
    {
      refCount := refCount + 1;
    }

    /** getRefCount */
    method GetRefCount() returns (c: nat)
      ensures c == refCount
    {
      c := refCount;
    }
  }
}
