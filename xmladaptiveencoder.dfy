/**
 * The encoding half of XmlAdaptiveModel.  Every element name has a modeler
 * (an ElementModels graph) that learns which children, character runs and
 * ends follow each other.  The open elements' modelers form a stack; each
 * event moves the top modeler, and a move the modeler predicted writes
 * nothing.  A failed prediction is reported by NACK and the Fibonacci code
 * of `clueEdge`, the number of predicted steps since the last report;
 * taking another known edge adds DifferentEdge and that edge's id.
 * Attribute names have an id space of their own, and character data is
 * written as one run, opened by Characters and closed by EndOfBlock at the
 * next start or end tag.
 */
module XmlAdaptiveEncoding {

  import opened Wrappers
  import Fibonacci
  import opened XmlModelBase
  import opened ElementModels
  import TextCodecs
  import Simple = XmlSimpleEncoding

  // AdaptiveStructuralSymbols: the values overlap, the decoder's state tells them apart.
  const EndOfBlock: Byte := 0
  const NewElement: Byte := 1
  const KnownElement: Byte := 2
  const EndElement: Byte := 3
  const Characters: Byte := 4
  const Comment: Byte := 1
  const PI: Byte := 2
  const CDATA: Byte := 3
  const NACK: Byte := 0
  const DifferentEdge: Byte := 0
  const XmlDecl: Byte := 2
  const Doctype: Byte := 3
  const Default: Byte := 5
  const EntityDecl: Byte := 6
  const NotationDecl: Byte := 7
  const HasInternalSubsetYes: Byte := 1
  const HasInternalSubsetNo: Byte := 2
  const IsParameterEntityYes: Byte := 1
  const IsParameterEntityNo: Byte := 2
  const EmptyString: Byte := 8

  /** AMP_REPLACEMENT (src/defs.h), written for '&' in default data inside elements. */
  const AmpReplacement: Byte := 6
  const Ampersand: Byte := 38

  /** An entry of elementModelerStack: the element whose modeler it is, and whether
      that modeler is building (a new element) or predicting (a known one). */
  datatype ModelerInfo = ModelerInfo(element: nat, building: bool)

  /**
   * The encoder: the element and attribute id tables with their counters,
   * the modeler of each element id (the `elements` table), the stack of the
   * open elements' modelers, the stack of open element ids, `clueEdge`,
   * whether a character run is open, the symbols appended to the grammar so
   * far and the alphabet size last set on it.
   */
  datatype AdaptiveEncoder = AdaptiveEncoder(
    elementIds: map<Text, nat>, elementCounter: nat,
    attributeIds: map<Text, nat>, attributeCounter: nat,
    modelers: map<nat, Modeler>, modelerStack: seq<ModelerInfo>, elementStack: seq<nat>,
    clueEdge: nat, inCharacters: bool, out: seq<Byte>, alphabetBaseSize: Option<nat>)

  /** The constructor's state: both counters and the clue edge at 1, nothing open. */
  const Fresh: AdaptiveEncoder := AdaptiveEncoder(map[], 1, map[], 1, map[], [], [], 1, false, [], None)

  /**
   * Why manageEvent does not return: a `FATAL`, a modeler call on the top of
   * an empty modeler stack (a null pointer in the source), or an exception
   * of the text codec.
   */
  datatype EncodeError = EndOfUnknownElement | EmptyModelerStack | CodecFailure(error: TextCodecs.CodecError)

  /** manageEvent's return value with the encoder after it, or the failure that ended it. */
  datatype Managed = Returned(accepted: bool, e: AdaptiveEncoder) | Failed(error: EncodeError, e: AdaptiveEncoder)

  /** Every node of a modeler that refers to a modeler refers to one below `bound`. */
  predicate RefersBelow(g: Modeler, bound: nat)
  {
    forall i :: 0 <= i < |g.nodes| && g.nodes[i].modeler.Some? ==> g.nodes[i].modeler.value < bound
  }

  /** Ids are positive, below their counter and distinct. */
  predicate IdsBelow(ids: map<Text, nat>, counter: nat)
  {
    && (forall n :: n in ids ==> 1 <= ids[n] < counter)
    && (forall n, m :: n in ids && m in ids && n != m ==> ids[n] != ids[m])
  }

  /** Every modeler belongs to an id below the counter, is well formed and refers below the counter. */
  predicate ModelersBelow(modelers: map<nat, Modeler>, counter: nat)
  {
    forall k :: k in modelers ==> k < counter && WellFormed(modelers[k]) && RefersBelow(modelers[k], counter)
  }

  /** Every known element has a modeler. */
  predicate Known(ids: map<Text, nat>, keys: set<nat>)
  {
    forall n :: n in ids ==> ids[n] in keys
  }

  /** Every open modeler is one of the element modelers. */
  predicate Open(stack: seq<ModelerInfo>, keys: set<nat>)
  {
    forall j :: 0 <= j < |stack| ==> stack[j].element in keys
  }

  /**
   * The invariant: element and attribute ids are valid for their counters;
   * every element id has a well-formed modeler, created before the counter;
   * every open modeler is one of them; the clue edge is positive.
   */
  predicate Valid(e: AdaptiveEncoder)
  {
    && e.elementCounter >= 1 && e.attributeCounter >= 1 && e.clueEdge >= 1
    && IdsBelow(e.elementIds, e.elementCounter) && IdsBelow(e.attributeIds, e.attributeCounter)
    && Known(e.elementIds, e.modelers.Keys) && ModelersBelow(e.modelers, e.elementCounter)
    && Open(e.modelerStack, e.modelers.Keys)
  }

  // ---------------------------------------------------------------------
  // Pieces of the encoding
  // ---------------------------------------------------------------------

  /** The Fibonacci code of a number in one-byte items, as the grammar receives it. */
  function Code(n: nat): seq<Byte>
  {
    Fibonacci.EncodedBuffer(n, 1)
  }

  /** REPORT_NACK: NACK and the Fibonacci code of the clue edge. */
  function Nack(clueEdge: nat): seq<Byte>
  {
    [NACK] + Code(clueEdge)
  }

  /** REPORT_DIFFERENT_EDGE: DifferentEdge and the Fibonacci code of the edge's id. */
  function EdgeReport(edge: nat): seq<Byte>
  {
    [DifferentEdge] + Code(edge)
  }

  /** A string that may be null or empty; an empty string is marked by EmptyString. */
  function Marked(s: Option<Text>): seq<Byte>
  {
    if s.None? then [EndOfBlock]
    else if s.value == [] then [EmptyString, EndOfBlock]
    else Simple.Terminated(s.value)
  }

  /** An attribute value: EmptyString for the empty value, otherwise its characters, unterminated. */
  function ValueOf(v: Text): seq<Byte>
  {
    if v == [] then [EmptyString] else v
  }

  /** APPEND_ALL_DATA_LENGTH_CONVERT_AMP without the terminator. */
  function ConvertAmp(t: Text): (r: Text)
    ensures |r| == |t|
    ensures forall i :: 0 <= i < |t| ==> r[i] == if t[i] == Ampersand then AmpReplacement else t[i]
    decreases |t|
  {
    if t == [] then []
    else [if t[0] == Ampersand then AmpReplacement else t[0]] + ConvertAmp(t[1..])
  }

  /**
   * The attributes of a start tag in order: each name as the simple model
   * writes names (NewElement and the spelled name, or KnownElement and the
   * Fibonacci code of its id; the two models give these symbols the same
   * values), then its value.
   */
  function AttributesOf(ids: map<Text, nat>, counter: nat, attrs: seq<Attribute>): (r: Simple.Named)
    decreases |attrs|
  {
    if attrs == [] then Simple.Named([], ids, counter, 0)
    else
      var first := Simple.NameOf(ids, counter, attrs[0].name);
      var rest := AttributesOf(first.ids, first.counter, attrs[1..]);
      Simple.Named(first.symbols + ValueOf(attrs[0].value) + rest.symbols, rest.ids, rest.counter, 0)
  }

  /** What a move of the top modeler reports: a NACK where a predicting modeler met a new
      node, a NACK and the edge taken where it took another known edge, else nothing. */
  function Report(mv: MoveResult, building: bool, clueEdge: nat): seq<Byte>
  {
    match mv.result
    case NewNodeCreated => if building then [] else Nack(clueEdge)
    case Indefinite => Nack(clueEdge) + EdgeReport(if mv.edgeId.Some? then mv.edgeId.value else 0)
    case _ => []
  }

  /** The top modeler exists and is well formed: what a move of it needs. */
  predicate TopMovable(e: AdaptiveEncoder)
  {
    e.modelerStack != [] && TopOf(e.modelerStack).element in e.modelers && WellFormed(e.modelers[TopOf(e.modelerStack).element])
  }

  function TopOf(stack: seq<ModelerInfo>): ModelerInfo
    requires stack != []
  {
    stack[|stack| - 1]
  }

  /** Under the invariant the top modeler, and the modeler of a known name, can move. */
  lemma ValidMovable(e: AdaptiveEncoder, name: Text)
    requires Valid(e)
    ensures e.modelerStack != [] ==> TopMovable(e)
    ensures name in e.elementIds ==> e.elementIds[name] in e.modelers && WellFormed(e.modelers[e.elementIds[name]])
  {
  }

  /** Extending an extension of `a` extends `a`. */
  lemma PrefixChain(a: seq<Byte>, b: seq<Byte>, c: seq<Byte>)
    requires Extends(b, a) && Extends(c, b)
    ensures Extends(c, a)
  {
    assert c[..|a|] == c[..|b|][..|a|];
  }

  /** `s` begins with `t`. */
  predicate Extends(s: seq<Byte>, t: seq<Byte>)
  {
    |t| <= |s| && s[..|t|] == t
  }

  /** `t` ends `s`. */
  predicate EndsWith(s: seq<Byte>, t: seq<Byte>)
  {
    |t| <= |s| && s[|s| - |t|..] == t
  }

  /** The last symbol of `x` and all of `d` end `x + d`. */
  lemma LastThen(x: seq<Byte>, d: seq<Byte>)
    requires |x| >= 1
    ensures EndsWith(x + d, [x[|x| - 1]] + d)
  {
    assert (x + d)[|x + d| - |d| - 1..] == x[|x| - 1..] + d;
  }

  /** The stack with its top entry replaced. */
  function WithTop(stack: seq<ModelerInfo>, info: ModelerInfo): seq<ModelerInfo>
    requires stack != []
  {
    stack[..|stack| - 1] + [info]
  }

  /** Symbols appended to the grammar. */
  function Append(e: AdaptiveEncoder, s: seq<Byte>): (r: AdaptiveEncoder)
    ensures Extends(r.out, e.out)
  {
    e.(out := e.out + s)
  }

  /** END_CHARACTER_DATA_SECTION when a run is open. */
  function CloseRun(e: AdaptiveEncoder): (r: AdaptiveEncoder)
    ensures Extends(r.out, e.out)
    ensures !r.inCharacters && r == e.(out := r.out, inCharacters := false)
    ensures r.elementIds == e.elementIds && r.modelers == e.modelers && r.modelerStack == e.modelerStack
    ensures r.attributeIds == e.attributeIds
  {
    if e.inCharacters then e.(out := e.out + [EndOfBlock], inCharacters := false) else e
  }

  /**
   * Entering a run of character data: the top modeler moves to a character
   * node, what the move reports is written, a predicting modeler that met a
   * new node starts building, and Characters is written.  A CDATA section
   * adds one to the clue edge before the move's report.
   */
  function OpenRun(e: AdaptiveEncoder, cdata: bool): (r: AdaptiveEncoder)
    requires TopMovable(e)
    ensures r.elementIds == e.elementIds && r.attributeIds == e.attributeIds && |r.modelerStack| == |e.modelerStack|
    ensures Extends(r.out, e.out)
  {
    var top := TopOf(e.modelerStack);
    var mv := MoveToDesiredNodeOf(e.modelers[top.element], CharactersNode, None);
    RunOpened(e.(modelers := e.modelers[top.element := mv.m]), mv, if cdata then e.clueEdge + 1 else e.clueEdge)
  }

  /** The state after the top modeler's move `mv` to a characters node, reported against `clue`. */
  function RunOpened(e: AdaptiveEncoder, mv: MoveResult, clue: nat): (r: AdaptiveEncoder)
    requires e.modelerStack != []
    ensures r.elementIds == e.elementIds && r.attributeIds == e.attributeIds && r.modelers == e.modelers
    ensures r.modelerStack != [] && r.modelerStack == WithTop(e.modelerStack, TopOf(e.modelerStack).(building := TopOf(r.modelerStack).building))
    ensures r.clueEdge == 1 && r.inCharacters
    ensures Extends(r.out, e.out)
  {
    var top := TopOf(e.modelerStack);
    var moved := e.(modelerStack := WithTop(e.modelerStack, top.(building := top.building || mv.result == NewNodeCreated)),
                    clueEdge := 1, inCharacters := true);
    Append(moved, Report(mv, top.building, clue) + [Characters])
  }

  /** A run is opened unless one is open already. */
  function InRun(e: AdaptiveEncoder): (r: AdaptiveEncoder)
    requires TopMovable(e)
    ensures r.elementIds == e.elementIds && r.attributeIds == e.attributeIds && |r.modelerStack| == |e.modelerStack|
    ensures Extends(r.out, e.out)
  {
    if e.inCharacters then e else OpenRun(e, false)
  }

  // ---------------------------------------------------------------------
  // Start and end tags
  // ---------------------------------------------------------------------

  /**
   * An unknown element: it takes id `elementCounter` and a new modeler, which
   * builds.  The first element is spelled out; below an open element the
   * parent's modeler moves to a node of the new modeler, and the name is
   * spelled out after what the move reports.
   */
  function PushNew(c: AdaptiveEncoder, name: Text): (r: AdaptiveEncoder)
    requires name !in c.elementIds && (c.modelerStack == [] || TopMovable(c))
    ensures Extends(r.out, c.out)
    ensures r.modelerStack != [] && TopOf(r.modelerStack) == ModelerInfo(c.elementCounter, true)
    ensures r.elementIds == c.elementIds[name := c.elementCounter] && r.elementCounter == c.elementCounter + 1
    ensures r.attributeIds == c.attributeIds && r.attributeCounter == c.attributeCounter && r.clueEdge == 1
    ensures r.modelers.Keys == c.modelers.Keys + {c.elementCounter}
  {
    var id := c.elementCounter;
    var created := NewModeler(Simple.AsString(name), id);
    var named := c.(elementIds := c.elementIds[name := id], elementCounter := id + 1,
                    elementStack := c.elementStack + [id], clueEdge := 1);
    if c.modelerStack == [] then
      Append(named.(modelers := c.modelers[id := created], modelerStack := [ModelerInfo(id, true)]),
             [NewElement] + Simple.Terminated(name))
    else
      var top := TopOf(c.modelerStack);
      var mv := MoveToDesiredNodeOf(c.modelers[top.element], ElementNode, Some(id));
      NewChild(named.(modelers := Stored(c.modelers, top.element, mv.m, id, created), modelerStack := c.modelerStack),
               mv, name, id, c.clueEdge)
  }

  /** The state after the parent's move `mv` towards the new element `id`, reported against `clue`. */
  function NewChild(e: AdaptiveEncoder, mv: MoveResult, name: Text, id: nat, clue: nat): (r: AdaptiveEncoder)
    requires e.modelerStack != []
    ensures Extends(r.out, e.out)
    ensures r.modelerStack == WithTop(e.modelerStack, TopOf(e.modelerStack).(building := TopOf(e.modelerStack).building || mv.result == NewNodeCreated))
                              + [ModelerInfo(id, true)]
    ensures r.elementIds == e.elementIds && r.elementCounter == e.elementCounter && r.modelers == e.modelers
    ensures r.attributeIds == e.attributeIds && r.attributeCounter == e.attributeCounter && r.clueEdge == e.clueEdge
  {
    var top := TopOf(e.modelerStack);
    var spelled := if mv.result == NewNodeCreated then [NewElement] + Simple.Terminated(name) else [];
    var pushed := e.(modelerStack := WithTop(e.modelerStack, top.(building := top.building || mv.result == NewNodeCreated))
                                     + [ModelerInfo(id, true)]);
    Append(pushed, Report(mv, top.building, clue) + spelled)
  }

  /** increaseRefCount on the modeler of `id`. */
  function Referenced(modelers: map<nat, Modeler>, id: nat): (r: map<nat, Modeler>)
    requires id in modelers && WellFormed(modelers[id])
    ensures r.Keys == modelers.Keys && WellFormed(r[id]) && r[id] == modelers[id].(refCount := modelers[id].refCount + 1)
    ensures forall k :: k in modelers && k != id ==> r[k] == modelers[k]
  {
    SmallStepsValid(modelers[id], false);
    modelers[id := modelers[id].(refCount := modelers[id].refCount + 1)]
  }

  /** resetCurrentNode on the modeler of `id`. */
  function Restarted(modelers: map<nat, Modeler>, id: nat): (r: map<nat, Modeler>)
    requires id in modelers
    ensures r.Keys == modelers.Keys && r[id] == modelers[id].(current := 0)
    ensures forall k :: k in modelers && k != id ==> r[k] == modelers[k]
  {
    modelers[id := modelers[id].(current := 0)]
  }

  /**
   * A known element: its modeler gains a reference and predicts; the
   * parent's modeler moves to a node of it.  A new node is followed by
   * KnownElement and the Fibonacci code of the id; a predicted move adds one
   * to the clue edge, any other resets it.  The child's modeler starts over.
   */
  function PushKnown(c: AdaptiveEncoder, name: Text): (r: AdaptiveEncoder)
    requires TopMovable(c) && name in c.elementIds && c.elementIds[name] in c.modelers
    requires WellFormed(c.modelers[c.elementIds[name]])
    ensures Extends(r.out, c.out)
    ensures r.modelerStack != [] && TopOf(r.modelerStack) == ModelerInfo(c.elementIds[name], false)
    ensures r.elementIds == c.elementIds && r.elementCounter == c.elementCounter
    ensures r.attributeIds == c.attributeIds && r.attributeCounter == c.attributeCounter && r.clueEdge >= 1
    ensures r.modelers.Keys == c.modelers.Keys
  {
    var id := c.elementIds[name];
    var counted := Referenced(c.modelers, id);
    var mv := KnownMove(c, name);
    EnterKnown(c.(modelers := counted[TopOf(c.modelerStack).element := mv.m]), id, mv)
  }

  /** The parent's move towards a known element, once the element's modeler is referenced. */
  function KnownMove(c: AdaptiveEncoder, name: Text): MoveResult
    requires TopMovable(c) && name in c.elementIds && c.elementIds[name] in c.modelers
    requires WellFormed(c.modelers[c.elementIds[name]])
  {
    var id := c.elementIds[name];
    MoveToDesiredNodeOf(Referenced(c.modelers, id)[TopOf(c.modelerStack).element], ElementNode, Some(id))
  }

  /** The state after the parent's move `mv` towards the known element `id`. */
  function EnterKnown(c: AdaptiveEncoder, id: nat, mv: MoveResult): (r: AdaptiveEncoder)
    requires c.modelerStack != [] && id in c.modelers
    ensures Extends(r.out, c.out)
    ensures r.modelerStack != [] && TopOf(r.modelerStack) == ModelerInfo(id, false)
    ensures r.elementIds == c.elementIds && r.elementCounter == c.elementCounter
    ensures r.attributeIds == c.attributeIds && r.attributeCounter == c.attributeCounter && r.clueEdge >= 1
    ensures r.modelers == Restarted(c.modelers, id)
  {
    var top := TopOf(c.modelerStack);
    var spelled := if mv.result == NewNodeCreated then [KnownElement] + Code(id) else [];
    var pushed := c.(modelers := Restarted(c.modelers, id),
                     modelerStack := WithTop(c.modelerStack, top.(building := top.building || mv.result == NewNodeCreated))
                                     + [ModelerInfo(id, false)],
                     elementStack := c.elementStack + [id],
                     clueEdge := if mv.result == NewNodeCreated || mv.result == Indefinite then 1 else c.clueEdge + 1);
    Append(pushed, Report(mv, top.building, c.clueEdge) + spelled)
  }

  /**
   * The attribute part of a start tag, on the new top modeler's prediction.
   * With attributes: a NACK when none were predicted, the attributes, and
   * EndOfBlock; the clue edge resets.  Without: nothing when none were
   * predicted, and the clue edge grows; a NACK and a reset otherwise.
   */
  function WithAttributes(e: AdaptiveEncoder, attrs: seq<Attribute>): (r: AdaptiveEncoder)
    requires e.modelerStack != [] && TopOf(e.modelerStack).element in e.modelers
    ensures Extends(r.out, e.out)
    ensures var id := TopOf(e.modelerStack).element;
            r.modelers == e.modelers[id := SetAttributesOf(e.modelers[id], attrs != []).0]
    ensures r.elementIds == e.elementIds && r.elementCounter == e.elementCounter && r.modelerStack == e.modelerStack
    ensures var a := AttributesOf(e.attributeIds, e.attributeCounter, attrs);
            if attrs == [] then r.attributeIds == e.attributeIds && r.attributeCounter == e.attributeCounter
            else r.attributeIds == a.ids && r.attributeCounter == a.counter
    ensures r.clueEdge >= 1
  {
    var id := TopOf(e.modelerStack).element;
    var predicted := SetAttributesOf(e.modelers[id], attrs != []);
    var m := e.modelers[id := predicted.0];
    if attrs != [] then
      var a := AttributesOf(e.attributeIds, e.attributeCounter, attrs);
      Append(e.(modelers := m, attributeIds := a.ids, attributeCounter := a.counter, clueEdge := 1),
             (if predicted.1 then [] else Nack(e.clueEdge)) + a.symbols + [EndOfBlock])
    else if !predicted.1 then e.(modelers := m, clueEdge := e.clueEdge + 1)
    else Append(e.(modelers := m, clueEdge := 1), Nack(e.clueEdge))
  }

  /** A start tag: an open run is closed, the element is pushed, its attributes follow. */
  function StartElementOf(e: AdaptiveEncoder, name: Text, attrs: seq<Attribute>): (r: Managed)
    requires Valid(e)
    ensures Extends(r.e.out, e.out)
    ensures Extends(r.e.out, CloseRun(e).out)
    ensures r.Failed? <==> name in e.elementIds && e.modelerStack == []
  {
    var c := CloseRun(e);
    ValidMovable(e, name);
    if name !in c.elementIds then
      var p := PushNew(c, name);
      var a := WithAttributes(p, attrs);
      PrefixChain(c.out, p.out, a.out);
      PrefixChain(e.out, c.out, a.out);
      Returned(true, a)
    else if c.modelerStack == [] then Failed(EmptyModelerStack, c)
    else
      var p := PushKnown(c, name);
      var a := WithAttributes(p, attrs);
      PrefixChain(c.out, p.out, a.out);
      PrefixChain(e.out, c.out, a.out);
      Returned(true, a)
  }

  /** The modeler below the top of `stack`, once the top is popped, returns to the node it came from (popCurrentNode). */
  function Resumed(modelers: map<nat, Modeler>, stack: seq<ModelerInfo>): (r: map<nat, Modeler>)
    requires |stack| >= 2 ==> stack[|stack| - 2].element in modelers
    ensures r.Keys == modelers.Keys
  {
    if |stack| < 2 then modelers
    else modelers[stack[|stack| - 2].element := PopCurrentNodeOf(modelers[stack[|stack| - 2].element])]
  }

  /** A new element's modeler is stored after the parent's has moved. */
  function Stored(modelers: map<nat, Modeler>, parent: nat, moved: Modeler, id: nat, created: Modeler): (r: map<nat, Modeler>)
    requires parent in modelers
    ensures r.Keys == modelers.Keys + {id} && r[id] == created
  {
    KeysKept(modelers, parent, moved);
    modelers[parent := moved][id := created]
  }

  /**
   * An end tag: an open run is closed; an unknown name is fatal.  The top
   * modeler moves to its end node: a new edge there writes EndElement after
   * the report, a predicted one adds one to the clue edge.  The modeler is
   * popped and the parent's modeler returns to the node it came from.
   */
  function EndElementOf(e: AdaptiveEncoder, name: Text): (r: Managed)
    requires Open(e.modelerStack, e.modelers.Keys) && (e.modelerStack != [] ==> TopMovable(e))
    ensures Extends(r.e.out, e.out)
    ensures Extends(r.e.out, CloseRun(e).out)
    ensures r.Failed? <==> name !in e.elementIds || e.modelerStack == []
    ensures r.e.elementIds == e.elementIds && r.e.attributeIds == e.attributeIds
    ensures r.Failed? ==> r.e == CloseRun(e)
    ensures r.Returned? ==> && r.e.elementCounter == e.elementCounter && r.e.attributeCounter == e.attributeCounter
                            && r.e.clueEdge >= 1 && r.e.modelers.Keys == e.modelers.Keys
                            && r.e.modelerStack == e.modelerStack[..|e.modelerStack| - 1]
  {
    var c := CloseRun(e);
    if name !in c.elementIds then Failed(EndOfUnknownElement, c)
    else if c.modelerStack == [] then Failed(EmptyModelerStack, c)
    else
      var top := TopOf(c.modelerStack);
      var mv := MoveToDesiredNodeOf(c.modelers[top.element], EndNode, None);
      KeysKept(c.modelers, top.element, mv.m);
      var a := LeaveElement(c.(modelers := c.modelers[top.element := mv.m]), mv);
      PrefixChain(e.out, c.out, a.out);
      Returned(true, a)
  }

  /**
   * The state after the top modeler's move `mv` to its end node: EndElement
   * after the report when the edge is new; the modeler is popped and the
   * parent's returns to the node it came from.
   */
  function LeaveElement(c: AdaptiveEncoder, mv: MoveResult): (r: AdaptiveEncoder)
    requires c.modelerStack != []
    requires |c.modelerStack| >= 2 ==> c.modelerStack[|c.modelerStack| - 2].element in c.modelers
    ensures Extends(r.out, c.out)
    ensures r.elementIds == c.elementIds && r.attributeIds == c.attributeIds
    ensures r.elementCounter == c.elementCounter && r.attributeCounter == c.attributeCounter
    ensures r.clueEdge >= 1 && r.modelers == Resumed(c.modelers, c.modelerStack)
    ensures r.modelerStack == c.modelerStack[..|c.modelerStack| - 1]
  {
    var top := TopOf(c.modelerStack);
    var marked := if mv.result == NewNodeCreated then [EndElement] else [];
    var closed := c.(elementStack := if c.elementStack == [] then [] else c.elementStack[..|c.elementStack| - 1],
                     modelers := Resumed(c.modelers, c.modelerStack), modelerStack := c.modelerStack[..|c.modelerStack| - 1],
                     clueEdge := if mv.result == NewNodeCreated || mv.result == Indefinite then 1 else c.clueEdge + 1);
    Append(closed, Report(mv, top.building, c.clueEdge) + marked)
  }

  // ---------------------------------------------------------------------
  // manageEvent
  // ---------------------------------------------------------------------

  /** manageEvent: what each event appends and the encoder it leaves. */
  function ManageEventOf(e: AdaptiveEncoder, ev: XmlEvent): (r: Managed)
    requires Valid(e)
    ensures Extends(r.e.out, e.out)
    ensures !ev.StartElementEvent? ==> r.e.elementIds == e.elementIds && r.e.attributeIds == e.attributeIds
  {
    if ev.StartElementEvent? then StartElementOf(e, ev.name, ev.attributes)
    else if ev.EndElementEvent? then ValidMovable(e, []); EndElementOf(e, ev.endName)
    else ManageOtherEventOf(e, ev)
  }

  /** The events other than start and end tags. */
  function ManageOtherEventOf(e: AdaptiveEncoder, ev: XmlEvent): (r: Managed)
    requires Valid(e) && !ev.StartElementEvent? && !ev.EndElementEvent?
    ensures Extends(r.e.out, e.out)
    ensures r.e.elementIds == e.elementIds && r.e.attributeIds == e.attributeIds
    ensures r.e.modelerStack == [] <==> e.modelerStack == []
  {
    if ev.CharactersEvent? || ev.DefaultEvent? || ev.CommentEvent? || ev.StartCDATAEvent? || ev.PIEvent?
    then RunEventOf(e, ev)
    else DeclarationOf(e, ev)
  }

  /**
   * The declarations, as in the simple model with the adaptive symbols, the
   * end of a CDATA section and an event manageEvent does not know.  A null
   * version makes manageEvent return false after XmlDecl is appended.
   */
  function DeclarationOf(e: AdaptiveEncoder, ev: XmlEvent): (r: Managed)
    requires !ev.StartElementEvent? && !ev.EndElementEvent?
    requires !(ev.CharactersEvent? || ev.DefaultEvent? || ev.CommentEvent? || ev.StartCDATAEvent? || ev.PIEvent?)
    ensures Extends(r.e.out, e.out)
    ensures r.e == e.(out := r.e.out, alphabetBaseSize := r.e.alphabetBaseSize)
  {
    match ev
    case XmlDeclEvent(version, encoding, standalone) =>
      var mib := TextCodecs.GetMIB(if encoding.Some? then Some(Simple.AsString(encoding.value)) else None);
      if mib.Err? then Failed(CodecFailure(mib.error), e)
      else
        var size := TextCodecs.SuggestAlphabetBaseSize(mib.value);
        if size.Err? then Failed(CodecFailure(size.error), e)
        else
          var sized := e.(alphabetBaseSize := Some(size.value));
          if version.None? then Returned(false, Append(sized, [XmlDecl]))
          else Returned(true, Append(sized, [XmlDecl] + Simple.Terminated(version.value) + Simple.OrEnd(encoding)
                                            + [Simple.Standalone(standalone)]))
    case StartDoctypeEvent(name, systemId, publicId, internal) =>
      Returned(true, Append(e, [Doctype] + Simple.OrEnd(name) + Marked(publicId) + Marked(systemId)
                               + [if internal then HasInternalSubsetYes else HasInternalSubsetNo]))
    case EndDoctypeEvent =>
      Returned(true, Append(e, [Doctype]))
    case EntityDeclEvent(name, parameter, value, systemId, publicId, notation) =>
      Returned(true, Append(e, [EntityDecl] + Simple.OrEnd(name) + Marked(value) + Marked(systemId) + Marked(publicId)
                               + Marked(notation) + [if parameter then IsParameterEntityYes else IsParameterEntityNo]))
    case NotationDeclEvent(name, systemId, publicId) =>
      Returned(true, Append(e, [NotationDecl] + Simple.OrEnd(name) + Marked(systemId) + Marked(publicId)))
    case EndCDATAEvent =>
      Returned(true, Append(e, [EndOfBlock]))
    case Unrecognised(_) =>
      Returned(false, e)
  }

  /**
   * Character data, CDATA, comments, processing instructions and default
   * data.  Before the root element a comment or a processing instruction is
   * marked by Default; inside elements it, like default data, belongs to a
   * run.  A null comment makes manageEvent return false after the leading
   * symbols have been appended.
   */
  function RunEventOf(e: AdaptiveEncoder, ev: XmlEvent): (r: Managed)
    requires Valid(e)
    requires ev.CharactersEvent? || ev.DefaultEvent? || ev.CommentEvent? || ev.StartCDATAEvent? || ev.PIEvent?
    ensures Extends(r.e.out, e.out)
    ensures r.e.elementIds == e.elementIds && r.e.attributeIds == e.attributeIds
    ensures r.e.modelerStack == [] <==> e.modelerStack == []
  {
    ValidMovable(e, []);
    if ev.CharactersEvent? || ev.StartCDATAEvent? then TextRunOf(e, ev) else MarkupOf(e, ev)
  }

  /** Character data and the start of a CDATA section, which belong to a run. */
  function TextRunOf(e: AdaptiveEncoder, ev: XmlEvent): (r: Managed)
    requires e.modelerStack == [] || TopMovable(e)
    requires ev.CharactersEvent? || ev.StartCDATAEvent?
    ensures Extends(r.e.out, e.out)
    ensures r.e.elementIds == e.elementIds && r.e.attributeIds == e.attributeIds
    ensures |r.e.modelerStack| == |e.modelerStack|
  {
    var data := if ev.CharactersEvent? then ev.characters else [CDATA];
    if e.inCharacters then Returned(true, Append(e, data))
    else if e.modelerStack == [] then Failed(EmptyModelerStack, e)
    else
      var o := OpenRun(e, ev.StartCDATAEvent?);
      var a := Append(o, data);
      PrefixChain(e.out, o.out, a.out);
      Returned(true, a)
  }

  /**
   * Default data, comments and processing instructions.  A comment with no
   * text makes manageEvent return false after its leading symbols.
   */
  function MarkupOf(e: AdaptiveEncoder, ev: XmlEvent): (r: Managed)
    requires e.modelerStack == [] || TopMovable(e)
    requires ev.DefaultEvent? || ev.CommentEvent? || ev.PIEvent?
    ensures Extends(r.e.out, e.out)
    ensures r.e.elementIds == e.elementIds && r.e.attributeIds == e.attributeIds
    ensures |r.e.modelerStack| == |e.modelerStack|
  {
    if ev.DefaultEvent? && e.modelerStack == [] then Returned(true, Append(e, [Default] + Simple.Terminated(ev.defaultData)))
    else
      var o := if e.modelerStack == [] then Append(e, [Default]) else InRun(e);
      var body := if ev.DefaultEvent? then ConvertAmp(ev.defaultData)
                  else if ev.CommentEvent? then [Comment] + (if ev.comment.None? then [] else Simple.Terminated(ev.comment.value))
                  else [PI] + (if ev.target.None? then [EndOfBlock] else Simple.Terminated(ev.target.value) + Simple.OrEnd(ev.piData));
      var a := Append(o, body);
      PrefixChain(e.out, o.out, a.out);
      Returned(!(ev.CommentEvent? && ev.comment.None?), a)
  }

  // ---------------------------------------------------------------------
  // The invariant
  // ---------------------------------------------------------------------

  /** A bound on the references of a modeler may always grow. */
  lemma RefersBelowGrows(g: Modeler, bound: nat, more: nat)
    requires RefersBelow(g, bound) && bound <= more
    ensures RefersBelow(g, more)
  {
  }

  /** A move keeps a modeler well formed and, for a target below the bound, its references below it. */
  lemma MoveRefersBelow(g: Modeler, t: NodeType, who: Option<ModelerId>, bound: nat)
    requires WellFormed(g) && RefersBelow(g, bound) && (who.None? || who.value < bound)
    ensures WellFormed(MoveToDesiredNodeOf(g, t, who).m) && RefersBelow(MoveToDesiredNodeOf(g, t, who).m, bound)
  {
    MoveToDesiredNodeValid(g, t, who);
    MoveKeepsReferences(g, t, who);
  }

  /** The attribute ids the adaptive model gives are the simple model's. */
  lemma {:induction false} AttributeNumbering(ids: map<Text, nat>, counter: nat, attrs: seq<Attribute>)
    ensures AttributesOf(ids, counter, attrs).ids == Simple.AttributesOf(ids, counter, attrs).ids
    ensures AttributesOf(ids, counter, attrs).counter == Simple.AttributesOf(ids, counter, attrs).counter
    decreases |attrs|
  {
    if attrs != [] {
      var first := Simple.NameOf(ids, counter, attrs[0].name);
      AttributeNumbering(first.ids, first.counter, attrs[1..]);
    }
  }

  /** A new name takes the counter as its id. */
  lemma IdsFresh(ids: map<Text, nat>, counter: nat, name: Text)
    requires IdsBelow(ids, counter) && name !in ids && counter >= 1
    ensures IdsBelow(ids[name := counter], counter + 1)
  {
  }

  /** A new name's modeler is stored under its id. */
  lemma KnownFresh(ids: map<Text, nat>, keys: set<nat>, name: Text, id: nat)
    requires Known(ids, keys)
    ensures Known(ids[name := id], keys + {id})
  {
  }

  /** The bound of ModelersBelow may grow by one. */
  lemma ModelersGrow(ms: map<nat, Modeler>, counter: nat)
    requires ModelersBelow(ms, counter)
    ensures ModelersBelow(ms, counter + 1)
  {
    forall k | k in ms ensures RefersBelow(ms[k], counter + 1) {
      RefersBelowGrows(ms[k], counter, counter + 1);
    }
  }

  /** More keys keep Open. */
  lemma OpenGrows(stack: seq<ModelerInfo>, keys: set<nat>, more: set<nat>)
    requires Open(stack, keys) && keys <= more
    ensures Open(stack, more)
  {
  }

  /** Storing under a present key keeps the keys. */
  lemma KeysKept(ms: map<nat, Modeler>, k: nat, g: Modeler)
    requires k in ms
    ensures ms[k := g].Keys == ms.Keys
  {
  }

  /** Storing a well-formed modeler below the bound keeps ModelersBelow. */
  lemma ModelersUpdate(ms: map<nat, Modeler>, counter: nat, k: nat, g: Modeler)
    requires ModelersBelow(ms, counter) && k < counter && WellFormed(g) && RefersBelow(g, counter)
    ensures ModelersBelow(ms[k := g], counter)
  {
  }

  /** Replacing the top entry by one of the same element keeps Open. */
  lemma OpenWithTop(stack: seq<ModelerInfo>, info: ModelerInfo, keys: set<nat>)
    requires Open(stack, keys) && stack != [] && info.element == TopOf(stack).element
    ensures Open(WithTop(stack, info), keys)
  {
    var w := WithTop(stack, info);
    assert forall j :: 0 <= j < |w| ==> w[j].element == stack[j].element;
  }

  /** Pushing a known modeler keeps Open. */
  lemma OpenPush(stack: seq<ModelerInfo>, info: ModelerInfo, keys: set<nat>)
    requires Open(stack, keys) && info.element in keys
    ensures Open(stack + [info], keys)
  {
  }

  /** Popping keeps Open. */
  lemma OpenPop(stack: seq<ModelerInfo>, keys: set<nat>)
    requires Open(stack, keys) && stack != []
    ensures Open(stack[..|stack| - 1], keys)
  {
  }

  /** Opening a run keeps the invariant. */
  lemma OpenRunValid(e: AdaptiveEncoder, cdata: bool)
    requires Valid(e) && TopMovable(e)
    ensures Valid(OpenRun(e, cdata))
  {
    var top := TopOf(e.modelerStack);
    var mv := MoveToDesiredNodeOf(e.modelers[top.element], CharactersNode, None);
    MoveRefersBelow(e.modelers[top.element], CharactersNode, None, e.elementCounter);
    ModelersUpdate(e.modelers, e.elementCounter, top.element, mv.m);
    KeysKept(e.modelers, top.element, mv.m);
    RunOpenedValid(e.(modelers := e.modelers[top.element := mv.m]), mv, if cdata then e.clueEdge + 1 else e.clueEdge);
  }

  lemma RunOpenedValid(e: AdaptiveEncoder, mv: MoveResult, clue: nat)
    requires Valid(e) && e.modelerStack != []
    ensures Valid(RunOpened(e, mv, clue))
  {
    var r := RunOpened(e, mv, clue);
    OpenWithTop(e.modelerStack, TopOf(e.modelerStack).(building := TopOf(r.modelerStack).building), e.modelers.Keys);
  }

  /** Symbols appended keep the invariant. */
  lemma AppendValid(e: AdaptiveEncoder, s: seq<Byte>)
    requires Valid(e)
    ensures Valid(Append(e, s))
  {
  }

  /** Pushing an unknown element keeps the invariant: it takes the counter as its id. */
  lemma PushNewValid(c: AdaptiveEncoder, name: Text)
    requires Valid(c) && name !in c.elementIds
    ensures Valid(PushNew(c, name))
  {
    IdsFresh(c.elementIds, c.elementCounter, name);
    KnownFresh(c.elementIds, c.modelers.Keys, name, c.elementCounter);
    ModelersGrow(c.modelers, c.elementCounter);
    PushNewModelers(c, name);
    PushNewOpen(c, name);
  }

  /** The modelers after an unknown element, one more of them. */
  lemma PushNewModelers(c: AdaptiveEncoder, name: Text)
    requires name !in c.elementIds && (c.modelerStack == [] || TopMovable(c))
    requires ModelersBelow(c.modelers, c.elementCounter + 1)
    ensures ModelersBelow(PushNew(c, name).modelers, c.elementCounter + 1)
  {
    if c.modelerStack == [] {
      RootModelers(c, name);
    } else {
      ChildModelers(c, name);
    }
  }

  lemma RootModelers(c: AdaptiveEncoder, name: Text)
    requires name !in c.elementIds && c.modelerStack == []
    requires ModelersBelow(c.modelers, c.elementCounter + 1)
    ensures ModelersBelow(PushNew(c, name).modelers, c.elementCounter + 1)
  {
    var id := c.elementCounter;
    var created := NewModeler(Simple.AsString(name), id);
    assert RefersBelow(created, id + 1);
    ModelersUpdate(c.modelers, id + 1, id, created);
  }

  lemma ChildModelers(c: AdaptiveEncoder, name: Text)
    requires name !in c.elementIds && TopMovable(c)
    requires ModelersBelow(c.modelers, c.elementCounter + 1)
    ensures ModelersBelow(PushNew(c, name).modelers, c.elementCounter + 1)
  {
    var top := TopOf(c.modelerStack);
    var mv := MoveToDesiredNodeOf(c.modelers[top.element], ElementNode, Some(c.elementCounter));
    ChildStoredBelow(c.modelers, top.element, Simple.AsString(name), c.elementCounter);
    assert PushNew(c, name).modelers
        == Stored(c.modelers, top.element, mv.m, c.elementCounter, NewModeler(Simple.AsString(name), c.elementCounter));
  }

  /** The parent moved towards the new modeler `id`, which is stored: both refer below `id + 1`. */
  lemma ChildStoredBelow(ms: map<nat, Modeler>, parent: nat, name: seq<char>, id: nat)
    requires ModelersBelow(ms, id + 1) && parent in ms
    ensures ModelersBelow(Stored(ms, parent, MoveToDesiredNodeOf(ms[parent], ElementNode, Some(id)).m, id, NewModeler(name, id)), id + 1)
  {
    CreatedBelow(name, id);
    MoveRefersBelow(ms[parent], ElementNode, Some(id), id + 1);
    StoredBelow(ms, id + 1, parent, MoveToDesiredNodeOf(ms[parent], ElementNode, Some(id)).m, id, NewModeler(name, id));
  }

  /** A new modeler refers to its own id only. */
  lemma CreatedBelow(name: seq<char>, id: nat)
    ensures RefersBelow(NewModeler(name, id), id + 1)
  {
    var g := NewModeler(name, id);
    assert |g.nodes| == 2 && g.nodes[0].modeler == g.nodes[1].modeler == Some(id);
  }

  lemma StoredBelow(ms: map<nat, Modeler>, counter: nat, parent: nat, g: Modeler, id: nat, created: Modeler)
    requires ModelersBelow(ms, counter) && parent in ms && parent < counter && id < counter
    requires WellFormed(g) && RefersBelow(g, counter) && WellFormed(created) && RefersBelow(created, counter)
    ensures ModelersBelow(Stored(ms, parent, g, id, created), counter)
  {
    ModelersUpdate(ms, counter, parent, g);
    ModelersUpdate(ms[parent := g], counter, id, created);
  }

  /** The open modelers after an unknown element: the new one is pushed. */
  lemma PushNewOpen(c: AdaptiveEncoder, name: Text)
    requires name !in c.elementIds && (c.modelerStack == [] || TopMovable(c))
    requires Open(c.modelerStack, c.modelers.Keys)
    ensures Open(PushNew(c, name).modelerStack, c.modelers.Keys + {c.elementCounter})
  {
    var id := c.elementCounter;
    if c.modelerStack != [] {
      var top := TopOf(c.modelerStack);
      var mv := MoveToDesiredNodeOf(c.modelers[top.element], ElementNode, Some(id));
      var info := top.(building := top.building || mv.result == NewNodeCreated);
      OpenWithTop(c.modelerStack, info, c.modelers.Keys);
      OpenGrows(WithTop(c.modelerStack, info), c.modelers.Keys, c.modelers.Keys + {id});
      OpenPush(WithTop(c.modelerStack, info), ModelerInfo(id, true), c.modelers.Keys + {id});
    }
  }

  /** Pushing a known element keeps the invariant. */
  lemma PushKnownValid(c: AdaptiveEncoder, name: Text)
    requires Valid(c) && c.modelerStack != [] && name in c.elementIds
    ensures TopMovable(c) && WellFormed(c.modelers[c.elementIds[name]]) && Valid(PushKnown(c, name))
  {
    ValidMovable(c, name);
    KnownModelers(c, name);
    KnownOpen(c, name);
  }

  /** The modelers after a known element: one moved, one referenced and restarted. */
  lemma KnownModelers(c: AdaptiveEncoder, name: Text)
    requires TopMovable(c) && name in c.elementIds && c.elementIds[name] in c.modelers
    requires WellFormed(c.modelers[c.elementIds[name]])
    requires ModelersBelow(c.modelers, c.elementCounter) && c.elementIds[name] < c.elementCounter
    ensures ModelersBelow(PushKnown(c, name).modelers, c.elementCounter)
  {
    var id := c.elementIds[name];
    var counted := Referenced(c.modelers, id);
    ReferencedBelow(c.modelers, c.elementCounter, id);
    var top := TopOf(c.modelerStack);
    var mv := MoveToDesiredNodeOf(counted[top.element], ElementNode, Some(id));
    MoveRefersBelow(counted[top.element], ElementNode, Some(id), c.elementCounter);
    RestartedBelow(counted, c.elementCounter, top.element, mv.m, id);
  }

  lemma ReferencedBelow(ms: map<nat, Modeler>, counter: nat, id: nat)
    requires ModelersBelow(ms, counter) && id in ms && WellFormed(ms[id])
    ensures ModelersBelow(Referenced(ms, id), counter)
  {
    ModelersUpdate(ms, counter, id, Referenced(ms, id)[id]);
    assert Referenced(ms, id) == ms[id := Referenced(ms, id)[id]];
  }

  lemma RestartedBelow(ms: map<nat, Modeler>, counter: nat, parent: nat, g: Modeler, id: nat)
    requires ModelersBelow(ms, counter) && parent in ms && id in ms && WellFormed(g) && RefersBelow(g, counter)
    ensures ModelersBelow(Restarted(ms[parent := g], id), counter)
  {
    var moved := ms[parent := g];
    ModelersUpdate(ms, counter, parent, g);
    SmallStepsValid(moved[id], false);
    ModelersUpdate(moved, counter, id, moved[id].(current := 0));
  }

  /** The open modelers after a known element: its modeler is pushed. */
  lemma KnownOpen(c: AdaptiveEncoder, name: Text)
    requires TopMovable(c) && name in c.elementIds && c.elementIds[name] in c.modelers
    requires WellFormed(c.modelers[c.elementIds[name]])
    requires Open(c.modelerStack, c.modelers.Keys)
    ensures Open(PushKnown(c, name).modelerStack, c.modelers.Keys)
  {
    var id := c.elementIds[name];
    var counted := Referenced(c.modelers, id);
    var top := TopOf(c.modelerStack);
    var mv := MoveToDesiredNodeOf(counted[top.element], ElementNode, Some(id));
    var info := top.(building := top.building || mv.result == NewNodeCreated);
    OpenWithTop(c.modelerStack, info, c.modelers.Keys);
    OpenPush(WithTop(c.modelerStack, info), ModelerInfo(id, false), c.modelers.Keys);
  }

  /** The attribute part of a start tag keeps the invariant. */
  lemma WithAttributesValid(e: AdaptiveEncoder, attrs: seq<Attribute>)
    requires Valid(e) && e.modelerStack != []
    ensures Valid(WithAttributes(e, attrs))
  {
    var id := TopOf(e.modelerStack).element;
    PredictedBelow(e.modelers, e.elementCounter, id, attrs != []);
    if attrs != [] {
      AttributeNumbering(e.attributeIds, e.attributeCounter, attrs);
      Simple.AttributesIds(e.attributeIds, e.attributeCounter, attrs);
    }
  }

  /** setAttributes on a modeler keeps ModelersBelow and the keys. */
  lemma PredictedBelow(ms: map<nat, Modeler>, counter: nat, id: nat, attributes: bool)
    requires ModelersBelow(ms, counter) && id in ms
    ensures ModelersBelow(ms[id := SetAttributesOf(ms[id], attributes).0], counter)
    ensures ms[id := SetAttributesOf(ms[id], attributes).0].Keys == ms.Keys
  {
    SmallStepsValid(ms[id], attributes);
    ModelersUpdate(ms, counter, id, SetAttributesOf(ms[id], attributes).0);
  }

  /** A start tag keeps the invariant. */
  lemma StartElementValid(e: AdaptiveEncoder, name: Text, attrs: seq<Attribute>)
    requires Valid(e)
    ensures Valid(StartElementOf(e, name, attrs).e)
  {
    var c := CloseRun(e);
    if name !in c.elementIds {
      PushNewValid(c, name);
      WithAttributesValid(PushNew(c, name), attrs);
    } else if c.modelerStack != [] {
      PushKnownValid(c, name);
      WithAttributesValid(PushKnown(c, name), attrs);
    }
  }

  /** An end tag keeps the invariant. */
  lemma EndElementValid(e: AdaptiveEncoder, name: Text)
    requires Valid(e)
    ensures Valid(EndElementOf(e, name).e)
  {
    if name in e.elementIds && e.modelerStack != [] {
      ValidMovable(e, name);
      var c := CloseRun(e);
      var top := TopOf(c.modelerStack);
      var mv := MoveToDesiredNodeOf(c.modelers[top.element], EndNode, None);
      MoveRefersBelow(c.modelers[top.element], EndNode, None, c.elementCounter);
      ModelersUpdate(c.modelers, c.elementCounter, top.element, mv.m);
      KeysKept(c.modelers, top.element, mv.m);
      var moved := c.(modelers := c.modelers[top.element := mv.m]);
      LeaveValid(moved, mv);
      assert EndElementOf(e, name).e == LeaveElement(moved, mv);
    }
  }

  /** Leaving an element keeps the invariant. */
  lemma LeaveValid(c: AdaptiveEncoder, mv: MoveResult)
    requires Valid(c) && c.modelerStack != []
    ensures |c.modelerStack| >= 2 ==> c.modelerStack[|c.modelerStack| - 2].element in c.modelers
    ensures Valid(LeaveElement(c, mv))
  {
    ResumedBelow(c.modelers, c.elementCounter, c.modelerStack);
    OpenPop(c.modelerStack, c.modelers.Keys);
  }

  /** popCurrentNode on the modeler below the top keeps ModelersBelow. */
  lemma ResumedBelow(ms: map<nat, Modeler>, counter: nat, stack: seq<ModelerInfo>)
    requires ModelersBelow(ms, counter) && (|stack| >= 2 ==> stack[|stack| - 2].element in ms)
    ensures ModelersBelow(Resumed(ms, stack), counter)
  {
    if |stack| >= 2 {
      var parent := stack[|stack| - 2].element;
      SmallStepsValid(ms[parent], false);
      ModelersUpdate(ms, counter, parent, PopCurrentNodeOf(ms[parent]));
    }
  }

  /** Every other event keeps the invariant. */
  lemma OtherEventValid(e: AdaptiveEncoder, ev: XmlEvent)
    requires Valid(e) && !ev.StartElementEvent? && !ev.EndElementEvent?
    ensures Valid(ManageOtherEventOf(e, ev).e)
  {
    if ev.CharactersEvent? || ev.DefaultEvent? || ev.CommentEvent? || ev.StartCDATAEvent? || ev.PIEvent? {
      RunEventValid(e, ev);
    }
  }

  /** Character data, CDATA, comments, processing instructions and default data keep the invariant. */
  lemma RunEventValid(e: AdaptiveEncoder, ev: XmlEvent)
    requires Valid(e)
    requires ev.CharactersEvent? || ev.DefaultEvent? || ev.CommentEvent? || ev.StartCDATAEvent? || ev.PIEvent?
    ensures Valid(RunEventOf(e, ev).e)
  {
    ValidMovable(e, []);
    if ev.CharactersEvent? || ev.StartCDATAEvent? {
      TextRunValid(e, ev);
    } else {
      MarkupValid(e, ev);
    }
  }

  lemma TextRunValid(e: AdaptiveEncoder, ev: XmlEvent)
    requires Valid(e) && (e.modelerStack == [] || TopMovable(e))
    requires ev.CharactersEvent? || ev.StartCDATAEvent?
    ensures Valid(TextRunOf(e, ev).e)
  {
    if !e.inCharacters && e.modelerStack != [] {
      var cdata := ev.StartCDATAEvent?;
      OpenRunValid(e, cdata);
      AppendValid(OpenRun(e, cdata), if ev.CharactersEvent? then ev.characters else [CDATA]);
    }
  }

  lemma MarkupValid(e: AdaptiveEncoder, ev: XmlEvent)
    requires Valid(e) && (e.modelerStack == [] || TopMovable(e))
    requires ev.DefaultEvent? || ev.CommentEvent? || ev.PIEvent?
    ensures Valid(MarkupOf(e, ev).e)
  {
    if e.modelerStack != [] && !e.inCharacters {
      OpenRunValid(e, false);
    }
  }

  /**
   * manageEvent keeps the invariant: ids stay distinct and below their
   * counters, every element id keeps a well-formed modeler whose element
   * nodes refer to known ids, and the open modelers are among them.
   */
  lemma ManageEventValid(e: AdaptiveEncoder, ev: XmlEvent)
    requires Valid(e)
    ensures Valid(ManageEventOf(e, ev).e)
  {
    if ev.StartElementEvent? {
      StartElementValid(e, ev.name, ev.attributes);
    } else if ev.EndElementEvent? {
      EndElementValid(e, ev.endName);
    } else {
      OtherEventValid(e, ev);
    }
  }

  // ---------------------------------------------------------------------
  // What the encoder writes
  // ---------------------------------------------------------------------

  /**
   * A start tag the modelers predict costs nothing: when the parent's move to
   * a known element is the definite one and the element's modeler predicts no
   * attributes, nothing is written and the clue edge grows by two.
   */
  lemma PredictedStartSilent(e: AdaptiveEncoder, name: Text)
    requires Valid(e) && !e.inCharacters && TopMovable(e) && name in e.elementIds
    requires e.elementIds[name] in e.modelers && WellFormed(e.modelers[e.elementIds[name]])
    requires KnownMove(e, name).result == Definite && !e.modelers[e.elementIds[name]].hasAttr
    ensures var r := StartElementOf(e, name, []);
            r.Returned? && r.e.out == e.out && r.e.clueEdge == e.clueEdge + 2
  {
    assert CloseRun(e) == e;
    KnownPredicted(e, name);
    NoAttributesPredicted(PushKnown(e, name));
  }

  /** A definite move to a known element writes nothing and adds one to the clue edge. */
  lemma KnownPredicted(c: AdaptiveEncoder, name: Text)
    requires TopMovable(c) && name in c.elementIds
    requires c.elementIds[name] in c.modelers && WellFormed(c.modelers[c.elementIds[name]])
    requires KnownMove(c, name).result == Definite
    ensures var p := PushKnown(c, name);
            && p.out == c.out && p.clueEdge == c.clueEdge + 1
            && TopOf(p.modelerStack).element in p.modelers
            && p.modelers[TopOf(p.modelerStack).element].hasAttr == c.modelers[c.elementIds[name]].hasAttr
  {
    var id := c.elementIds[name];
    var counted := Referenced(c.modelers, id);
    MoveKeepsPrediction(counted[TopOf(c.modelerStack).element], ElementNode, Some(id));
  }

  /** A start tag without attributes, as its modeler predicted, writes nothing and adds one to the clue edge. */
  lemma NoAttributesPredicted(p: AdaptiveEncoder)
    requires p.modelerStack != [] && TopOf(p.modelerStack).element in p.modelers
    requires !p.modelers[TopOf(p.modelerStack).element].hasAttr
    ensures WithAttributes(p, []).out == p.out && WithAttributes(p, []).clueEdge == p.clueEdge + 1
  {
  }

  /**
   * An unknown element inside an open one: the parent's modeler cannot have
   * a node of the new id, so the move creates one.  A NACK of the clue edge
   * comes first unless the parent is building, then NewElement and the name;
   * the new element takes the counter as its id and the parent builds.
   */
  lemma UnknownStartSpelled(e: AdaptiveEncoder, name: Text, attrs: seq<Attribute>)
    requires Valid(e) && !e.inCharacters && e.modelerStack != [] && name !in e.elementIds
    ensures var r := StartElementOf(e, name, attrs).e;
            var lead := SpelledStart(TopOf(e.modelerStack).building, e.clueEdge, name);
            && Extends(r.out, e.out + lead)
            && r.elementIds == e.elementIds[name := e.elementCounter] && r.elementCounter == e.elementCounter + 1
            && |r.modelerStack| == |e.modelerStack| + 1 && TopOf(r.modelerStack) == ModelerInfo(e.elementCounter, true)
            && r.modelerStack[|e.modelerStack| - 1] == TopOf(e.modelerStack).(building := true)
  {
    ValidMovable(e, name);
    assert CloseRun(e) == e;
    var top := TopOf(e.modelerStack);
    assert RefersBelow(e.modelers[top.element], e.elementCounter);
    NewChildSpelled(e, name);
  }

  /** The parent's modeler, with no node of the new id, creates one; the name follows what it reports. */
  lemma NewChildSpelled(c: AdaptiveEncoder, name: Text)
    requires name !in c.elementIds && TopMovable(c)
    requires RefersBelow(c.modelers[TopOf(c.modelerStack).element], c.elementCounter)
    ensures var p := PushNew(c, name);
            && p.out == c.out + SpelledStart(TopOf(c.modelerStack).building, c.clueEdge, name)
            && |p.modelerStack| == |c.modelerStack| + 1
            && p.modelerStack[|c.modelerStack| - 1] == TopOf(c.modelerStack).(building := true)
  {
    var id := c.elementCounter;
    var top := TopOf(c.modelerStack);
    var mv := MoveToDesiredNodeOf(c.modelers[top.element], ElementNode, Some(id));
    UnseenModelerCreates(c.modelers[top.element], id);
    var named := c.(elementIds := c.elementIds[name := id], elementCounter := id + 1,
                    elementStack := c.elementStack + [id], clueEdge := 1,
                    modelers := Stored(c.modelers, top.element, mv.m, id, NewModeler(Simple.AsString(name), id)));
    assert PushNew(c, name) == NewChild(named, mv, name, id, c.clueEdge);
    NewChildCreated(named, mv, name, id, c.clueEdge);
  }

  lemma NewChildCreated(e: AdaptiveEncoder, mv: MoveResult, name: Text, id: nat, clue: nat)
    requires e.modelerStack != [] && mv.result == NewNodeCreated
    ensures var p := NewChild(e, mv, name, id, clue);
            && p.out == e.out + SpelledStart(TopOf(e.modelerStack).building, clue, name)
            && |p.modelerStack| == |e.modelerStack| + 1
            && p.modelerStack[|e.modelerStack| - 1] == TopOf(e.modelerStack).(building := true)
  {
    var lead := if TopOf(e.modelerStack).building then [] else Nack(clue);
    assert lead + ([NewElement] + Simple.Terminated(name)) == SpelledStart(TopOf(e.modelerStack).building, clue, name);
  }

  /** What an unknown element below another starts with: a NACK unless the parent builds, NewElement and the name. */
  function SpelledStart(building: bool, clue: nat, name: Text): seq<Byte>
  {
    (if building then [] else Nack(clue)) + [NewElement] + Simple.Terminated(name)
  }

  /** Inside a run, character data is appended as it is, with no symbol. */
  lemma RunContinues(e: AdaptiveEncoder, data: Text)
    requires Valid(e) && e.inCharacters
    ensures ManageEventOf(e, CharactersEvent(data)) == Returned(true, e.(out := e.out + data))
  {
  }

  /** Outside a run, character data opens one: Characters and the data end the output. */
  lemma RunOpens(e: AdaptiveEncoder, data: Text)
    requires Valid(e) && !e.inCharacters && e.modelerStack != []
    ensures var r := ManageEventOf(e, CharactersEvent(data));
            && r.Returned? && r.e.inCharacters && r.e.clueEdge == 1
            && |e.out| + |data| + 1 <= |r.e.out| && EndsWith(r.e.out, [Characters] + data)
  {
    ValidMovable(e, []);
    var ev := CharactersEvent(data);
    assert ManageEventOf(e, ev) == RunEventOf(e, ev) == TextRunOf(e, ev);
    TextRunOpens(e, data);
  }

  lemma TextRunOpens(e: AdaptiveEncoder, data: Text)
    requires TopMovable(e) && !e.inCharacters
    ensures var r := TextRunOf(e, CharactersEvent(data));
            && r.Returned? && r.e.inCharacters && r.e.clueEdge == 1
            && |e.out| + |data| + 1 <= |r.e.out| && EndsWith(r.e.out, [Characters] + data)
  {
    OpenRunEnds(e, false);
    var o := OpenRun(e, false);
    assert TextRunOf(e, CharactersEvent(data)) == Returned(true, Append(o, data));
    LastThen(o.out, data);
  }

  /** Opening a run ends the output with Characters and resets the clue edge. */
  lemma OpenRunEnds(e: AdaptiveEncoder, cdata: bool)
    requires TopMovable(e)
    ensures var r := OpenRun(e, cdata);
            && r.inCharacters && r.clueEdge == 1 && |e.out| + 1 <= |r.out| && r.out[|r.out| - 1] == Characters
  {
  }

  /** Character data before the root element is refused. */
  lemma CharactersOutsideFail(e: AdaptiveEncoder, data: Text)
    requires Valid(e) && !e.inCharacters && e.modelerStack == []
    ensures ManageEventOf(e, CharactersEvent(data)) == Failed(EmptyModelerStack, e)
  {
  }

  /** The next tag closes a run with EndOfBlock. */
  lemma TagClosesRun(e: AdaptiveEncoder, ev: XmlEvent)
    requires Valid(e) && e.inCharacters && (ev.StartElementEvent? || ev.EndElementEvent?)
    ensures var r := ManageEventOf(e, ev).e;
            Extends(r.out, e.out + [EndOfBlock])
  {
    assert CloseRun(e).out == e.out + [EndOfBlock];
  }

  /** Default data inside a run has every '&' replaced by AMP_REPLACEMENT and no terminator. */
  lemma DefaultInRun(e: AdaptiveEncoder, data: Text)
    requires Valid(e) && e.inCharacters && e.modelerStack != []
    ensures ManageEventOf(e, DefaultEvent(data)) == Returned(true, e.(out := e.out + ConvertAmp(data)))
  {
  }

  /** Ending an element that was never started is fatal. */
  lemma UnknownEndFatal(e: AdaptiveEncoder, name: Text)
    requires Valid(e) && name !in e.elementIds
    ensures ManageEventOf(e, EndElementEvent(name)) == Failed(EndOfUnknownElement, CloseRun(e))
  {
  }

  /** An event manageEvent does not know leaves the encoder alone and answers false. */
  lemma UnrecognisedRefused(e: AdaptiveEncoder, t: int)
    requires Valid(e)
    ensures ManageEventOf(e, Unrecognised(t)) == Returned(false, e)
  {
  }

  /** The constructor's state satisfies the invariant. */
  lemma FreshValid()
    ensures Valid(Fresh)
  {
  }
}
