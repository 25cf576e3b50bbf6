/**
 * The encoding half of XmlSimpleModel: each XML event becomes a run of
 * structural symbols and characters appended to the grammar. Element and
 * attribute names share one id space; a name is spelled out the first time
 * it is seen and referred to by the Fibonacci code of its id afterwards.
 */
module XmlSimpleEncoding {

  import opened Wrappers
  import Fibonacci
  import opened XmlModelBase
  import TextCodecs

  // StructuralSymbols of the simple model.
  const EndOfBlock: Byte := 0
  const NewElement: Byte := 1
  const KnownElement: Byte := 2
  const EndElement: Byte := 3
  const Comment: Byte := 4
  const PI: Byte := 5
  const Doctype: Byte := 6
  const XmlDecl: Byte := 7
  const CDATA: Byte := 8
  const Attributes: Byte := 11
  const EntityDecl: Byte := 14
  const NotationDecl: Byte := 15
  const Default: Byte := 16
  const EmptyString: Byte := 18

  const StandaloneNotSpecified: Byte := 0
  const StandaloneYes: Byte := 1
  const StandaloneNo: Byte := 2
  const HasInternalSubsetYes: Byte := 1
  const HasInternalSubsetNo: Byte := 2
  const IsParameterEntityYes: Byte := 1
  const IsParameterEntityNo: Byte := 2

  /**
   * The encoder: `elementIds` (name to id), `elementCounter`, the stack of
   * open element ids, the symbols appended to the grammar so far and the
   * alphabet size last set on it.
   */
  datatype SimpleEncoder = SimpleEncoder(ids: map<Text, nat>, counter: nat, stack: seq<nat>,
                                         out: seq<Byte>, alphabetBaseSize: Option<nat>)

  /** The constructor's state: no names, the counter at 1. */
  const Fresh: SimpleEncoder := SimpleEncoder(map[], 1, [], [], None)

  /** Why manageEvent does not return: a `FATAL`, or an exception of the text codec. */
  datatype EncodeError = EndOfUnknownElement | CodecFailure(error: TextCodecs.CodecError)

  /** manageEvent's return value with the encoder after it, or the failure that ended it. */
  datatype Managed = Returned(accepted: bool, e: SimpleEncoder) | Failed(error: EncodeError, e: SimpleEncoder)

  /** Ids are positive, below the counter, and distinct names have distinct ids. */
  predicate IdsValid(e: SimpleEncoder)
  {
    e.counter >= 1
    && (forall n :: n in e.ids ==> 1 <= e.ids[n] < e.counter)
    && (forall n, m :: n in e.ids && m in e.ids && n != m ==> e.ids[n] != e.ids[m])
  }

  // ---------------------------------------------------------------------
  // Pieces of the encoding
  // ---------------------------------------------------------------------

  /** APPEND_ALL_DATA(s, true) on a string known not to be null. */
  function Terminated(t: Text): seq<Byte>
  {
    t + [EndOfBlock]
  }

  /** A string that may be null: its characters and EndOfBlock, or EndOfBlock alone. */
  function OrEnd(s: Option<Text>): seq<Byte>
  {
    if s.Some? then Terminated(s.value) else [EndOfBlock]
  }

  /** A string that may be null or empty; an empty string is marked by EmptyString. */
  function Marked(s: Option<Text>): seq<Byte>
  {
    if s.None? then [EndOfBlock]
    else if s.value == [] then [EmptyString, EndOfBlock]
    else Terminated(s.value)
  }

  /** The reference to a name already seen: KnownElement and its id's Fibonacci buffer. */
  function Reference(id: nat): seq<Byte>
  {
    [KnownElement] + Fibonacci.EncodedBuffer(id, 1)
  }

  /** A name with the encoder before it: the symbols written and the encoder after. */
  datatype Named = Named(symbols: seq<Byte>, ids: map<Text, nat>, counter: nat, id: nat)

  /**
   * An element or attribute name: a new one takes id `elementCounter` and is
   * spelled out after NewElement; a known one is referred to by its id.
   */
  function NameOf(ids: map<Text, nat>, counter: nat, name: Text): (r: Named)
    ensures name in ids ==> r == Named(Reference(ids[name]), ids, counter, ids[name])
    ensures name !in ids ==> r == Named([NewElement] + Terminated(name), ids[name := counter], counter + 1, counter)
  {
    if name in ids then Named(Reference(ids[name]), ids, counter, ids[name])
    else Named([NewElement] + Terminated(name), ids[name := counter], counter + 1, counter)
  }

  /** An attribute value: EmptyString for the empty value, otherwise its characters and EndOfBlock. */
  function ValueOf(v: Text): seq<Byte>
  {
    if v == [] then [EmptyString] else Terminated(v)
  }

  /** The attributes of a start tag in order, each name followed by its value. */
  function AttributesOf(ids: map<Text, nat>, counter: nat, attrs: seq<Attribute>): (r: Named)
    ensures r.counter >= counter
    decreases |attrs|
  {
    if attrs == [] then Named([], ids, counter, 0)
    else
      var first := NameOf(ids, counter, attrs[0].name);
      var rest := AttributesOf(first.ids, first.counter, attrs[1..]);
      Named(first.symbols + ValueOf(attrs[0].value) + rest.symbols, rest.ids, rest.counter, 0)
  }

  /**
   * A start tag: if it has attributes, Attributes, the attributes and
   * EndOfBlock; then the element name. The element's id is pushed.
   */
  function StartElementOf(e: SimpleEncoder, name: Text, attrs: seq<Attribute>): (r: SimpleEncoder)
    ensures |e.out| <= |r.out| && r.out[..|e.out|] == e.out
  {
    var a := if attrs == [] then Named([], e.ids, e.counter, 0) else AttributesOf(e.ids, e.counter, attrs);
    var prefix := if attrs == [] then [] else [Attributes] + a.symbols + [EndOfBlock];
    var n := NameOf(a.ids, a.counter, name);
    SimpleEncoder(n.ids, n.counter, e.stack + [n.id], e.out + prefix + n.symbols, e.alphabetBaseSize)
  }

  function Standalone(standalone: int): Byte
  {
    if standalone == -1 then StandaloneNotSpecified
    else if standalone != 0 then StandaloneYes
    else StandaloneNo
  }

  /** The characters of a text as the text codec's name lookup sees them. */
  function AsString(t: Text): string
  {
    seq(|t|, i requires 0 <= i < |t| => t[i] as int as char)
  }

  function Append(e: SimpleEncoder, s: seq<Byte>): (r: SimpleEncoder)
    ensures |e.out| <= |r.out| && r.out[..|e.out|] == e.out
  {
    e.(out := e.out + s)
  }

  // ---------------------------------------------------------------------
  // manageEvent
  // ---------------------------------------------------------------------

  /**
   * manageEvent: what each event appends, the ids it assigns, and the
   * encoder it leaves. An XML declaration first sets the grammar's alphabet
   * size from its encoding; a null version or comment makes manageEvent
   * return false after the leading symbol has been appended.
   */
  function ManageEventOf(e: SimpleEncoder, ev: XmlEvent): (r: Managed)
    ensures |e.out| <= |r.e.out| && r.e.out[..|e.out|] == e.out
    ensures r.Failed? ==> r.e == e
    ensures !ev.StartElementEvent? ==> r.e.ids == e.ids && r.e.counter == e.counter
  {
    if ev.StartElementEvent? then Returned(true, StartElementOf(e, ev.name, ev.attributes))
    else ManageOtherEventOf(e, ev)
  }

  /** manageEvent on every event but a start tag: none of them touches the ids. */
  function ManageOtherEventOf(e: SimpleEncoder, ev: XmlEvent): (r: Managed)
    requires !ev.StartElementEvent?
    ensures |e.out| <= |r.e.out| && r.e.out[..|e.out|] == e.out
    ensures r.Failed? ==> r.e == e
    ensures r.e.ids == e.ids && r.e.counter == e.counter
  {
    match ev
    case XmlDeclEvent(version, encoding, standalone) =>
      var mib := TextCodecs.GetMIB(if encoding.Some? then Some(AsString(encoding.value)) else None);
      if mib.Err? then Failed(CodecFailure(mib.error), e)
      else
        var size := TextCodecs.SuggestAlphabetBaseSize(mib.value);
        if size.Err? then Failed(CodecFailure(size.error), e)
        else
          var sized := e.(alphabetBaseSize := Some(size.value));
          if version.None? then Returned(false, Append(sized, [XmlDecl]))
          else Returned(true, Append(sized, [XmlDecl] + Terminated(version.value) + OrEnd(encoding) + [Standalone(standalone)]))
    case StartDoctypeEvent(name, systemId, publicId, internal) =>
      Returned(true, Append(e, [Doctype] + OrEnd(name) + Marked(publicId) + Marked(systemId)
                               + [if internal then HasInternalSubsetYes else HasInternalSubsetNo]))
    case EndDoctypeEvent =>
      Returned(true, Append(e, [Doctype]))
    case EntityDeclEvent(name, parameter, value, systemId, publicId, notation) =>
      Returned(true, Append(e, [EntityDecl] + OrEnd(name) + Marked(value) + Marked(systemId) + Marked(publicId)
                               + Marked(notation) + [if parameter then IsParameterEntityYes else IsParameterEntityNo]))
    case NotationDeclEvent(name, systemId, publicId) =>
      Returned(true, Append(e, [NotationDecl] + OrEnd(name) + Marked(systemId) + Marked(publicId)))
    case EndElementEvent(name) =>
      if name !in e.ids then Failed(EndOfUnknownElement, e)
      else
        var stack := if e.stack == [] then [] else e.stack[..|e.stack| - 1];
        Returned(true, Append(e.(stack := stack), [EndElement]))
    case CharactersEvent(data) =>
      Returned(true, Append(e, Terminated(data)))
    case DefaultEvent(data) =>
      Returned(true, Append(e, [Default] + Terminated(data)))
    case CommentEvent(data) =>
      if data.None? then Returned(false, Append(e, [Comment]))
      else Returned(true, Append(e, [Comment] + Terminated(data.value)))
    case StartCDATAEvent =>
      Returned(true, Append(e, [CDATA]))
    case EndCDATAEvent =>
      Returned(true, Append(e, [CDATA]))
    case PIEvent(target, data) =>
      Returned(true, Append(e, [PI] + (if target.None? then [EndOfBlock] else Terminated(target.value) + OrEnd(data))))
    case Unrecognised(_) =>
      Returned(false, e)
  }

  // ---------------------------------------------------------------------
  // Properties
  // ---------------------------------------------------------------------

  /** Names never seen take the next ids in order, and the counter moves past them. */
  lemma {:induction false} AttributesIds(ids: map<Text, nat>, counter: nat, attrs: seq<Attribute>)
    requires forall n :: n in ids ==> 1 <= ids[n] < counter
    requires counter >= 1
    ensures var r := AttributesOf(ids, counter, attrs);
            (forall n :: n in r.ids ==> 1 <= r.ids[n] < r.counter)
            && (forall n :: n in ids ==> n in r.ids && r.ids[n] == ids[n])
            && (forall n :: n in r.ids && n !in ids ==> counter <= r.ids[n])
            && (forall n, m :: n in r.ids && m in r.ids && n != m && (n !in ids || m !in ids) ==> r.ids[n] != r.ids[m])
    decreases |attrs|
  {
    if attrs != [] {
      var first := NameOf(ids, counter, attrs[0].name);
      AttributesIds(first.ids, first.counter, attrs[1..]);
    }
  }

  /** manageEvent keeps ids valid: positive, below the counter, one per name. */
  lemma ManageEventKeepsIds(e: SimpleEncoder, ev: XmlEvent)
    requires IdsValid(e)
    ensures IdsValid(ManageEventOf(e, ev).e)
  {
    if ev.StartElementEvent? {
      StartElementKeepsIds(e, ev.name, ev.attributes);
    }
  }

  /** A start tag keeps ids valid. */
  lemma StartElementKeepsIds(e: SimpleEncoder, name: Text, attrs: seq<Attribute>)
    requires IdsValid(e)
    ensures IdsValid(StartElementOf(e, name, attrs))
  {
    if attrs != [] {
      AttributesIds(e.ids, e.counter, attrs);
    }
  }

  /**
   * A start tag without attributes and with a new name: NewElement, the name,
   * EndOfBlock; the name takes id `elementCounter`, which then grows by one,
   * and that id is pushed.
   */
  lemma NewElementEncoding(e: SimpleEncoder, name: Text)
    requires name !in e.ids
    ensures var r := ManageEventOf(e, StartElementEvent(name, []));
            r.Returned? && r.accepted
            && r.e.out == e.out + [NewElement] + name + [EndOfBlock]
            && r.e.ids == e.ids[name := e.counter] && r.e.counter == e.counter + 1
            && r.e.stack == e.stack + [e.counter]
  {
  }

  /** A start tag without attributes and with a known name: KnownElement and the Fibonacci buffer of its id. */
  lemma KnownElementEncoding(e: SimpleEncoder, name: Text)
    requires name in e.ids
    ensures var r := ManageEventOf(e, StartElementEvent(name, []));
            r.Returned? && r.accepted
            && r.e.out == e.out + [KnownElement] + Fibonacci.EncodedBuffer(e.ids[name], 1)
            && r.e.ids == e.ids && r.e.counter == e.counter && r.e.stack == e.stack + [e.ids[name]]
  {
  }

  /**
   * With attributes, Attributes opens the tag, each attribute is its name
   * and its value, EndOfBlock closes the list and the element name follows;
   * attribute names draw on the same counter as element names.
   */
  lemma AttributesComeFirst(e: SimpleEncoder, name: Text, attrs: seq<Attribute>)
    requires attrs != []
    ensures var a := AttributesOf(e.ids, e.counter, attrs);
            var n := NameOf(a.ids, a.counter, name);
            var r := ManageEventOf(e, StartElementEvent(name, attrs));
            r.Returned? && r.accepted
            && r.e.out == e.out + [Attributes] + a.symbols + [EndOfBlock] + n.symbols
            && r.e.counter == n.counter && r.e.stack == e.stack + [n.id]
  {
    StartElementManaged(e, name, attrs);
    var a := AttributesOf(e.ids, e.counter, attrs);
    var n := NameOf(a.ids, a.counter, name);
    var r := StartElementOf(e, name, attrs);
    assert r.out == e.out + ([Attributes] + a.symbols + [EndOfBlock]) + n.symbols;
    ConcatRegroup(e.out, [Attributes], a.symbols, [EndOfBlock], n.symbols);
  }

  /** A start tag is always accepted, and encoded as StartElementOf says. */
  lemma StartElementManaged(e: SimpleEncoder, name: Text, attrs: seq<Attribute>)
    ensures ManageEventOf(e, StartElementEvent(name, attrs)) == Returned(true, StartElementOf(e, name, attrs))
  {
  }

  lemma ConcatRegroup(p: seq<Byte>, q: seq<Byte>, r: seq<Byte>, s: seq<Byte>, t: seq<Byte>)
    ensures p + (q + r + s) + t == p + q + r + s + t
  {
  }

  /** One attribute's share of the list: its name (new or known), then its value. */
  lemma AttributeOrder(ids: map<Text, nat>, counter: nat, a: Attribute, attrs: seq<Attribute>)
    ensures var first := NameOf(ids, counter, a.name);
            AttributesOf(ids, counter, [a] + attrs).symbols
            == first.symbols + ValueOf(a.value) + AttributesOf(first.ids, first.counter, attrs).symbols
  {
    assert ([a] + attrs)[1..] == attrs;
  }

  /** Ending an element emits EndElement alone; ending an element never started is FATAL. */
  lemma EndElementEncoding(e: SimpleEncoder, name: Text)
    ensures name !in e.ids ==> ManageEventOf(e, EndElementEvent(name)) == Failed(EndOfUnknownElement, e)
    ensures name in e.ids ==> (ManageEventOf(e, EndElementEvent(name)).Returned?
                               && ManageEventOf(e, EndElementEvent(name)).e.out == e.out + [EndElement])
  {
  }

  /** Character data, default data, comments and processing instructions. */
  lemma DataEncodings(e: SimpleEncoder, data: Text, target: Text, pi: Option<Text>)
    ensures ManageEventOf(e, CharactersEvent(data)).e.out == e.out + data + [EndOfBlock]
    ensures ManageEventOf(e, DefaultEvent(data)).e.out == e.out + [Default] + data + [EndOfBlock]
    ensures ManageEventOf(e, CommentEvent(Some(data))).e.out == e.out + [Comment] + data + [EndOfBlock]
    ensures ManageEventOf(e, CommentEvent(None)) == Returned(false, e.(out := e.out + [Comment]))
    ensures ManageEventOf(e, PIEvent(Some(target), pi)).e.out
         == e.out + [PI] + target + [EndOfBlock] + (if pi.Some? then pi.value + [EndOfBlock] else [EndOfBlock])
  {
  }

  /** An event type the model does not know is refused and changes nothing. */
  lemma UnknownEventRefused(e: SimpleEncoder, code: int)
    ensures ManageEventOf(e, Unrecognised(code)) == Returned(false, e)
  {
  }
}
