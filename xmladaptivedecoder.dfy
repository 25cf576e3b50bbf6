/**
 * The decoding half of XmlAdaptiveModel (receiveData).  The symbols the
 * grammar hands back are read one at a time.  A first switch on the symbol
 * (skipped while a known element's id is read) may change the state with
 * CHANGE_STATE and consume the symbol; what it passes on is read by the
 * state: strings go to the 1024-byte buffer and the queue, declarations
 * are rebuilt from queued strings, character runs are split into
 * characters, comments, CDATA sections and processing instructions, and
 * attribute names get the ids of the encoder's attribute id space.
 *
 * Where the source continues in the element models (the replay of the
 * predicted nodes after a clue edge, the move along a different edge, the
 * modeler of a new or known element), the model hands the decoder over:
 * a step ends with `Handed` and the value just decoded, or the SAX stream
 * records a replay.
 *
 * The buffer is the whole array, `raw`, with `length` bytes in use:
 * RESET_BUFFER zeroes only its first byte, and strings handed on as
 * zero-terminated read up to the first zero wherever it is.
 *
 * `fixed` selects the corrected decoder of the faults listed under
 * Findings; `fixed == false` is the code as written.
 */
module XmlAdaptiveDecoding {

  import opened Wrappers
  import opened XmlModelBase
  import opened XmlAdaptiveEncoding
  import Fibonacci
  import Simple = XmlSimpleEncoding

  // The states: None, or the symbol that began what is being read.
  const NackState: int := 0
  const NewElementState: int := 1
  const DoctypeState: int := 3
  const CharactersState: int := 4
  const DefaultState: int := 5
  const EntityDeclState: int := 6
  const NotationDeclState: int := 7

  /**
   * What the decoder passes on: a SAX call, or a replay of the element
   * models.  At a character run the top modeler moves forward over what it
   * predicts (when `forward`), emitting the elements it passes, and a
   * character node is appended unless it stopped at one (when `append`).
   * At an end tag it moves forward (when `forward`), appends its end node,
   * emits the element's end and is popped.
   */
  datatype Decoded =
    | Sax(event: SaxEvent)
    | CharactersReplay(forward: bool, append: bool)
    | EndReplay(forward: bool)

  /**
   * Where decoding goes on in the element models: the clue edge after a
   * NACK, the edge of a DifferentEdge report, a new element's name, a known
   * element's id.
   */
  datatype ModelPoint = NackClue(clue: nat) | EdgeTaken(edge: nat) | NewName(name: Text) | KnownId(id: nat)

  /**
   * The decoder: its state, the buffer (`raw`, `length`), the Fibonacci
   * registers, the queue of strings, the flags of the prolog, doctype,
   * comment, processing instruction (`inPI` counts the strings still to
   * come), CDATA section and attribute section, `attrPos`, the NACK flags,
   * `clueEdge`, the attribute names by id with `attributeCounter`, and what
   * was emitted so far.  `inCharacters` is set by the encoder alone, so the
   * decoder's is always false and is not kept.
   */
  datatype AdaptiveDecoder = AdaptiveDecoder(
    state: int, raw: seq<Byte>, length: nat, fib: FibRegister, queue: seq<Option<Text>>,
    inProlog: bool, inDoctype: bool, inComment: bool, inPI: nat, inCDATA: bool,
    inAttr: bool, inAttrValue: bool, attrPos: nat,
    inNACK: bool, readingNackData: bool, nackEndedInCharacters: bool, clueEdge: nat,
    attributeNames: map<nat, Text>, attributeCounter: nat, emitted: seq<Decoded>)

  /**
   * The constructor's state after the first receiveData call has allocated
   * the buffer, whose bytes but the first are whatever `raw` held; the
   * comment and PI flags, which the constructor leaves unset, are clear.
   */
  function Started(raw: seq<Byte>): (d: AdaptiveDecoder)
    requires |raw| == BufferSize
    ensures |d.raw| == BufferSize && d.raw[0] == 0 && d.length == 0 && d.state == NoState && d.inProlog
  {
    AdaptiveDecoder(NoState, raw[0 := 0], 0, FibIdle, [], true, false, false, 0, false, false, false, 1,
                    false, false, false, 1, map[], 1, [])
  }

  /** The decoder after one byte, why the byte stops decoding, or the decoder handed to the element models. */
  datatype Step = Running(d: AdaptiveDecoder) | Stopped(error: DecodeError) | Handed(d: AdaptiveDecoder, at: ModelPoint)

  // ---------------------------------------------------------------------
  // The buffer
  // ---------------------------------------------------------------------

  /** The bytes in use. */
  function Contents(d: AdaptiveDecoder): Text
  {
    if d.length <= |d.raw| then d.raw[..d.length] else d.raw
  }

  /** RESET_BUFFER: the first byte zeroed, the length back to 0, the other bytes kept. */
  function ResetBuffer(d: AdaptiveDecoder): (r: AdaptiveDecoder)
    ensures r.length == 0 && |r.raw| == |d.raw| && Contents(r) == []
  {
    d.(raw := if d.raw == [] then [] else d.raw[0 := 0], length := 0)
  }

  /** RESET_STATE and RESET_BUFFER. */
  function Reset(d: AdaptiveDecoder): AdaptiveDecoder
  {
    ResetBuffer(d).(state := NoState)
  }

  /** `buffer[bufferLength++] = c`: None when the write lands past the end. */
  function PutByte(d: AdaptiveDecoder, c: Byte): (r: Option<AdaptiveDecoder>)
    ensures r.Some? <==> d.length < |d.raw|
    ensures r.Some? ==> r.value == d.(raw := d.raw[d.length := c], length := d.length + 1)
  {
    if d.length < |d.raw| then Some(d.(raw := d.raw[d.length := c], length := d.length + 1)) else None
  }

  function PutStep(d: AdaptiveDecoder, c: Byte): Step
  {
    var p := PutByte(d, c);
    if p.None? then Stopped(BufferOverrun) else Running(p.value)
  }

  /** The zero-terminated string at place i: the bytes up to the first zero; None when the read runs off the buffer. */
  function CString(s: seq<Byte>, i: nat): (r: Option<Text>)
    decreases |s| - i
  {
    if i >= |s| then None
    else if s[i] == 0 then Some([])
    else match CString(s, i + 1)
      case None => None
      case Some(t) => Some([s[i]] + t)
  }

  /** `buffer[bufferLength] = 0`: None when that lands past the end. */
  function Terminate(d: AdaptiveDecoder): Option<seq<Byte>>
  {
    if d.length < |d.raw| then Some(d.raw[d.length := 0]) else None
  }

  /**
   * The string an EndOfBlock makes of the buffer for the XML declaration:
   * null when it is empty, else the buffer terminated.  The outer None is
   * a write or read past the end.
   */
  function PlainItem(d: AdaptiveDecoder): Option<Option<Text>>
  {
    if d.length == 0 then Some(None)
    else
      var t := Terminate(d);
      if t.None? then None
      else var s := CString(t.value, 0); if s.None? then None else Some(s)
  }

  /** The same where a buffer starting with EmptyString is the empty string (doctype, entity, notation). */
  function MarkedItem(d: AdaptiveDecoder): Option<Option<Text>>
  {
    if d.length == 0 then Some(None)
    else if |d.raw| > 0 && d.raw[0] == EmptyString then Some(Some([]))
    else PlainItem(d)
  }

  /** Enqueue the string made of the buffer and reset the buffer. */
  function EnqueueStep(d: AdaptiveDecoder, item: Option<Option<Text>>): Step
  {
    if item.None? then Stopped(BufferOverrun)
    else Running(ResetBuffer(d.(queue := d.queue + [item.value])))
  }

  // ---------------------------------------------------------------------
  // The first switch
  // ---------------------------------------------------------------------

  /** The first switch's verdict: the byte is consumed (`continue`), passed on to the state, or stops decoding. */
  datatype Intercepted = Consumed(d: AdaptiveDecoder) | Passed(d: AdaptiveDecoder) | Refused(error: DecodeError)

  /**
   * FINISH_START_ELEMENT_WITH_NO_ATTRIBUTES: an element whose attribute
   * node has not been passed and whose name is queued is started without
   * attributes.  None is a null name, which only a declaration queues.
   */
  function FinishNoAttributes(d: AdaptiveDecoder): Option<AdaptiveDecoder>
  {
    if d.attrPos == 0 && d.queue != [] then
      if d.queue[0].None? then None
      else Some(d.(queue := d.queue[1..], attrPos := 1, emitted := d.emitted + [Sax(StartElementSax(d.queue[0].value, []))]))
    else Some(d)
  }

  /** CHANGE_STATE(s) and `if (stateChanged) continue;`, finishing a start tag first when `finish`. */
  function Enter(d: AdaptiveDecoder, s: int, finish: bool): Intercepted
  {
    if !ChangeState(d.state, s).changed then Passed(d)
    else if !finish then Consumed(d.(state := s))
    else
      var f := FinishNoAttributes(d.(state := s));
      if f.None? then Refused(NullDereference) else Consumed(f.value)
  }

  /**
   * Characters: in state Characters, or on a change to it, the start tag is
   * finished; outside an attribute section the models are replayed up to a
   * character node and the symbol is consumed.  An attribute section passes
   * it on to the Characters state.
   */
  function CharactersMark(d: AdaptiveDecoder): Intercepted
  {
    if d.state != CharactersState && !ChangeState(d.state, CharactersState).changed then Passed(d)
    else
      var f := FinishNoAttributes(d.(state := CharactersState));
      if f.None? then Refused(NullDereference)
      else if f.value.inAttr then Passed(f.value)
      else
        var g := f.value;
        var forward := !g.readingNackData && !g.nackEndedInCharacters;
        var h := if forward then g.(attrPos := 1) else g.(attrPos := 1, readingNackData := false, inNACK := false);
        Consumed(h.(nackEndedInCharacters := false, emitted := h.emitted + [CharactersReplay(forward, !g.nackEndedInCharacters)]))
  }

  /**
   * EndElement: in the prolog the first one starts a doctype (inDoctype is
   * set even if the state stays) and the next one ends it; elsewhere, from
   * state None, the start tag is finished and the element ended.
   */
  function EndElementMark(d: AdaptiveDecoder): Intercepted
  {
    if d.inProlog then
      if !d.inDoctype then
        var cs := ChangeState(d.state, DoctypeState);
        var d' := d.(state := cs.state, inDoctype := true);
        if cs.changed then Consumed(d') else Passed(d')
      else Consumed(Reset(d.(inDoctype := false, emitted := d.emitted + [Sax(EndDoctypeSax)])))
    else if !ChangeState(d.state, NoState).changed then Passed(d)
    else
      var f := FinishNoAttributes(d);
      if f.None? then Refused(NullDereference)
      else
        var g := if d.readingNackData then f.value.(readingNackData := false, inNACK := false) else f.value;
        Consumed(g.(emitted := g.emitted + [EndReplay(!d.readingNackData)]))
  }

  /** The first switch, taken in every state but KnownElement (and, corrected, but NACK). */
  function Intercept(d: AdaptiveDecoder, c: Byte): (r: Intercepted)
  {
    if c == Characters then CharactersMark(d)
    else if c == NACK && !d.inProlog then Enter(d, NackState, false)
    else if c == NACK || c == NewElement then Enter(d, NewElementState, !d.inAttr)
    else if c == KnownElement then Enter(d, KnownElementState, !d.inAttr)
    else if c == EndElement then EndElementMark(d)
    else if c == Default then Enter(d, DefaultState, true)
    else if c == EntityDecl then Enter(d, EntityDeclState, false)
    else if c == NotationDecl then Enter(d, NotationDeclState, false)
    else if d.inAttrValue then Passed(d.(state := CharactersState))
    else Passed(d)
  }

  // ---------------------------------------------------------------------
  // The second switch: the prolog
  // ---------------------------------------------------------------------

  /** Doctype (the EndElement state in the prolog): three strings, then the internal-subset flag. */
  function DoctypeStep(d: AdaptiveDecoder, c: Byte): Step
  {
    if |d.queue| == 3 then
      Running(Reset(d.(queue := [], emitted := d.emitted
        + [Sax(StartDoctypeSax(d.queue[0], d.queue[2], d.queue[1], c == HasInternalSubsetYes))])))
    else if c == EndOfBlock then EnqueueStep(d, MarkedItem(d))
    else PutStep(d, c)
  }

  /** The XML declaration (the KnownElement state in the prolog): version and encoding, then the standalone flag. */
  function XmlDeclStep(d: AdaptiveDecoder, c: Byte): Step
  {
    if c == Simple.StandaloneYes || c == Simple.StandaloneNo || (c == Simple.StandaloneNotSpecified && |d.queue| == 2) then
      if |d.queue| < 2 then Stopped(NullDereference)
      else
        var standalone := if c == Simple.StandaloneYes then 1 else if c == Simple.StandaloneNo then 0 else -1;
        Running(Reset(d.(queue := d.queue[2..], emitted := d.emitted + [Sax(XmlDeclSax(d.queue[0], d.queue[1], standalone))])))
    else if c == EndOfBlock then EnqueueStep(d, PlainItem(d))
    else PutStep(d, c)
  }

  /** Entity declaration: five strings, then the parameter-entity flag. */
  function EntityDeclStep(d: AdaptiveDecoder, c: Byte): Step
  {
    if |d.queue| == 5 then
      Running(Reset(d.(queue := [], emitted := d.emitted
        + [Sax(EntityDeclSax(d.queue[0], c == IsParameterEntityYes, d.queue[1], d.queue[2], d.queue[3], d.queue[4]))])))
    else if c == EndOfBlock then EnqueueStep(d, MarkedItem(d))
    else PutStep(d, c)
  }

  /** Notation declaration: the third string queued completes it. */
  function NotationDeclStep(d: AdaptiveDecoder, c: Byte): Step
  {
    if c == EndOfBlock then
      var item := MarkedItem(d);
      if item.None? then Stopped(BufferOverrun)
      else
        var q := d.queue + [item.value];
        if |q| == 3 then
          Running(ResetBuffer(d.(queue := [], state := NoState, emitted := d.emitted + [Sax(NotationDeclSax(q[0], q[1], q[2]))])))
        else Running(ResetBuffer(d.(queue := q)))
    else PutStep(d, c)
  }

  // ---------------------------------------------------------------------
  // Comments and processing instructions (Default and Characters states)
  // ---------------------------------------------------------------------

  /**
   * The end of a comment: the buffer, when not empty, goes to the emitter
   * as a zero-terminated string, though no zero was written after it; the
   * corrected decoder hands on the bytes in use.  The buffer is reset; the
   * corrected decoder also leaves the Default state.
   */
  function CommentEnd(fixed: bool, d: AdaptiveDecoder): Step
  {
    var text := if fixed then Some(Contents(d)) else CString(d.raw, 0);
    if d.length != 0 && text.None? then Stopped(OverRead)
    else
      var e := d.(inComment := false, emitted := d.emitted + (if d.length == 0 then [] else [Sax(CommentSax(text.value))]));
      Running(if fixed && d.state == DefaultState then Reset(e) else ResetBuffer(e))
  }

  /**
   * An EndOfBlock in a processing instruction goes to the buffer; the second
   * one completes it: the target is the string before the first zero, the
   * data the string after it.  The corrected decoder then leaves the Default state.
   */
  function PIEnd(fixed: bool, d: AdaptiveDecoder): Step
    requires d.inPI > 0
  {
    var p := PutByte(d.(inPI := d.inPI - 1), EndOfBlock);
    if p.None? then Stopped(BufferOverrun)
    else if p.value.inPI != 0 then Running(p.value)
    else
      var target := CString(p.value.raw, 0);
      if target.None? then Stopped(OverRead)
      else
        var data := CString(p.value.raw, |target.value| + 1);
        if data.None? then Stopped(OverRead)
        else
          var e := p.value.(emitted := p.value.emitted + [Sax(PISax(target, data.value))]);
          Running(if fixed && d.state == DefaultState then Reset(e) else ResetBuffer(e))
  }

  /** Data of the buffer handed on before a comment or PI begins: only when there are some. */
  function Flush(d: AdaptiveDecoder, event: Text -> SaxEvent): AdaptiveDecoder
  {
    if d.length == 0 then d else d.(emitted := d.emitted + [Sax(event(Contents(d)))])
  }

  /** A data byte of a run: to the buffer; a full buffer is handed on and reset. */
  function DataByte(d: AdaptiveDecoder, c: Byte, event: Text -> SaxEvent): Step
  {
    var p := PutByte(d, c);
    if p.None? then Stopped(BufferOverrun)
    else if p.value.length == BufferSize then Running(ResetBuffer(p.value.(emitted := p.value.emitted + [Sax(event(Contents(p.value)))])))
    else Running(p.value)
  }

  /** Default data before the root element: comments and PIs are marked inside it. */
  function DefaultStep(fixed: bool, d: AdaptiveDecoder, c: Byte): Step
  {
    if c == EndOfBlock then
      if d.inComment then CommentEnd(fixed, d)
      else if d.inPI != 0 then PIEnd(fixed, d)
      else Running(Reset(d.(emitted := d.emitted + [Sax(DefaultSax(Contents(d)))])))
    else if c == Comment then Running(ResetBuffer(Flush(d, t => DefaultSax(t)).(inComment := true)))
    else if c == PI then Running(ResetBuffer(Flush(d, t => DefaultSax(t)).(inPI := 2)))
    else DataByte(d, c, t => DefaultSax(t))
  }

  // ---------------------------------------------------------------------
  // The Characters state: attribute values and character runs
  // ---------------------------------------------------------------------

  /**
   * An attribute value ends at EndOfBlock, or at the NewElement or
   * KnownElement of the next attribute's name, which moves to that state.
   * After the last value the element is started with the queued name and
   * the names and values that follow it.
   */
  function ValueEnd(d: AdaptiveDecoder, c: Byte): Step
  {
    var t := Terminate(d);
    if t.None? then Stopped(BufferOverrun)
    else
      var v := CString(t.value, 0);
      if v.None? then Stopped(OverRead)
      else
        var q := d.queue + [v];
        var e := d.(inAttrValue := false, raw := t.value, length := d.length + 1);
        if c == EndOfBlock then
          if q[0].None? then Stopped(NullDereference)
          else Running(Reset(e.(inAttr := false, attrPos := 1, queue := [],
                                emitted := e.emitted + [Sax(StartElementSax(q[0].value, q[1..]))])))
        else Running(ResetBuffer(e.(queue := q, state := if c == NewElement then NewElementState else KnownElementState)))
  }

  /** EndOfBlock in a run: it ends the comment, CDATA section or PI open in it, or the run itself. */
  function RunEnd(fixed: bool, d: AdaptiveDecoder): Step
  {
    if d.inComment then CommentEnd(fixed, d)
    else if d.inCDATA then
      Running(ResetBuffer(Flush(d, t => CharacterDataSax(t)).(inCDATA := false)).(emitted := ResetBuffer(Flush(d, t => CharacterDataSax(t))).emitted + [Sax(EndCDATASax)]))
    else if d.inPI != 0 then PIEnd(fixed, d)
    else if d.length != 0 && Terminate(d).None? then Stopped(BufferOverrun)
    else
      var e := if d.length == 0 then d else d.(raw := Terminate(d).value);
      Running(Reset(e.(emitted := e.emitted + (if d.length == 0 then [] else [Sax(CharacterDataSax(Contents(d)))]))))
  }

  /** The Characters state. */
  function CharacterStep(fixed: bool, d: AdaptiveDecoder, c: Byte): Step
  {
    if c == EmptyString then Running(d)
    else if d.inAttrValue then
      if c == EndOfBlock || c == NewElement || c == KnownElement then ValueEnd(d, c) else PutStep(d, c)
    else if c == EndOfBlock then RunEnd(fixed, d)
    else if c == Comment then Running(ResetBuffer(Flush(d, t => CharacterDataSax(t)).(inComment := true)))
    else if c == PI then Running(ResetBuffer(Flush(d, t => CharacterDataSax(t)).(inPI := 2)))
    else if c == CDATA then
      var f := ResetBuffer(Flush(d, t => CharacterDataSax(t)).(inCDATA := true));
      Running(f.(emitted := f.emitted + [Sax(StartCDATASax)]))
    else DataByte(d, c, t => CharacterDataSax(t))
  }

  // ---------------------------------------------------------------------
  // Names, ids and edges
  // ---------------------------------------------------------------------

  /**
   * A new name: EndOfBlock terminates it.  In an attribute section it is
   * the next attribute name, which takes id `attributeCounter`; otherwise
   * it is queued and the element models take over.  Every byte in this
   * state ends the prolog.
   */
  function NewElementStep(d: AdaptiveDecoder, c: Byte): Step
  {
    if c != EndOfBlock then PutStep(d, c)
    else
      var t := Terminate(d);
      if t.None? then Stopped(BufferOverrun)
      else
        var name := CString(t.value, 0);
        if name.None? then Stopped(OverRead)
        else
          var e := d.(raw := t.value, length := d.length + 1, queue := d.queue + [name]);
          if d.inAttr then
            Running(Reset(e.(inAttrValue := true, attributeNames := d.attributeNames[d.attributeCounter := name.value],
                             attributeCounter := d.attributeCounter + 1)))
          else Handed(e, NewName(name.value))
  }

  /** The registers cleared, the buffer and state reset: the end of a Fibonacci code. */
  function CodeRead(d: AdaptiveDecoder): AdaptiveDecoder
  {
    Reset(d.(fib := FibIdle))
  }

  /**
   * A byte of a known name's id.  In an attribute section the id names an
   * attribute, whose name is queued; otherwise the start tag is finished
   * and the element models take over.
   */
  function KnownStep(d: AdaptiveDecoder, c: Byte): Step
  {
    match FibByte(d.fib, c)
    case TooLong => Stopped(CodeTooLong)
    case Pending(r) => Running(d.(fib := r))
    case Complete(code) =>
      var n := Fibonacci.DecodeFrom(code, 0, false);
      if n.None? then Stopped(OutsideTable)
      else
        var e := CodeRead(d);
        if d.inAttr then
          if n.value !in d.attributeNames then Stopped(Fatal)
          else Running(e.(inAttrValue := true, queue := e.queue + [Some(d.attributeNames[n.value])]))
        else
          var f := FinishNoAttributes(e);
          if f.None? then Stopped(NullDereference) else Handed(f.value, KnownId(n.value))
  }

  /**
   * A byte after NACK: the clue edge's code, then (inNACK) the code of a
   * different edge.  The finished clue edge sets inNACK and readingNackData;
   * the finished edge clears them and resets the clue edge to 1.
   */
  function NackStep(d: AdaptiveDecoder, c: Byte): Step
  {
    match FibByte(d.fib, c)
    case TooLong => Stopped(CodeTooLong)
    case Pending(r) => Running(d.(fib := r))
    case Complete(code) =>
      var n := Fibonacci.DecodeFrom(code, 0, false);
      if n.None? then Stopped(OutsideTable)
      else if !d.inNACK then
        Handed(CodeRead(d.(inNACK := true, readingNackData := true, clueEdge := n.value)), NackClue(n.value))
      else Handed(CodeRead(d.(inNACK := false, readingNackData := false, clueEdge := 1)), EdgeTaken(n.value))
  }

  // ---------------------------------------------------------------------
  // One byte
  // ---------------------------------------------------------------------

  /** The second switch; any other state is FATAL. */
  function StateStep(fixed: bool, d: AdaptiveDecoder, c: Byte): Step
  {
    if d.state == DoctypeState then DoctypeStep(d, c)
    else if d.state == NackState then NackStep(d, c)
    else if d.state == NewElementState then NewElementStep(d.(inProlog := false), c)
    else if d.state == KnownElementState then (if d.inProlog then XmlDeclStep(d, c) else KnownStep(d, c))
    else if d.state == DefaultState then DefaultStep(fixed, d, c)
    else if d.state == EntityDeclState then EntityDeclStep(d, c)
    else if d.state == NotationDeclState then NotationDeclStep(d, c)
    else if d.state == CharactersState then CharacterStep(fixed, d, c)
    else Stopped(Fatal)
  }

  /** Whether the first switch is skipped: while an id is read, and in the corrected decoder while any code is read. */
  predicate ReadingCode(fixed: bool, d: AdaptiveDecoder)
  {
    d.state == KnownElementState || (fixed && d.state == NackState)
  }

  /** One iteration of receiveData's loop, in a call of one byte. */
  function ByteStep(fixed: bool, d: AdaptiveDecoder, c: Byte): Step
  {
    if ReadingCode(fixed, d) then StateStep(fixed, d, c)
    else match Intercept(d, c)
      case Consumed(d') => Running(d')
      case Refused(err) => Stopped(err)
      case Passed(d') => StateStep(fixed, d', c)
  }

  // ---------------------------------------------------------------------
  // Delivery
  // ---------------------------------------------------------------------

  /** The decoder after the bytes so far, the error that stopped it, or the point where the element models take over. */
  datatype Received = Received(d: AdaptiveDecoder) | Halted(error: DecodeError, d: AdaptiveDecoder) | Over(d: AdaptiveDecoder, at: ModelPoint)

  /** A receiveData call of one byte. */
  function Feed(fixed: bool, d: AdaptiveDecoder, c: Byte): Received
  {
    match ByteStep(fixed, d, c)
    case Running(d') => Received(d')
    case Stopped(err) => Halted(err, d)
    case Handed(d', at) => Over(d', at)
  }

  /** The grammar's symbols delivered one call per symbol; a halted or handed-over decoder stays so. */
  function DeliverFrom(fixed: bool, r: Received, bytes: seq<Byte>): Received
    decreases |bytes|
  {
    if !r.Received? || bytes == [] then r else DeliverFrom(fixed, Feed(fixed, r.d, bytes[0]), bytes[1..])
  }

  function DeliverOf(fixed: bool, d: AdaptiveDecoder, bytes: seq<Byte>): Received
  {
    DeliverFrom(fixed, Received(d), bytes)
  }

  /** A byte whose call leaves d' is followed by the rest delivered to d'. */
  lemma DeliverByte(fixed: bool, d: AdaptiveDecoder, c: Byte, rest: seq<Byte>, d': AdaptiveDecoder)
    requires Feed(fixed, d, c) == Received(d')
    ensures DeliverOf(fixed, d, [c] + rest) == DeliverOf(fixed, d', rest)
  {
    assert ([c] + rest)[0] == c && ([c] + rest)[1..] == rest;
  }

  /** A byte whose call hands the decoder over ends the delivery there. */
  lemma DeliverHanded(fixed: bool, d: AdaptiveDecoder, c: Byte, rest: seq<Byte>, d': AdaptiveDecoder, at: ModelPoint)
    requires Feed(fixed, d, c) == Over(d', at)
    ensures DeliverOf(fixed, d, [c] + rest) == Over(d', at)
  {
    var s := [c] + rest;
    assert s[0] == c && s[1..] == rest;
    assert DeliverFrom(fixed, Received(d), s) == DeliverFrom(fixed, Over(d', at), rest);
  }

  /** Delivering a + b is delivering a, then b to what a left. */
  lemma {:induction false} DeliverAppend(fixed: bool, r: Received, a: seq<Byte>, b: seq<Byte>)
    ensures DeliverFrom(fixed, r, a + b) == DeliverFrom(fixed, DeliverFrom(fixed, r, a), b)
    decreases |a|
  {
    if a == [] {
      assert a + b == b;
    } else if r.Received? {
      assert (a + b)[0] == a[0] && (a + b)[1..] == a[1..] + b;
      DeliverAppend(fixed, Feed(fixed, r.d, a[0]), a[1..], b);
    }
  }
}
