/**
 * The decoding half of XmlSimpleModel (receiveData): the symbols the
 * grammar hands back are read one at a time by a state machine that
 * rebuilds the SAX calls. A structural symbol first passes a filter that may
 * change the state (CHANGE_STATE) and so be consumed; what is not consumed
 * is interpreted by the current state: data go to the fixed-size buffer,
 * EndOfBlock closes a string, queued strings complete a declaration, and
 * names read after NewElement take the next id of the id space the encoder
 * shares.
 *
 * `fixed` selects the corrected decoder of the two faults listed under
 * Findings (an empty CDATA section, a comment reaching the buffer's size);
 * `fixed == false` is the code as written.
 */
module XmlSimpleDecoding {

  import opened Wrappers
  import Fibonacci
  import opened XmlModelBase
  import opened XmlSimpleEncoding

  /** The state after a CDATA mark has opened a section. */
  const CDATAState: int := 8

  /**
   * The decoder: its state, the data buffer, the Fibonacci registers, the
   * queue of strings read so far, the flags `inCDATA`, `inDoctype`,
   * `elementHasAttributes` and `attributeListComplete`, the stack of open
   * element ids, the `elements` table (id to name), `elementCounter`, and
   * the SAX calls emitted so far.
   */
  datatype SimpleDecoder = SimpleDecoder(
    state: int, buffer: Text, fib: FibRegister, queue: seq<Option<Text>>,
    inCDATA: bool, inDoctype: bool, hasAttributes: bool, listComplete: bool,
    stack: seq<nat>, names: map<nat, Text>, counter: nat, emitted: seq<SaxEvent>)

  /** The constructor's state: nothing read, the counter at 1. */
  const Started: SimpleDecoder :=
    SimpleDecoder(NoState, [], FibIdle, [], false, false, false, false, [], map[], 1, [])

  /**
   * The local variables of one receiveData call that outlive a byte:
   * `fibFinished`, which is never cleared within the call, and `elementId`.
   */
  datatype Locals = Locals(finished: bool, elementId: nat)

  const Entry: Locals := Locals(false, 0)

  /** The decoder and the locals after one byte, or why the byte stops decoding. */
  datatype Step = Running(d: SimpleDecoder, loc: Locals) | Stopped(error: DecodeError)

  // ---------------------------------------------------------------------
  // Buffer and queue
  // ---------------------------------------------------------------------

  /** RESET_STATE and RESET_BUFFER. */
  function Reset(d: SimpleDecoder): SimpleDecoder
  {
    d.(state := NoState, buffer := [])
  }

  /** A data byte that goes to the buffer. */
  function PutStep(d: SimpleDecoder, c: Byte, loc: Locals): Step
  {
    var p := Put(d.buffer, c);
    if p.None? then Stopped(BufferOverrun) else Running(d.(buffer := p.value), loc)
  }

  /**
   * The string an EndOfBlock makes of the buffer: null when the buffer is
   * empty; otherwise the buffer, after a terminating zero is written at
   * `buffer[bufferLength]` (None when that lands past the end).
   */
  function PlainItem(buffer: Text): Option<Option<Text>>
  {
    if buffer == [] then Some(None)
    else if |buffer| < BufferSize then Some(Some(buffer))
    else None
  }

  /** The same, where a buffer starting with EmptyString holds the empty string. */
  function MarkedItem(buffer: Text): Option<Option<Text>>
  {
    if buffer == [] then Some(None)
    else if buffer[0] == EmptyString then Some(Some([]))
    else if |buffer| < BufferSize then Some(Some(buffer))
    else None
  }

  /** Enqueue the string made of the buffer and empty the buffer. */
  function EnqueueStep(d: SimpleDecoder, item: Option<Option<Text>>, loc: Locals): Step
  {
    if item.None? then Stopped(BufferOverrun)
    else Running(d.(queue := d.queue + [item.value], buffer := []), loc)
  }

  // ---------------------------------------------------------------------
  // The first switch: structural symbols
  // ---------------------------------------------------------------------

  /** The filter's verdict: the byte is consumed (`continue`), passed on to the state, or stops decoding. */
  datatype Intercepted = Consumed(d: SimpleDecoder) | Passed(d: SimpleDecoder) | Refused(error: DecodeError)

  /** CHANGE_STATE(s) followed by `if (stateChanged) continue;`. */
  function Enter(d: SimpleDecoder, s: int): Intercepted
  {
    if ChangeState(d.state, s).changed then Consumed(d.(state := s)) else Passed(d)
  }

  /** EndElement: in state None the top id is popped and its element ended. */
  function EndElementMark(d: SimpleDecoder): Intercepted
  {
    if !ChangeState(d.state, NoState).changed then Passed(d)
    else if d.stack == [] then Refused(Fatal)
    else
      var id := d.stack[|d.stack| - 1];
      if id !in d.names then Refused(NullDereference)
      else Consumed(d.(stack := d.stack[..|d.stack| - 1], emitted := d.emitted + [EndElementSax(d.names[id])]))
  }

  /**
   * CDATA: outside a section it opens one and moves to the CDATA state;
   * inside, it closes the section only from state None as written, and also
   * from the CDATA state in the corrected decoder.
   */
  function CDATAMark(fixed: bool, d: SimpleDecoder): Intercepted
  {
    if !d.inCDATA then
      if ChangeState(d.state, CDATAState).changed then
        Consumed(d.(state := CDATAState, inCDATA := true, emitted := d.emitted + [StartCDATASax]))
      else Passed(d)
    else if ChangeState(d.state, NoState).changed || (fixed && d.state == CDATAState) then
      Consumed(d.(state := NoState, inCDATA := false, emitted := d.emitted + [EndCDATASax]))
    else Passed(d)
  }

  /** Doctype: the first one starts the declaration (inDoctype is set even if the state stays); the next one ends it. */
  function DoctypeMark(d: SimpleDecoder): Intercepted
  {
    if !d.inDoctype then
      var cs := ChangeState(d.state, Doctype as int);
      var d' := d.(state := cs.state, inDoctype := true);
      if cs.changed then Consumed(d') else Passed(d')
    else Consumed(d.(inDoctype := false, emitted := d.emitted + [EndDoctypeSax]))
  }

  /** The first switch, taken in every state but KnownElement. */
  function Intercept(fixed: bool, d: SimpleDecoder, c: Byte): (r: Intercepted)
    ensures r.Passed? ==> r.d.state == d.state
  {
    if c == XmlDecl then Enter(d, XmlDecl as int)
    else if c == Attributes then Consumed(d.(hasAttributes := true))
    else if c == NewElement then Enter(d, NewElement as int)
    else if c == KnownElement then Enter(d, KnownElementState)
    else if c == EndElement then EndElementMark(d)
    else if c == Default then Enter(d, Default as int)
    else if c == Comment then Enter(d, Comment as int)
    else if c == CDATA then CDATAMark(fixed, d)
    else if c == PI then Enter(d, PI as int)
    else if c == EntityDecl then Enter(d, EntityDecl as int)
    else if c == NotationDecl then Enter(d, NotationDecl as int)
    else if c == Doctype then DoctypeMark(d)
    else if c == EndOfBlock && d.buffer == [] && d.hasAttributes then Consumed(d.(listComplete := true))
    else Passed(d)
  }

  // ---------------------------------------------------------------------
  // The second switch: the states
  // ---------------------------------------------------------------------

  /**
   * FINISH_ELEMENT_START: an element without attributes, or one whose
   * attribute list is complete, is pushed and started with the queued
   * names and values; otherwise the name is an attribute name and is queued.
   * The state returns to None.
   */
  function Finish(d: SimpleDecoder, id: nat, name: Text): SimpleDecoder
  {
    if !d.hasAttributes then
      d.(stack := d.stack + [id], emitted := d.emitted + [StartElementSax(name, [])],
         hasAttributes := false, listComplete := false, state := NoState)
    else if d.listComplete then
      d.(stack := d.stack + [id], queue := [], emitted := d.emitted + [StartElementSax(name, d.queue)],
         hasAttributes := false, listComplete := false, state := NoState)
    else d.(queue := d.queue + [Some(name)], state := NoState)
  }

  /** XML declaration: version and encoding are queued; the standalone symbol completes it. */
  function XmlDeclStep(d: SimpleDecoder, c: Byte, loc: Locals): Step
  {
    if c == StandaloneYes || c == StandaloneNo || (c == StandaloneNotSpecified && |d.queue| == 2) then
      if |d.queue| < 2 then Stopped(NullDereference)
      else
        var standalone := if c == StandaloneYes then 1 else if c == StandaloneNo then 0 else -1;
        Running(Reset(d.(queue := d.queue[2..], emitted := d.emitted + [XmlDeclSax(d.queue[0], d.queue[1], standalone)])), loc)
    else if c == EndOfBlock then EnqueueStep(d, PlainItem(d.buffer), loc)
    else PutStep(d, c, loc)
  }

  /** Processing instruction: the target is queued; the EndOfBlock after the data completes it. */
  function PIStep(d: SimpleDecoder, c: Byte, loc: Locals): Step
  {
    if c == EndOfBlock && |d.queue| == 1 then
      if |d.buffer| >= BufferSize then Stopped(BufferOverrun)
      else Running(Reset(d.(queue := [], emitted := d.emitted + [PISax(d.queue[0], d.buffer)])), loc)
    else if c == EndOfBlock then EnqueueStep(d, PlainItem(d.buffer), loc)
    else PutStep(d, c, loc)
  }

  /** A new name: EndOfBlock gives it id `elementCounter` in the elements table. */
  function NewElementStep(d: SimpleDecoder, c: Byte, loc: Locals): Step
  {
    if c == EndOfBlock then
      if |d.buffer| >= BufferSize then Stopped(BufferOverrun)
      else
        var id := d.counter;
        var d1 := d.(names := d.names[id := d.buffer], counter := d.counter + 1);
        Running(Finish(d1, id, d.buffer).(buffer := []), Locals(loc.finished, id))
    else PutStep(d, c, loc)
  }

  /** The element (or attribute) with id `id` found in the elements table and finished. */
  function FinishKnown(d: SimpleDecoder, id: nat, loc: Locals): Step
  {
    if id !in d.names then Stopped(Fatal)
    else Running(Finish(d, id, d.names[id]).(fib := FibIdle, buffer := []), loc)
  }

  /**
   * A byte of a known name's Fibonacci code. Once `fibFinished` has been set
   * in this call, every later code byte finishes an element with the
   * `elementId` of the call.
   */
  function KnownStep(d: SimpleDecoder, c: Byte, loc: Locals): Step
  {
    match FibByte(d.fib, c)
    case TooLong => Stopped(CodeTooLong)
    case Complete(code) =>
      var n := Fibonacci.DecodeFrom(code, 0, false);
      if n.None? then Stopped(OutsideTable) else FinishKnown(d, n.value, Locals(true, n.value))
    case Pending(r) =>
      if loc.finished then FinishKnown(d.(fib := r), loc.elementId, loc) else Running(d.(fib := r), loc)
  }

  /** Default data: split at the buffer's size; EndOfBlock emits the rest, even when empty. */
  function DefaultStep(d: SimpleDecoder, c: Byte, loc: Locals): Step
  {
    if c == EndOfBlock then Running(Reset(d.(emitted := d.emitted + [DefaultSax(d.buffer)])), loc)
    else
      var p := Put(d.buffer, c);
      if p.None? then Stopped(BufferOverrun)
      else if |p.value| == BufferSize then Running(d.(buffer := [], emitted := d.emitted + [DefaultSax(p.value)]), loc)
      else Running(d.(buffer := p.value), loc)
  }

  /**
   * Comment data. A full buffer is handed to the emitter as a string
   * without its terminating zero; the corrected decoder emits it as a
   * piece of the comment.
   */
  function CommentStep(fixed: bool, d: SimpleDecoder, c: Byte, loc: Locals): Step
  {
    if c == EndOfBlock then
      if |d.buffer| >= BufferSize then Stopped(BufferOverrun)
      else Running(Reset(d.(emitted := d.emitted + [CommentSax(d.buffer)])), loc)
    else
      var p := Put(d.buffer, c);
      if p.None? then Stopped(BufferOverrun)
      else if |p.value| < BufferSize then Running(d.(buffer := p.value), loc)
      else if fixed then Running(d.(buffer := [], emitted := d.emitted + [CommentSax(p.value)]), loc)
      else Stopped(OverRead)
  }

  /**
   * Doctype: three strings are queued; the byte after them completes the
   * declaration, its internal-subset flag read from the call's first byte.
   */
  function DoctypeStep(d: SimpleDecoder, c: Byte, first: Byte, loc: Locals): Step
  {
    if |d.queue| == 3 then
      Running(Reset(d.(queue := [], emitted := d.emitted
        + [StartDoctypeSax(d.queue[0], d.queue[2], d.queue[1], first == HasInternalSubsetYes)])), loc)
    else if c == EndOfBlock then EnqueueStep(d, MarkedItem(d.buffer), loc)
    else PutStep(d, c, loc)
  }

  /** Entity declaration: five strings, then the parameter-entity flag from the call's first byte. */
  function EntityDeclStep(d: SimpleDecoder, c: Byte, first: Byte, loc: Locals): Step
  {
    if |d.queue| == 5 then
      Running(Reset(d.(queue := [], emitted := d.emitted
        + [EntityDeclSax(d.queue[0], first == IsParameterEntityYes, d.queue[1], d.queue[2], d.queue[3], d.queue[4])])), loc)
    else if c == EndOfBlock then EnqueueStep(d, MarkedItem(d.buffer), loc)
    else PutStep(d, c, loc)
  }

  /** Notation declaration: the third string queued completes it. */
  function NotationDeclStep(d: SimpleDecoder, c: Byte, loc: Locals): Step
  {
    if c == EndOfBlock then
      var item := MarkedItem(d.buffer);
      if item.None? then Stopped(BufferOverrun)
      else
        var q := d.queue + [item.value];
        if |q| == 3 then
          Running(d.(queue := [], buffer := [], state := NoState,
                     emitted := d.emitted + [NotationDeclSax(q[0], q[1], q[2])]), loc)
        else Running(d.(queue := q, buffer := []), loc)
    else PutStep(d, c, loc)
  }

  /**
   * Every other state (None, CDATA): character data, split at the buffer's
   * size; after Attributes, EmptyString and EndOfBlock queue attribute values.
   */
  function CharacterStep(d: SimpleDecoder, c: Byte, loc: Locals): Step
  {
    if c == EmptyString then
      if d.hasAttributes then Running(d.(queue := d.queue + [Some([])]), loc) else Running(d, loc)
    else if c == EndOfBlock then
      if d.hasAttributes then
        if |d.buffer| >= BufferSize then Stopped(BufferOverrun)
        else Running(Reset(d.(queue := d.queue + [Some(d.buffer)])), loc)
      else Running(Reset(d.(emitted := d.emitted + (if d.buffer == [] then [] else [CharacterDataSax(d.buffer)]))), loc)
    else
      var p := Put(d.buffer, c);
      if p.None? then Stopped(BufferOverrun)
      else if |p.value| == BufferSize then Running(d.(buffer := [], emitted := d.emitted + [CharacterDataSax(p.value)]), loc)
      else Running(d.(buffer := p.value), loc)
  }

  /** The second switch. */
  function StateStep(fixed: bool, d: SimpleDecoder, c: Byte, first: Byte, loc: Locals): Step
  {
    if d.state == KnownElementState then KnownStep(d, c, loc)
    else if d.state == XmlDecl as int then XmlDeclStep(d, c, loc)
    else if d.state == PI as int then PIStep(d, c, loc)
    else if d.state == NewElement as int then NewElementStep(d, c, loc)
    else if d.state == Default as int then DefaultStep(d, c, loc)
    else if d.state == Comment as int then CommentStep(fixed, d, c, loc)
    else if d.state == Doctype as int then DoctypeStep(d, c, first, loc)
    else if d.state == EntityDecl as int then EntityDeclStep(d, c, first, loc)
    else if d.state == NotationDecl as int then NotationDeclStep(d, c, loc)
    else CharacterStep(d, c, loc)
  }

  /** One iteration of receiveData's loop: the filter unless a code is being read, then the state. */
  function ByteStep(fixed: bool, d: SimpleDecoder, c: Byte, first: Byte, loc: Locals): Step
  {
    if d.state == KnownElementState then StateStep(fixed, d, c, first, loc)
    else match Intercept(fixed, d, c)
      case Consumed(d') => Running(d', loc)
      case Refused(err) => Stopped(err)
      case Passed(d') => StateStep(fixed, d', c, first, loc)
  }

  // ---------------------------------------------------------------------
  // receiveData
  // ---------------------------------------------------------------------

  /** The decoder after a receiveData call, or the error that stopped it with the decoder before the failing byte. */
  datatype Received = Received(d: SimpleDecoder) | Halted(error: DecodeError, d: SimpleDecoder)

  /** receiveData's loop from byte i on, with the locals it has reached. */
  function ReceiveFrom(fixed: bool, d: SimpleDecoder, data: seq<Byte>, i: nat, loc: Locals): Received
    requires i <= |data|
    decreases |data| - i
  {
    if i == |data| then Received(d)
    else match ByteStep(fixed, d, data[i], data[0], loc)
      case Running(d', loc') => ReceiveFrom(fixed, d', data, i + 1, loc')
      case Stopped(err) => Halted(err, d)
  }

  /** receiveData(data, size). */
  function ReceiveDataOf(fixed: bool, d: SimpleDecoder, data: seq<Byte>): Received
  {
    ReceiveFrom(fixed, d, data, 0, Entry)
  }

  /** A one-byte receiveData call: one step from fresh locals. */
  function Feed(fixed: bool, d: SimpleDecoder, c: Byte): Received
  {
    match ByteStep(fixed, d, c, c, Entry)
    case Running(d', _) => Received(d')
    case Stopped(err) => Halted(err, d)
  }

  lemma FeedIsReceiveData(fixed: bool, d: SimpleDecoder, c: Byte)
    ensures ReceiveDataOf(fixed, d, [c]) == Feed(fixed, d, c)
  {
    match ByteStep(fixed, d, c, c, Entry)
    case Running(d', loc') =>
      assert ReceiveFrom(fixed, d', [c], 1, loc') == Received(d');
    case Stopped(_) =>
  }

  /**
   * The bytes of the grammar's output delivered one receiveData call per
   * byte, as the grammar writes them (one character per write to an
   * immediate funnel), to the decoder r holds; a halted decoder stays halted.
   */
  function DeliverFrom(fixed: bool, r: Received, bytes: seq<Byte>): Received
    decreases |bytes|, 1
  {
    if r.Halted? || bytes == [] then r else DeliverNext(fixed, r.d, bytes)
  }

  /** The first byte's call, then the rest. */
  function DeliverNext(fixed: bool, d: SimpleDecoder, bytes: seq<Byte>): Received
    requires bytes != []
    decreases |bytes|, 0
  {
    DeliverFrom(fixed, Feed(fixed, d, bytes[0]), bytes[1..])
  }

  function DeliverOf(fixed: bool, d: SimpleDecoder, bytes: seq<Byte>): Received
  {
    DeliverFrom(fixed, Received(d), bytes)
  }

  /** A byte whose call leaves the decoder d' is followed by the rest delivered to d'. */
  lemma DeliverByte(fixed: bool, d: SimpleDecoder, c: Byte, rest: seq<Byte>, d': SimpleDecoder)
    requires Feed(fixed, d, c) == Received(d')
    ensures DeliverOf(fixed, d, [c] + rest) == DeliverOf(fixed, d', rest)
  {
    assert ([c] + rest)[0] == c && ([c] + rest)[1..] == rest;
    assert DeliverNext(fixed, d, [c] + rest) == DeliverFrom(fixed, Received(d'), rest);
  }

  /** Delivering a + b is delivering a, then b to what a left. */
  lemma {:induction false} DeliverAppend(fixed: bool, r: Received, a: seq<Byte>, b: seq<Byte>)
    ensures DeliverFrom(fixed, r, a + b) == DeliverFrom(fixed, DeliverFrom(fixed, r, a), b)
    decreases |a|
  {
    if a == [] {
      assert a + b == b;
    } else if r.Received? {
      assert (a + b)[0] == a[0] && (a + b)[1..] == a[1..] + b;
      assert DeliverNext(fixed, r.d, a + b) == DeliverFrom(fixed, Feed(fixed, r.d, a[0]), a[1..] + b);
      assert DeliverNext(fixed, r.d, a) == DeliverFrom(fixed, Feed(fixed, r.d, a[0]), a[1..]);
      DeliverAppend(fixed, Feed(fixed, r.d, a[0]), a[1..], b);
    }
  }
}
