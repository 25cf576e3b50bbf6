/**
 * XmlSimpleModel's two halves agree: the symbols manageEvent appends for
 * an event, delivered to receiveData one byte at a time, make the decoder
 * emit that event's SAX calls, and encoder and decoder keep the same id for
 * every name.
 *
 * Strings are XML text (no byte below 32 but tab, newline and carriage
 * return, so no structural symbol); names are not empty; strings the
 * decoder keeps whole in its buffer are shorter than the buffer.
 */
module XmlSimpleRoundTrip {

  import opened Wrappers
  import Fibonacci
  import opened XmlModelBase
  import opened XmlSimpleEncoding
  import opened XmlSimpleDecoding

  // ---------------------------------------------------------------------
  // How encoder and decoder correspond
  // ---------------------------------------------------------------------

  /** Between two events: buffer, register and queue empty, no start tag pending, state None or an open CDATA section. */
  predicate Idle(d: SimpleDecoder)
  {
    d.buffer == [] && d.fib == FibIdle && d.queue == [] && !d.hasAttributes && !d.listComplete
    && (d.state == NoState || (d.state == CDATAState && d.inCDATA))
  }

  /** The decoder's elements table holds every name under the encoder's id for it, and only ids below the counter. */
  predicate NamesAgree(ids: map<Text, nat>, names: map<nat, Text>, counter: nat)
  {
    (forall n :: n in ids ==> ids[n] in names && names[ids[n]] == n)
    && (forall id :: id in names ==> 1 <= id < counter)
  }

  /** Encoder and decoder share counter, stack and names. */
  predicate Agree(e: SimpleEncoder, d: SimpleDecoder)
  {
    IdsValid(e) && d.counter == e.counter && d.stack == e.stack && NamesAgree(e.ids, d.names, e.counter)
  }

  /** Text the decoder's buffer holds whole, with room left for the terminating zero. */
  predicate Short(t: Text)
  {
    XmlText(t) && |t| < BufferSize
  }

  /** An element or attribute name. */
  predicate XmlName(t: Text)
  {
    Short(t) && t != []
  }

  predicate ShortOpt(s: Option<Text>)
  {
    s.Some? ==> Short(s.value)
  }

  /** The string a decoder reads back for a string encoded with OrEnd: the empty string comes back null. */
  function NonNull(s: Option<Text>): Option<Text>
  {
    if s == Some([]) then None else s
  }

  /** A data byte: the first switch passes it on to the state unchanged. */
  lemma InterceptsNothing(fixed: bool, d: SimpleDecoder, c: Byte)
    requires IsXmlByte(c)
    ensures Intercept(fixed, d, c) == Passed(d)
  {
  }

  /** The symbols of one event, regrouped to be read from the left. */
  lemma Regroup4(a: seq<Byte>, b: seq<Byte>, c: seq<Byte>, d: seq<Byte>)
    ensures a + b + c + d == a + (b + (c + d))
  {
  }

  lemma Regroup5(a: seq<Byte>, b: seq<Byte>, c: seq<Byte>, d: seq<Byte>, e: seq<Byte>)
    ensures a + b + c + d + e == a + (b + (c + (d + e)))
  {
  }

  lemma Regroup7(a: seq<Byte>, b: seq<Byte>, c: seq<Byte>, d: seq<Byte>, e: seq<Byte>, f: seq<Byte>, g: seq<Byte>)
    ensures a + b + c + d + e + f + g == a + (b + (c + (d + (e + (f + g)))))
  {
  }

  // ---------------------------------------------------------------------
  // Single bytes
  // ---------------------------------------------------------------------

  /**
   * A state that keeps its data whole in the buffer: the declarations, a
   * processing instruction, a new name, and an attribute value.
   */
  predicate Buffering(d: SimpleDecoder)
  {
    d.state == XmlDecl as int || d.state == PI as int || d.state == NewElement as int
    || d.state == NotationDecl as int || (d.state == Doctype as int && |d.queue| != 3)
    || (d.state == EntityDecl as int && |d.queue| != 5) || (d.state == NoState && d.hasAttributes)
  }

  /** A data byte in such a state is appended to the buffer. */
  lemma BufferingByte(fixed: bool, d: SimpleDecoder, c: Byte, rest: seq<Byte>)
    requires Buffering(d) && IsXmlByte(c) && |d.buffer| + 1 < BufferSize
    ensures DeliverOf(fixed, d, [c] + rest) == DeliverOf(fixed, d.(buffer := d.buffer + [c]), rest)
  {
    InterceptsNothing(fixed, d, c);
    DeliverByte(fixed, d, c, rest, d.(buffer := d.buffer + [c]));
  }

  /** Text in such a state fills the buffer. */
  lemma {:induction false} BufferText(fixed: bool, d: SimpleDecoder, t: Text, rest: seq<Byte>)
    requires Buffering(d) && XmlText(t) && |d.buffer| + |t| < BufferSize
    ensures DeliverOf(fixed, d, t + rest) == DeliverOf(fixed, d.(buffer := d.buffer + t), rest)
    decreases |t|
  {
    if t == [] {
      assert d.buffer + t == d.buffer && t + rest == rest;
    } else {
      assert t + rest == [t[0]] + (t[1..] + rest);
      BufferingByte(fixed, d, t[0], t[1..] + rest);
      var d1 := d.(buffer := d.buffer + [t[0]]);
      BufferText(fixed, d1, t[1..], rest);
      assert d1.buffer + t[1..] == d.buffer + t;
    }
  }

  /** The SAX call a data state emits for a piece of its data. */
  function DataSax(state: int, t: Text): SaxEvent
  {
    if state == Default as int then DefaultSax(t)
    else if state == Comment as int then CommentSax(t)
    else CharacterDataSax(t)
  }

  /** The SAX calls for the pieces of a state's data, in order. */
  function Wrap(state: int, chunks: seq<Text>): seq<SaxEvent>
  {
    if chunks == [] then [] else [DataSax(state, chunks[0])] + Wrap(state, chunks[1..])
  }

  /**
   * A state whose data are split at the buffer's size: default data,
   * character data outside a start tag, and a comment when the decoder is
   * corrected or the comment ends before the buffer is full.
   */
  predicate Chunking(fixed: bool, d: SimpleDecoder, t: Text)
  {
    |d.buffer| < BufferSize
    && (d.state == Default as int
        || (d.state == Comment as int && (fixed || |d.buffer| + |t| < BufferSize))
        || ((d.state == NoState || d.state == CDATAState) && !d.hasAttributes))
  }

  /** What a data byte does in such a state: appended, and a buffer it fills is emitted and emptied. */
  function Chunk(d: SimpleDecoder, c: Byte): SimpleDecoder
    requires |d.buffer| < BufferSize
  {
    var b := d.buffer + [c];
    if |b| == BufferSize then d.(buffer := [], emitted := d.emitted + [DataSax(d.state, b)])
    else d.(buffer := b)
  }

  lemma DefaultByte(fixed: bool, d: SimpleDecoder, c: Byte)
    requires d.state == Default as int && IsXmlByte(c) && |d.buffer| < BufferSize
    ensures Feed(fixed, d, c) == Received(Chunk(d, c))
  {
    InterceptsNothing(fixed, d, c);
  }

  lemma CommentByte(fixed: bool, d: SimpleDecoder, c: Byte)
    requires d.state == Comment as int && IsXmlByte(c) && (fixed || |d.buffer| + 1 < BufferSize)
    requires |d.buffer| < BufferSize
    ensures Feed(fixed, d, c) == Received(Chunk(d, c))
  {
    InterceptsNothing(fixed, d, c);
  }

  lemma CharacterByte(fixed: bool, d: SimpleDecoder, c: Byte)
    requires (d.state == NoState || d.state == CDATAState) && !d.hasAttributes
    requires IsXmlByte(c) && |d.buffer| < BufferSize
    ensures Feed(fixed, d, c) == Received(Chunk(d, c))
  {
    InterceptsNothing(fixed, d, c);
  }

  lemma ChunkByte(fixed: bool, d: SimpleDecoder, c: Byte, t: Text, rest: seq<Byte>)
    requires Chunking(fixed, d, [c] + t) && IsXmlByte(c)
    ensures DeliverOf(fixed, d, [c] + rest) == DeliverOf(fixed, Chunk(d, c), rest)
  {
    if d.state == Default as int {
      DefaultByte(fixed, d, c);
    } else if d.state == Comment as int {
      CommentByte(fixed, d, c);
    } else {
      CharacterByte(fixed, d, c);
    }
    DeliverByte(fixed, d, c, rest, Chunk(d, c));
  }

  /** The decoder Chunked describes for `d` after `t`. */
  function AfterChunks(d: SimpleDecoder, t: Text): SimpleDecoder
    requires |d.buffer| < BufferSize
  {
    var r := Chunked(d.buffer, t);
    d.(buffer := r.1, emitted := d.emitted + Wrap(d.state, r.0))
  }

  /** A byte that fills the buffer emits it; the rest of the data continues the split from empty. */
  lemma ChunkFull(d: SimpleDecoder, t: Text)
    requires |d.buffer| + 1 == BufferSize && t != []
    ensures AfterChunks(Chunk(d, t[0]), t[1..]) == AfterChunks(d, t)
  {
    var b := d.buffer + [t[0]];
    var next := Chunked([], t[1..]);
    assert Chunked(d.buffer, t) == ([b] + next.0, next.1);
    assert ([b] + next.0)[1..] == next.0;
    assert Wrap(d.state, [b] + next.0) == [DataSax(d.state, b)] + Wrap(d.state, next.0);
    assert Chunk(d, t[0]).emitted + Wrap(d.state, next.0) == d.emitted + Wrap(d.state, [b] + next.0);
  }

  /** A byte that leaves room continues the split from the longer buffer. */
  lemma ChunkPartial(d: SimpleDecoder, t: Text)
    requires |d.buffer| + 1 < BufferSize && t != []
    ensures AfterChunks(Chunk(d, t[0]), t[1..]) == AfterChunks(d, t)
  {
  }

  /** Data in such a state: the pieces that fill the buffer are emitted, the rest stays in the buffer. */
  lemma {:induction false} ChunkText(fixed: bool, d: SimpleDecoder, t: Text, rest: seq<Byte>)
    requires Chunking(fixed, d, t) && XmlText(t)
    ensures DeliverOf(fixed, d, t + rest) == DeliverOf(fixed, AfterChunks(d, t), rest)
    decreases |t|
  {
    if t == [] {
      assert d.emitted + Wrap(d.state, []) == d.emitted && t + rest == rest;
    } else {
      assert t + rest == [t[0]] + (t[1..] + rest);
      ChunkByte(fixed, d, t[0], t[1..], t[1..] + rest);
      ChunkText(fixed, Chunk(d, t[0]), t[1..], rest);
      if |d.buffer| + 1 == BufferSize {
        ChunkFull(d, t);
      } else {
        ChunkPartial(d, t);
      }
    }
  }

  // ---------------------------------------------------------------------
  // Structural symbols
  // ---------------------------------------------------------------------

  /** A symbol that moves state None to a state of its own. */
  predicate Entering(c: Byte)
  {
    c == XmlDecl || c == NewElement || c == KnownElement || c == Default || c == Comment
    || c == PI || c == EntityDecl || c == NotationDecl
  }

  lemma EnterByte(fixed: bool, d: SimpleDecoder, c: Byte, rest: seq<Byte>)
    requires d.state == NoState && Entering(c)
    ensures DeliverOf(fixed, d, [c] + rest) == DeliverOf(fixed, d.(state := c as int), rest)
  {
    DeliverByte(fixed, d, c, rest, d.(state := c as int));
  }

  /** Attributes opens a start tag's attribute list. */
  lemma AttributesByte(fixed: bool, d: SimpleDecoder, rest: seq<Byte>)
    requires d.state == NoState
    ensures DeliverOf(fixed, d, [Attributes] + rest) == DeliverOf(fixed, d.(hasAttributes := true), rest)
  {
    DeliverByte(fixed, d, Attributes, rest, d.(hasAttributes := true));
  }

  /** EndOfBlock on an empty buffer after Attributes completes the list. */
  lemma ListEndByte(fixed: bool, d: SimpleDecoder, rest: seq<Byte>)
    requires d.state == NoState && d.buffer == [] && d.hasAttributes
    ensures DeliverOf(fixed, d, [EndOfBlock] + rest) == DeliverOf(fixed, d.(listComplete := true), rest)
  {
    DeliverByte(fixed, d, EndOfBlock, rest, d.(listComplete := true));
  }

  /** EndElement in state None pops the top id and ends the element of that name. */
  lemma EndElementByte(fixed: bool, d: SimpleDecoder, rest: seq<Byte>)
    requires d.state == NoState && d.stack != [] && d.stack[|d.stack| - 1] in d.names
    ensures DeliverOf(fixed, d, [EndElement] + rest)
         == DeliverOf(fixed, d.(stack := d.stack[..|d.stack| - 1],
                                emitted := d.emitted + [EndElementSax(d.names[d.stack[|d.stack| - 1]])]), rest)
  {
    DeliverByte(fixed, d, EndElement, rest, d.(stack := d.stack[..|d.stack| - 1],
                                               emitted := d.emitted + [EndElementSax(d.names[d.stack[|d.stack| - 1]])]));
  }

  /** CDATA outside a section opens one. */
  lemma CDATAOpenByte(fixed: bool, d: SimpleDecoder, rest: seq<Byte>)
    requires d.state == NoState && !d.inCDATA
    ensures DeliverOf(fixed, d, [CDATA] + rest)
         == DeliverOf(fixed, d.(state := CDATAState, inCDATA := true, emitted := d.emitted + [StartCDATASax]), rest)
  {
    DeliverByte(fixed, d, CDATA, rest, d.(state := CDATAState, inCDATA := true, emitted := d.emitted + [StartCDATASax]));
  }

  /** CDATA inside a section closes it: from state None, and in the corrected decoder from the CDATA state too. */
  lemma CDATACloseByte(fixed: bool, d: SimpleDecoder, rest: seq<Byte>)
    requires d.inCDATA && (d.state == NoState || (fixed && d.state == CDATAState))
    ensures DeliverOf(fixed, d, [CDATA] + rest)
         == DeliverOf(fixed, d.(state := NoState, inCDATA := false, emitted := d.emitted + [EndCDATASax]), rest)
  {
    DeliverByte(fixed, d, CDATA, rest, d.(state := NoState, inCDATA := false, emitted := d.emitted + [EndCDATASax]));
  }

  /** The first Doctype opens the declaration. */
  lemma DoctypeOpenByte(fixed: bool, d: SimpleDecoder, rest: seq<Byte>)
    requires d.state == NoState && !d.inDoctype
    ensures DeliverOf(fixed, d, [Doctype] + rest) == DeliverOf(fixed, d.(state := Doctype as int, inDoctype := true), rest)
  {
    DeliverByte(fixed, d, Doctype, rest, d.(state := Doctype as int, inDoctype := true));
  }

  /** The next one ends it. */
  lemma DoctypeCloseByte(fixed: bool, d: SimpleDecoder, rest: seq<Byte>)
    requires d.state == NoState && d.inDoctype
    ensures DeliverOf(fixed, d, [Doctype] + rest)
         == DeliverOf(fixed, d.(inDoctype := false, emitted := d.emitted + [EndDoctypeSax]), rest)
  {
    DeliverByte(fixed, d, Doctype, rest, d.(inDoctype := false, emitted := d.emitted + [EndDoctypeSax]));
  }

  // ---------------------------------------------------------------------
  // Strings of a declaration
  // ---------------------------------------------------------------------

  /** A declaration state still reading its strings: the next EndOfBlock queues one. */
  predicate Queueing(d: SimpleDecoder)
  {
    (d.state == XmlDecl as int && |d.queue| < 2) || (d.state == PI as int && d.queue == [])
    || (d.state == Doctype as int && |d.queue| < 3) || (d.state == EntityDecl as int && |d.queue| < 5)
    || (d.state == NotationDecl as int && |d.queue| < 2)
  }

  /** The declarations whose strings may be empty rather than null. */
  predicate Marking(d: SimpleDecoder)
  {
    d.state == Doctype as int || d.state == EntityDecl as int || d.state == NotationDecl as int
  }

  /** EndOfBlock queues the buffer as a string, null when the buffer is empty. */
  lemma StringEndByte(fixed: bool, d: SimpleDecoder, rest: seq<Byte>)
    requires Queueing(d) && !d.hasAttributes && |d.buffer| < BufferSize
    requires d.buffer == [] || d.buffer[0] != EmptyString
    ensures DeliverOf(fixed, d, [EndOfBlock] + rest)
         == DeliverOf(fixed, d.(queue := d.queue + [NonNull(Some(d.buffer))], buffer := []), rest)
  {
    DeliverByte(fixed, d, EndOfBlock, rest, d.(queue := d.queue + [NonNull(Some(d.buffer))], buffer := []));
  }

  /** EmptyString is kept in the buffer of such a declaration... */
  lemma EmptyStringByte(fixed: bool, d: SimpleDecoder, rest: seq<Byte>)
    requires Buffering(d) && Marking(d) && d.buffer == []
    ensures DeliverOf(fixed, d, [EmptyString] + rest) == DeliverOf(fixed, d.(buffer := [EmptyString]), rest)
  {
    DeliverByte(fixed, d, EmptyString, rest, d.(buffer := [EmptyString]));
  }

  /** ... and the EndOfBlock after it queues the empty string. */
  lemma EmptyEndByte(fixed: bool, d: SimpleDecoder, rest: seq<Byte>)
    requires Queueing(d) && Marking(d) && d.buffer == [EmptyString]
    ensures DeliverOf(fixed, d, [EndOfBlock] + rest) == DeliverOf(fixed, d.(queue := d.queue + [Some([])], buffer := []), rest)
  {
    DeliverByte(fixed, d, EndOfBlock, rest, d.(queue := d.queue + [Some([])], buffer := []));
  }

  lemma EmptyMarkBytes(fixed: bool, d: SimpleDecoder, rest: seq<Byte>)
    requires Queueing(d) && Marking(d) && d.buffer == []
    ensures DeliverOf(fixed, d, [EmptyString, EndOfBlock] + rest) == DeliverOf(fixed, d.(queue := d.queue + [Some([])]), rest)
  {
    assert [EmptyString, EndOfBlock] + rest == [EmptyString] + ([EndOfBlock] + rest);
    EmptyStringByte(fixed, d, [EndOfBlock] + rest);
    EmptyEndByte(fixed, d.(buffer := [EmptyString]), rest);
  }

  /** A string written with OrEnd is queued, the empty string as null. */
  lemma OrEndField(fixed: bool, d: SimpleDecoder, s: Option<Text>, rest: seq<Byte>)
    requires Queueing(d) && !d.hasAttributes && d.buffer == [] && ShortOpt(s)
    ensures DeliverOf(fixed, d, OrEnd(s) + rest) == DeliverOf(fixed, d.(queue := d.queue + [NonNull(s)]), rest)
  {
    if s.None? {
      StringEndByte(fixed, d, rest);
    } else {
      var t := s.value;
      assert OrEnd(s) + rest == t + ([EndOfBlock] + rest);
      BufferText(fixed, d, t, [EndOfBlock] + rest);
      assert d.buffer + t == t;
      StringEndByte(fixed, d.(buffer := t), rest);
    }
  }

  /** A string written with Marked is queued as it was: null, empty or its characters. */
  lemma MarkedField(fixed: bool, d: SimpleDecoder, s: Option<Text>, rest: seq<Byte>)
    requires Queueing(d) && Marking(d) && !d.hasAttributes && d.buffer == [] && ShortOpt(s)
    ensures DeliverOf(fixed, d, Marked(s) + rest) == DeliverOf(fixed, d.(queue := d.queue + [s]), rest)
  {
    if s == Some([]) {
      EmptyMarkBytes(fixed, d, rest);
    } else {
      OrEndField(fixed, d, s, rest);
    }
  }

  // ---------------------------------------------------------------------
  // Declarations
  // ---------------------------------------------------------------------

  /** The standalone value the handler receives for the one manageEvent was given. */
  function StandaloneRead(standalone: int): (r: int)
    ensures standalone in {-1, 0, 1} ==> r == standalone
  {
    if standalone == -1 then -1 else if standalone != 0 then 1 else 0
  }

  /** The standalone symbol completes the XML declaration with the two strings queued. */
  lemma XmlDeclEndByte(fixed: bool, d: SimpleDecoder, standalone: int, rest: seq<Byte>)
    requires d.state == XmlDecl as int && |d.queue| == 2 && !d.hasAttributes
    ensures DeliverOf(fixed, d, [Standalone(standalone)] + rest)
         == DeliverOf(fixed, Reset(d.(queue := [], emitted := d.emitted
              + [XmlDeclSax(d.queue[0], d.queue[1], StandaloneRead(standalone))])), rest)
  {
    assert d.queue[2..] == [];
    DeliverByte(fixed, d, Standalone(standalone), rest, Reset(d.(queue := [], emitted := d.emitted
      + [XmlDeclSax(d.queue[0], d.queue[1], StandaloneRead(standalone))])));
  }

  /** Decoder fields a declaration leaves as it found them. */
  predicate Clear(d: SimpleDecoder)
  {
    d.state == NoState && d.buffer == [] && d.queue == [] && !d.hasAttributes
  }

  /** An XML declaration: version and encoding come back null when empty, standalone as -1, 0 or 1. */
  lemma XmlDeclBytes(fixed: bool, d: SimpleDecoder, version: Text, encoding: Option<Text>, standalone: int)
    requires Clear(d) && Short(version) && ShortOpt(encoding)
    ensures DeliverOf(fixed, d, [XmlDecl] + Terminated(version) + OrEnd(encoding) + [Standalone(standalone)])
         == Received(d.(emitted := d.emitted
              + [XmlDeclSax(NonNull(Some(version)), NonNull(encoding), StandaloneRead(standalone))]))
  {
    var d1 := d.(state := XmlDecl as int);
    var d2 := d1.(queue := [NonNull(Some(version))]);
    var d3 := d2.(queue := [NonNull(Some(version)), NonNull(encoding)]);
    var tail := [Standalone(standalone)];
    assert Terminated(version) == OrEnd(Some(version));
    Regroup4([XmlDecl], OrEnd(Some(version)), OrEnd(encoding), tail);
    EnterByte(fixed, d, XmlDecl, OrEnd(Some(version)) + (OrEnd(encoding) + tail));
    OrEndField(fixed, d1, Some(version), OrEnd(encoding) + tail);
    assert d1.queue + [NonNull(Some(version))] == d2.queue && d2.queue + [NonNull(encoding)] == d3.queue;
    OrEndField(fixed, d2, encoding, tail);
    assert tail == tail + [];
    XmlDeclEndByte(fixed, d3, standalone, []);
    var d4 := Reset(d3.(queue := [], emitted := d3.emitted
      + [XmlDeclSax(d3.queue[0], d3.queue[1], StandaloneRead(standalone))]));
    assert d4 == d.(emitted := d.emitted + [XmlDeclSax(NonNull(Some(version)), NonNull(encoding), StandaloneRead(standalone))]);
    assert DeliverOf(fixed, d4, []) == Received(d4);
  }

  /** EndOfBlock after the target completes a processing instruction with the buffer as its data. */
  lemma PIEndByte(fixed: bool, d: SimpleDecoder, rest: seq<Byte>)
    requires d.state == PI as int && |d.queue| == 1 && !d.hasAttributes && |d.buffer| < BufferSize
    ensures DeliverOf(fixed, d, [EndOfBlock] + rest)
         == DeliverOf(fixed, Reset(d.(queue := [], emitted := d.emitted + [PISax(d.queue[0], d.buffer)])), rest)
  {
    DeliverByte(fixed, d, EndOfBlock, rest, Reset(d.(queue := [], emitted := d.emitted + [PISax(d.queue[0], d.buffer)])));
  }

  /** A processing instruction: an empty target comes back null, null data as empty data. */
  lemma PIBytes(fixed: bool, d: SimpleDecoder, target: Text, data: Option<Text>)
    requires Clear(d) && Short(target) && ShortOpt(data)
    ensures DeliverOf(fixed, d, [PI] + (Terminated(target) + OrEnd(data)))
         == Received(d.(emitted := d.emitted + [PISax(NonNull(Some(target)), if data.Some? then data.value else [])]))
  {
    var d1 := d.(state := PI as int);
    var d2 := d1.(queue := [NonNull(Some(target))]);
    var t := if data.Some? then data.value else [];
    assert [PI] + (Terminated(target) + OrEnd(data)) == [PI] + (OrEnd(Some(target)) + (t + [EndOfBlock]));
    EnterByte(fixed, d, PI, OrEnd(Some(target)) + (t + [EndOfBlock]));
    OrEndField(fixed, d1, Some(target), t + [EndOfBlock]);
    BufferText(fixed, d2, t, [EndOfBlock]);
    assert d1.queue + [NonNull(Some(target))] == d2.queue;
    assert d2.buffer + t == t && [EndOfBlock] == [EndOfBlock] + [];
    PIEndByte(fixed, d2.(buffer := t), []);
    var d3 := Reset(d2.(buffer := t).(queue := [], emitted := d2.emitted + [PISax(d2.queue[0], t)]));
    assert d3 == d.(emitted := d.emitted + [PISax(NonNull(Some(target)), t)]);
    assert DeliverOf(fixed, d3, []) == Received(d3);
  }

  /** A declaration's last flag: read from the call's own byte once its strings are queued. */
  lemma FlagByte(fixed: bool, d: SimpleDecoder, flag: Byte, rest: seq<Byte>)
    requires (d.state == Doctype as int && |d.queue| == 3) || (d.state == EntityDecl as int && |d.queue| == 5)
    requires flag == 1 || flag == 2
    ensures DeliverOf(fixed, d, [flag] + rest)
         == DeliverOf(fixed, Reset(d.(queue := [], emitted := d.emitted + [
              if d.state == Doctype as int then StartDoctypeSax(d.queue[0], d.queue[2], d.queue[1], flag == HasInternalSubsetYes)
              else EntityDeclSax(d.queue[0], flag == IsParameterEntityYes, d.queue[1], d.queue[2], d.queue[3], d.queue[4])])), rest)
  {
    DeliverByte(fixed, d, flag, rest, Reset(d.(queue := [], emitted := d.emitted + [
      if d.state == Doctype as int then StartDoctypeSax(d.queue[0], d.queue[2], d.queue[1], flag == HasInternalSubsetYes)
      else EntityDeclSax(d.queue[0], flag == IsParameterEntityYes, d.queue[1], d.queue[2], d.queue[3], d.queue[4])])));
  }

  /** A document type declaration; the name comes back null when empty. */
  lemma DoctypeBytes(fixed: bool, d: SimpleDecoder, name: Option<Text>, systemId: Option<Text>,
                     publicId: Option<Text>, internal: bool)
    requires Clear(d) && !d.inDoctype && ShortOpt(name) && ShortOpt(systemId) && ShortOpt(publicId)
    ensures DeliverOf(fixed, d, [Doctype] + OrEnd(name) + Marked(publicId) + Marked(systemId)
                                + [if internal then HasInternalSubsetYes else HasInternalSubsetNo])
         == Received(d.(inDoctype := true, emitted := d.emitted + [StartDoctypeSax(NonNull(name), systemId, publicId, internal)]))
  {
    var flag := if internal then HasInternalSubsetYes else HasInternalSubsetNo;
    var d1 := d.(state := Doctype as int, inDoctype := true);
    var d2 := d1.(queue := [NonNull(name)]);
    var d3 := d1.(queue := [NonNull(name), publicId]);
    var d4 := d1.(queue := [NonNull(name), publicId, systemId]);
    Regroup5([Doctype], OrEnd(name), Marked(publicId), Marked(systemId), [flag]);
    DoctypeOpenByte(fixed, d, OrEnd(name) + (Marked(publicId) + (Marked(systemId) + [flag])));
    OrEndField(fixed, d1, name, Marked(publicId) + (Marked(systemId) + [flag]));
    assert d1.queue + [NonNull(name)] == d2.queue && d2.queue + [publicId] == d3.queue && d3.queue + [systemId] == d4.queue;
    MarkedField(fixed, d2, publicId, Marked(systemId) + [flag]);
    MarkedField(fixed, d3, systemId, [flag]);
    assert [flag] == [flag] + [];
    FlagByte(fixed, d4, flag, []);
    var d5 := Reset(d4.(queue := [], emitted := d4.emitted + [StartDoctypeSax(NonNull(name), systemId, publicId, internal)]));
    assert d5 == d.(inDoctype := true, emitted := d.emitted + [StartDoctypeSax(NonNull(name), systemId, publicId, internal)]);
    assert DeliverOf(fixed, d5, []) == Received(d5);
  }

  /** The four strings after an entity's name, queued as they were written. */
  lemma EntityStrings(fixed: bool, d: SimpleDecoder, value: Option<Text>, systemId: Option<Text>,
                      publicId: Option<Text>, notation: Option<Text>, rest: seq<Byte>)
    requires d.state == EntityDecl as int && |d.queue| == 1 && !d.hasAttributes && d.buffer == []
    requires ShortOpt(value) && ShortOpt(systemId) && ShortOpt(publicId) && ShortOpt(notation)
    ensures DeliverOf(fixed, d, Marked(value) + (Marked(systemId) + (Marked(publicId) + (Marked(notation) + rest))))
         == DeliverOf(fixed, d.(queue := d.queue + [value, systemId, publicId, notation]), rest)
  {
    var q2 := d.queue + [value];
    var q3 := q2 + [systemId];
    var q4 := q3 + [publicId];
    MarkedField(fixed, d, value, Marked(systemId) + (Marked(publicId) + (Marked(notation) + rest)));
    MarkedField(fixed, d.(queue := q2), systemId, Marked(publicId) + (Marked(notation) + rest));
    MarkedField(fixed, d.(queue := q3), publicId, Marked(notation) + rest);
    MarkedField(fixed, d.(queue := q4), notation, rest);
    assert q4 + [notation] == d.queue + [value, systemId, publicId, notation];
  }

  /** An entity declaration; the name comes back null when empty. */
  lemma EntityDeclBytes(fixed: bool, d: SimpleDecoder, name: Option<Text>, parameter: bool, value: Option<Text>,
                        systemId: Option<Text>, publicId: Option<Text>, notation: Option<Text>)
    requires Clear(d) && ShortOpt(name) && ShortOpt(value) && ShortOpt(systemId) && ShortOpt(publicId) && ShortOpt(notation)
    ensures DeliverOf(fixed, d, [EntityDecl] + OrEnd(name) + Marked(value) + Marked(systemId) + Marked(publicId)
                                + Marked(notation) + [if parameter then IsParameterEntityYes else IsParameterEntityNo])
         == Received(d.(emitted := d.emitted + [EntityDeclSax(NonNull(name), parameter, value, systemId, publicId, notation)]))
  {
    var flag := if parameter then IsParameterEntityYes else IsParameterEntityNo;
    var d1 := d.(state := EntityDecl as int);
    var strings := Marked(value) + (Marked(systemId) + (Marked(publicId) + (Marked(notation) + [flag])));
    Regroup7([EntityDecl], OrEnd(name), Marked(value), Marked(systemId), Marked(publicId), Marked(notation), [flag]);
    EnterByte(fixed, d, EntityDecl, OrEnd(name) + strings);
    assert d1.queue + [NonNull(name)] == [NonNull(name)];
    OrEndField(fixed, d1, name, strings);
    EntityStrings(fixed, d1.(queue := [NonNull(name)]), value, systemId, publicId, notation, [flag]);
    assert [flag] == [flag] + [];
    var q := [NonNull(name)] + [value, systemId, publicId, notation];
    FlagByte(fixed, d1.(queue := q), flag, []);
    var d6 := Reset(d1.(queue := [], emitted := d1.emitted + [EntityDeclSax(NonNull(name), parameter, value, systemId, publicId, notation)]));
    assert d6 == d.(emitted := d.emitted + [EntityDeclSax(NonNull(name), parameter, value, systemId, publicId, notation)]);
    assert DeliverOf(fixed, d6, []) == Received(d6);
  }

  /** The EndOfBlock of the third string completes a notation declaration and returns to state None. */
  lemma NotationEndByte(fixed: bool, d: SimpleDecoder, rest: seq<Byte>)
    requires d.state == NotationDecl as int && |d.queue| == 2 && !d.hasAttributes && MarkedItem(d.buffer).Some?
    ensures DeliverOf(fixed, d, [EndOfBlock] + rest)
         == DeliverOf(fixed, Reset(d.(queue := [], emitted := d.emitted
              + [NotationDeclSax(d.queue[0], d.queue[1], MarkedItem(d.buffer).value)])), rest)
  {
    DeliverByte(fixed, d, EndOfBlock, rest, Reset(d.(queue := [], emitted := d.emitted
      + [NotationDeclSax(d.queue[0], d.queue[1], MarkedItem(d.buffer).value)])));
  }

  /** The last string of a notation declaration, read back as it was written. */
  lemma NotationLastField(fixed: bool, d: SimpleDecoder, s: Option<Text>)
    requires d.state == NotationDecl as int && |d.queue| == 2 && !d.hasAttributes && d.buffer == [] && ShortOpt(s)
    ensures DeliverOf(fixed, d, Marked(s))
         == Received(Reset(d.(queue := [], emitted := d.emitted + [NotationDeclSax(d.queue[0], d.queue[1], s)])))
  {
    var d' := Reset(d.(queue := [], emitted := d.emitted + [NotationDeclSax(d.queue[0], d.queue[1], s)]));
    assert DeliverOf(fixed, d', []) == Received(d');
    if s.None? {
      assert Marked(s) == [EndOfBlock] + [];
      NotationEndByte(fixed, d, []);
    } else if s.value == [] {
      assert Marked(s) == [EmptyString] + [EndOfBlock] && [EndOfBlock] == [EndOfBlock] + [];
      EmptyStringByte(fixed, d, [EndOfBlock]);
      assert MarkedItem([EmptyString]) == Some(s);
      NotationEndByte(fixed, d.(buffer := [EmptyString]), []);
    } else {
      assert Marked(s) == s.value + [EndOfBlock] && [EndOfBlock] == [EndOfBlock] + [];
      assert MarkedItem(s.value) == Some(s);
      BufferText(fixed, d, s.value, [EndOfBlock]);
      assert d.buffer + s.value == s.value;
      NotationEndByte(fixed, d.(buffer := s.value), []);
    }
  }

  /** A notation declaration; the name comes back null when empty. */
  lemma NotationDeclBytes(fixed: bool, d: SimpleDecoder, name: Option<Text>, systemId: Option<Text>, publicId: Option<Text>)
    requires Clear(d) && ShortOpt(name) && ShortOpt(systemId) && ShortOpt(publicId)
    ensures DeliverOf(fixed, d, [NotationDecl] + OrEnd(name) + Marked(systemId) + Marked(publicId))
         == Received(d.(emitted := d.emitted + [NotationDeclSax(NonNull(name), systemId, publicId)]))
  {
    var d1 := d.(state := NotationDecl as int);
    var q1 := [NonNull(name)];
    var q2 := q1 + [systemId];
    Regroup4([NotationDecl], OrEnd(name), Marked(systemId), Marked(publicId));
    EnterByte(fixed, d, NotationDecl, OrEnd(name) + (Marked(systemId) + Marked(publicId)));
    assert d1.queue + [NonNull(name)] == q1;
    OrEndField(fixed, d1, name, Marked(systemId) + Marked(publicId));
    MarkedField(fixed, d1.(queue := q1), systemId, Marked(publicId));
    NotationLastField(fixed, d1.(queue := q2), publicId);
    assert Reset(d1.(queue := q2).(queue := [], emitted := d1.emitted + [NotationDeclSax(q2[0], q2[1], publicId)]))
        == d.(emitted := d.emitted + [NotationDeclSax(NonNull(name), systemId, publicId)]);
  }

  // ---------------------------------------------------------------------
  // Data
  // ---------------------------------------------------------------------

  /** What the EndOfBlock closing a data state emits: default data and comments always, character data when there is some. */
  function DataEnd(state: int, buffer: Text): seq<SaxEvent>
  {
    if state == Default as int || state == Comment as int then [DataSax(state, buffer)]
    else if buffer == [] then []
    else [CharacterDataSax(buffer)]
  }

  lemma DataEndByte(fixed: bool, d: SimpleDecoder, rest: seq<Byte>)
    requires Chunking(fixed, d, []) && !d.hasAttributes
    ensures DeliverOf(fixed, d, [EndOfBlock] + rest)
         == DeliverOf(fixed, Reset(d.(emitted := d.emitted + DataEnd(d.state, d.buffer))), rest)
  {
    DeliverByte(fixed, d, EndOfBlock, rest, Reset(d.(emitted := d.emitted + DataEnd(d.state, d.buffer))));
  }

  /** The SAX calls of a data section: its pieces, then the rest. */
  function DataCalls(state: int, t: Text): seq<SaxEvent>
  {
    var pieces := Chunked([], t);
    Wrap(state, pieces.0) + DataEnd(state, pieces.1)
  }

  /** The text one data call hands to the handler; none for the other calls. */
  function Payload(c: SaxEvent): Text
  {
    if c.CharacterDataSax? then c.characters
    else if c.DefaultSax? then c.defaultData
    else if c.CommentSax? then c.comment
    else []
  }

  /** The text a sequence of data calls hands to the handler, in order. */
  function DataText(calls: seq<SaxEvent>): Text
    decreases |calls|
  {
    if calls == [] then [] else Payload(calls[0]) + DataText(calls[1..])
  }

  lemma {:induction false} DataTextAppend(a: seq<SaxEvent>, b: seq<SaxEvent>)
    ensures DataText(a + b) == DataText(a) + DataText(b)
    decreases |a|
  {
    if a == [] {
      assert a + b == b;
    } else {
      assert (a + b)[0] == a[0] && (a + b)[1..] == a[1..] + b;
      DataTextAppend(a[1..], b);
    }
  }

  /** The calls for a state's pieces are calls of that state's kind and carry the pieces in order. */
  lemma {:induction false} WrapText(state: int, chunks: seq<Text>)
    ensures DataText(Wrap(state, chunks)) == Concat(chunks)
    ensures forall k :: 0 <= k < |Wrap(state, chunks)| ==> Wrap(state, chunks)[k] == DataSax(state, Payload(Wrap(state, chunks)[k]))
    decreases |chunks|
  {
    if chunks != [] {
      var w := [DataSax(state, chunks[0])];
      DataTextAppend(w, Wrap(state, chunks[1..]));
      WrapText(state, chunks[1..]);
      assert DataText(w) == chunks[0] + [];
    }
  }

  /**
   * However a data section is split, the pieces handed to the handler put
   * back together give the section's text, and each piece is a call of the
   * section's own kind.
   */
  lemma DataCallsText(state: int, t: Text)
    ensures DataText(DataCalls(state, t)) == t
    ensures forall k :: 0 <= k < |DataCalls(state, t)| ==> DataCalls(state, t)[k] == DataSax(state, Payload(DataCalls(state, t)[k]))
  {
    var pieces := Chunked([], t);
    WrapText(state, pieces.0);
    DataTextAppend(Wrap(state, pieces.0), DataEnd(state, pieces.1));
    assert DataText(DataEnd(state, pieces.1)) == pieces.1;
  }

  /** A data section closed by EndOfBlock, read in its state from an empty buffer. */
  lemma DataBytes(fixed: bool, d: SimpleDecoder, t: Text)
    requires Chunking(fixed, d, t) && XmlText(t) && d.buffer == [] && !d.hasAttributes
    ensures DeliverOf(fixed, d, Terminated(t)) == Received(Reset(d.(emitted := d.emitted + DataCalls(d.state, t))))
  {
    ChunkText(fixed, d, t, [EndOfBlock]);
    var d1 := AfterChunks(d, t);
    assert [EndOfBlock] == [EndOfBlock] + [];
    DataEndByte(fixed, d1, []);
    var d2 := Reset(d1.(emitted := d1.emitted + DataEnd(d1.state, d1.buffer)));
    assert d2 == Reset(d.(emitted := d.emitted + DataCalls(d.state, t)));
    assert DeliverOf(fixed, d2, []) == Received(d2);
  }

  /** Character data come out alike in state None and in the CDATA state. */
  lemma {:induction false} CharacterCalls(t: Text)
    ensures DataCalls(CDATAState, t) == DataCalls(NoState, t)
  {
    WrapCharacters(Chunked([], t).0);
  }

  lemma {:induction false} WrapCharacters(chunks: seq<Text>)
    ensures Wrap(CDATAState, chunks) == Wrap(NoState, chunks)
    decreases |chunks|
  {
    if chunks != [] {
      WrapCharacters(chunks[1..]);
    }
  }

  // ---------------------------------------------------------------------
  // Names
  // ---------------------------------------------------------------------

  /** The elements table after the decoder has read the names of `attrs`, given the encoder's ids before them. */
  function Learned(names: map<nat, Text>, ids: map<Text, nat>, counter: nat, attrs: seq<Attribute>): map<nat, Text>
    decreases |attrs|
  {
    if attrs == [] then names
    else
      var nm := NameOf(ids, counter, attrs[0].name);
      Learned(names[nm.id := attrs[0].name], nm.ids, nm.counter, attrs[1..])
  }

  /** Reading one name keeps the two tables in agreement. */
  lemma LearnName(ids: map<Text, nat>, names: map<nat, Text>, counter: nat, name: Text)
    requires NamesAgree(ids, names, counter) && counter >= 1
    ensures var nm := NameOf(ids, counter, name);
            NamesAgree(nm.ids, names[nm.id := name], nm.counter) && nm.counter >= 1
            && (name in ids ==> names[nm.id := name] == names)
  {
    if name in ids {
      assert names[ids[name] := name] == names;
    }
  }

  /** Reading the names of an attribute list keeps them in agreement, one id at most per attribute. */
  lemma {:induction false} LearnAttributes(ids: map<Text, nat>, names: map<nat, Text>, counter: nat, attrs: seq<Attribute>)
    requires NamesAgree(ids, names, counter) && counter >= 1
    ensures var a := AttributesOf(ids, counter, attrs);
            NamesAgree(a.ids, Learned(names, ids, counter, attrs), a.counter) && a.counter <= counter + |attrs|
    decreases |attrs|
  {
    if attrs != [] {
      var nm := NameOf(ids, counter, attrs[0].name);
      LearnName(ids, names, counter, attrs[0].name);
      LearnAttributes(nm.ids, names[nm.id := attrs[0].name], nm.counter, attrs[1..]);
    }
  }

  /** The decoder after a name with id `id` and the elements table `names`: the start tag finished, or the name queued. */
  function NameRead(d: SimpleDecoder, names: map<nat, Text>, counter: nat, id: nat, name: Text): SimpleDecoder
  {
    Finish(d.(names := names, counter := counter), id, name).(buffer := [])
  }

  /** EndOfBlock after a new name gives it the next id. */
  lemma NewNameEndByte(fixed: bool, d: SimpleDecoder, rest: seq<Byte>)
    requires d.state == NewElement as int && d.buffer != [] && |d.buffer| < BufferSize
    ensures DeliverOf(fixed, d, [EndOfBlock] + rest)
         == DeliverOf(fixed, NameRead(d, d.names[d.counter := d.buffer], d.counter + 1, d.counter, d.buffer), rest)
  {
    DeliverByte(fixed, d, EndOfBlock, rest, NameRead(d, d.names[d.counter := d.buffer], d.counter + 1, d.counter, d.buffer));
  }

  /** A new name: NewElement, its characters and EndOfBlock. */
  lemma NewNameBytes(fixed: bool, d: SimpleDecoder, name: Text, rest: seq<Byte>)
    requires d.state == NoState && d.buffer == [] && XmlName(name)
    ensures DeliverOf(fixed, d, [NewElement] + Terminated(name) + rest)
         == DeliverOf(fixed, NameRead(d, d.names[d.counter := name], d.counter + 1, d.counter, name), rest)
  {
    var d1 := d.(state := NewElement as int);
    assert [NewElement] + Terminated(name) + rest == [NewElement] + (name + ([EndOfBlock] + rest));
    EnterByte(fixed, d, NewElement, name + ([EndOfBlock] + rest));
    BufferText(fixed, d1, name, [EndOfBlock] + rest);
    assert d1.buffer + name == name;
    NewNameEndByte(fixed, d1.(buffer := name), rest);
    assert NameRead(d1.(buffer := name), d.names[d.counter := name], d.counter + 1, d.counter, name)
        == NameRead(d, d.names[d.counter := name], d.counter + 1, d.counter, name);
  }

  /** A byte of a known name's code before its last: the register stays on track. */
  lemma KnownPendingByte(fixed: bool, d: SimpleDecoder, c: Byte, rest: seq<Byte>, bits: seq<bool>, base: nat, stop: nat)
    requires d.state == KnownElementState && base + 8 <= |bits| && bits[base..base + 8] == Fibonacci.ByteBits(c)
    requires ReadSoFar(d.fib, bits, base, stop) && base + 8 <= stop
    ensures FibByte(d.fib, c).Pending? && ReadSoFar(FibByte(d.fib, c).register, bits, base + 8, stop)
    ensures DeliverOf(fixed, d, [c] + rest) == DeliverOf(fixed, d.(fib := FibByte(d.fib, c).register), rest)
  {
    FibByteOnTrack(d.fib, bits, c, base, stop);
    DeliverByte(fixed, d, c, rest, d.(fib := FibByte(d.fib, c).register));
  }

  /** The last byte of the code: the id is decoded and its name finished. */
  lemma KnownLastByte(fixed: bool, d: SimpleDecoder, c: Byte, rest: seq<Byte>, bits: seq<bool>, base: nat, stop: nat, n: nat)
    requires d.state == KnownElementState && base + 8 <= |bits| && bits[base..base + 8] == Fibonacci.ByteBits(c)
    requires ReadSoFar(d.fib, bits, base, stop) && stop < base + 8
    requires Fibonacci.DecodeFrom(Fibonacci.Val(bits[..stop + 1]), 0, false) == Some(n) && n in d.names
    ensures DeliverOf(fixed, d, [c] + rest) == DeliverOf(fixed, Finish(d, n, d.names[n]).(fib := FibIdle, buffer := []), rest)
  {
    FibByteOnTrack(d.fib, bits, c, base, stop);
    DeliverByte(fixed, d, c, rest, Finish(d, n, d.names[n]).(fib := FibIdle, buffer := []));
  }

  /** The bytes of a code from byte k on, read by a register that has taken the bytes before it. */
  lemma {:induction false} KnownRun(fixed: bool, d: SimpleDecoder, code: seq<Byte>, bits: seq<bool>, stop: nat,
                                    k: nat, n: nat, rest: seq<Byte>)
    requires d.state == KnownElementState && SlicedAs(bits, code) && stop / 8 + 1 == |code| && k < |code|
    requires ReadSoFar(d.fib, bits, 8 * k, stop)
    requires Fibonacci.DecodeFrom(Fibonacci.Val(bits[..stop + 1]), 0, false) == Some(n) && n in d.names
    ensures DeliverOf(fixed, d, code[k..] + rest) == DeliverOf(fixed, Finish(d, n, d.names[n]).(fib := FibIdle, buffer := []), rest)
    decreases |code| - k
  {
    assert code[k..] + rest == [code[k]] + (code[k + 1..] + rest);
    assert bits[8 * k..8 * k + 8] == Fibonacci.ByteBits(code[k]);
    if k == |code| - 1 {
      assert code[k + 1..] + rest == rest;
      KnownLastByte(fixed, d, code[k], rest, bits, 8 * k, stop, n);
    } else {
      KnownPendingByte(fixed, d, code[k], code[k + 1..] + rest, bits, 8 * k, stop);
      var d1 := d.(fib := FibByte(d.fib, code[k]).register);
      assert 8 * (k + 1) == 8 * k + 8;
      KnownRun(fixed, d1, code, bits, stop, k + 1, n, rest);
      FinishIgnoresFib(d, FibByte(d.fib, code[k]).register, n, d.names[n]);
    }
  }

  /** Finishing a name does not read the Fibonacci registers. */
  lemma FinishIgnoresFib(d: SimpleDecoder, r: FibRegister, id: nat, name: Text)
    ensures Finish(d.(fib := r), id, name).(fib := FibIdle, buffer := []) == Finish(d, id, name).(fib := FibIdle, buffer := [])
  {
  }

  /** The Fibonacci buffer of an id, read from the idle register, finishes the name with that id. */
  lemma KnownCode(fixed: bool, d: SimpleDecoder, id: nat, rest: seq<Byte>)
    requires d.state == KnownElementState && d.fib == FibIdle && 1 <= id < Fibonacci.FibLimit && id in d.names
    ensures DeliverOf(fixed, d, Fibonacci.EncodedBuffer(id, 1)[0..] + rest)
         == DeliverOf(fixed, Finish(d, id, d.names[id]).(fib := FibIdle, buffer := []), rest)
  {
    var code := Fibonacci.EncodedBuffer(id, 1);
    StreamedId(id);
    var bits := Fibonacci.StreamBits(code);
    KnownRun(fixed, d, code, bits, Fibonacci.FindStop(bits, 0, false).value, 0, id, rest);
  }

  /** A known name: KnownElement and its id's Fibonacci buffer. */
  lemma KnownNameBytes(fixed: bool, d: SimpleDecoder, id: nat, rest: seq<Byte>)
    requires d.state == NoState && d.buffer == [] && d.fib == FibIdle && 1 <= id < Fibonacci.FibLimit && id in d.names
    ensures DeliverOf(fixed, d, Reference(id) + rest) == DeliverOf(fixed, NameRead(d, d.names, d.counter, id, d.names[id]), rest)
  {
    var code := Fibonacci.EncodedBuffer(id, 1);
    var d1 := d.(state := KnownElementState);
    assert Reference(id) + rest == [KnownElement] + (code[0..] + rest);
    EnterByte(fixed, d, KnownElement, code[0..] + rest);
    KnownCode(fixed, d1, id, rest);
    assert Finish(d1, id, d1.names[id]).(fib := FibIdle, buffer := []) == NameRead(d, d.names, d.counter, id, d.names[id]);
  }

  /** An element or attribute name as the encoder writes it, read back under the same id. */
  lemma NameBytes(fixed: bool, d: SimpleDecoder, ids: map<Text, nat>, name: Text, rest: seq<Byte>)
    requires d.state == NoState && d.buffer == [] && d.fib == FibIdle && XmlName(name)
    requires NamesAgree(ids, d.names, d.counter) && d.counter < Fibonacci.FibLimit
    ensures var nm := NameOf(ids, d.counter, name);
            DeliverOf(fixed, d, nm.symbols + rest) == DeliverOf(fixed, NameRead(d, d.names[nm.id := name], nm.counter, nm.id, name), rest)
  {
    if name in ids {
      assert d.names[ids[name] := name] == d.names;
      KnownNameBytes(fixed, d, ids[name], rest);
    } else {
      NewNameBytes(fixed, d, name, rest);
    }
  }

  // ---------------------------------------------------------------------
  // Start tags
  // ---------------------------------------------------------------------

  /** The strings a start tag's attributes leave queued: each name, then its value. */
  function Flat(attrs: seq<Attribute>): (r: seq<Option<Text>>)
    ensures |r| == 2 * |attrs|
  {
    if attrs == [] then [] else [Some(attrs[0].name), Some(attrs[0].value)] + Flat(attrs[1..])
  }

  /** An attribute list the decoder reads back whole: names not empty, values kept whole in the buffer. */
  predicate AttributesFit(attrs: seq<Attribute>)
  {
    forall k :: 0 <= k < |attrs| ==> XmlName(attrs[k].name) && Short(attrs[k].value)
  }

  /** Inside an attribute list, the EndOfBlock after a value queues it. */
  lemma ValueEndByte(fixed: bool, d: SimpleDecoder, rest: seq<Byte>)
    requires d.state == NoState && d.hasAttributes && d.buffer != [] && |d.buffer| < BufferSize
    ensures DeliverOf(fixed, d, [EndOfBlock] + rest) == DeliverOf(fixed, Reset(d.(queue := d.queue + [Some(d.buffer)])), rest)
  {
    DeliverByte(fixed, d, EndOfBlock, rest, Reset(d.(queue := d.queue + [Some(d.buffer)])));
  }

  /** ... and EmptyString queues the empty value. */
  lemma EmptyValueByte(fixed: bool, d: SimpleDecoder, rest: seq<Byte>)
    requires d.state == NoState && d.hasAttributes
    ensures DeliverOf(fixed, d, [EmptyString] + rest) == DeliverOf(fixed, d.(queue := d.queue + [Some([])]), rest)
  {
    DeliverByte(fixed, d, EmptyString, rest, d.(queue := d.queue + [Some([])]));
  }

  /** An attribute value is queued as it was. */
  lemma ValueBytes(fixed: bool, d: SimpleDecoder, v: Text, rest: seq<Byte>)
    requires d.state == NoState && d.hasAttributes && d.buffer == [] && Short(v)
    ensures DeliverOf(fixed, d, ValueOf(v) + rest) == DeliverOf(fixed, d.(queue := d.queue + [Some(v)]), rest)
  {
    if v == [] {
      EmptyValueByte(fixed, d, rest);
    } else {
      assert ValueOf(v) + rest == v + ([EndOfBlock] + rest);
      BufferText(fixed, d, v, [EndOfBlock] + rest);
      assert d.buffer + v == v;
      ValueEndByte(fixed, d.(buffer := v), rest);
    }
  }

  /** Inside a start tag: the part of the decoder an attribute list works on. */
  predicate InList(d: SimpleDecoder)
  {
    d.state == NoState && d.buffer == [] && d.fib == FibIdle && d.hasAttributes && !d.listComplete
  }

  /** One attribute: its name read under the encoder's id, then its value; both are queued. */
  lemma AttributeBytes(fixed: bool, d: SimpleDecoder, ids: map<Text, nat>, a: Attribute, rest: seq<Byte>)
    requires InList(d) && XmlName(a.name) && Short(a.value)
    requires NamesAgree(ids, d.names, d.counter) && d.counter < Fibonacci.FibLimit
    ensures var nm := NameOf(ids, d.counter, a.name);
            DeliverOf(fixed, d, nm.symbols + (ValueOf(a.value) + rest))
            == DeliverOf(fixed, d.(names := d.names[nm.id := a.name], counter := nm.counter,
                                   queue := d.queue + [Some(a.name), Some(a.value)]), rest)
  {
    var nm := NameOf(ids, d.counter, a.name);
    NameBytes(fixed, d, ids, a.name, ValueOf(a.value) + rest);
    var d1 := d.(names := d.names[nm.id := a.name], counter := nm.counter, queue := d.queue + [Some(a.name)]);
    assert NameRead(d, d.names[nm.id := a.name], nm.counter, nm.id, a.name) == d1;
    ValueBytes(fixed, d1, a.value, rest);
    assert d1.queue + [Some(a.value)] == d.queue + [Some(a.name), Some(a.value)];
  }

  /** How an attribute list's encoding, names and queue split at its first attribute. */
  lemma AttributesSplit(names: map<nat, Text>, ids: map<Text, nat>, counter: nat, attrs: seq<Attribute>, rest: seq<Byte>)
    requires attrs != []
    ensures var nm := NameOf(ids, counter, attrs[0].name);
            var a := AttributesOf(ids, counter, attrs);
            var tail := AttributesOf(nm.ids, nm.counter, attrs[1..]);
            a.symbols + rest == nm.symbols + (ValueOf(attrs[0].value) + (tail.symbols + rest))
            && a.counter == tail.counter
            && Learned(names, ids, counter, attrs) == Learned(names[nm.id := attrs[0].name], nm.ids, nm.counter, attrs[1..])
            && Flat(attrs) == [Some(attrs[0].name), Some(attrs[0].value)] + Flat(attrs[1..])
  {
    var nm := NameOf(ids, counter, attrs[0].name);
    var tail := AttributesOf(nm.ids, nm.counter, attrs[1..]);
    Regroup4(nm.symbols, ValueOf(attrs[0].value), tail.symbols, rest);
  }

  /** The decoder once it has read an attribute list's first attribute. */
  function AfterFirst(d: SimpleDecoder, ids: map<Text, nat>, a: Attribute): SimpleDecoder
  {
    var nm := NameOf(ids, d.counter, a.name);
    d.(names := d.names[nm.id := a.name], counter := nm.counter, queue := d.queue + [Some(a.name), Some(a.value)])
  }

  /** The first attribute of a list, read as the encoder wrote it. */
  lemma AttributesStep(fixed: bool, d: SimpleDecoder, ids: map<Text, nat>, attrs: seq<Attribute>, rest: seq<Byte>)
    requires InList(d) && attrs != [] && XmlName(attrs[0].name) && Short(attrs[0].value) && d.counter >= 1
    requires NamesAgree(ids, d.names, d.counter) && d.counter < Fibonacci.FibLimit
    ensures var nm := NameOf(ids, d.counter, attrs[0].name);
            var d1 := AfterFirst(d, ids, attrs[0]);
            DeliverOf(fixed, d, AttributesOf(ids, d.counter, attrs).symbols + rest)
            == DeliverOf(fixed, d1, AttributesOf(nm.ids, nm.counter, attrs[1..]).symbols + rest)
            && InList(d1) && NamesAgree(nm.ids, d1.names, d1.counter) && d1.counter >= 1 && d1.counter <= d.counter + 1
  {
    var nm := NameOf(ids, d.counter, attrs[0].name);
    var tail := AttributesOf(nm.ids, nm.counter, attrs[1..]);
    AttributesSplit(d.names, ids, d.counter, attrs, rest);
    AttributeBytes(fixed, d, ids, attrs[0], tail.symbols + rest);
    LearnName(ids, d.names, d.counter, attrs[0].name);
  }

  lemma AttributesFitTail(attrs: seq<Attribute>)
    requires attrs != [] && AttributesFit(attrs)
    ensures XmlName(attrs[0].name) && Short(attrs[0].value) && AttributesFit(attrs[1..])
  {
    forall k | 0 <= k < |attrs[1..]| ensures XmlName(attrs[1..][k].name) && Short(attrs[1..][k].value) {
      assert attrs[1..][k] == attrs[k + 1];
    }
  }

  /** Queued after the first attribute, then after the rest: queued after the whole list. */
  lemma QueueJoin(q: seq<Option<Text>>, first: seq<Option<Text>>, more: seq<Option<Text>>, all: seq<Option<Text>>)
    requires all == first + more
    ensures (q + first) + more == q + all
  {
  }

  /** The state after the first attribute and the rest is the state after the whole list. */
  lemma AttributesJoin(d: SimpleDecoder, ids: map<Text, nat>, attrs: seq<Attribute>)
    requires attrs != []
    ensures var nm := NameOf(ids, d.counter, attrs[0].name);
            var d1 := AfterFirst(d, ids, attrs[0]);
            d1.(names := Learned(d1.names, nm.ids, nm.counter, attrs[1..]),
                counter := AttributesOf(nm.ids, nm.counter, attrs[1..]).counter, queue := d1.queue + Flat(attrs[1..]))
            == d.(names := Learned(d.names, ids, d.counter, attrs), counter := AttributesOf(ids, d.counter, attrs).counter,
                  queue := d.queue + Flat(attrs))
  {
    var a0 := attrs[0];
    var more := attrs[1..];
    var nm := NameOf(ids, d.counter, a0.name);
    AttributesSplit(d.names, ids, d.counter, attrs, []);
    QueueJoin(d.queue, [Some(a0.name), Some(a0.value)], Flat(more), Flat(attrs));
  }

  /** An attribute list: every name and value queued in order, every name learned under the encoder's id. */
  lemma {:induction false} AttributesBytes(fixed: bool, d: SimpleDecoder, ids: map<Text, nat>, attrs: seq<Attribute>,
                                           rest: seq<Byte>)
    requires InList(d) && AttributesFit(attrs) && d.counter >= 1
    requires NamesAgree(ids, d.names, d.counter) && d.counter + |attrs| < Fibonacci.FibLimit
    ensures var a := AttributesOf(ids, d.counter, attrs);
            DeliverOf(fixed, d, a.symbols + rest)
            == DeliverOf(fixed, d.(names := Learned(d.names, ids, d.counter, attrs), counter := a.counter,
                                   queue := d.queue + Flat(attrs)), rest)
    decreases |attrs|
  {
    if attrs == [] {
      assert d.queue + Flat(attrs) == d.queue && [] + rest == rest;
    } else {
      var nm := NameOf(ids, d.counter, attrs[0].name);
      AttributesFitTail(attrs);
      AttributesStep(fixed, d, ids, attrs, rest);
      AttributesBytes(fixed, AfterFirst(d, ids, attrs[0]), nm.ids, attrs[1..], rest);
      AttributesJoin(d, ids, attrs);
    }
  }

  /** A start tag without attributes: the name is read, its id pushed and the start reported. */
  lemma PlainStartBytes(fixed: bool, d: SimpleDecoder, ids: map<Text, nat>, name: Text)
    requires Idle(d) && d.state == NoState && XmlName(name)
    requires NamesAgree(ids, d.names, d.counter) && d.counter < Fibonacci.FibLimit
    ensures var n := NameOf(ids, d.counter, name);
            DeliverOf(fixed, d, n.symbols)
            == Received(d.(names := d.names[n.id := name], counter := n.counter, stack := d.stack + [n.id],
                           emitted := d.emitted + [StartElementSax(name, [])]))
  {
    var n := NameOf(ids, d.counter, name);
    NameBytes(fixed, d, ids, name, []);
    assert n.symbols + [] == n.symbols;
    var d1 := d.(names := d.names[n.id := name], counter := n.counter, stack := d.stack + [n.id],
                 emitted := d.emitted + [StartElementSax(name, [])]);
    assert NameRead(d, d.names[n.id := name], n.counter, n.id, name) == d1;
    assert DeliverOf(fixed, d1, []) == Received(d1);
  }

  /** The decoder once a complete attribute list has been read: the tag name finishes the start tag. */
  lemma ListFinish(d: SimpleDecoder, names: map<nat, Text>, counter: nat, queue: seq<Option<Text>>,
                   names': map<nat, Text>, counter': nat, id: nat, name: Text)
    requires Idle(d) && d.state == NoState
    ensures NameRead(d.(hasAttributes := true, names := names, counter := counter, queue := queue, listComplete := true),
                     names', counter', id, name)
            == d.(names := names', counter := counter', stack := d.stack + [id],
                  emitted := d.emitted + [StartElementSax(name, queue)])
  {
  }

  /** Attributes, an attribute list and its EndOfBlock: the list queued, its names learned. */
  lemma ListBytes(fixed: bool, d: SimpleDecoder, ids: map<Text, nat>, attrs: seq<Attribute>, rest: seq<Byte>)
    requires Idle(d) && d.state == NoState && AttributesFit(attrs)
    requires NamesAgree(ids, d.names, d.counter) && d.counter >= 1 && d.counter + |attrs| < Fibonacci.FibLimit
    ensures var a := AttributesOf(ids, d.counter, attrs);
            DeliverOf(fixed, d, [Attributes] + a.symbols + [EndOfBlock] + rest)
            == DeliverOf(fixed, d.(hasAttributes := true, names := Learned(d.names, ids, d.counter, attrs), counter := a.counter,
                                   queue := Flat(attrs), listComplete := true), rest)
  {
    var a := AttributesOf(ids, d.counter, attrs);
    Regroup4([Attributes], a.symbols, [EndOfBlock], rest);
    AttributesByte(fixed, d, a.symbols + ([EndOfBlock] + rest));
    var d1 := d.(hasAttributes := true);
    AttributesBytes(fixed, d1, ids, attrs, [EndOfBlock] + rest);
    assert d1.queue + Flat(attrs) == Flat(attrs);
    var d2 := d1.(names := Learned(d.names, ids, d.counter, attrs), counter := a.counter, queue := Flat(attrs));
    ListEndByte(fixed, d2, rest);
  }

  /** A start tag with attributes: Attributes, the list, EndOfBlock and the name; the start is reported with the list. */
  lemma ListStartBytes(fixed: bool, d: SimpleDecoder, ids: map<Text, nat>, name: Text, attrs: seq<Attribute>)
    requires Idle(d) && d.state == NoState && XmlName(name) && AttributesFit(attrs)
    requires NamesAgree(ids, d.names, d.counter) && d.counter >= 1 && d.counter + |attrs| < Fibonacci.FibLimit
    ensures var a := AttributesOf(ids, d.counter, attrs);
            var n := NameOf(a.ids, a.counter, name);
            DeliverOf(fixed, d, [Attributes] + a.symbols + [EndOfBlock] + n.symbols)
            == Received(d.(names := Learned(d.names, ids, d.counter, attrs)[n.id := name], counter := n.counter,
                           stack := d.stack + [n.id], emitted := d.emitted + [StartElementSax(name, Flat(attrs))]))
            && NamesAgree(n.ids, Learned(d.names, ids, d.counter, attrs)[n.id := name], n.counter)
  {
    var a := AttributesOf(ids, d.counter, attrs);
    var n := NameOf(a.ids, a.counter, name);
    var names := Learned(d.names, ids, d.counter, attrs);
    ListBytes(fixed, d, ids, attrs, n.symbols);
    LearnAttributes(ids, d.names, d.counter, attrs);
    var d3 := d.(hasAttributes := true, names := names, counter := a.counter, queue := Flat(attrs), listComplete := true);
    NameBytes(fixed, d3, a.ids, name, []);
    LearnName(a.ids, names, a.counter, name);
    assert n.symbols + [] == n.symbols;
    ListFinish(d, names, a.counter, Flat(attrs), names[n.id := name], n.counter, n.id, name);
    var d4 := d.(names := names[n.id := name], counter := n.counter, stack := d.stack + [n.id],
                 emitted := d.emitted + [StartElementSax(name, Flat(attrs))]);
    assert DeliverOf(fixed, d4, []) == Received(d4);
  }

  // ---------------------------------------------------------------------
  // One event
  // ---------------------------------------------------------------------

  /** What decoding an event depends on besides the two tables: inside CDATA (and in its state) and inside a DTD. */
  datatype Mode = Mode(cdataState: bool, inCDATA: bool, inDoctype: bool)

  function ModeOf(d: SimpleDecoder): Mode
  {
    Mode(d.state == CDATAState, d.inCDATA, d.inDoctype)
  }

  /** The mode after an event. Character data leaves the CDATA state (the EndOfBlock resets the state) but not the section. */
  function NextMode(m: Mode, ev: XmlEvent): Mode
  {
    match ev
    case StartCDATAEvent => Mode(true, true, m.inDoctype)
    case EndCDATAEvent => Mode(false, false, m.inDoctype)
    case CharactersEvent(_) => m.(cdataState := false)
    case StartDoctypeEvent(_, _, _, _) => m.(inDoctype := true)
    case EndDoctypeEvent => m.(inDoctype := false)
    case _ => m
  }

  /**
   * The events a decoder in mode `m` reads back as they were sent: strings
   * short enough for the buffer and free of control symbols, the document
   * structure the decoder's flags expect, an encoding the codec set knows
   * and ids the Fibonacci table holds.
   */
  predicate Decodable(fixed: bool, e: SimpleEncoder, m: Mode, ev: XmlEvent)
  {
    match ev
    case XmlDeclEvent(version, encoding, _) =>
      !m.cdataState && version.Some? && Short(version.value) && ShortOpt(encoding) && ManageEventOf(e, ev).Returned?
    case StartDoctypeEvent(name, systemId, publicId, _) =>
      !m.cdataState && !m.inDoctype && ShortOpt(name) && ShortOpt(systemId) && ShortOpt(publicId)
    case EndDoctypeEvent => !m.cdataState && m.inDoctype
    case EntityDeclEvent(name, _, value, systemId, publicId, notation) =>
      !m.cdataState && ShortOpt(name) && ShortOpt(value) && ShortOpt(systemId) && ShortOpt(publicId) && ShortOpt(notation)
    case NotationDeclEvent(name, systemId, publicId) =>
      !m.cdataState && ShortOpt(name) && ShortOpt(systemId) && ShortOpt(publicId)
    case StartElementEvent(name, attrs) =>
      !m.cdataState && XmlName(name) && AttributesFit(attrs) && e.counter + |attrs| < Fibonacci.FibLimit
    case EndElementEvent(name) =>
      !m.cdataState && name in e.ids && e.stack != [] && e.stack[|e.stack| - 1] == e.ids[name]
    case CharactersEvent(data) => XmlText(data)
    case DefaultEvent(data) => !m.cdataState && XmlText(data)
    case CommentEvent(data) =>
      !m.cdataState && data.Some? && XmlText(data.value) && (fixed || |data.value| < BufferSize)
    case StartCDATAEvent => !m.cdataState && !m.inCDATA
    case EndCDATAEvent => m.inCDATA && (fixed || !m.cdataState)
    case PIEvent(target, data) => !m.cdataState && target.Some? && Short(target.value) && ShortOpt(data)
    case Unrecognised(_) => true
  }

  /** The SAX calls an event comes back as. */
  function SaxOf(ev: XmlEvent): seq<SaxEvent>
  {
    match ev
    case XmlDeclEvent(version, encoding, standalone) =>
      [XmlDeclSax(NonNull(version), NonNull(encoding), StandaloneRead(standalone))]
    case StartDoctypeEvent(name, systemId, publicId, internal) => [StartDoctypeSax(NonNull(name), systemId, publicId, internal)]
    case EndDoctypeEvent => [EndDoctypeSax]
    case EntityDeclEvent(name, parameter, value, systemId, publicId, notation) =>
      [EntityDeclSax(NonNull(name), parameter, value, systemId, publicId, notation)]
    case NotationDeclEvent(name, systemId, publicId) => [NotationDeclSax(NonNull(name), systemId, publicId)]
    case StartElementEvent(name, attrs) => [StartElementSax(name, Flat(attrs))]
    case EndElementEvent(name) => [EndElementSax(name)]
    case CharactersEvent(data) => DataCalls(NoState, data)
    case DefaultEvent(data) => DataCalls(Default as int, data)
    case CommentEvent(data) => if data.Some? then DataCalls(Comment as int, data.value) else []
    case StartCDATAEvent => [StartCDATASax]
    case EndCDATAEvent => [EndCDATASax]
    case PIEvent(target, data) => [PISax(NonNull(target), if data.Some? then data.value else [])]
    case Unrecognised(_) => []
  }

  /** Decoding `bytes` from `d` ends between two events, agreeing with `r`, having made the calls `emitted`, in mode `m`. */
  predicate Delivered(fixed: bool, d: SimpleDecoder, bytes: seq<Byte>, r: SimpleEncoder, emitted: seq<SaxEvent>, m: Mode)
  {
    var res := DeliverOf(fixed, d, bytes);
    res.Received? && Idle(res.d) && Agree(r, res.d) && res.d.emitted == emitted && ModeOf(res.d) == m
  }

  /** What an event adds to the encoder's output. */
  function Sent(e: SimpleEncoder, ev: XmlEvent): seq<Byte>
  {
    var r := ManageEventOf(e, ev).e;
    r.out[|e.out|..]
  }

  lemma SentBytes(e: SimpleEncoder, s: seq<Byte>, r: SimpleEncoder)
    requires r.out == e.out + s
    ensures r.out[|e.out|..] == s
  {
  }

  /** The event decoded, as the encoder's state after it expects. */
  predicate EventDelivered(fixed: bool, e: SimpleEncoder, d: SimpleDecoder, ev: XmlEvent)
  {
    Delivered(fixed, d, Sent(e, ev), ManageEventOf(e, ev).e, d.emitted + SaxOf(ev), NextMode(ModeOf(d), ev))
  }

  /** An XML declaration the codec set accepts goes out whole, with the encoder's tables as they were. */
  lemma XmlDeclSent(e: SimpleEncoder, ev: XmlEvent)
    requires ev.XmlDeclEvent? && ev.version.Some? && ManageEventOf(e, ev).Returned?
    ensures var r := ManageEventOf(e, ev).e;
            r.out == e.out + ([XmlDecl] + Terminated(ev.version.value) + OrEnd(ev.encoding) + [Standalone(ev.standalone)])
            && r.stack == e.stack && r.ids == e.ids && r.counter == e.counter
  {
  }

  /** The decoder's state after an event, between two events: whatever the tables, in agreement with `r`. */
  lemma Settled(fixed: bool, d: SimpleDecoder, bytes: seq<Byte>, r: SimpleEncoder, d': SimpleDecoder)
    requires DeliverOf(fixed, d, bytes) == Received(d') && Idle(d') && Agree(r, d')
    ensures Delivered(fixed, d, bytes, r, d'.emitted, ModeOf(d'))
  {
  }

  lemma XmlDeclEventBytes(fixed: bool, e: SimpleEncoder, d: SimpleDecoder, ev: XmlEvent)
    requires ev.XmlDeclEvent? && Idle(d) && Agree(e, d) && Decodable(fixed, e, ModeOf(d), ev)
    ensures EventDelivered(fixed, e, d, ev)
  {
    var r := ManageEventOf(e, ev).e;
    var bytes := [XmlDecl] + Terminated(ev.version.value) + OrEnd(ev.encoding) + [Standalone(ev.standalone)];
    XmlDeclSent(e, ev);
    SentBytes(e, bytes, r);
    XmlDeclBytes(fixed, d, ev.version.value, ev.encoding, ev.standalone);
  }

  lemma StartDoctypeDelivered(fixed: bool, r: SimpleEncoder, d: SimpleDecoder, name: Option<Text>,
                              systemId: Option<Text>, publicId: Option<Text>, internal: bool)
    requires Idle(d) && Agree(r, d) && d.state == NoState && !d.inDoctype
    requires ShortOpt(name) && ShortOpt(systemId) && ShortOpt(publicId)
    ensures Delivered(fixed, d, [Doctype] + OrEnd(name) + Marked(publicId) + Marked(systemId)
                                + [if internal then HasInternalSubsetYes else HasInternalSubsetNo], r,
                      d.emitted + [StartDoctypeSax(NonNull(name), systemId, publicId, internal)],
                      ModeOf(d).(inDoctype := true))
  {
    DoctypeBytes(fixed, d, name, systemId, publicId, internal);
    Settled(fixed, d, [Doctype] + OrEnd(name) + Marked(publicId) + Marked(systemId)
                      + [if internal then HasInternalSubsetYes else HasInternalSubsetNo], r,
            d.(inDoctype := true, emitted := d.emitted + [StartDoctypeSax(NonNull(name), systemId, publicId, internal)]));
  }

  lemma StartDoctypeEventBytes(fixed: bool, e: SimpleEncoder, d: SimpleDecoder, ev: XmlEvent)
    requires ev.StartDoctypeEvent? && Idle(d) && Agree(e, d) && Decodable(fixed, e, ModeOf(d), ev)
    ensures EventDelivered(fixed, e, d, ev)
  {
    var bytes := [Doctype] + OrEnd(ev.doctypeName) + Marked(ev.publicId) + Marked(ev.systemId)
                 + [if ev.hasInternalSubset then HasInternalSubsetYes else HasInternalSubsetNo];
    assert ManageEventOf(e, ev).e == Append(e, bytes);
    SentBytes(e, bytes, Append(e, bytes));
    StartDoctypeDelivered(fixed, Append(e, bytes), d, ev.doctypeName, ev.systemId, ev.publicId, ev.hasInternalSubset);
  }

  lemma EndDoctypeEventBytes(fixed: bool, e: SimpleEncoder, d: SimpleDecoder, ev: XmlEvent)
    requires ev.EndDoctypeEvent? && Idle(d) && Agree(e, d) && Decodable(fixed, e, ModeOf(d), ev)
    ensures EventDelivered(fixed, e, d, ev)
  {
    assert ManageEventOf(e, ev).e == Append(e, [Doctype]);
    SentBytes(e, [Doctype], Append(e, [Doctype]));
    assert [Doctype] == [Doctype] + [];
    DoctypeCloseByte(fixed, d, []);
    var d' := d.(inDoctype := false, emitted := d.emitted + [EndDoctypeSax]);
    assert DeliverOf(fixed, d', []) == Received(d');
  }

  /** The bytes of an entity declaration, read between two events. */
  function EntityDeclSymbols(name: Option<Text>, parameter: bool, value: Option<Text>, systemId: Option<Text>,
                             publicId: Option<Text>, notation: Option<Text>): seq<Byte>
  {
    [EntityDecl] + OrEnd(name) + Marked(value) + Marked(systemId) + Marked(publicId) + Marked(notation)
    + [if parameter then IsParameterEntityYes else IsParameterEntityNo]
  }

  lemma EntityDeclDelivered(fixed: bool, r: SimpleEncoder, d: SimpleDecoder, name: Option<Text>, parameter: bool,
                            value: Option<Text>, systemId: Option<Text>, publicId: Option<Text>, notation: Option<Text>)
    requires Idle(d) && Agree(r, d) && d.state == NoState
    requires ShortOpt(name) && ShortOpt(value) && ShortOpt(systemId) && ShortOpt(publicId) && ShortOpt(notation)
    ensures Delivered(fixed, d, EntityDeclSymbols(name, parameter, value, systemId, publicId, notation), r,
                      d.emitted + [EntityDeclSax(NonNull(name), parameter, value, systemId, publicId, notation)], ModeOf(d))
  {
    EntityDeclBytes(fixed, d, name, parameter, value, systemId, publicId, notation);
    Settled(fixed, d, EntityDeclSymbols(name, parameter, value, systemId, publicId, notation), r,
            d.(emitted := d.emitted + [EntityDeclSax(NonNull(name), parameter, value, systemId, publicId, notation)]));
  }

  lemma EntityDeclEventBytes(fixed: bool, e: SimpleEncoder, d: SimpleDecoder, ev: XmlEvent)
    requires ev.EntityDeclEvent? && Idle(d) && Agree(e, d) && Decodable(fixed, e, ModeOf(d), ev)
    ensures EventDelivered(fixed, e, d, ev)
  {
    var bytes := EntityDeclSymbols(ev.entityName, ev.isParameterEntity, ev.value, ev.entitySystemId,
                                   ev.entityPublicId, ev.notationName);
    assert ManageEventOf(e, ev).e == Append(e, bytes);
    SentBytes(e, bytes, Append(e, bytes));
    EntityDeclDelivered(fixed, Append(e, bytes), d, ev.entityName, ev.isParameterEntity, ev.value, ev.entitySystemId,
                        ev.entityPublicId, ev.notationName);
  }

  lemma NotationDeclEventBytes(fixed: bool, e: SimpleEncoder, d: SimpleDecoder, ev: XmlEvent)
    requires ev.NotationDeclEvent? && Idle(d) && Agree(e, d) && Decodable(fixed, e, ModeOf(d), ev)
    ensures EventDelivered(fixed, e, d, ev)
  {
    var bytes := [NotationDecl] + OrEnd(ev.notation) + Marked(ev.notationSystemId) + Marked(ev.notationPublicId);
    assert ManageEventOf(e, ev).e == Append(e, bytes);
    SentBytes(e, bytes, Append(e, bytes));
    NotationDeclBytes(fixed, d, ev.notation, ev.notationSystemId, ev.notationPublicId);
  }

  lemma PIDelivered(fixed: bool, r: SimpleEncoder, d: SimpleDecoder, target: Text, data: Option<Text>)
    requires Idle(d) && Agree(r, d) && d.state == NoState && Short(target) && ShortOpt(data)
    ensures Delivered(fixed, d, [PI] + (Terminated(target) + OrEnd(data)), r,
                      d.emitted + [PISax(NonNull(Some(target)), if data.Some? then data.value else [])], ModeOf(d))
  {
    PIBytes(fixed, d, target, data);
    Settled(fixed, d, [PI] + (Terminated(target) + OrEnd(data)), r,
            d.(emitted := d.emitted + [PISax(NonNull(Some(target)), if data.Some? then data.value else [])]));
  }

  lemma PIEventBytes(fixed: bool, e: SimpleEncoder, d: SimpleDecoder, ev: XmlEvent)
    requires ev.PIEvent? && Idle(d) && Agree(e, d) && Decodable(fixed, e, ModeOf(d), ev)
    ensures EventDelivered(fixed, e, d, ev)
  {
    var bytes := [PI] + (Terminated(ev.target.value) + OrEnd(ev.piData));
    assert ManageEventOf(e, ev).e == Append(e, bytes);
    SentBytes(e, bytes, Append(e, bytes));
    PIDelivered(fixed, Append(e, bytes), d, ev.target.value, ev.piData);
  }

  /** An end tag pops the element the encoder pops and reports its name. */
  lemma EndElementDelivered(fixed: bool, r: SimpleEncoder, d: SimpleDecoder, name: Text)
    requires Idle(d) && d.state == NoState && d.stack != [] && d.stack[|d.stack| - 1] in d.names
    requires d.names[d.stack[|d.stack| - 1]] == name && Agree(r, d.(stack := d.stack[..|d.stack| - 1]))
    ensures Delivered(fixed, d, [EndElement], r, d.emitted + [EndElementSax(name)], ModeOf(d))
  {
    assert [EndElement] == [EndElement] + [];
    EndElementByte(fixed, d, []);
    var d' := d.(stack := d.stack[..|d.stack| - 1], emitted := d.emitted + [EndElementSax(name)]);
    assert DeliverOf(fixed, d', []) == Received(d');
    Settled(fixed, d, [EndElement], r, d');
  }

  lemma EndElementEventBytes(fixed: bool, e: SimpleEncoder, d: SimpleDecoder, ev: XmlEvent)
    requires ev.EndElementEvent? && Idle(d) && Agree(e, d) && Decodable(fixed, e, ModeOf(d), ev)
    ensures EventDelivered(fixed, e, d, ev)
  {
    var stack := e.stack[..|e.stack| - 1];
    var r := Append(e.(stack := stack), [EndElement]);
    assert ManageEventOf(e, ev).e == r;
    SentBytes(e, [EndElement], r);
    EndElementDelivered(fixed, r, d, ev.endName);
  }

  /** A data section read in its state, between two events. */
  lemma DataDelivered(fixed: bool, r: SimpleEncoder, d: SimpleDecoder, t: Text)
    requires Agree(r, d) && d.fib == FibIdle && d.queue == [] && !d.listComplete && !d.hasAttributes && d.buffer == []
    requires Chunking(fixed, d, t) && XmlText(t) && (d.state == CDATAState ==> d.inCDATA)
    ensures Delivered(fixed, d, Terminated(t), r, d.emitted + DataCalls(d.state, t), ModeOf(d).(cdataState := false))
  {
    DataBytes(fixed, d, t);
    Settled(fixed, d, Terminated(t), r, Reset(d.(emitted := d.emitted + DataCalls(d.state, t))));
  }

  lemma CharactersEventBytes(fixed: bool, e: SimpleEncoder, d: SimpleDecoder, ev: XmlEvent)
    requires ev.CharactersEvent? && Idle(d) && Agree(e, d) && Decodable(fixed, e, ModeOf(d), ev)
    ensures EventDelivered(fixed, e, d, ev)
  {
    var bytes := Terminated(ev.characters);
    assert ManageEventOf(e, ev).e == Append(e, bytes);
    SentBytes(e, bytes, Append(e, bytes));
    DataDelivered(fixed, Append(e, bytes), d, ev.characters);
    CharacterCalls(ev.characters);
  }

  /** Default data or a comment: its symbol, then a data section in its state. */
  lemma EnteredDataDelivered(fixed: bool, r: SimpleEncoder, d: SimpleDecoder, c: Byte, t: Text)
    requires Idle(d) && Agree(r, d) && d.state == NoState && (c == Default || c == Comment)
    requires Chunking(fixed, d.(state := c as int), t) && XmlText(t)
    ensures Delivered(fixed, d, [c] + Terminated(t), r, d.emitted + DataCalls(c as int, t), ModeOf(d))
  {
    EnterByte(fixed, d, c, Terminated(t));
    DataDelivered(fixed, r, d.(state := c as int), t);
  }

  lemma DefaultEventBytes(fixed: bool, e: SimpleEncoder, d: SimpleDecoder, ev: XmlEvent)
    requires ev.DefaultEvent? && Idle(d) && Agree(e, d) && Decodable(fixed, e, ModeOf(d), ev)
    ensures EventDelivered(fixed, e, d, ev)
  {
    var bytes := [Default] + Terminated(ev.defaultData);
    assert ManageEventOf(e, ev).e == Append(e, bytes);
    SentBytes(e, bytes, Append(e, bytes));
    EnteredDataDelivered(fixed, Append(e, bytes), d, Default, ev.defaultData);
  }

  lemma CommentEventBytes(fixed: bool, e: SimpleEncoder, d: SimpleDecoder, ev: XmlEvent)
    requires ev.CommentEvent? && Idle(d) && Agree(e, d) && Decodable(fixed, e, ModeOf(d), ev)
    ensures EventDelivered(fixed, e, d, ev)
  {
    var bytes := [Comment] + Terminated(ev.comment.value);
    assert ManageEventOf(e, ev).e == Append(e, bytes);
    SentBytes(e, bytes, Append(e, bytes));
    EnteredDataDelivered(fixed, Append(e, bytes), d, Comment, ev.comment.value);
  }

  lemma StartCDATAEventBytes(fixed: bool, e: SimpleEncoder, d: SimpleDecoder, ev: XmlEvent)
    requires ev.StartCDATAEvent? && Idle(d) && Agree(e, d) && Decodable(fixed, e, ModeOf(d), ev)
    ensures EventDelivered(fixed, e, d, ev)
  {
    assert ManageEventOf(e, ev).e == Append(e, [CDATA]);
    SentBytes(e, [CDATA], Append(e, [CDATA]));
    assert [CDATA] == [CDATA] + [];
    CDATAOpenByte(fixed, d, []);
    var d' := d.(state := CDATAState, inCDATA := true, emitted := d.emitted + [StartCDATASax]);
    assert DeliverOf(fixed, d', []) == Received(d');
  }

  lemma EndCDATAEventBytes(fixed: bool, e: SimpleEncoder, d: SimpleDecoder, ev: XmlEvent)
    requires ev.EndCDATAEvent? && Idle(d) && Agree(e, d) && Decodable(fixed, e, ModeOf(d), ev)
    ensures EventDelivered(fixed, e, d, ev)
  {
    assert ManageEventOf(e, ev).e == Append(e, [CDATA]);
    SentBytes(e, [CDATA], Append(e, [CDATA]));
    assert [CDATA] == [CDATA] + [];
    CDATACloseByte(fixed, d, []);
    var d' := d.(state := NoState, inCDATA := false, emitted := d.emitted + [EndCDATASax]);
    assert DeliverOf(fixed, d', []) == Received(d');
  }

  /** A start tag without attributes, as StartElementOf writes it. */
  lemma PlainStartDelivered(fixed: bool, e: SimpleEncoder, d: SimpleDecoder, name: Text)
    requires Idle(d) && Agree(e, d) && d.state == NoState && XmlName(name) && e.counter < Fibonacci.FibLimit
    ensures var r := StartElementOf(e, name, []);
            Delivered(fixed, d, r.out[|e.out|..], r, d.emitted + [StartElementSax(name, [])], ModeOf(d))
  {
    var r := StartElementOf(e, name, []);
    var n := NameOf(e.ids, e.counter, name);
    StartElementKeepsIds(e, name, []);
    assert r.out == e.out + n.symbols;
    SentBytes(e, n.symbols, r);
    PlainStartBytes(fixed, d, e.ids, name);
    LearnName(e.ids, d.names, d.counter, name);
  }

  lemma Assoc(a: seq<Byte>, b: seq<Byte>, c: seq<Byte>)
    ensures a + b + c == a + (b + c)
  {
  }

  /** What a start tag with attributes adds to the encoder's output. */
  lemma ListStartOut(e: SimpleEncoder, name: Text, attrs: seq<Attribute>)
    requires attrs != []
    ensures var a := AttributesOf(e.ids, e.counter, attrs);
            var n := NameOf(a.ids, a.counter, name);
            StartElementOf(e, name, attrs).out == e.out + ([Attributes] + a.symbols + [EndOfBlock] + n.symbols)
  {
    var a := AttributesOf(e.ids, e.counter, attrs);
    var n := NameOf(a.ids, a.counter, name);
    var prefix := [Attributes] + a.symbols + [EndOfBlock];
    assert StartElementOf(e, name, attrs).out == e.out + prefix + n.symbols;
    Assoc(e.out, prefix, n.symbols);
  }

  /** After a start tag with attributes the decoder agrees with the encoder. */
  lemma ListStartAgree(e: SimpleEncoder, d: SimpleDecoder, name: Text, attrs: seq<Attribute>)
    requires Idle(d) && Agree(e, d) && XmlName(name) && attrs != [] && AttributesFit(attrs)
    requires e.counter + |attrs| < Fibonacci.FibLimit
    ensures var a := AttributesOf(e.ids, e.counter, attrs);
            var n := NameOf(a.ids, a.counter, name);
            var d' := d.(names := Learned(d.names, e.ids, e.counter, attrs)[n.id := name], counter := n.counter,
                         stack := d.stack + [n.id], emitted := d.emitted + [StartElementSax(name, Flat(attrs))]);
            Idle(d') && Agree(StartElementOf(e, name, attrs), d')
  {
    var a := AttributesOf(e.ids, e.counter, attrs);
    LearnAttributes(e.ids, d.names, d.counter, attrs);
    LearnName(a.ids, Learned(d.names, e.ids, e.counter, attrs), a.counter, name);
    StartElementKeepsIds(e, name, attrs);
  }

  /** A start tag with attributes, as StartElementOf writes it. */
  lemma ListStartDelivered(fixed: bool, e: SimpleEncoder, d: SimpleDecoder, name: Text, attrs: seq<Attribute>)
    requires Idle(d) && Agree(e, d) && d.state == NoState && XmlName(name) && attrs != [] && AttributesFit(attrs)
    requires e.counter + |attrs| < Fibonacci.FibLimit
    ensures var r := StartElementOf(e, name, attrs);
            Delivered(fixed, d, r.out[|e.out|..], r, d.emitted + [StartElementSax(name, Flat(attrs))], ModeOf(d))
  {
    var r := StartElementOf(e, name, attrs);
    var a := AttributesOf(e.ids, e.counter, attrs);
    var n := NameOf(a.ids, a.counter, name);
    var bytes := [Attributes] + a.symbols + [EndOfBlock] + n.symbols;
    ListStartOut(e, name, attrs);
    SentBytes(e, bytes, r);
    ListStartBytes(fixed, d, e.ids, name, attrs);
    var d' := d.(names := Learned(d.names, e.ids, e.counter, attrs)[n.id := name], counter := n.counter,
                 stack := d.stack + [n.id], emitted := d.emitted + [StartElementSax(name, Flat(attrs))]);
    ListStartAgree(e, d, name, attrs);
    Settled(fixed, d, bytes, r, d');
  }

  lemma StartElementEventBytes(fixed: bool, e: SimpleEncoder, d: SimpleDecoder, ev: XmlEvent)
    requires ev.StartElementEvent? && Idle(d) && Agree(e, d) && Decodable(fixed, e, ModeOf(d), ev)
    ensures EventDelivered(fixed, e, d, ev)
  {
    StartElementManaged(e, ev.name, ev.attributes);
    if ev.attributes == [] {
      PlainStartDelivered(fixed, e, d, ev.name);
    } else {
      ListStartDelivered(fixed, e, d, ev.name, ev.attributes);
    }
  }

  lemma UnrecognisedEventBytes(fixed: bool, e: SimpleEncoder, d: SimpleDecoder, ev: XmlEvent)
    requires ev.Unrecognised? && Idle(d) && Agree(e, d)
    ensures EventDelivered(fixed, e, d, ev)
  {
    assert ManageEventOf(e, ev).e == e;
    SentBytes(e, [], e);
    assert DeliverOf(fixed, d, []) == Received(d);
  }

  /** The events of the prolog and the DTD. */
  predicate IsDeclaration(ev: XmlEvent)
  {
    ev.XmlDeclEvent? || ev.StartDoctypeEvent? || ev.EndDoctypeEvent? || ev.EntityDeclEvent? || ev.NotationDeclEvent?
    || ev.PIEvent?
  }

  lemma DeclarationEventBytes(fixed: bool, e: SimpleEncoder, d: SimpleDecoder, ev: XmlEvent)
    requires IsDeclaration(ev) && Idle(d) && Agree(e, d) && Decodable(fixed, e, ModeOf(d), ev)
    ensures EventDelivered(fixed, e, d, ev)
  {
    if ev.XmlDeclEvent? { XmlDeclEventBytes(fixed, e, d, ev); }
    else if ev.StartDoctypeEvent? { StartDoctypeEventBytes(fixed, e, d, ev); }
    else if ev.EndDoctypeEvent? { EndDoctypeEventBytes(fixed, e, d, ev); }
    else if ev.EntityDeclEvent? { EntityDeclEventBytes(fixed, e, d, ev); }
    else if ev.NotationDeclEvent? { NotationDeclEventBytes(fixed, e, d, ev); }
    else { PIEventBytes(fixed, e, d, ev); }
  }

  lemma ContentEventBytes(fixed: bool, e: SimpleEncoder, d: SimpleDecoder, ev: XmlEvent)
    requires !IsDeclaration(ev) && Idle(d) && Agree(e, d) && Decodable(fixed, e, ModeOf(d), ev)
    ensures EventDelivered(fixed, e, d, ev)
  {
    if ev.StartElementEvent? { StartElementEventBytes(fixed, e, d, ev); }
    else if ev.EndElementEvent? { EndElementEventBytes(fixed, e, d, ev); }
    else if ev.CharactersEvent? { CharactersEventBytes(fixed, e, d, ev); }
    else if ev.DefaultEvent? { DefaultEventBytes(fixed, e, d, ev); }
    else if ev.CommentEvent? { CommentEventBytes(fixed, e, d, ev); }
    else if ev.StartCDATAEvent? { StartCDATAEventBytes(fixed, e, d, ev); }
    else if ev.EndCDATAEvent? { EndCDATAEventBytes(fixed, e, d, ev); }
    else { UnrecognisedEventBytes(fixed, e, d, ev); }
  }

  /** Every event a decoder in its mode can take comes back as its SAX calls, the two sides agreeing after it. */
  lemma EventBytes(fixed: bool, e: SimpleEncoder, d: SimpleDecoder, ev: XmlEvent)
    requires Idle(d) && Agree(e, d) && Decodable(fixed, e, ModeOf(d), ev)
    ensures EventDelivered(fixed, e, d, ev)
  {
    if IsDeclaration(ev) {
      DeclarationEventBytes(fixed, e, d, ev);
    } else {
      ContentEventBytes(fixed, e, d, ev);
    }
  }

  // ---------------------------------------------------------------------
  // A document
  // ---------------------------------------------------------------------

  lemma PrefixTrans(a: seq<Byte>, b: seq<Byte>, c: seq<Byte>)
    requires |a| <= |b| && b[..|a|] == a && |b| <= |c| && c[..|b|] == b
    ensures |a| <= |c| && c[..|a|] == a
  {
    assert c[..|a|] == c[..|b|][..|a|];
  }

  /** manageEvent called on each event in turn. */
  function EncodeAll(e: SimpleEncoder, evs: seq<XmlEvent>): (r: SimpleEncoder)
    ensures |e.out| <= |r.out| && r.out[..|e.out|] == e.out
    decreases |evs|
  {
    if evs == [] then e
    else
      var e1 := ManageEventOf(e, evs[0]).e;
      var r := EncodeAll(e1, evs[1..]);
      PrefixTrans(e.out, e1.out, r.out);
      r
  }

  /** The SAX calls a sequence of events comes back as. */
  function SaxOfAll(evs: seq<XmlEvent>): seq<SaxEvent>
    decreases |evs|
  {
    if evs == [] then [] else SaxOf(evs[0]) + SaxOfAll(evs[1..])
  }

  function ModeAfter(m: Mode, evs: seq<XmlEvent>): Mode
    decreases |evs|
  {
    if evs == [] then m else ModeAfter(NextMode(m, evs[0]), evs[1..])
  }

  /** Each event decodable in the mode and against the encoder the ones before it leave. */
  predicate DecodableAll(fixed: bool, e: SimpleEncoder, m: Mode, evs: seq<XmlEvent>)
    decreases |evs|
  {
    evs == [] || (Decodable(fixed, e, m, evs[0]) && DecodableAll(fixed, ManageEventOf(e, evs[0]).e, NextMode(m, evs[0]), evs[1..]))
  }

  /** Two stretches of bytes decoded one after the other. */
  lemma DeliveredThen(fixed: bool, d: SimpleDecoder, s1: seq<Byte>, e1: SimpleEncoder, emitted1: seq<SaxEvent>, m1: Mode,
                      s2: seq<Byte>, r: SimpleEncoder, emitted2: seq<SaxEvent>, m2: Mode)
    requires Delivered(fixed, d, s1, e1, emitted1, m1)
    requires Delivered(fixed, DeliverOf(fixed, d, s1).d, s2, r, emitted2, m2)
    ensures Delivered(fixed, d, s1 + s2, r, emitted2, m2)
  {
    DeliverAppend(fixed, Received(d), s1, s2);
  }

  lemma OutSplit(a: seq<Byte>, b: seq<Byte>, c: seq<Byte>)
    requires |a| <= |b| && b[..|a|] == a && |b| <= |c| && c[..|b|] == b
    ensures c[|a|..] == b[|a|..] + c[|b|..]
  {
    assert b[|a|..] == c[|a|..|b|];
  }

  /** What a document's events add to the encoder's output. */
  function SentAll(e: SimpleEncoder, evs: seq<XmlEvent>): seq<Byte>
  {
    var r := EncodeAll(e, evs);
    r.out[|e.out|..]
  }

  lemma SentAllSplit(e: SimpleEncoder, evs: seq<XmlEvent>)
    requires evs != []
    ensures SentAll(e, evs) == Sent(e, evs[0]) + SentAll(ManageEventOf(e, evs[0]).e, evs[1..])
  {
    var e1 := ManageEventOf(e, evs[0]).e;
    OutSplit(e.out, e1.out, EncodeAll(e1, evs[1..]).out);
  }

  /** The first event of a decodable sequence decoded: the rest is decodable from where it leaves the decoder. */
  lemma FirstEvent(fixed: bool, e: SimpleEncoder, d: SimpleDecoder, evs: seq<XmlEvent>)
    requires evs != [] && Idle(d) && Agree(e, d) && DecodableAll(fixed, e, ModeOf(d), evs)
    ensures var e1 := ManageEventOf(e, evs[0]).e;
            var res := DeliverOf(fixed, d, Sent(e, evs[0]));
            Delivered(fixed, d, Sent(e, evs[0]), e1, d.emitted + SaxOf(evs[0]), NextMode(ModeOf(d), evs[0]))
            && Idle(res.d) && Agree(e1, res.d) && DecodableAll(fixed, e1, ModeOf(res.d), evs[1..])
  {
    EventBytes(fixed, e, d, evs[0]);
  }

  /** Decoding the first event, then the rest from where it left the decoder. */
  lemma RestDelivered(fixed: bool, d: SimpleDecoder, s1: seq<Byte>, e1: SimpleEncoder, calls1: seq<SaxEvent>, m1: Mode,
                      s2: seq<Byte>, r: SimpleEncoder, calls2: seq<SaxEvent>, m2: Mode)
    requires Delivered(fixed, d, s1, e1, d.emitted + calls1, m1)
    requires Delivered(fixed, DeliverOf(fixed, d, s1).d, s2, r, DeliverOf(fixed, d, s1).d.emitted + calls2, m2)
    ensures Delivered(fixed, d, s1 + s2, r, d.emitted + (calls1 + calls2), m2)
  {
    assert d.emitted + calls1 + calls2 == d.emitted + (calls1 + calls2);
    DeliveredThen(fixed, d, s1, e1, d.emitted + calls1, m1, s2, r, d.emitted + (calls1 + calls2), m2);
  }

  /** A sequence of events is its first event and the rest. */
  lemma AllUnfold(e: SimpleEncoder, m: Mode, evs: seq<XmlEvent>)
    requires evs != []
    ensures var e1 := ManageEventOf(e, evs[0]).e;
            EncodeAll(e, evs) == EncodeAll(e1, evs[1..])
            && SentAll(e, evs) == Sent(e, evs[0]) + SentAll(e1, evs[1..])
            && SaxOfAll(evs) == SaxOf(evs[0]) + SaxOfAll(evs[1..])
            && ModeAfter(m, evs) == ModeAfter(NextMode(m, evs[0]), evs[1..])
  {
    SentAllSplit(e, evs);
  }

  /**
   * The round trip: the bytes the encoder writes for a sequence of
   * decodable events, given to a decoder in agreement with it, come back
   * as the events' SAX calls in order, the two sides agreeing at the end.
   */
  lemma {:induction false} DocumentRoundTrip(fixed: bool, e: SimpleEncoder, d: SimpleDecoder, evs: seq<XmlEvent>)
    requires Idle(d) && Agree(e, d) && DecodableAll(fixed, e, ModeOf(d), evs)
    ensures Delivered(fixed, d, SentAll(e, evs), EncodeAll(e, evs), d.emitted + SaxOfAll(evs), ModeAfter(ModeOf(d), evs))
    decreases |evs|
  {
    if evs == [] {
      assert SentAll(e, evs) == [];
      Settled(fixed, d, [], e, d);
    } else {
      var e1 := ManageEventOf(e, evs[0]).e;
      var m1 := NextMode(ModeOf(d), evs[0]);
      FirstEvent(fixed, e, d, evs);
      var d1 := DeliverOf(fixed, d, Sent(e, evs[0])).d;
      DocumentRoundTrip(fixed, e1, d1, evs[1..]);
      RestDelivered(fixed, d, Sent(e, evs[0]), e1, SaxOf(evs[0]), m1,
                    SentAll(e1, evs[1..]), EncodeAll(e1, evs[1..]), SaxOfAll(evs[1..]), ModeAfter(m1, evs[1..]));
      AllUnfold(e, ModeOf(d), evs);
    }
  }

  /**
   * A session: a fresh encoder's output for a document, given whole to a
   * fresh decoder, is read back as the document's SAX calls.
   */
  lemma SessionRoundTrip(fixed: bool, evs: seq<XmlEvent>)
    requires DecodableAll(fixed, Fresh, Mode(false, false, false), evs)
    ensures var res := DeliverOf(fixed, Started, EncodeAll(Fresh, evs).out);
            res.Received? && res.d.emitted == SaxOfAll(evs) && Idle(res.d)
            && ModeOf(res.d) == ModeAfter(Mode(false, false, false), evs)
  {
    FreshAgrees();
    RoundTripFrom(fixed, Fresh, Started, evs);
  }

  /** A fresh encoder and a started decoder agree, with nothing written or emitted. */
  lemma FreshAgrees()
    ensures Idle(Started) && Agree(Fresh, Started) && ModeOf(Started) == Mode(false, false, false)
    ensures Started.emitted == [] && Fresh.out == []
  {
  }

  /** The round trip from an encoder that has written nothing and a decoder that has emitted nothing. */
  lemma RoundTripFrom(fixed: bool, e: SimpleEncoder, d: SimpleDecoder, evs: seq<XmlEvent>)
    requires Idle(d) && Agree(e, d) && d.emitted == [] && e.out == []
    requires DecodableAll(fixed, e, ModeOf(d), evs)
    ensures var res := DeliverOf(fixed, d, EncodeAll(e, evs).out);
            res.Received? && res.d.emitted == SaxOfAll(evs) && Idle(res.d) && ModeOf(res.d) == ModeAfter(ModeOf(d), evs)
  {
    DocumentRoundTrip(fixed, e, d, evs);
    SentFromNothing(e, evs);
    assert d.emitted + SaxOfAll(evs) == SaxOfAll(evs);
    DeliveredGives(fixed, d, EncodeAll(e, evs).out, EncodeAll(e, evs), SaxOfAll(evs), ModeAfter(ModeOf(d), evs));
  }

  lemma DeliveredGives(fixed: bool, d: SimpleDecoder, bytes: seq<Byte>, r: SimpleEncoder, emitted: seq<SaxEvent>, m: Mode)
    requires Delivered(fixed, d, bytes, r, emitted, m)
    ensures var res := DeliverOf(fixed, d, bytes);
            res.Received? && res.d.emitted == emitted && Idle(res.d) && ModeOf(res.d) == m
  {
  }

  /** What an encoder that has written nothing sends is its whole output. */
  lemma SentFromNothing(e: SimpleEncoder, evs: seq<XmlEvent>)
    requires e.out == []
    ensures SentAll(e, evs) == EncodeAll(e, evs).out
  {
  }

  // ---------------------------------------------------------------------
  // Two decoder faults, as written and corrected
  // ---------------------------------------------------------------------

  /** Text that does not fill the buffer is kept whole, with nothing emitted. */
  lemma {:induction false} ChunkedShort(buffer: Text, t: Text)
    requires |buffer| + |t| < BufferSize
    ensures Chunked(buffer, t) == ([], buffer + t)
    decreases |t|
  {
    if t == [] {
      assert buffer + t == buffer;
    } else {
      ChunkedShort(buffer + [t[0]], t[1..]);
      assert buffer + [t[0]] + t[1..] == buffer + t;
    }
  }

  /** A delivery that has halted ignores the bytes after the failing one. */
  lemma HaltedByte(fixed: bool, d: SimpleDecoder, c: Byte, rest: seq<Byte>, err: DecodeError)
    requires Feed(fixed, d, c) == Halted(err, d)
    ensures DeliverOf(fixed, d, [c] + rest) == Halted(err, d)
  {
    assert ([c] + rest)[0] == c && ([c] + rest)[1..] == rest;
    assert DeliverNext(fixed, d, [c] + rest) == DeliverFrom(fixed, Halted(err, d), rest);
  }

  /** As written, the byte that fills a comment's buffer stops the call with an over-read. */
  lemma CommentFullByte(d: SimpleDecoder, c: Byte)
    requires d.state == Comment as int && |d.buffer| == BufferSize - 1 && IsXmlByte(c)
    ensures Feed(false, d, c) == Halted(OverRead, d)
  {
    InterceptsNothing(false, d, c);
  }

  /**
   * As written, a comment of 1024 bytes or more halts the decoder: the full
   * 1024-byte buffer is handed to comment() with no terminating zero, so the
   * call reads past the array.
   */
  lemma CommentOverReadAsWritten(t: Text)
    requires XmlText(t) && |t| >= BufferSize
    ensures EncodeAll(Fresh, [CommentEvent(Some(t))]).out == [Comment] + Terminated(t)
    ensures var res := DeliverOf(false, Started, [Comment] + Terminated(t));
            res.Halted? && res.error == OverRead
  {
    var d1 := Started.(state := Comment as int);
    EnterByte(false, Started, Comment, Terminated(t));
    var t1 := t[..BufferSize - 1];
    var c := t[BufferSize - 1];
    var rest := t[BufferSize..] + [EndOfBlock];
    assert Terminated(t) == t1 + ([c] + rest);
    assert XmlText(t1) by {
      forall i | 0 <= i < |t1| ensures IsXmlByte(t1[i]) { assert t1[i] == t[i]; }
    }
    ChunkText(false, d1, t1, [c] + rest);
    ChunkedShort([], t1);
    var d2 := d1.(buffer := t1);
    assert AfterChunks(d1, t1) == d2;
    CommentFullByte(d2, c);
    HaltedByte(false, d2, c, rest, OverRead);
  }

  /** Corrected, the same comment is delivered in pieces of the buffer's size and the decoder returns to None. */
  lemma CommentFixed(t: Text)
    requires XmlText(t)
    ensures var res := DeliverOf(true, Started, EncodeAll(Fresh, [CommentEvent(Some(t))]).out);
            res.Received? && res.d.emitted == DataCalls(Comment as int, t) && res.d.state == NoState
  {
    var ev := CommentEvent(Some(t));
    assert DecodableAll(true, Fresh, Mode(false, false, false), [ev]);
    SessionRoundTrip(true, [ev]);
    assert SaxOfAll([ev]) == SaxOf(ev) + [];
    assert ModeAfter(Mode(false, false, false), [ev]) == Mode(false, false, false);
  }

  /**
   * An empty CDATA section is encoded as two CDATA symbols. As written, the
   * decoder does not close it: the second symbol arrives in the CDATA state,
   * which CHANGE_STATE does not leave, and is read as character data.
   */
  lemma EmptyCDATASent()
    ensures EncodeAll(Fresh, [StartCDATAEvent, EndCDATAEvent]).out == [CDATA, CDATA]
  {
  }

  /** ... and decoded as written, the second symbol is buffered as character data of the open section. */
  lemma EmptyCDATAAsWritten()
    ensures var res := DeliverOf(false, Started, [CDATA, CDATA]);
            res.Received? && res.d.emitted == [StartCDATASax] && res.d.inCDATA && res.d.buffer == [CDATA]
  {
    var d1 := Started.(state := CDATAState, inCDATA := true, emitted := [StartCDATASax]);
    assert [CDATA, CDATA] == [CDATA] + [CDATA];
    CDATAOpenByte(false, Started, [CDATA]);
    var d2 := d1.(buffer := [CDATA]);
    assert Feed(false, d1, CDATA) == Received(d2);
    assert [CDATA] == [CDATA] + [];
    DeliverByte(false, d1, CDATA, [], d2);
  }

  /** Corrected, the empty section is started and ended. */
  lemma EmptyCDATAFixed()
    ensures var res := DeliverOf(true, Started, [CDATA, CDATA]);
            res.Received? && res.d.emitted == [StartCDATASax, EndCDATASax] && Idle(res.d) && !res.d.inCDATA
  {
    var d1 := Started.(state := CDATAState, inCDATA := true, emitted := [StartCDATASax]);
    assert [CDATA, CDATA] == [CDATA] + [CDATA];
    CDATAOpenByte(true, Started, [CDATA]);
    assert Started.(state := CDATAState, inCDATA := true, emitted := Started.emitted + [StartCDATASax]) == d1;
    assert [CDATA] == [CDATA] + [];
    CDATACloseByte(true, d1, []);
    var d2 := d1.(state := NoState, inCDATA := false, emitted := [StartCDATASax, EndCDATASax]);
    assert d1.emitted + [EndCDATASax] == [StartCDATASax, EndCDATASax];
    assert DeliverOf(true, d2, []) == Received(d2);
  }
}
