/**
 * XmlSimpleModel as an object: the fields of the C++ class, updated in
 * place by manageEvent (encoding) and receiveData (decoding). The grammar
 * the encoder appends to and the SAX emitter the decoder calls are
 * sequences the methods extend. Id counter and element stack are shared by
 * the two directions, as in the class. Every method leaves the state that
 * the functions of modules XmlSimpleEncoding and XmlSimpleDecoding compute
 * from the state before it, so the round-trip lemmas of XmlSimpleRoundTrip
 * hold of the object.
 */
module XmlSimpleModelObject {

  import opened Wrappers
  import opened XmlModelBase
  import opened XmlSimpleEncoding
  import opened XmlSimpleDecoding
  import XmlSimpleRoundTrip

  /** Concatenation regrouped, for the loop over a start tag's attributes. */
  lemma Regroup(a: seq<Byte>, b: seq<Byte>, c: seq<Byte>, d: seq<Byte>)
    ensures a + b + c + d == a + (b + c + d)
  {
  }

  lemma RegroupList(o: seq<Byte>, b: seq<Byte>, w: seq<Byte>, c: seq<Byte>, n: seq<Byte>)
    ensures o + b + w + c + n == o + (b + w + c) + n
  {
  }

  /** The fields of a start tag's encoder, from the grammar once its attribute list is written. */
  lemma StartElementFields(e: SimpleEncoder, name: Text, attrs: seq<Attribute>, a: Named, n: Named, r: SimpleEncoder)
    requires a == if attrs == [] then Named([], e.ids, e.counter, 0) else AttributesOf(e.ids, e.counter, attrs)
    requires n == NameOf(a.ids, a.counter, name)
    requires r.ids == n.ids && r.counter == n.counter && r.stack == e.stack + [n.id] && r.alphabetBaseSize == e.alphabetBaseSize
    requires r.out == (if attrs == [] then e.out else e.out + [Attributes] + a.symbols + [EndOfBlock]) + n.symbols
    ensures r == StartElementOf(e, name, attrs)
  {
    var prefix := if attrs == [] then [] else [Attributes] + a.symbols + [EndOfBlock];
    if attrs != [] {
      RegroupList(e.out, [Attributes], a.symbols, [EndOfBlock], n.symbols);
    } else {
      assert e.out + [] == e.out;
    }
    assert r.out == e.out + prefix + n.symbols;
  }

  class XmlSimpleModel {
    /** The next id to give a new element or attribute name. */
    var elementCounter: nat
    /** The ids of the open elements, innermost last. */
    var elementStack: seq<nat>

    /** elementIds: the id of every name seen while encoding. */
    var elementIds: map<Text, nat>
    /** What has been appended to the grammar, oldest first. */
    var grammar: seq<Byte>
    /** The alphabet size last set on the grammar from an XML declaration. */
    var alphabetBaseSize: Option<nat>

    /** elements: the name of every id learnt while decoding. */
    var elements: map<nat, Text>
    var state: int
    var buffer: Text
    var fibCode: nat
    var fibBits: nat
    var fibLastWasOne: bool
    var dataQueue: seq<Option<Text>>
    var inCDATA: bool
    var inDoctype: bool
    var elementHasAttributes: bool
    var attributeListComplete: bool
    /** The calls made to the SAX emitter, oldest first. */
    var emitted: seq<SaxEvent>

    /** The fields manageEvent works on. */
    function Encoder(): SimpleEncoder
      reads this
    {
      SimpleEncoder(elementIds, elementCounter, elementStack, grammar, alphabetBaseSize)
    }

    /** The fields receiveData works on. */
    function Decoder(): SimpleDecoder
      reads this
    {
      SimpleDecoder(state, buffer, FibRegister(fibCode, fibBits, fibLastWasOne), dataQueue,
                    inCDATA, inDoctype, elementHasAttributes, attributeListComplete,
                    elementStack, elements, elementCounter, emitted)
    }

    /** The constructor: no names, the counter at 1, state None, nothing read. */
    constructor()
      ensures Encoder() == Fresh && Decoder() == Started
    {
      elementCounter := 1;
      elementStack := [];
      elementIds := map[];
      grammar := [];
      alphabetBaseSize := None;
      elements := map[];
      state := NoState;
      buffer := [];
      fibCode := 0;
      fibBits := 0;
      fibLastWasOne := false;
      dataQueue := [];
      inCDATA := false;
      inDoctype := false;
      elementHasAttributes := false;
      attributeListComplete := false;
      emitted := [];
    }

    /**
     * An element or attribute name: a known one is referred to by
     * KnownElement and its id's Fibonacci buffer; a new one takes the
     * counter as its id and is spelled out after NewElement.
     */
    method AppendName(name: Text) returns (id: nat)
      modifies this`elementIds, this`elementCounter, this`grammar
      ensures var n := NameOf(old(elementIds), old(elementCounter), name);
              elementIds == n.ids && elementCounter == n.counter && grammar == old(grammar) + n.symbols && id == n.id
    {
      if name in elementIds {
        id := elementIds[name];
        grammar := grammar + Reference(id);
      } else {
        id := elementCounter;
        elementIds := elementIds[name := id];
        elementCounter := elementCounter + 1;
        grammar := grammar + [NewElement] + Terminated(name);
      }
    }

    /** A start tag's attributes in order: each name, then its value (EmptyString for an empty one). */
    method AppendAttributes(attrs: seq<Attribute>)
      modifies this`elementIds, this`elementCounter, this`grammar
      ensures var a := AttributesOf(old(elementIds), old(elementCounter), attrs);
              grammar == old(grammar) + a.symbols && elementIds == a.ids && elementCounter == a.counter
    {
      var i := 0;
      while i < |attrs|
        invariant 0 <= i <= |attrs|
        invariant var whole := AttributesOf(old(elementIds), old(elementCounter), attrs);
                  var tail := AttributesOf(elementIds, elementCounter, attrs[i..]);
                  grammar + tail.symbols == old(grammar) + whole.symbols
                  && tail.ids == whole.ids && tail.counter == whole.counter
      {
        ghost var before := grammar;
        ghost var first := NameOf(elementIds, elementCounter, attrs[i].name);
        ghost var next := AttributesOf(first.ids, first.counter, attrs[i + 1..]);
        assert attrs[i..][0] == attrs[i] && attrs[i..][1..] == attrs[i + 1..];
        var _ := AppendName(attrs[i].name);
        if attrs[i].value == [] {
          grammar := grammar + [EmptyString];
        } else {
          grammar := grammar + Terminated(attrs[i].value);
        }
        Regroup(before, first.symbols, ValueOf(attrs[i].value), next.symbols);
        i := i + 1;
      }
      assert attrs[i..] == [];
      assert grammar + [] == grammar;
    }

    /**
     * A start tag: when it has attributes, Attributes, the attributes and
     * EndOfBlock; then the element's name, whose id is pushed.
     */
    method StartElement(name: Text, attrs: seq<Attribute>)
      modifies this`elementIds, this`elementCounter, this`grammar, this`elementStack
      ensures Encoder() == StartElementOf(old(Encoder()), name, attrs)
    {
      ghost var a := if attrs == [] then Named([], elementIds, elementCounter, 0)
                     else AttributesOf(elementIds, elementCounter, attrs);
      if attrs != [] {
        grammar := grammar + [Attributes];
        AppendAttributes(attrs);
        grammar := grammar + [EndOfBlock];
      }
      ghost var n := NameOf(elementIds, elementCounter, name);
      var id := AppendName(name);
      elementStack := elementStack + [id];
      StartElementFields(old(Encoder()), name, attrs, a, n, Encoder());
    }

    /**
     * manageEvent: the event's symbols are appended to the grammar and the
     * ids, counter and stack updated; the answer is manageEvent's, or the
     * error that stops it. The decoding fields are left alone.
     */
    method ManageEvent(ev: XmlEvent) returns (accepted: bool, error: Option<EncodeError>)
      modifies this`elementIds, this`elementCounter, this`grammar, this`elementStack, this`alphabetBaseSize
      ensures var r := ManageEventOf(old(Encoder()), ev);
              Encoder() == r.e
              && (if r.Returned? then accepted == r.accepted && error == None else !accepted && error == Some(r.error))
    {
      if ev.StartElementEvent? {
        StartElement(ev.name, ev.attributes);
        accepted, error := true, None;
      } else {
        var r := ManageOtherEventOf(Encoder(), ev);
        elementStack, grammar, alphabetBaseSize := r.e.stack, r.e.out, r.e.alphabetBaseSize;
        if r.Returned? {
          accepted, error := r.accepted, None;
        } else {
          accepted, error := false, Some(r.error);
        }
      }
    }

    /** The state, the buffer, the data queue and the Fibonacci registers set from `d`. */
    method SetRegisters(d: SimpleDecoder)
      modifies this`state, this`buffer, this`dataQueue, this`fibCode, this`fibBits, this`fibLastWasOne
      ensures state == d.state && buffer == d.buffer && dataQueue == d.queue
      ensures FibRegister(fibCode, fibBits, fibLastWasOne) == d.fib
    {
      state, buffer, dataQueue := d.state, d.buffer, d.queue;
      fibCode, fibBits, fibLastWasOne := d.fib.code, d.fib.bits, d.fib.lastWasOne;
    }

    /** The four flags set from `d`. */
    method SetFlags(d: SimpleDecoder)
      modifies this`inCDATA, this`inDoctype, this`elementHasAttributes, this`attributeListComplete
      ensures inCDATA == d.inCDATA && inDoctype == d.inDoctype
      ensures elementHasAttributes == d.hasAttributes && attributeListComplete == d.listComplete
    {
      inCDATA, inDoctype := d.inCDATA, d.inDoctype;
      elementHasAttributes, attributeListComplete := d.hasAttributes, d.listComplete;
    }

    /** The stack, the elements table, the counter and the SAX calls set from `d`. */
    method SetTables(d: SimpleDecoder)
      modifies this`elementStack, this`elements, this`elementCounter, this`emitted
      ensures elementStack == d.stack && elements == d.names && elementCounter == d.counter && emitted == d.emitted
    {
      elementStack, elements, elementCounter, emitted := d.stack, d.names, d.counter, d.emitted;
    }

    /** All fields receiveData works on set from `d`. */
    method SetDecoder(d: SimpleDecoder)
      modifies this`state, this`buffer, this`dataQueue, this`fibCode, this`fibBits, this`fibLastWasOne
      modifies this`inCDATA, this`inDoctype, this`elementHasAttributes, this`attributeListComplete
      modifies this`elementStack, this`elements, this`elementCounter, this`emitted
      ensures Decoder() == d
    {
      SetRegisters(d);
      SetFlags(d);
      SetTables(d);
    }

    /**
     * receiveData(data, size): each byte in turn passes the filter and the
     * state machine, with the loop's locals carried from byte to byte. An
     * error stops the call with the fields as the last whole byte left
     * them. The encoding fields are left alone.
     */
    method ReceiveData(fixed: bool, data: seq<Byte>) returns (error: Option<DecodeError>)
      modifies this`state, this`buffer, this`dataQueue, this`fibCode, this`fibBits, this`fibLastWasOne
      modifies this`inCDATA, this`inDoctype, this`elementHasAttributes, this`attributeListComplete
      modifies this`elementStack, this`elements, this`elementCounter, this`emitted
      ensures var r := ReceiveDataOf(fixed, old(Decoder()), data);
              Decoder() == r.d && (if r.Halted? then error == Some(r.error) else error == None)
    {
      var i := 0;
      var loc := Entry;
      while i < |data|
        invariant 0 <= i <= |data|
        invariant ReceiveFrom(fixed, Decoder(), data, i, loc) == ReceiveDataOf(fixed, old(Decoder()), data)
        decreases |data| - i
      {
        var step := ByteStep(fixed, Decoder(), data[i], data[0], loc);
        ReceiveStep(fixed, Decoder(), data, i, loc);
        if step.Stopped? {
          return Some(step.error);
        }
        SetDecoder(step.d);
        loc := step.loc;
        i := i + 1;
      }
      return None;
    }
  }

  /** One turn of receiveData's loop: the byte's step, then the rest of the data or the error. */
  lemma ReceiveStep(fixed: bool, d: SimpleDecoder, data: seq<Byte>, i: nat, loc: Locals)
    requires i < |data|
    ensures var step := ByteStep(fixed, d, data[i], data[0], loc);
            ReceiveFrom(fixed, d, data, i, loc)
            == if step.Running? then ReceiveFrom(fixed, step.d, data, i + 1, step.loc) else Halted(step.error, d)
  {
  }

  /** manageEvent called on each event in turn on `model`; a failing call does not stop the run. */
  method ManageEvents(model: XmlSimpleModel, evs: seq<XmlEvent>)
    modifies model
    ensures model.Encoder() == XmlSimpleRoundTrip.EncodeAll(old(model.Encoder()), evs)
  {
    var i := 0;
    while i < |evs|
      invariant 0 <= i <= |evs|
      invariant XmlSimpleRoundTrip.EncodeAll(model.Encoder(), evs[i..]) == XmlSimpleRoundTrip.EncodeAll(old(model.Encoder()), evs)
    {
      assert evs[i..][0] == evs[i] && evs[i..][1..] == evs[i + 1..];
      var _, _ := model.ManageEvent(evs[i]);
      i := i + 1;
    }
  }

  /** One byte of a delivery: its receiveData call, then the rest from what it left. */
  lemma DeliverStep(fixed: bool, d: SimpleDecoder, rest: seq<Byte>)
    requires rest != []
    ensures Feed(fixed, d, rest[0]) == ReceiveDataOf(fixed, d, [rest[0]])
    ensures DeliverFrom(fixed, Received(d), rest) == DeliverFrom(fixed, Feed(fixed, d, rest[0]), rest[1..])
    ensures Feed(fixed, d, rest[0]).Halted? ==> DeliverFrom(fixed, Received(d), rest) == Feed(fixed, d, rest[0])
  {
    FeedIsReceiveData(fixed, d, rest[0]);
  }

  /**
   * receiveData called once per byte on `model`, as the grammar delivers its
   * output; the first error stops the run.
   */
  method ReceiveBytes(model: XmlSimpleModel, fixed: bool, bytes: seq<Byte>) returns (error: Option<DecodeError>)
    modifies model
    ensures var r := DeliverOf(fixed, old(model.Decoder()), bytes);
            (if r.Halted? then error == Some(r.error) else error == None) && model.Decoder() == r.d
  {
    var j := 0;
    while j < |bytes|
      invariant 0 <= j <= |bytes|
      invariant DeliverFrom(fixed, Received(model.Decoder()), bytes[j..]) == DeliverOf(fixed, old(model.Decoder()), bytes)
    {
      ghost var d := model.Decoder();
      DeliverStep(fixed, d, bytes[j..]);
      assert bytes[j..][0] == bytes[j] && bytes[j..][1..] == bytes[j + 1..];
      error := model.ReceiveData(fixed, [bytes[j]]);
      if error != None {
        return;
      }
      j := j + 1;
    }
    error := None;
  }

  /**
   * A fresh object that encodes events and a fresh one that receives the
   * grammar's bytes one call per byte end with the SAX calls of the events:
   * the round trip of XmlSimpleRoundTrip carried over to the objects.
   */
  method RoundTripObjects(fixed: bool, evs: seq<XmlEvent>) returns (calls: seq<SaxEvent>, error: Option<DecodeError>)
    requires XmlSimpleRoundTrip.DecodableAll(fixed, Fresh, XmlSimpleRoundTrip.Mode(false, false, false), evs)
    ensures error == None && calls == XmlSimpleRoundTrip.SaxOfAll(evs)
  {
    var encoder := new XmlSimpleModel();
    ManageEvents(encoder, evs);
    var decoder := new XmlSimpleModel();
    XmlSimpleRoundTrip.SessionRoundTrip(fixed, evs);
    error := ReceiveBytes(decoder, fixed, encoder.grammar);
    calls := decoder.emitted;
  }
}
