/**
 * What the two XML models of Exalt share: the XML events the parser hands to
 * an encoding model, the SAX events a decoding model emits, the rule by
 * which a decoder changes state, its fixed-size character buffer, and the
 * streaming reader of Fibonacci codes that resolves known-element ids.
 *
 * Characters are the 8-bit items of the symbol stream (`XmlChar` is one
 * byte wide); a string of an event is its characters before the
 * terminating zero.
 */
module XmlModelBase {

  import opened Wrappers
  import Fibonacci

  type Byte = Fibonacci.byte

  /** A zero-terminated string without its terminator, or a run of character data. */
  type Text = seq<Byte>

  /** Size of the decoder's data buffer. */
  const BufferSize: nat := 1024

  // ---------------------------------------------------------------------
  // Events
  // ---------------------------------------------------------------------

  /** One attribute of a start tag: its name and its value (never null). */
  datatype Attribute = Attribute(name: Text, value: Text)

  /**
   * The events the parser passes to `manageEvent`. A null string is `None`.
   * `standalone` is -1 when the declaration does not say, 0 for "no" and any
   * other value for "yes". `Unrecognised` is an event type the models do
   * not handle.
   */
  datatype XmlEvent =
    | XmlDeclEvent(version: Option<Text>, encoding: Option<Text>, standalone: int)
    | StartDoctypeEvent(doctypeName: Option<Text>, systemId: Option<Text>, publicId: Option<Text>,
                        hasInternalSubset: bool)
    | EndDoctypeEvent
    | EntityDeclEvent(entityName: Option<Text>, isParameterEntity: bool, value: Option<Text>,
                      entitySystemId: Option<Text>, entityPublicId: Option<Text>, notationName: Option<Text>)
    | NotationDeclEvent(notation: Option<Text>, notationSystemId: Option<Text>, notationPublicId: Option<Text>)
    | StartElementEvent(name: Text, attributes: seq<Attribute>)
    | EndElementEvent(endName: Text)
    | CharactersEvent(characters: Text)
    | DefaultEvent(defaultData: Text)
    | CommentEvent(comment: Option<Text>)
    | StartCDATAEvent
    | EndCDATAEvent
    | PIEvent(target: Option<Text>, piData: Option<Text>)
    | Unrecognised(eventType: int)

  /**
   * The calls a decoder makes on its SAX emitter, in the order it makes
   * them. A start tag carries the attribute names and values in document
   * order; `standalone` is 1, 0 or -1.
   */
  datatype SaxEvent =
    | XmlDeclSax(version: Option<Text>, encoding: Option<Text>, standalone: int)
    | StartDoctypeSax(doctypeName: Option<Text>, systemId: Option<Text>, publicId: Option<Text>,
                      hasInternalSubset: bool)
    | EndDoctypeSax
    | EntityDeclSax(entityName: Option<Text>, isParameterEntity: bool, value: Option<Text>,
                    entitySystemId: Option<Text>, entityPublicId: Option<Text>, notationName: Option<Text>)
    | NotationDeclSax(notation: Option<Text>, notationSystemId: Option<Text>, notationPublicId: Option<Text>)
    | StartElementSax(name: Text, attributes: seq<Option<Text>>)
    | EndElementSax(endName: Text)
    | CharacterDataSax(characters: Text)
    | DefaultSax(defaultData: Text)
    | CommentSax(comment: Text)
    | StartCDATASax
    | EndCDATASax
    | PISax(target: Option<Text>, piData: Text)

  /**
   * Why decoding stops: a `FATAL` or a failed `CHECK_POINTER`; a null
   * pointer the code dereferences; a write past the end of the buffer; a
   * Fibonacci code longer than the 64-bit register, whose final shift count
   * would be negative; a code reaching past the Fibonacci table; a string
   * read from a full buffer that holds no terminating zero.
   */
  datatype DecodeError = Fatal | NullDereference | BufferOverrun | CodeTooLong | OutsideTable | OverRead

  /** A byte that the character production of XML 1.0 (section 2.2) admits in text. */
  predicate IsXmlByte(c: Byte)
  {
    c >= 32 || c == 9 || c == 10 || c == 13
  }

  /** Text made of such bytes: none of them is a structural symbol of either model. */
  predicate XmlText(t: Text)
  {
    forall i :: 0 <= i < |t| ==> IsXmlByte(t[i])
  }

  // ---------------------------------------------------------------------
  // CHANGE_STATE
  // ---------------------------------------------------------------------

  /** The state "no structure being read" (`None`, -1) in both models. */
  const NoState: int := -1

  /** The known-element state (symbol 2) in both models. */
  const KnownElementState: int := 2

  datatype StateChange = StateChange(state: int, changed: bool)

  /**
   * CHANGE_STATE(s): the decoder moves to s only from `None` or from s itself,
   * and never while it reads a known element's code; `changed` tells the caller.
   */
  function ChangeState(state: int, s: int): (r: StateChange)
    ensures r.changed <==> state != KnownElementState && (state == NoState || state == s)
    ensures r.changed ==> r.state == s
    ensures !r.changed ==> r.state == state
  {
    if state != KnownElementState && (state == NoState || state == s) then StateChange(s, true)
    else StateChange(state, false)
  }

  /**
   * Once a structure is being read, only a request for that same structure
   * succeeds, until the decoder is reset to `None`.
   */
  lemma ChangeStateHolds(state: int, s: int, t: int)
    requires ChangeState(state, s).changed && s != NoState
    ensures ChangeState(ChangeState(state, s).state, t).changed <==> t == s && s != KnownElementState
    ensures ChangeState(ChangeState(state, s).state, t).state == s
  {
  }

  // ---------------------------------------------------------------------
  // The buffer
  // ---------------------------------------------------------------------

  /**
   * `buffer[bufferLength] = c` followed by `bufferLength++`: None when the
   * write would land past the end of the fixed-size buffer.
   */
  function Put(buffer: Text, c: Byte): (r: Option<Text>)
    ensures r.Some? <==> |buffer| < BufferSize
    ensures r.Some? ==> |r.value| == |buffer| + 1 && r.value[..|buffer|] == buffer && r.value[|buffer|] == c
  {
    if |buffer| < BufferSize then Some(buffer + [c]) else None
  }

  /**
   * Where the data of one section is split at the buffer's size, the chunks
   * emitted and the buffer kept after appending `t` to `buffer`.
   */
  function Chunked(buffer: Text, t: Text): (r: (seq<Text>, Text))
    requires |buffer| < BufferSize
    ensures |r.1| < BufferSize
    ensures forall k :: 0 <= k < |r.0| ==> |r.0[k]| == BufferSize
    ensures Concat(r.0) + r.1 == buffer + t
    decreases |t|
  {
    if t == [] then ([], buffer)
    else
      var b := buffer + [t[0]];
      if |b| == BufferSize then
        var rest := Chunked([], t[1..]);
        assert b + t[1..] == buffer + t;
        assert ([b] + rest.0)[1..] == rest.0;
        assert Concat([b] + rest.0) == b + Concat(rest.0);
        assert Concat([b] + rest.0) + rest.1 == b + (Concat(rest.0) + rest.1);
        ([b] + rest.0, rest.1)
      else
        var rest := Chunked(b, t[1..]);
        assert b + t[1..] == buffer + t;
        rest
  }

  function Concat(chunks: seq<Text>): Text
  {
    if chunks == [] then [] else chunks[0] + Concat(chunks[1..])
  }

  // ---------------------------------------------------------------------
  // Streaming Fibonacci reading
  // ---------------------------------------------------------------------

  /**
   * The registers a decoder keeps across bytes while it reads a Fibonacci
   * code: the 64-bit `fibCode`, the count `fibBits` of bits read, and
   * `fibLastWasOne`.
   */
  datatype FibRegister = FibRegister(code: nat, bits: nat, lastWasOne: bool)

  const FibIdle: FibRegister := FibRegister(0, 0, false)

  /** The register after some bits, the finished code word, or a code too long to shift back. */
  datatype FibRead = Pending(register: FibRegister) | Complete(code: nat) | TooLong

  /**
   * One bit: the register shifts right and a one enters at bit 63; the second
   * of two adjacent ones finishes the code, and the register is shifted down
   * by the 64 - fibBits places it did not fill.
   */
  function FibBit(r: FibRegister, b: bool): FibRead
  {
    var code := r.code / 2 + (if b then Fibonacci.Pow2(63) else 0);
    if b && r.lastWasOne then
      if r.bits + 1 > 64 then TooLong else Complete(code / Fibonacci.Pow2(64 - (r.bits + 1)))
    else Pending(FibRegister(code, r.bits + 1, b))
  }

  /** Bits g fed to the register in order, stopping at the end of the code. */
  function FibBits(r: FibRegister, g: seq<bool>): FibRead
    decreases |g|
  {
    if g == [] then Pending(r)
    else match FibBit(r, g[0])
      case Pending(r') => FibBits(r', g[1..])
      case other => other
  }

  /** One byte of a code, read from its most significant bit down; bits after the end are padding. */
  function FibByte(r: FibRegister, c: Byte): FibRead
  {
    FibBits(r, Fibonacci.ByteBits(c))
  }

  /** The register a reader has after the first k bits of a code stream. */
  predicate ReadSoFar(r: FibRegister, bits: seq<bool>, k: nat, stop: nat)
  {
    k <= stop < |bits| && stop < 64 && r.bits == k
    && r.code == Fibonacci.Window(bits, k) && Fibonacci.FindStop(bits, k, r.lastWasOne) == Some(stop)
  }

  /** A bit before the stop bit keeps the reader on track; the stop bit completes the code. */
  lemma FibBitOnTrack(r: FibRegister, bits: seq<bool>, stop: nat)
    requires ReadSoFar(r, bits, r.bits, stop)
    ensures r.bits < stop ==> FibBit(r, bits[r.bits]).Pending? && ReadSoFar(FibBit(r, bits[r.bits]).register, bits, r.bits + 1, stop)
    ensures r.bits == stop ==> FibBit(r, bits[r.bits]) == Complete(Fibonacci.Val(bits[..stop + 1]))
  {
    var k := r.bits;
    Fibonacci.WindowStep(bits, k);
    if k == stop {
      assert bits[k] && r.lastWasOne;
      Fibonacci.WindowFinal(bits, k + 1);
    } else {
      assert !(bits[k] && r.lastWasOne);
    }
  }

  /** The bits of g, which sit at bits[base..], read by a register on track at base. */
  lemma {:induction false} FibBitsOnTrack(r: FibRegister, bits: seq<bool>, stop: nat, g: seq<bool>, base: nat)
    requires base + |g| <= |bits| && bits[base..base + |g|] == g
    requires ReadSoFar(r, bits, base, stop)
    ensures stop < base + |g| ==> FibBits(r, g) == Complete(Fibonacci.Val(bits[..stop + 1]))
    ensures base + |g| <= stop ==> FibBits(r, g).Pending? && ReadSoFar(FibBits(r, g).register, bits, base + |g|, stop)
    decreases |g|
  {
    if g != [] {
      assert bits[r.bits] == g[0];
      FibBitOnTrack(r, bits, stop);
      if r.bits < stop {
        assert bits[base + 1..base + 1 + |g[1..]|] == g[1..];
        FibBitsOnTrack(FibBit(r, g[0]).register, bits, stop, g[1..], base + 1);
      }
    }
  }

  /** The bits of a stream, eight per byte, each byte from its top bit down. */
  predicate SlicedAs(bits: seq<bool>, bytes: seq<Byte>)
  {
    |bits| == 8 * |bytes| && forall c :: 0 <= c < |bytes| ==> bits[8 * c..8 * c + 8] == Fibonacci.ByteBits(bytes[c])
  }

  lemma StreamSliced(bytes: seq<Byte>)
    ensures SlicedAs(Fibonacci.StreamBits(bytes), bytes)
  {
    forall c | 0 <= c < |bytes|
      ensures Fibonacci.StreamBits(bytes)[8 * c..8 * c + 8] == Fibonacci.ByteBits(bytes[c])
    {
      SliceIsByte(bytes, c);
    }
  }

  lemma SliceIsByte(bytes: seq<Byte>, c: nat)
    requires c < |bytes|
    ensures Fibonacci.StreamBits(bytes)[8 * c..8 * c + 8] == Fibonacci.ByteBits(bytes[c])
  {
    var g := Fibonacci.ByteBits(bytes[c]);
    var s := Fibonacci.StreamBits(bytes)[8 * c..8 * c + 8];
    forall t | 0 <= t < 8
      ensures s[t] == g[t]
    {
      Fibonacci.StreamBitsAt(bytes, c, t);
    }
  }

  /**
   * A byte whose bits sit at bits[base..], read by a register that has taken
   * the bits before it: pending while the stop bit lies further on,
   * otherwise the finished code word, the byte's trailing bits ignored.
   */
  lemma FibByteOnTrack(r: FibRegister, bits: seq<bool>, b: Byte, base: nat, stop: nat)
    requires base + 8 <= |bits| && bits[base..base + 8] == Fibonacci.ByteBits(b)
    requires ReadSoFar(r, bits, base, stop)
    ensures stop < base + 8 ==> FibByte(r, b) == Complete(Fibonacci.Val(bits[..stop + 1]))
    ensures base + 8 <= stop ==> FibByte(r, b).Pending? && ReadSoFar(FibByte(r, b).register, bits, base + 8, stop)
  {
    FibBitsOnTrack(r, bits, stop, Fibonacci.ByteBits(b), base);
  }
  /** Where a stream holds a readable code, the idle register is on track at its start. */
  lemma IdleOnTrack(bytes: seq<Byte>)
    requires Fibonacci.FixedDecode(bytes, 1).Some?
    ensures Fibonacci.FindStop(Fibonacci.StreamBits(bytes), 0, false).Some?
    ensures ReadSoFar(FibIdle, Fibonacci.StreamBits(bytes), 0, Fibonacci.FindStop(Fibonacci.StreamBits(bytes), 0, false).value)
  {
    var bits := Fibonacci.StreamBits(bytes);
    var stop := Fibonacci.FindStop(bits, 0, false).value;
    Fibonacci.FixedDecodeAt(bytes, 1, stop);
    assert Fibonacci.Zeros(64) + bits[..0] == Fibonacci.Zeros(64);
    Fibonacci.ValOfZeros(64);
  }

  /**
   * The bytes encodeToBuffer writes for id n (one-byte items): a reader fed
   * them from the idle register stays pending up to the last one, which
   * completes a code word that Fibonacci::decode turns back into n.
   */
  lemma StreamedId(n: nat)
    requires 1 <= n < Fibonacci.FibLimit
    ensures var bytes := Fibonacci.EncodedBuffer(n, 1);
            var stop := Fibonacci.FindStop(Fibonacci.StreamBits(bytes), 0, false);
            |bytes| >= 1 && stop.Some? && stop.value / 8 + 1 == |bytes|
            && ReadSoFar(FibIdle, Fibonacci.StreamBits(bytes), 0, stop.value) && SlicedAs(Fibonacci.StreamBits(bytes), bytes)
            && Fibonacci.Val(Fibonacci.StreamBits(bytes)[..stop.value + 1]) < Fibonacci.ULongLimit
            && Fibonacci.DecodeFrom(Fibonacci.Val(Fibonacci.StreamBits(bytes)[..stop.value + 1]), 0, false) == Some(n)
  {
    var bytes := Fibonacci.EncodedBuffer(n, 1);
    Fibonacci.BufferRoundTrip(n, 1, []);
    assert bytes + [] == bytes;
    IdleOnTrack(bytes);
    var bits := Fibonacci.StreamBits(bytes);
    var stop := Fibonacci.FindStop(bits, 0, false).value;
    Fibonacci.FixedDecodeAt(bytes, 1, stop);
    Fibonacci.ItemsOfBytes(stop, 1);
    Fibonacci.WindowFinal(bits, stop + 1);
    StreamSliced(bytes);
    assert |Fibonacci.EncodedBuffer(n, 1)| / 1 == |Fibonacci.EncodedBuffer(n, 1)|;
  }
}
