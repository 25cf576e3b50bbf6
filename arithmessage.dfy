/**
 * A whole message through the arithmetic coder (FRUGAL_BITS): the bytes a
 * fresh output receives from startOutputtingBits, startEncode, a run of
 * arithmeticEncode calls, finishEncode and doneOutputtingBits, read back
 * by startInputtingBits, startDecode and the same run of
 * arithmeticDecodeTarget / arithmeticDecode calls, give each call a target
 * inside the interval that was encoded.
 *
 * The proof follows the code value bit by bit.  T is the stream the
 * decoder sees: the dropped leading 0, the bytes written, and the 32 zero
 * bits the input's garbage allowance supplies past the end.  At every
 * moment of encoding, the bits the encoder has committed to are a prefix
 * of T, and the decoder's D is the offset of T's next 32-bit window past
 * the outstanding follow bits from L.  finishEncode puts that offset
 * inside the last interval, and each renormalisation round and narrowing
 * carries the fact back to every earlier one.
 */
module ArithMessages {
  import opened ArithCoding
  import opened ArithStream
  import opened ArithReadStream

  // ---------------------------------------------------------------------
  // A message of symbols
  // ---------------------------------------------------------------------

  /** A coded symbol: the interval [low, high) out of total, as a model hands it to arithmeticEncode. */
  datatype Interval = Interval(low: int, high: int, total: int)

  predicate CodedOk(s: Interval)
  {
    0 <= s.low < s.high <= s.total && TotalInRange(s.total)
  }

  predicate MessageOk(msg: seq<Interval>)
  {
    forall i :: 0 <= i < |msg| ==> CodedOk(msg[i])
  }

  /** arithmeticEncode on each symbol in turn; the first FATAL ends the message. */
  function EncodeAllOf(e: Encoder, msg: seq<Interval>): (r: Outcome<Encoder>)
    requires EncoderValid(e) && MessageOk(msg)
    ensures r.Done? ==> EncoderValid(r.value) && Emitted(e) <= Emitted(r.value)
    ensures r.Fatal? ==> r.error == BitsOutstandingLimit
    decreases |msg|
  {
    if msg == [] then Done(e)
    else
      var s := msg[0];
      ArithmeticEncodeValid(e, s.low, s.high, s.total);
      match ArithmeticEncodeOf(e, s.low, s.high, s.total)
      case Fatal(err) => Fatal(err)
      case Done(e1) => EncodeAllOf(e1, msg[1..])
  }

  /** The encoder after arithmeticEncode has narrowed the interval to the symbol, before renormalising. */
  function Narrow(e: Encoder, s: Interval): Encoder
    requires s.total > 0
  {
    var (L, R) := EncodeInterval(e.L, e.R, s.low, s.high, s.total);
    e.(L := L, R := R)
  }

  /** arithmeticEncode is the narrowing and then ENCODE_RENORMALISE, and the narrowing keeps the invariants. */
  lemma ArithmeticEncodeIs(e: Encoder, s: Interval)
    requires EncoderValid(e) && CodedOk(s)
    ensures CoderShape(Narrow(e, s))
    ensures FreshWhileFlagged(e) ==> FreshWhileFlagged(Narrow(e, s))
    ensures ArithmeticEncodeOf(e, s.low, s.high, s.total).Done? ==>
      ArithmeticEncodeOf(e, s.low, s.high, s.total).value == EncodeRenormaliseOf(Narrow(e, s))
  {
    EncodeIntervalInside(e.L, e.R, s.low, s.high, s.total);
  }

  /** Narrowing moves L up by low * r and leaves the committed bits alone, so the offset drops by low * r. */
  lemma NarrowOffset(e: Encoder, s: Interval, T: seq<bool>)
    requires FreshWhileFlagged(e) && s.total > 0
    ensures Tracks(Narrow(e, s), T) == Tracks(e, T)
    ensures Tracks(e, T) ==> Offset(Narrow(e, s), T) == Offset(e, T) - s.low * (e.R / s.total)
  {
    var n := Narrow(e, s);
    assert n.L == e.L + s.low * (e.R / s.total);
    assert Committed(n) == Committed(e) && n.outstanding == e.outstanding;
  }

  /**
   * Every encoder of the message holds the code value: the stream tracks
   * it and the offset lies in [0, R).  finishEncode fixes this for the
   * last encoder, and each symbol carries it back through
   * ENCODE_RENORMALISE and the narrowing.
   */
  lemma {:induction false} CodeValueInside(e: Encoder, msg: seq<Interval>, T: seq<bool>)
    requires Encodes(e, msg, T)
    ensures Tracks(e, T) && 0 <= Offset(e, T) < e.R
    decreases |msg|
  {
    if msg == [] {
      FinalInside(e);
    } else {
      var s := msg[0];
      var n := Narrow(e, s);
      var e1 := EncodesRest(e, msg, T);
      CodeValueInside(e1, msg[1..], T);
      RenormaliseOffset(n, T);
      NarrowOffset(e, s, T);
      EncodeIntervalInside(e.L, e.R, s.low, s.high, s.total);
    }
  }

  /** T is the stream of the message msg, encoded from e on. */
  predicate Encodes(e: Encoder, msg: seq<Interval>, T: seq<bool>)
  {
    EncoderValid(e) && FreshWhileFlagged(e) && MessageOk(msg) &&
    EncodeAllOf(e, msg).Done? && T == StreamOf(EncodeAllOf(e, msg).value)
  }

  /** After the first symbol, T is the stream of the rest of the message. */
  lemma EncodesRest(e: Encoder, msg: seq<Interval>, T: seq<bool>) returns (e1: Encoder)
    requires Encodes(e, msg, T) && msg != []
    ensures CodedOk(msg[0])
    ensures CoderShape(Narrow(e, msg[0])) && FreshWhileFlagged(Narrow(e, msg[0]))
    ensures ArithmeticEncodeOf(e, msg[0].low, msg[0].high, msg[0].total) == Done(e1)
    ensures e1 == EncodeRenormaliseOf(Narrow(e, msg[0]))
    ensures Encodes(e1, msg[1..], T)
  {
    var s := msg[0];
    ArithmeticEncodeIs(e, s);
    ArithmeticEncodeValid(e, s.low, s.high, s.total);
    e1 := EncodeRenormaliseOf(Narrow(e, s));
    assert ArithmeticEncodeOf(e, s.low, s.high, s.total) == Done(e1);
    RenormaliseKeepsFresh(Narrow(e, s));
  }

  /** The bytes of a first message: startOutputtingBits, startEncode, arithmeticEncode per symbol, finishEncode, doneOutputtingBits. */
  function EncodeMessageOf(e: Encoder, msg: seq<Interval>): Outcome<seq<int>>
    requires e.numberOfBytes == |e.bytes| && MessageOk(msg)
  {
    StartEncodeValid(StartOutputtingBitsOf(e));
    match EncodeAllOf(StartEncodeOf(StartOutputtingBitsOf(e)), msg)
    case Fatal(err) => Fatal(err)
    case Done(en) => Done(DoneOutputtingBitsOf(FinishEncodeOf(en)).bytes)
  }

  // ---------------------------------------------------------------------
  // The decoder against the encoder
  // ---------------------------------------------------------------------

  /**
   * The decoder mirrors the encoder on T: the same R, D the encoder's
   * offset, and the reader about to deliver the bit after the window.
   */
  predicate Mirrors(e: Encoder, d: Decoder, T: seq<bool>)
  {
    Tracks(e, T) && d.R == e.R && d.D == Offset(e, T) &&
    ReaderValid(d.reader) && ReadStream(d.reader) == T[Pos(e) + 32..]
  }

  /** DECODE_RENORMALISE keeps step with ENCODE_RENORMALISE: each round reads the bit that enters the window. */
  lemma {:induction false} RenormaliseMirrored(e: Encoder, d: Decoder, T: seq<bool>)
    requires CoderShape(e) && FreshWhileFlagged(e)
    requires Tracks(EncodeRenormaliseOf(e), T) && Mirrors(e, d, T)
    ensures DecodeRenormaliseOf(d).Done?
    ensures Mirrors(EncodeRenormaliseOf(e), DecodeRenormaliseOf(d).value, T)
    ensures DecodeRenormaliseOf(d).value.r == d.r
    decreases Quarter - e.R
  {
    if e.R <= Quarter {
      MirrorStep(e, d, T);
      RenormaliseMirrored(RenormStep(e), DecodeRound(d, AddNextInputBitOf(d.reader, d.D, BBits).value), T);
    }
  }

  /** One round of DECODE_RENORMALISE, given the reader and D after ADD_NEXT_INPUT_BIT. */
  function DecodeRound(d: Decoder, x: (Reader, int)): Decoder
  {
    d.(R := 2 * d.R, V := 2 * d.V + (if x.1 % 2 == 1 then 1 else 0), D := x.1, reader := x.0)
  }

  /** One round of each: the encoder's window moves on a bit, and the decoder reads exactly that bit into D. */
  lemma MirrorStep(e: Encoder, d: Decoder, T: seq<bool>)
    requires CoderShape(e) && e.R <= Quarter && FreshWhileFlagged(e)
    requires Tracks(EncodeRenormaliseOf(e), T) && Mirrors(e, d, T)
    ensures CoderShape(RenormStep(e)) && FreshWhileFlagged(RenormStep(e))
    ensures EncodeRenormaliseOf(RenormStep(e)) == EncodeRenormaliseOf(e)
    ensures AddNextInputBitOf(d.reader, d.D, BBits).Done?
    ensures var n := DecodeRound(d, AddNextInputBitOf(d.reader, d.D, BBits).value);
      Mirrors(RenormStep(e), n, T) && n.r == d.r && DecodeRenormaliseOf(d) == DecodeRenormaliseOf(n)
  {
    EncodeStep(e, T);
    DecodeStep(d, T, Pos(e) + 32);
  }

  /** One round of ENCODE_RENORMALISE: the window moves on a bit and the offset doubles, taking in that bit. */
  lemma EncodeStep(e: Encoder, T: seq<bool>)
    requires CoderShape(e) && e.R <= Quarter && FreshWhileFlagged(e)
    requires Tracks(EncodeRenormaliseOf(e), T)
    ensures CoderShape(RenormStep(e)) && FreshWhileFlagged(RenormStep(e))
    ensures EncodeRenormaliseOf(RenormStep(e)) == EncodeRenormaliseOf(e)
    ensures Tracks(e, T) && Tracks(RenormStep(e), T) && Pos(RenormStep(e)) == Pos(e) + 1
    ensures RenormStep(e).R == 2 * e.R
    ensures Offset(RenormStep(e), T) == 2 * Offset(e, T) + Bit(T[Pos(e) + 32])
  {
    var e1 := RenormStep(e);
    RenormStepShape(e);
    StepClearsFlag(e);
    RenormaliseOffset(e1, T);
    StepOffset(e, T);
  }

  /** One round of DECODE_RENORMALISE reading the stream from p: D doubles, taking in the bit at p. */
  lemma DecodeStep(d: Decoder, T: seq<bool>, p: nat)
    requires 1 <= d.R <= Quarter && ReaderValid(d.reader) && p < |T| && ReadStream(d.reader) == T[p..]
    ensures AddNextInputBitOf(d.reader, d.D, BBits).Done?
    ensures var n := DecodeRound(d, AddNextInputBitOf(d.reader, d.D, BBits).value);
      n.D == 2 * d.D + Bit(T[p]) && n.R == 2 * d.R && n.r == d.r &&
      ReaderValid(n.reader) && ReadStream(n.reader) == T[p + 1..] &&
      DecodeRenormaliseOf(d) == DecodeRenormaliseOf(n)
  {
    ReadStreamBit(d.reader, d.D);
    assert T[p..][1..] == T[p + 1..];
  }

  /** arithmeticDecode's narrowing, with the products exact: D drops by low * r and R becomes the encoder's narrowed R. */
  lemma DecodeNarrowIs(d: Decoder, s: Interval)
    requires CodedOk(s) && Quarter < d.R <= Half && d.r == d.R / s.total
    ensures DecodeNarrowOf(d, s.low, s.high, s.total) ==
      d.(D := d.D - s.low * d.r, R := EncodeInterval(0, d.R, s.low, s.high, s.total).1)
    ensures 1 <= EncodeInterval(0, d.R, s.low, s.high, s.total).1 <= d.R
  {
    EncodeIntervalInside(0, d.R, s.low, s.high, s.total);
    MaskProductExact(d.r, s.low);
    MaskProductExact(d.r, s.high);
    Distribute2(s.low, s.high, d.r);
  }

  /** Renormalising a range no wider than Half leaves it no wider than Half. */
  lemma {:induction false} RenormBelowHalf(R: int)
    requires 1 <= R <= Half
    ensures R * Pow2(RenormRounds(R)) <= Half
    decreases Quarter - R
  {
    if R <= Quarter {
      RenormBelowHalf(2 * R);
      var p := Pow2(RenormRounds(2 * R));
      assert Pow2(RenormRounds(R)) == 2 * p;
      Twice(R, p);
      DoubleLeft(R, p);
    }
  }

  /** After arithmeticDecode the decoder is renormalised again: Quarter < R <= Half. */
  lemma ArithmeticDecodeRange(d: Decoder, s: Interval)
    requires CodedOk(s) && Quarter < d.R <= Half && d.r == d.R / s.total
    ensures ArithmeticDecodeOf(d, s.low, s.high, s.total).Done? ==>
      Quarter < ArithmeticDecodeOf(d, s.low, s.high, s.total).value.R <= Half
  {
    DecodeNarrowIs(d, s);
    RenormBelowHalf(EncodeInterval(0, d.R, s.low, s.high, s.total).1);
  }

  /**
   * arithmeticDecodeTarget and then arithmeticDecode for each symbol in
   * turn, with the symbol's interval; the targets found, and the decoder
   * after them.  The first FATAL ends the message.
   */
  function DecodeAllOf(d: Decoder, msg: seq<Interval>): (o: Outcome<(Decoder, seq<int>)>)
    requires Quarter < d.R <= Half && MessageOk(msg)
    ensures o.Done? ==> |o.value.1| == |msg| && Quarter < o.value.0.R <= Half
    decreases |msg|
  {
    if msg == [] then Done((d, []))
    else
      var s := msg[0];
      var (dt, target) := DecodeTargetOf(d, s.total);
      RatioIsQuotient(d.R, s.total);
      ArithmeticDecodeRange(dt, s);
      match ArithmeticDecodeOf(dt, s.low, s.high, s.total)
      case Fatal(err) => Fatal(err)
      case Done(d1) =>
        match DecodeAllOf(d1, msg[1..])
        case Fatal(err) => Fatal(err)
        case Done(rest) => Done((rest.0, [target] + rest.1))
  }

  /** A first message read back: startInputtingBits, then startDecode, then the symbols. */
  function DecodeMessageOf(d: Decoder, msg: seq<Interval>): Outcome<(Decoder, seq<int>)>
    requires MessageOk(msg)
  {
    var d0 := d.(reader := StartInputtingBitsOf(d.reader));
    StartDecodeNeverCorrupt(d0);
    match StartDecodeOf(d0)
    case Fatal(err) => Fatal(err)
    case Done(d1) => DecodeAllOf(d1, msg)
  }

  /**
   * One symbol: with the code value inside the interval the encoder
   * narrowed to, the decoder's target lies in [low, high), and after
   * arithmeticDecode it mirrors the encoder after arithmeticEncode.
   */
  lemma SymbolMirrored(e: Encoder, d: Decoder, s: Interval, T: seq<bool>)
    requires EncoderValid(e) && FreshWhileFlagged(e) && CodedOk(s) && Mirrors(e, d, T)
    requires ArithmeticEncodeOf(e, s.low, s.high, s.total).Done?
    requires Tracks(ArithmeticEncodeOf(e, s.low, s.high, s.total).value, T)
    requires 0 <= Offset(ArithmeticEncodeOf(e, s.low, s.high, s.total).value, T) < ArithmeticEncodeOf(e, s.low, s.high, s.total).value.R
    ensures var (dt, target) := DecodeTargetOf(d, s.total);
      s.low <= target < s.high && dt.R == d.R && dt.r == d.R / s.total &&
      ArithmeticDecodeOf(dt, s.low, s.high, s.total).Done? &&
      Mirrors(ArithmeticEncodeOf(e, s.low, s.high, s.total).value, ArithmeticDecodeOf(dt, s.low, s.high, s.total).value, T)
  {
    var n := Narrow(e, s);
    NarrowInside(e, s, T);
    assert Narrow(e, s).R == EncodeInterval(0, d.R, s.low, s.high, s.total).1;
    TargetFound(d, s, Offset(n, T));
    var dt := d.(r := e.R / s.total);
    NarrowMirrored(e, dt, s, T);
    RenormaliseMirrored(n, DecodeNarrowOf(dt, s.low, s.high, s.total), T);
  }

  /** The code value inside the encoder after a symbol lies inside the narrowed interval. */
  lemma NarrowInside(e: Encoder, s: Interval, T: seq<bool>)
    requires EncoderValid(e) && FreshWhileFlagged(e) && CodedOk(s)
    requires ArithmeticEncodeOf(e, s.low, s.high, s.total).Done?
    requires Tracks(ArithmeticEncodeOf(e, s.low, s.high, s.total).value, T)
    requires 0 <= Offset(ArithmeticEncodeOf(e, s.low, s.high, s.total).value, T) < ArithmeticEncodeOf(e, s.low, s.high, s.total).value.R
    ensures CoderShape(Narrow(e, s)) && FreshWhileFlagged(Narrow(e, s))
    ensures EncodeRenormaliseOf(Narrow(e, s)) == ArithmeticEncodeOf(e, s.low, s.high, s.total).value
    ensures Tracks(e, T) && Tracks(Narrow(e, s), T) && 0 <= Offset(Narrow(e, s), T) < Narrow(e, s).R
    ensures Offset(Narrow(e, s), T) == Offset(e, T) - s.low * (e.R / s.total)
  {
    ArithmeticEncodeIs(e, s);
    RenormaliseOffset(Narrow(e, s), T);
    NarrowOffset(e, s, T);
  }

  /** arithmeticDecodeTarget finds a target inside the symbol's interval when D - low * r lies in the narrowed range. */
  lemma TargetFound(d: Decoder, s: Interval, off: int)
    requires CodedOk(s) && Quarter < d.R <= Half
    requires off == d.D - s.low * (d.R / s.total) && 0 <= off < EncodeInterval(0, d.R, s.low, s.high, s.total).1
    ensures var (dt, target) := DecodeTargetOf(d, s.total);
      s.low <= target < s.high && dt == d.(r := d.R / s.total)
  {
    RatioIsQuotient(d.R, s.total);
    DecodeFindsEncoded(0, d.R, d.D, s.low, s.high, s.total);
  }

  /** arithmeticDecode's narrowing mirrors arithmeticEncode's. */
  lemma NarrowMirrored(e: Encoder, dt: Decoder, s: Interval, T: seq<bool>)
    requires EncoderValid(e) && CodedOk(s) && Mirrors(e, dt, T) && dt.r == e.R / s.total
    requires Tracks(Narrow(e, s), T) && Offset(Narrow(e, s), T) == Offset(e, T) - s.low * (e.R / s.total)
    ensures Mirrors(Narrow(e, s), DecodeNarrowOf(dt, s.low, s.high, s.total), T)
  {
    DecodeNarrowIs(dt, s);
  }

  /** Through the whole message the decoder mirrors the encoder, and every target lies in its symbol's interval. */
  lemma {:induction false} DecodeAllMirrors(e: Encoder, d: Decoder, msg: seq<Interval>, T: seq<bool>)
    requires Encodes(e, msg, T) && Mirrors(e, d, T)
    ensures DecodeAllOf(d, msg).Done? && Within(msg, DecodeAllOf(d, msg).value.1)
    decreases |msg|
  {
    if msg != [] {
      var s := msg[0];
      var e1 := EncodesRest(e, msg, T);
      CodeValueInside(e1, msg[1..], T);
      SymbolMirrored(e, d, s, T);
      var (dt, target) := DecodeTargetOf(d, s.total);
      var d1 := ArithmeticDecodeOf(dt, s.low, s.high, s.total).value;
      DecodeAllMirrors(e1, d1, msg[1..], T);
      var rest := DecodeAllOf(d1, msg[1..]).value.1;
      assert DecodeAllOf(d, msg).value.1 == [target] + rest;
      WithinCons(msg, target, rest);
    }
  }

  /** Each target lies in the interval of its symbol. */
  predicate Within(msg: seq<Interval>, targets: seq<int>)
  {
    |targets| == |msg| && forall i :: 0 <= i < |msg| ==> msg[i].low <= targets[i] < msg[i].high
  }

  lemma WithinCons(msg: seq<Interval>, t: int, rest: seq<int>)
    requires msg != [] && msg[0].low <= t < msg[0].high && Within(msg[1..], rest)
    ensures Within(msg, [t] + rest)
  {
    forall i | 0 < i < |msg|
      ensures msg[i].low <= ([t] + rest)[i] < msg[i].high
    {
      assert msg[i] == msg[1..][i - 1];
    }
  }

  /**
   * startDecode on a first message reads 31 bits: with the leading 0 the
   * encoder dropped, they are the first window of the stream, so the
   * decoder starts mirroring startEncode's encoder.
   */
  lemma StartMirrored(e: Encoder, d: Decoder, T: seq<bool>)
    requires SinkValid(e) && Emitted(e) == [] && d.firstMessage && ReaderValid(d.reader)
    requires |T| >= 32 && !T[0] && ReadStream(d.reader) == T[1..]
    ensures StartDecodeOf(d).Done? && Mirrors(StartEncodeOf(e), StartDecodeOf(d).value, T)
  {
    StartWindowRead(e, d, T);
    StartFirstIs(d);
  }

  /** The 31 bits startDecode reads spell the first window: the decoder it fills mirrors startEncode's encoder. */
  lemma StartWindowRead(e: Encoder, d: Decoder, T: seq<bool>)
    requires SinkValid(e) && Emitted(e) == [] && ReaderValid(d.reader)
    requires |T| >= 32 && !T[0] && ReadStream(d.reader) == T[1..]
    ensures ReadBitsOf(d.reader, 0, BBits - 1, BBits).Done?
    ensures var x := ReadBitsOf(d.reader, 0, BBits - 1, BBits).value;
      x.1 < Half && Mirrors(StartEncodeOf(e), d.(D := x.1, R := Half, reader := x.0, firstMessage := false, V := x.1), T)
  {
    ReadFirstWord(d.reader, T);
    var x := ReadBitsOf(d.reader, 0, BBits - 1, BBits).value;
    StartWindowMirrors(e, d.(D := x.1, R := Half, reader := x.0, firstMessage := false, V := x.1), T);
  }

  /** A decoder whose D is the first window, with the reader past it, mirrors startEncode's encoder. */
  lemma StartWindowMirrors(e: Encoder, d: Decoder, T: seq<bool>)
    requires SinkValid(e) && Emitted(e) == [] && |T| >= 32
    requires d.R == Half && d.D == Num(T[0..32]) && ReaderValid(d.reader) && ReadStream(d.reader) == T[32..]
    ensures Mirrors(StartEncodeOf(e), d, T)
  {
    StartTracks(e, T);
  }

  /** startDecode for a first message, once the 31 bits are read. */
  lemma StartFirstIs(d: Decoder)
    requires d.firstMessage && ReadBitsOf(d.reader, 0, BBits - 1, BBits).Done?
    requires ReadBitsOf(d.reader, 0, BBits - 1, BBits).value.1 < Half
    ensures var x := ReadBitsOf(d.reader, 0, BBits - 1, BBits).value;
      StartDecodeOf(d) == Done(d.(D := x.1, R := Half, reader := x.0, firstMessage := false, V := x.1))
  {
  }

  /**
   * The round trip of a first message: the bytes the encoder writes for a
   * run of symbols, read back from an input device holding just them,
   * decode without error, and each arithmeticDecodeTarget returns a target
   * inside the interval that was encoded for its symbol.
   */
  lemma MessageRoundTrip(e: Encoder, d: Decoder, msg: seq<Interval>)
    requires e.bytes == [] && e.numberOfBytes == 0 && MessageOk(msg)
    requires EncodeMessageOf(e, msg).Done?
    requires d.firstMessage && d.reader.pos == 0 && IsByte(d.reader.inBuffer)
    requires d.reader.input == EncodeMessageOf(e, msg).value
    ensures DecodeMessageOf(d, msg).Done?
    ensures Within(msg, DecodeMessageOf(d, msg).value.1)
  {
    var e0 := StartEncodeOf(StartOutputtingBitsOf(e));
    StartEncodeValid(StartOutputtingBitsOf(e));
    var en := EncodeAllOf(e0, msg).value;
    var T := StreamOf(en);
    var bytes := DoneOutputtingBitsOf(FinishEncodeOf(en)).bytes;
    var d0 := d.(reader := StartInputtingBitsOf(d.reader));
    FreshReader(d.reader);
    DropFirst(false, BytesBits(bytes), Repeat(false, 32));
    StartMirrored(StartOutputtingBitsOf(e), d0, T);
    DecodeAllMirrors(e0, StartDecodeOf(d0).value, msg, T);
  }

  lemma DropFirst<X>(x: X, b: seq<X>, c: seq<X>)
    ensures ([x] + b + c)[1..] == b + c && ([x] + b + c)[0] == x
  {
  }
}
