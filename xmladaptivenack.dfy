/**
 * The NACK reports of XmlAdaptiveModel read back: the clue edge after NACK,
 * and the edge after DifferentEdge (the same symbol, 0), come back as the
 * numbers the encoder wrote when the first switch is skipped while the code
 * is read.  As written the first switch also runs in the NACK state, and a
 * code byte 0 (the first byte of every code of 55 or more) is taken for a
 * second NACK and dropped.
 */
module XmlAdaptiveNack {

  import opened Wrappers
  import Fibonacci
  import opened XmlModelBase
  import opened XmlAdaptiveEncoding
  import opened XmlAdaptiveDecoding

  /** The decoder once the code of the NACK state is read as n: the clue edge is n, or the edge is taken and the clue edge back to 1. */
  function NackRead(d: AdaptiveDecoder, n: nat): AdaptiveDecoder
  {
    if !d.inNACK then CodeRead(d.(inNACK := true, readingNackData := true, clueEdge := n))
    else CodeRead(d.(inNACK := false, readingNackData := false, clueEdge := 1))
  }

  /** Where the element models take over after that code. */
  function NackPoint(d: AdaptiveDecoder, n: nat): ModelPoint
  {
    if !d.inNACK then NackClue(n) else EdgeTaken(n)
  }

  /** What the register held does not matter once the code is read. */
  lemma NackReadFib(d: AdaptiveDecoder, r: FibRegister, n: nat)
    ensures NackRead(d.(fib := r), n) == NackRead(d, n) && NackPoint(d.(fib := r), n) == NackPoint(d, n)
  {
  }

  /** The byte that finishes a code of the NACK state. */
  lemma NackHands(d: AdaptiveDecoder, c: Byte, code: nat, n: nat)
    requires d.state == NackState && FibByte(d.fib, c) == Complete(code) && Fibonacci.DecodeFrom(code, 0, false) == Some(n)
    ensures NackStep(d, c) == Handed(NackRead(d, n), NackPoint(d, n))
  {
  }

  /** The byte that finishes the code hands the decoder over. */
  lemma NackLastByte(d: AdaptiveDecoder, c: Byte, code: nat, n: nat)
    requires d.state == NackState && FibByte(d.fib, c) == Complete(code) && Fibonacci.DecodeFrom(code, 0, false) == Some(n)
    ensures Feed(true, d, c) == Over(NackRead(d, n), NackPoint(d, n))
  {
    NackHands(d, c, code, n);
    assert ByteStep(true, d, c) == NackStep(d, c);
  }

  /** A byte before the end of the code goes to the register. */
  lemma NackPendingByte(d: AdaptiveDecoder, c: Byte)
    requires d.state == NackState && FibByte(d.fib, c).Pending?
    ensures Feed(true, d, c) == Received(d.(fib := FibByte(d.fib, c).register))
  {
    assert ByteStep(true, d, c) == NackStep(d, c);
  }

  /** The bytes of a code from byte k on, read by a register that has taken the bytes before it. */
  lemma {:induction false} NackRun(d: AdaptiveDecoder, code: seq<Byte>, bits: seq<bool>, stop: nat, k: nat, n: nat, rest: seq<Byte>)
    requires d.state == NackState && SlicedAs(bits, code) && stop / 8 + 1 == |code| && k < |code|
    requires ReadSoFar(d.fib, bits, 8 * k, stop)
    requires Fibonacci.DecodeFrom(Fibonacci.Val(bits[..stop + 1]), 0, false) == Some(n)
    ensures DeliverOf(true, d, code[k..] + rest) == Over(NackRead(d, n), NackPoint(d, n))
    decreases |code| - k
  {
    assert code[k..] + rest == [code[k]] + (code[k + 1..] + rest);
    assert bits[8 * k..8 * k + 8] == Fibonacci.ByteBits(code[k]);
    FibByteOnTrack(d.fib, bits, code[k], 8 * k, stop);
    if k == |code| - 1 {
      NackLastByte(d, code[k], Fibonacci.Val(bits[..stop + 1]), n);
      DeliverHanded(true, d, code[k], code[k + 1..] + rest, NackRead(d, n), NackPoint(d, n));
    } else {
      var d1 := d.(fib := FibByte(d.fib, code[k]).register);
      NackPendingByte(d, code[k]);
      DeliverByte(true, d, code[k], code[k + 1..] + rest, d1);
      NackRun(d1, code, bits, stop, k + 1, n, rest);
      NackReadFib(d, d1.fib, n);
    }
  }

  /** The corrected decoder in the NACK state reads the Fibonacci code of n as n. */
  lemma NackCode(d: AdaptiveDecoder, n: nat, rest: seq<Byte>)
    requires d.state == NackState && d.fib == FibIdle && 1 <= n < Fibonacci.FibLimit
    ensures DeliverOf(true, d, Code(n) + rest) == Over(NackRead(d, n), NackPoint(d, n))
  {
    var code := Code(n);
    StreamedId(n);
    var bits := Fibonacci.StreamBits(code);
    assert code[0..] == code;
    NackRun(d, code, bits, Fibonacci.FindStop(bits, 0, false).value, 0, n, rest);
  }

  /** The NACK (or DifferentEdge) symbol after the prolog enters the NACK state, and the code that follows is read as n. */
  lemma NackSymbols(d: AdaptiveDecoder, n: nat, rest: seq<Byte>)
    requires !d.inProlog && d.state == NoState && d.fib == FibIdle && 1 <= n < Fibonacci.FibLimit
    ensures DeliverOf(true, d, [NACK] + Code(n) + rest) == Over(NackRead(d.(state := NackState), n), NackPoint(d, n))
  {
    assert Intercept(d, NACK) == Consumed(d.(state := NackState));
    assert [NACK] + Code(n) + rest == [NACK] + (Code(n) + rest);
    DeliverByte(true, d, NACK, Code(n) + rest, d.(state := NackState));
    NackCode(d.(state := NackState), n, rest);
  }

  /**
   * REPORT_NACK read back: the decoder hands over at the encoder's clue edge,
   * with inNACK and readingNackData set, the registers cleared and the
   * buffer and state reset.
   */
  lemma ClueRead(d: AdaptiveDecoder, clue: nat, rest: seq<Byte>)
    requires !d.inProlog && d.state == NoState && d.fib == FibIdle && !d.inNACK && 1 <= clue < Fibonacci.FibLimit
    ensures DeliverOf(true, d, Nack(clue) + rest)
         == Over(Reset(d.(fib := FibIdle, inNACK := true, readingNackData := true, clueEdge := clue)), NackClue(clue))
  {
    NackSymbols(d, clue, rest);
  }

  /**
   * REPORT_DIFFERENT_EDGE read back after a clue edge: the decoder hands over
   * at the encoder's edge, with the NACK flags cleared and the clue edge 1.
   */
  lemma EdgeRead(d: AdaptiveDecoder, edge: nat, rest: seq<Byte>)
    requires !d.inProlog && d.state == NoState && d.fib == FibIdle && d.inNACK && 1 <= edge < Fibonacci.FibLimit
    ensures DeliverOf(true, d, EdgeReport(edge) + rest)
         == Over(Reset(d.(fib := FibIdle, inNACK := false, readingNackData := false, clueEdge := 1)), EdgeTaken(edge))
  {
    NackSymbols(d, edge, rest);
  }

  /**
   * An indefinite move's report, NACK and the clue edge then DifferentEdge
   * and the edge: the clue is handed over first, and the decoder handed
   * back reads the edge and leaves the NACK behind.
   */
  lemma IndefiniteRead(d: AdaptiveDecoder, clue: nat, edge: nat)
    requires !d.inProlog && d.state == NoState && d.fib == FibIdle && !d.inNACK
    requires 1 <= clue < Fibonacci.FibLimit && 1 <= edge < Fibonacci.FibLimit
    ensures var r := DeliverOf(true, d, Nack(clue));
            r == Over(r.d, NackClue(clue)) && r.d.clueEdge == clue && r.d.inNACK && r.d.readingNackData
            && DeliverOf(true, r.d, EdgeReport(edge))
               == Over(Reset(d.(fib := FibIdle, readingNackData := false, clueEdge := 1)), EdgeTaken(edge))
  {
    ClueRead(d, clue, []);
    assert Nack(clue) + [] == Nack(clue);
    var d1 := Reset(d.(fib := FibIdle, inNACK := true, readingNackData := true, clueEdge := clue));
    EdgeRead(d1, edge, []);
    assert EdgeReport(edge) + [] == EdgeReport(edge);
    assert Reset(d1.(fib := FibIdle, inNACK := false, readingNackData := false, clueEdge := 1))
        == Reset(d.(fib := FibIdle, readingNackData := false, clueEdge := 1));
  }

  // ---------------------------------------------------------------------
  // The first switch in the NACK state, as written
  // ---------------------------------------------------------------------

  /** Every entry of the table is positive. */
  lemma {:induction false} FibPositive(i: nat)
    ensures Fibonacci.FibPair(i).0 >= 1 && Fibonacci.FibPair(i).1 >= 1
  {
    if i > 0 {
      FibPositive(i - 1);
    }
  }

  /** Zero has only zero digits. */
  lemma {:induction false} ZeckOfZero(k: nat)
    ensures Fibonacci.Zeck(0, k) == Fibonacci.Zeros(k)
  {
    if k > 0 {
      FibPositive(k - 1);
      ZeckOfZero(k - 1);
      assert Fibonacci.Zeros(k - 1) + [false] == Fibonacci.Zeros(k);
    }
  }

  /** 55 is the ninth table entry: eight zero digits and a one. */
  lemma DigitsOf55(n: nat)
    requires n == 55
    ensures Fibonacci.Digits(n) == Fibonacci.Zeros(8) + [true]
  {
    assert Fibonacci.Fib(8) == 55 && Fibonacci.Fib(9) == 89;
    Fibonacci.ZeckLenAbove(n, 9, Fibonacci.FibCount);
    assert Fibonacci.ZeckLen(n, 9) == 9;
    ZeckOfZero(8);
  }

  /** Eight zero bits are the byte 0x00. */
  lemma ZeroByte()
    ensures Fibonacci.ByteOf(Fibonacci.Zeros(8)) == 0x00
  {
    var g0: seq<bool> := [];
    var g1 := g0 + [false];
    var g2 := g1 + [false];
    var g3 := g2 + [false];
    var g4 := g3 + [false];
    var g5 := g4 + [false];
    var g6 := g5 + [false];
    var g7 := g6 + [false];
    var g8 := g7 + [false];
    Fibonacci.MsbSnoc(g0, false);
    Fibonacci.MsbSnoc(g1, false);
    Fibonacci.MsbSnoc(g2, false);
    Fibonacci.MsbSnoc(g3, false);
    Fibonacci.MsbSnoc(g4, false);
    Fibonacci.MsbSnoc(g5, false);
    Fibonacci.MsbSnoc(g6, false);
    Fibonacci.MsbSnoc(g7, false);
    assert g8 == Fibonacci.Zeros(8);
  }

  /** Two one bits and six zero bits are the byte 0xC0. */
  lemma C0Byte()
    ensures Fibonacci.ByteOf([true, true, false, false, false, false, false, false]) == 0xC0
  {
    var g0: seq<bool> := [];
    var g1 := g0 + [true];
    var g2 := g1 + [true];
    var g3 := g2 + [false];
    var g4 := g3 + [false];
    var g5 := g4 + [false];
    var g6 := g5 + [false];
    var g7 := g6 + [false];
    var g8 := g7 + [false];
    Fibonacci.MsbSnoc(g0, true);
    Fibonacci.MsbSnoc(g1, true);
    Fibonacci.MsbSnoc(g2, false);
    Fibonacci.MsbSnoc(g3, false);
    Fibonacci.MsbSnoc(g4, false);
    Fibonacci.MsbSnoc(g5, false);
    Fibonacci.MsbSnoc(g6, false);
    Fibonacci.MsbSnoc(g7, false);
    assert g8 == [true, true, false, false, false, false, false, false];
  }

  /** The bytes 0x00 and 0xC0 hold eight zero bits, then two ones. */
  lemma PackOf55(bits: seq<bool>)
    requires bits == Fibonacci.Zeros(8) + [true, true]
    ensures Fibonacci.PackBits(bits) == [0x00, 0xC0]
  {
    assert bits[..8] == Fibonacci.Zeros(8) && bits[8..] == [true, true];
    assert [true, true] + Fibonacci.Zeros(6) == [true, true, false, false, false, false, false, false];
    ZeroByte();
    C0Byte();
  }

  /** The Fibonacci code of clue edge 55 is the bytes 0x00 0xC0: its first byte is the NACK symbol. */
  lemma CodeOf55(n: nat)
    requires n == 55
    ensures Code(n) == [0x00, 0xC0]
  {
    DigitsOf55(n);
    var s := Fibonacci.Zeros(8) + [true, true];
    assert Fibonacci.Digits(n) + [true] == s;
    Fibonacci.ValAppend(Fibonacci.Zeros(8), [true, true]);
    Fibonacci.ValOfZeros(8);
    Fibonacci.BitsOfVal(s);
    PackOf55(s);
    Fibonacci.CodeBufferWhole(Fibonacci.EncodedCode(n), 1);
  }

  /**
   * As written, a code byte 0 in the NACK state is taken by the first switch
   * for another NACK: the state does not change, so the byte is consumed and
   * never reaches the register.
   */
  lemma ZeroCodeByteDropped(d: AdaptiveDecoder)
    requires d.state == NackState && !d.inProlog
    ensures Feed(false, d, 0) == Received(d)
  {
    assert Intercept(d, 0) == Consumed(d);
  }

  /** The register reads the byte 0xC0 as the code 11, that is 3. */
  lemma FibOfC0()
    ensures FibByte(FibIdle, 0xC0) == Complete(3)
  {
    var g := [true, true, false, false, false, false, false, false];
    C0Byte();
    Fibonacci.ByteBitsOf(g);
    assert g[0..8] == Fibonacci.ByteBits(0xC0);
    Fibonacci.ValOfZeros(64);
    assert Fibonacci.Zeros(64) + g[..0] == Fibonacci.Zeros(64);
    assert Fibonacci.FindStop(g, 1, true) == Some(1);
    FibByteOnTrack(FibIdle, g, 0xC0, 0, 1);
    assert g[..2] == [true, true];
    assert Fibonacci.Val([true, true]) == 3;
  }

  /** The code 11 is the number 1. */
  lemma DecodeThree()
    ensures Fibonacci.DecodeFrom(3, 0, false) == Some(1)
  {
    assert Fibonacci.DecodeFrom(1, 1, true) == Some(0);
  }

  /** A byte above the symbols passes the first switch outside an attribute value. */
  lemma DataPassed(d: AdaptiveDecoder, c: Byte)
    requires c > EmptyString && !d.inAttrValue
    ensures Intercept(d, c) == Passed(d)
  {
  }

  /** A byte above the symbols whose bits finish the code 3 (0xC0 is one), read in the NACK state, finishes the clue edge 1. */
  lemma ReadOnes(d: AdaptiveDecoder, c: Byte)
    requires d.state == NackState && !d.inNACK && !d.inAttrValue && c > EmptyString && FibByte(d.fib, c) == Complete(3)
    ensures Feed(false, d, c) == Over(NackRead(d, 1), NackClue(1))
  {
    DecodeThree();
    NackHands(d, c, 3, 1);
    DataPassed(d, c);
    assert ByteStep(false, d, c) == NackStep(d, c) by {
      assert !ReadingCode(false, d);
    }
  }

  /** As written: NACK, a code byte 0, and a byte that alone finishes the code 3 hand over at clue edge 1. */
  lemma ZeroThenOnes(d: AdaptiveDecoder, code: seq<Byte>)
    requires !d.inProlog && d.state == NoState && d.fib == FibIdle && !d.inNACK && !d.inAttrValue
    requires |code| == 2 && code[0] == 0 && code[1] > EmptyString && FibByte(FibIdle, code[1]) == Complete(3)
    ensures DeliverOf(false, d, [NACK] + code)
         == Over(Reset(d.(fib := FibIdle, inNACK := true, readingNackData := true, clueEdge := 1)), NackClue(1))
  {
    var d1 := d.(state := NackState);
    assert Intercept(d, NACK) == Consumed(d1);
    DeliverByte(false, d, NACK, code, d1);
    ZeroCodeByteDropped(d1);
    assert code == [0] + code[1..];
    DeliverByte(false, d1, 0, code[1..], d1);
    ReadOnes(d1, code[1]);
    assert code[1..] == [code[1]] + [];
    DeliverHanded(false, d1, code[1], [], NackRead(d1, 1), NackClue(1));
  }

  /**
   * As written, clue edge 55 is read back as 1: NACK, then 0x00, which is
   * dropped, then 0xC0, read alone.  ClueRead is the corrected reading.
   */
  lemma ClueAsWrittenMisread(d: AdaptiveDecoder, clue: nat)
    requires !d.inProlog && d.state == NoState && d.fib == FibIdle && !d.inNACK && !d.inAttrValue && clue == 55
    ensures Nack(clue) == [NACK, 0x00, 0xC0]
    ensures DeliverOf(false, d, Nack(clue))
         == Over(Reset(d.(fib := FibIdle, inNACK := true, readingNackData := true, clueEdge := 1)), NackClue(1))
  {
    CodeOf55(clue);
    FibOfC0();
    ZeroThenOnes(d, Code(clue));
  }
}
