/**
 * ArithCodec as an object: the coder's registers, its bit buffers and its
 * two devices are fields that the methods update in place. Each method is
 * proved to carry out the state function of ArithCoding with the same
 * name, so everything proved there about the functions holds of the
 * object. A FATAL error is returned as `Some(error)` instead of thrown.
 */
module ArithCodecObject {
  import opened Wrappers
  import opened ArithCoding

  /** What a call that may stop with a fatal error leaves: the new state, or the error. */
  function Finished<T>(v: T, err: Option<CoderError>): Outcome<T>
  {
    if err.Some? then Fatal(err.value) else Done(v)
  }

  /** `A = a; q = 0; if (A >= M) ...;` followed by `n` unrolled rounds of shift and subtract. */
  method ShiftDivide(a: int, m: int, n: nat) returns (q: int)
    ensures q == ShiftQuotient(a, m, n)
  {
    var A := a;
    q := 0;
    if A >= m {
      A := A - m;
      q := q + 1;
    }
    var i := 0;
    while i < n
      invariant 0 <= i <= n
      invariant ShiftSteps(A, q, m, n - i) == ShiftSteps(DivStep(a, m, 0).0, DivStep(a, m, 0).1, m, n)
    {
      A := 2 * A;
      q := 2 * q;
      if A >= m {
        A := A - m;
        q := q + 1;
      }
      i := i + 1;
    }
  }

  /**
   * arithmeticEncode's products: r = R / total computed by shifts and adds
   * with M = total << 4, carrying temp = r * low and temp2 = r * high along
   * instead of r.
   */
  method ShiftAddProducts(R: int, low: int, high: int, total: int) returns (temp: int, temp2: int)
    requires TotalInRange(total) && 0 <= R <= Half
    ensures temp == low * (R / total) && temp2 == high * (R / total)
  {
    temp, temp2 := ShiftAddRounds(R, total * Pow2(BBits - FBits - 1), BBits - FBits - 1, low, high);
    RatioIsQuotient(R, total);
  }

  /**
   * The shift/add rounds of arithmeticEncode: the quotient of a by m is
   * formed bit by bit as in ShiftDivide, but only its multiples by low and
   * high are kept.
   */
  method ShiftAddRounds(a: int, m: int, n: nat, low: int, high: int) returns (temp: int, temp2: int)
    ensures temp == low * ShiftQuotient(a, m, n) && temp2 == high * ShiftQuotient(a, m, n)
  {
    var A := a;
    ghost var q := 0;
    temp, temp2 := 0, 0;
    if A >= m {
      A := A - m;
      temp, temp2, q := temp + low, temp2 + high, q + 1;
    }
    var i := 0;
    while i < n
      invariant 0 <= i <= n
      invariant ShiftSteps(A, q, m, n - i) == ShiftSteps(DivStep(a, m, 0).0, DivStep(a, m, 0).1, m, n)
      invariant temp == low * q && temp2 == high * q
    {
      Doubled(low, q);
      Doubled(high, q);
      A, temp, temp2, q := 2 * A, 2 * temp, 2 * temp2, 2 * q;
      if A >= m {
        Incremented(low, q);
        Incremented(high, q);
        A := A - m;
        temp, temp2, q := temp + low, temp2 + high, q + 1;
      }
      i := i + 1;
    }
  }

  lemma Doubled(x: int, q: int)
    ensures 2 * (x * q) == x * (2 * q)
  {
  }

  lemma Incremented(x: int, q: int)
    ensures x * q + x == x * (q + 1)
  {
  }

  /** arithmeticDecode's products: test the bit of M = r << 27 at Half, then four more after each shift. */
  method MaskProducts(r: int, low: int, high: int) returns (temp: int, temp2: int)
    ensures temp == MaskProduct(r * Pow2(FBits), low, 4) && temp2 == MaskProduct(r * Pow2(FBits), high, 4)
    ensures 0 <= r < 32 ==> temp == low * r && temp2 == high * r
  {
    var m := r * Pow2(FBits);
    var M := m;
    temp, temp2 := 0, 0;
    if (M / Half) % 2 == 1 {
      temp, temp2 := temp + low, temp2 + high;
    }
    var i := 0;
    while i < BBits - FBits - 1
      invariant 0 <= i <= BBits - FBits - 1
      invariant M == m * Pow2(i)
      invariant temp == MaskProduct(m, low, i) && temp2 == MaskProduct(m, high, i)
    {
      M, temp, temp2 := 2 * M, 2 * temp, 2 * temp2;
      if (M / Half) % 2 == 1 {
        temp, temp2 := temp + low, temp2 + high;
      }
      i := i + 1;
    }
    if 0 <= r < 32 {
      MaskProductExact(r, low);
      MaskProductExact(r, high);
    }
  }

  /**
   * finishEncode's and finishDecode's search: the first nbits from 1 up
   * whose rounding of L lies in [L, L + R), or 33 when none does, and L
   * rounded up to that many bits.
   */
  method CountFinishBits(L: int, R: int) returns (nbits: nat, bits: int)
    ensures nbits == FinishBitCountFrom(L, R, 1)
    ensures 1 <= nbits <= 33 && (nbits <= 32 ==> Fits(L, R, nbits) && bits == FinishBits(L, nbits))
    ensures forall k :: 1 <= k < nbits ==> !Fits(L, R, k)
  {
    nbits := 1;
    bits := 0;
    while nbits <= BBits
      invariant 1 <= nbits <= 33
      invariant FinishBitCountFrom(L, R, nbits) == FinishBitCountFrom(L, R, 1)
      decreases 33 - nbits
    {
      if Fits(L, R, nbits) {
        bits := FinishBits(L, nbits);
        return;
      }
      nbits := nbits + 1;
    }
  }

  class ArithCodec {
    // The encoder: the interval [outL, outL + outR), the follow bits, the FRUGAL_BITS flag.
    var outL: int
    var outR: int
    var outBitsOutstanding: int
    var ignoreFirstBit: bool
    // Bit output: the byte being filled, the bits it still takes, and the output device.
    var outBuffer: int
    var outBitsToGo: int
    var numberOfBytes: int
    var output: seq<int>
    // The decoder: D = V - L, R, the ratio R / total, the bit window V, the first-message flag.
    var inD: int
    var inR: int
    var inr: int
    var inV: int
    var firstMessage: bool
    // Bit input: the byte being read, its bit pointer, the reads past the end, and the input device.
    var inBuffer: int
    var inBitPtr: int
    var inGarbage: int
    var input: seq<Byte>
    var inPos: nat

    ghost function EncoderState(): Encoder
      reads this`outL, this`outR, this`outBitsOutstanding, this`ignoreFirstBit
      reads this`outBuffer, this`outBitsToGo, this`numberOfBytes, this`output
    {
      Encoder(outL, outR, outBitsOutstanding, ignoreFirstBit, outBuffer, outBitsToGo, numberOfBytes, output)
    }

    ghost function ReaderState(): Reader
      reads this`inBuffer, this`inBitPtr, this`inGarbage, this`input, this`inPos
    {
      Reader(inBuffer, inBitPtr, inGarbage, input, inPos)
    }

    ghost function DecoderState(): Decoder
      reads this`inD, this`inR, this`inr, this`inV, this`firstMessage
      reads this`inBuffer, this`inBitPtr, this`inGarbage, this`input, this`inPos
    {
      Decoder(inD, inR, inr, inV, firstMessage, ReaderState())
    }

    /**
     * The constructor: both flags set, nothing written, the buffers empty
     * and bit output not yet started; `source` is what the input device
     * will deliver.
     */
    constructor (source: seq<Byte>)
      ensures ignoreFirstBit && firstMessage
      ensures numberOfBytes == 0 && output == [] && outBuffer == 0 && outBitsToGo == 0
      ensures inBuffer == 0 && inBitPtr == 0 && inGarbage == 0 && input == source && inPos == 0
    {
      ignoreFirstBit, firstMessage := true, true;
      numberOfBytes, output := 0, [];
      inBuffer, inBitPtr, inGarbage := 0, 0, 0;
      outBuffer, outBitsToGo := 0, 0;
      input, inPos := source, 0;
      outL, outR, outBitsOutstanding := 0, 0, 0;
      inD, inR, inr, inV := 0, 0, 0, 0;
    }

    method StartOutputtingBits()
      modifies this`outBuffer, this`outBitsToGo
      ensures EncoderState() == StartOutputtingBitsOf(old(EncoderState()))
    {
      outBuffer := 0;
      outBitsToGo := ByteSize;
    }

    method StartInputtingBits()
      modifies this`inGarbage, this`inBitPtr
      ensures ReaderState() == StartInputtingBitsOf(old(ReaderState()))
    {
      inGarbage := 0;
      inBitPtr := 0;
    }

    /** The output device's putChar. */
    method PutChar(c: int)
      modifies this`output, this`numberOfBytes
      ensures EncoderState() == PutCharOf(old(EncoderState()), c)
    {
      output := output + [c % 256];
      numberOfBytes := numberOfBytes + 1;
    }

    method DoneOutputtingBits()
      modifies this`outBitsToGo, this`output, this`numberOfBytes
      ensures EncoderState() == DoneOutputtingBitsOf(old(EncoderState()))
    {
      if outBitsToGo != ByteSize {
        PutChar(outBuffer * Pow2(if outBitsToGo >= 0 then outBitsToGo else 0));
      }
      outBitsToGo := ByteSize;
    }

    method DoneInputtingBits()
      modifies this`inBitPtr
      ensures ReaderState() == DoneInputtingBitsOf(old(ReaderState()))
    {
      inBitPtr := 0;
    }

    /** OUTPUT_BIT */
    method OutputBit(b: bool)
      modifies this`outBuffer, this`outBitsToGo, this`output, this`numberOfBytes
      ensures EncoderState() == OutputBitOf(old(EncoderState()), b)
    {
      outBuffer := 2 * outBuffer + Bit(b);
      outBitsToGo := outBitsToGo - 1;
      if outBitsToGo == 0 {
        PutChar(outBuffer);
        outBitsToGo := ByteSize;
        outBuffer := 0;
      }
    }

    /** BIT_PLUS_FOLLOW (FRUGAL_BITS): skip the first bit, else the bit and its follow bits. */
    method BitPlusFollow(b: bool)
      modifies this`ignoreFirstBit, this`outBitsOutstanding
      modifies this`outBuffer, this`outBitsToGo, this`output, this`numberOfBytes
      ensures EncoderState() == BitPlusFollowOf(old(EncoderState()), b)
    {
      if ignoreFirstBit {
        ignoreFirstBit := false;
      } else {
        OutputBit(b);
        while outBitsOutstanding > 0
          invariant Follow(EncoderState(), !b) == Follow(OutputBitOf(old(EncoderState()), b), !b)
          decreases outBitsOutstanding
        {
          OutputBit(!b);
          outBitsOutstanding := outBitsOutstanding - 1;
        }
      }
    }

    /** ENCODE_RENORMALISE */
    method EncodeRenormalise()
      requires outR >= 1
      modifies this`outL, this`outR, this`ignoreFirstBit, this`outBitsOutstanding
      modifies this`outBuffer, this`outBitsToGo, this`output, this`numberOfBytes
      ensures EncoderState() == EncodeRenormaliseOf(old(EncoderState()))
    {
      while outR <= Quarter
        invariant outR >= 1
        invariant EncodeRenormaliseOf(EncoderState()) == EncodeRenormaliseOf(old(EncoderState()))
        decreases Quarter - outR
      {
        if outL >= Half {
          BitPlusFollow(true);
          outL := outL - Half;
        } else if outL + outR <= Half {
          BitPlusFollow(false);
        } else {
          outBitsOutstanding := outBitsOutstanding + 1;
          outL := outL - Quarter;
        }
        outL := 2 * outL;
        outR := 2 * outR;
      }
    }

    /** arithmeticEncode, with the shift/add arithmetic. */
    method ArithmeticEncode(low: int, high: int, total: int) returns (err: Option<CoderError>)
      requires EncoderValid(EncoderState()) && 0 <= low < high <= total && TotalInRange(total)
      modifies this`outL, this`outR, this`ignoreFirstBit, this`outBitsOutstanding
      modifies this`outBuffer, this`outBitsToGo, this`output, this`numberOfBytes
      ensures ArithmeticEncodeOf(old(EncoderState()), low, high, total) == Finished(EncoderState(), err)
    {
      EncodeIntervalInside(outL, outR, low, high, total);
      var temp, temp2 := ShiftAddProducts(outR, low, high, total);
      outL := outL + temp;
      if high < total {
        outR := temp2 - temp;
      } else {
        outR := outR - temp;
      }
      EncodeRenormalise();
      if outBitsOutstanding > MaxBitsOutstanding {
        return Some(BitsOutstandingLimit);
      }
      return None;
    }

    /** arithmeticDecodeTarget, with the shift/add arithmetic; keeps r for arithmeticDecode. */
    method ArithmeticDecodeTarget(total: int) returns (target: int)
      modifies this`inr
      ensures DecodeTargetOf(old(DecoderState()), total) == (DecoderState(), target)
    {
      inr := ShiftDivide(inR, total * Pow2(BBits - FBits - 1), BBits - FBits - 1);
      var t;
      if inr < Pow2(BBits - FBits - 1) {
        t := ShiftDivide(inD, inr * Pow2(FBits), FBits);
      } else {
        t := ShiftDivide(inD, inr * Pow2(FBits - 1), FBits - 1);
      }
      target := if t >= total then total - 1 else t;
    }

    /** The input device's getChar: the next byte, or 0 and end of file. */
    method GetChar() returns (eof: bool)
      modifies this`inBuffer, this`inPos
      ensures GetCharOf(old(ReaderState())) == (ReaderState(), eof)
    {
      if inPos < |input| {
        inBuffer := input[inPos];
        inPos := inPos + 1;
        eof := false;
      } else {
        inBuffer := 0;
        eof := true;
      }
    }

    /** ADD_NEXT_INPUT_BIT(v, garbageBits); returns the new v. */
    method AddNextInputBit(v: int, garbageBits: int) returns (w: int, err: Option<CoderError>)
      modifies this`inBuffer, this`inBitPtr, this`inGarbage, this`inPos
      ensures AddNextInputBitOf(old(ReaderState()), v, garbageBits) == Finished((ReaderState(), w), err)
    {
      w := v;
      if inBitPtr == 0 {
        var eof := GetChar();
        if eof {
          inGarbage := inGarbage + 1;
          if (inGarbage - 1) * 8 >= garbageBits {
            return w, Some(ReadPastEndOfFile);
          }
        }
        inBitPtr := 128;
      }
      w := 2 * w;
      if (inBuffer / inBitPtr) % 2 == 1 {
        w := w + 1;
      }
      inBitPtr := inBitPtr / 2;
      err := None;
    }

    /** UNGET_BIT(b) */
    method UngetBit(b: bool)
      modifies this`inBuffer, this`inBitPtr
      ensures ReaderState() == UngetBitOf(old(ReaderState()), b)
    {
      inBitPtr := (2 * inBitPtr) % 256;
      if inBitPtr == 0 {
        inBitPtr := 1;
      }
      inBuffer := inBuffer % inBitPtr;
      if b {
        inBuffer := inBuffer + inBitPtr;
      }
    }

    /** DECODE_RENORMALISE (FRUGAL_BITS) */
    method DecodeRenormalise() returns (err: Option<CoderError>)
      requires inR >= 1
      modifies this`inD, this`inR, this`inV, this`inBuffer, this`inBitPtr, this`inGarbage, this`inPos
      ensures DecodeRenormaliseOf(old(DecoderState())) == Finished(DecoderState(), err)
    {
      while inR <= Quarter
        invariant inR >= 1
        invariant DecodeRenormaliseOf(DecoderState()) == DecodeRenormaliseOf(old(DecoderState()))
        decreases Quarter - inR
      {
        inR := 2 * inR;
        inV := 2 * inV;
        var D, e := AddNextInputBit(inD, BBits);
        if e.Some? {
          return e;
        }
        inD := D;
        if D % 2 == 1 {
          inV := inV + 1;
        }
      }
      return None;
    }

    /** arithmeticDecode, with the shift/add arithmetic; needs the r of the last arithmeticDecodeTarget. */
    method ArithmeticDecode(low: int, high: int, total: int) returns (err: Option<CoderError>)
      requires 0 <= low < high <= total && TotalInRange(total)
      requires Quarter < inR <= Half && inr == inR / total
      modifies this`inD, this`inR, this`inV, this`inBuffer, this`inBitPtr, this`inGarbage, this`inPos
      ensures ArithmeticDecodeOf(old(DecoderState()), low, high, total) == Finished(DecoderState(), err)
    {
      ghost var narrowed := DecodeNarrowOf(DecoderState(), low, high, total);
      var temp, temp2 := MaskProducts(inr, low, high);
      inD := inD - temp;
      if high < total {
        inR := temp2 - temp;
      } else {
        inR := inR - temp;
      }
      assert DecoderState() == narrowed;
      err := DecodeRenormalise();
    }

    method StartEncode()
      modifies this`outL, this`outR, this`outBitsOutstanding, this`ignoreFirstBit
      ensures EncoderState() == StartEncodeOf(old(EncoderState()))
    {
      outL := 0;
      outR := Half;
      outBitsOutstanding := 0;
      ignoreFirstBit := true;
    }

    /** finishEncode (FRUGAL_BITS) */
    method FinishEncode()
      requires outR >= 1
      modifies this`ignoreFirstBit, this`outBitsOutstanding
      modifies this`outBuffer, this`outBitsToGo, this`output, this`numberOfBytes
      ensures EncoderState() == FinishEncodeOf(old(EncoderState()))
    {
      var nbits, bits := CountFinishBits(outL, outR);
      EmitBits(bits, nbits);
    }

    /** finishEncode's output loop: BIT_PLUS_FOLLOW of bits n - 1 down to 0 of `bits`. */
    method EmitBits(bits: int, n: nat)
      modifies this`ignoreFirstBit, this`outBitsOutstanding
      modifies this`outBuffer, this`outBitsToGo, this`output, this`numberOfBytes
      ensures EncoderState() == EmitBitsOf(old(EncoderState()), bits, n)
    {
      var k := n;  // n - i + 1 for the source's i
      while k > 0
        invariant EmitBitsOf(EncoderState(), bits, k) == EmitBitsOf(old(EncoderState()), bits, n)
      {
        BitPlusFollow((bits / Pow2(k - 1)) % 2 == 1);
        k := k - 1;
      }
    }

    /** retrieveExcessInputBits */
    method RetrieveExcessInputBits() returns (x: int)
      ensures x == RetrieveExcessInputBitsOf(DecoderState())
      ensures 0 <= x < 2 * Half
    {
      x := inV % (2 * Half);
    }

    /** startDecode (FRUGAL_BITS) */
    method StartDecode() returns (err: Option<CoderError>)
      modifies this`inD, this`inR, this`inV, this`firstMessage
      modifies this`inBuffer, this`inBitPtr, this`inGarbage, this`inPos
      ensures StartDecodeOf(old(DecoderState())) == Finished(DecoderState(), err)
    {
      inD := 0;
      inR := Half;
      if firstMessage {
        var D, e := ReadBits(0, BBits - 1);
        if e.Some? {
          return e;
        }
        inD := D;
      } else {
        inD := RetrieveExcessInputBits();
        UngetBit(inD % 2 == 1);
        inD := inD / 2;
      }
      firstMessage := false;
      inV := inD;
      if inD >= Half {
        return Some(CorruptInput);
      }
      return None;
    }

    /** finishDecode (FRUGAL_BITS) */
    method FinishDecode() returns (err: Option<CoderError>)
      modifies this`inV, this`inBuffer, this`inBitPtr, this`inGarbage, this`inPos
      ensures FinishDecodeOf(old(DecoderState())) == Finished(DecoderState(), err)
    {
      ghost var d := DecoderState();
      var inL := RecoveredLow(inV, inD);
      var nbits, _ := CountFinishBits(inL, inR);
      if nbits > BBits {
        return None;
      }
      var v, e := ReadBits(inV, nbits);
      if e.Some? {
        return e;
      }
      inV := v;
      return None;
    }

    /** `n` times ADD_NEXT_INPUT_BIT(v, B_BITS); returns the new v. */
    method ReadBits(v: int, n: nat) returns (w: int, err: Option<CoderError>)
      modifies this`inBuffer, this`inBitPtr, this`inGarbage, this`inPos
      ensures ReadBitsOf(old(ReaderState()), v, n, BBits) == Finished((ReaderState(), w), err)
    {
      w := v;
      var k := n;
      while k > 0
        invariant ReadBitsOf(ReaderState(), w, k, BBits) == ReadBitsOf(old(ReaderState()), v, n, BBits)
      {
        var e;
        w, e := AddNextInputBit(w, BBits);
        if e.Some? {
          return w, e;
        }
        k := k - 1;
      }
      err := None;
    }

    method NumberOfOutputBytes() returns (n: int)
      ensures n == numberOfBytes
      ensures SinkValid(EncoderState()) ==> n == |output|
    {
      n := numberOfBytes;
    }
  }
}
