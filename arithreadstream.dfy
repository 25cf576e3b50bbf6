/**
 * The bit input against the stream it delivers: the unread bits of the
 * input device, then the zero bits ADD_NEXT_INPUT_BIT supplies past the
 * end while its garbage allowance lasts.
 */
module ArithReadStream {
  import opened ArithCoding
  import opened ArithStream

  // ---------------------------------------------------------------------
  // The reader's stream
  // ---------------------------------------------------------------------

  /**
   * The bits a reader still delivers: the unread ones, then a zero byte
   * for each read past the end that ADD_NEXT_INPUT_BIT allows with
   * garbageBits = B_BITS (inGarbage may reach 4).
   */
  function ReadStream(rd: Reader): seq<bool>
    requires rd.pos <= |rd.input|
  {
    Unread(rd) + Repeat(false, 8 * (if rd.inGarbage < 4 then 4 - rd.inGarbage else 0))
  }

  lemma {:induction false} BitsOfZero(k: nat)
    ensures BitsOf(0, k) == Repeat(false, k)
    decreases k
  {
    if k > 0 {
      BitsOfZero(k - 1);
    }
  }

  /** Past the end, ADD_NEXT_INPUT_BIT reads a zero byte the device supplies, while the allowance lasts. */
  lemma ReadsGarbage(rd: Reader, v: int)
    requires ReaderValid(rd) && Unread(rd) == [] && rd.inGarbage < 4
    ensures AddNextInputBitOf(rd, v, BBits).Done?
    ensures var (rd', v') := AddNextInputBitOf(rd, v, BBits).value;
      ReaderValid(rd') && v' == 2 * v + Bit(ReadStream(rd)[0]) && ReadStream(rd') == ReadStream(rd)[1..]
  {
    assert |Unread(rd)| == PtrWidth(rd.inBitPtr) + 8 * |rd.input[rd.pos..]|;
    assert rd.inBitPtr == 0 && rd.pos == |rd.input|;
    var rd' := rd.(inBuffer := 0, inGarbage := rd.inGarbage + 1, inBitPtr := 64);
    assert AddNextInputBitOf(rd, v, BBits) == Done((rd', 2 * v));
    PtrWidthOfPower(6);
    assert Pow2(6) == 64;
    BitsOfZero(7);
    assert rd'.input[rd'.pos..] == [];
    assert Unread(rd') == Repeat(false, 7);
    assert ReadStream(rd) == Repeat(false, 8 * (4 - rd.inGarbage));
  }

  /** ADD_NEXT_INPUT_BIT shifts the next bit of the stream into v and consumes it. */
  lemma ReadStreamBit(rd: Reader, v: int)
    requires ReaderValid(rd) && ReadStream(rd) != []
    ensures AddNextInputBitOf(rd, v, BBits).Done?
    ensures var (rd', v') := AddNextInputBitOf(rd, v, BBits).value;
      ReaderValid(rd') && v' == 2 * v + Bit(ReadStream(rd)[0]) && ReadStream(rd') == ReadStream(rd)[1..]
  {
    if Unread(rd) != [] {
      var Z := Repeat(false, 8 * (if rd.inGarbage < 4 then 4 - rd.inGarbage else 0));
      ReadsNextBit(rd, v, BBits);
      assert (Unread(rd) + Z)[1..] == Unread(rd)[1..] + Z;
    } else {
      ReadsGarbage(rd, v);
    }
  }

  /** Reading n bits appends the next n bits of the stream to v. */
  lemma {:induction false} ReadStreamBits(rd: Reader, v: int, n: nat)
    requires ReaderValid(rd) && n <= |ReadStream(rd)|
    ensures ReadsNext(ReadBitsOf(rd, v, n, BBits), v, n, ReadStream(rd))
    decreases n
  {
    var S := ReadStream(rd);
    if n == 0 {
      assert S[..0] == [] && S[0..] == S;
    } else {
      var x := ReadFirstOf(rd, v, n);
      ReadStreamBits(x.0, x.1, n - 1);
      ReadsNextStep(ReadBitsOf(x.0, x.1, n - 1, BBits), v, x.1, n, S);
    }
  }

  /** The outcome of reading n bits after v off a stream S: done, with the n bits appended and S past them left. */
  predicate ReadsNext(o: Outcome<(Reader, int)>, v: int, n: nat, S: seq<bool>)
  {
    o.Done? && n <= |S| && ReaderValid(o.value.0) &&
    o.value.1 == v * Pow2(n) + Num(S[..n]) && ReadStream(o.value.0) == S[n..]
  }

  /** Reading n - 1 bits after the first reads n. */
  lemma ReadsNextStep(o: Outcome<(Reader, int)>, v: int, v1: int, n: nat, S: seq<bool>)
    requires 1 <= n <= |S| && v1 == 2 * v + Bit(S[0]) && ReadsNext(o, v1, n - 1, S[1..])
    ensures ReadsNext(o, v, n, S)
  {
    ReadStepAlgebra(S, n, v, v1, o.value.1);
  }

  /** The first of n reads: one ADD_NEXT_INPUT_BIT, then n - 1 more from where it leaves the input. */
  lemma ReadFirstOf(rd: Reader, v: int, n: nat) returns (x: (Reader, int))
    requires ReaderValid(rd) && 1 <= n <= |ReadStream(rd)|
    ensures ReadBitsOf(rd, v, n, BBits) == ReadBitsOf(x.0, x.1, n - 1, BBits)
    ensures ReaderValid(x.0) && x.1 == 2 * v + Bit(ReadStream(rd)[0])
    ensures ReadStream(x.0) == ReadStream(rd)[1..] && n - 1 <= |ReadStream(x.0)|
  {
    ReadStreamBit(rd, v);
    x := AddNextInputBitOf(rd, v, BBits).value;
  }

  /** The value after n reads, from the value after the first and the n - 1 after it. */
  lemma ReadStepAlgebra(S: seq<bool>, n: nat, v: int, v1: int, v2: int)
    requires 1 <= n <= |S| && v1 == 2 * v + Bit(S[0])
    requires v2 == v1 * Pow2(n - 1) + Num(S[1..][..n - 1])
    ensures v2 == v * Pow2(n) + Num(S[..n]) && S[1..][n - 1..] == S[n..]
  {
    NumFirst(S, n);
    ReadAlgebra(v, S[0], Pow2(n - 1), Num(S[1..][..n - 1]));
  }

  /** The first n bits of a stream: its first bit, worth 2^(n-1), then n - 1 bits of the rest. */
  lemma NumFirst(S: seq<bool>, n: nat)
    requires 1 <= n <= |S|
    ensures Num(S[..n]) == (if S[0] then Pow2(n - 1) else 0) + Num(S[1..][..n - 1])
    ensures S[1..][n - 1..] == S[n..]
  {
    assert [S[0]] + S[1..][..n - 1] == S[..n];
    NumCons(S[0], S[1..][..n - 1]);
  }

  lemma ReadAlgebra(v: int, b: bool, p: int, m: int)
    ensures (2 * v + Bit(b)) * p + m == v * (2 * p) + ((if b then p else 0) + m)
  {
  }

  /** startInputtingBits on a device at its start: the stream is the input, then the 32 bits of the garbage allowance. */
  lemma FreshReader(rd: Reader)
    requires rd.pos == 0 && IsByte(rd.inBuffer)
    ensures ReaderValid(StartInputtingBitsOf(rd))
    ensures ReadStream(StartInputtingBitsOf(rd)) == BytesBits(rd.input) + Repeat(false, 32)
  {
    assert rd.input[0..] == rd.input;
  }

  lemma ReadFirstWord(rd: Reader, T: seq<bool>)
    requires ReaderValid(rd) && |T| >= 32 && !T[0] && ReadStream(rd) == T[1..]
    ensures ReadBitsOf(rd, 0, BBits - 1, BBits).Done?
    ensures var x := ReadBitsOf(rd, 0, BBits - 1, BBits).value;
      ReaderValid(x.0) && x.1 == Num(T[0..32]) < Half && ReadStream(x.0) == T[32..]
  {
    ReadStreamBits(rd, 0, BBits - 1);
    Slices(T, 1, 31);
    FirstWindow(T);
  }

  /** The first window of the stream starts with the dropped 0, so it spells the 31 bits after it. */
  lemma FirstWindow(T: seq<bool>)
    requires |T| >= 32 && !T[0]
    ensures Num(T[0..32]) == Num(T[1..32]) < Half
  {
    assert T[0..32] == [T[0]] + T[1..32];
    NumCons(T[0], T[1..32]);
    Pow2Facts();
  }

  lemma Slices<X>(s: seq<X>, i: nat, j: nat)
    requires i + j <= |s|
    ensures s[i..][..j] == s[i..i + j] && s[i..][j..] == s[i + j..]
  {
  }
}
